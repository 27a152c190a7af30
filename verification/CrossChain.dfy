/** Transactions between chains: the fees an accepted transaction pays along the paths of its
    transfers, and the matching of an arriving transaction against the pool of incoming outputs. */
module CrossChain {
  import opened Options
  import opened Sequences
  import opened ChainTree

  const CROSS_CHAIN_FLAG := 0x800000
  const OP_CONTRACT := 0x88
  const OP_PAYCROSSCHAIN := 0x66
  const SEPARATOR := 0xFC
  const ZENT_COIN_TYPE := 0x100_0000_0000
  const CHAIN_MASK := 0x100_0000

  datatype Value = Num(amount: int) | HashOf(hash: nat)

  datatype TxOut = TxOut(tokenType: nat, value: Value, rights: Option<nat>, script: seq<nat>) {
    predicate IsSeparator() { tokenType == SEPARATOR }

    predicate IsContractCall() { script != [] && script[0] == OP_CONTRACT }

    function Opcode(): nat { if |script| > 21 then script[21] else 0 }

    predicate IsCrossChain() { !IsContractCall() && Opcode() == OP_PAYCROSSCHAIN }

    /** The chain named in the script. */
    function Named(): nat { if |script| >= 25 then ChainOf(script) else 0 }

    /** An output that pays the miner of some chain. */
    predicate PaysMiner() { !IsSeparator() && !IsContractCall() && Opcode() == OP_PAYMINER }

    function Amount(): int { if value.Num? then value.amount else 0 }

    /** The bytes the checks read are there. */
    predicate Readable() { !IsSeparator() ==> script != [] && (!IsContractCall() ==> |script| >= 25) }

    /** Even token types carry amounts, odd ones hashes. */
    predicate Typed() { value.Num? <==> tokenType % 2 == 0 }
  }

  /** A node's own chain, the chain its transfers start from and its map of chains. */
  datatype Node = Node(chains: Chains, chainId: nat, mainChainId: nat) {
    ghost predicate Ready() { Tree(chains) && mainChainId in chains }
  }

  /** Where a transaction comes from: another chain when its one input carries the flag. */
  datatype Source = Source(src: nat, crossing: bool)

  function SourceOf(n: Node, ins: seq<nat>): Source {
    if |ins| == 1 && ins[0] / CROSS_CHAIN_FLAG % 2 == 1 then Source(ins[0] - CROSS_CHAIN_FLAG, true)
    else Source(n.chainId, false)
  }

  lemma SourceIs(n: Node, ins: seq<nat>)
    ensures |ins| == 1 && ins[0] / 0x800000 % 2 == 1 ==> SourceOf(n, ins) == Source(ins[0] - 0x800000, true)
    ensures |ins| != 1 || ins[0] / 0x800000 % 2 == 0 ==> SourceOf(n, ins) == Source(n.chainId, false)
  {
  }

  // ----- What is allowed -----

  /** An output that moves tokens, as opposed to paying a miner or staying put. */
  predicate Moves(s: Source, o: TxOut) {
    !o.IsSeparator() && !o.IsContractCall() && (o.IsCrossChain() || s.crossing) && o.Opcode() != OP_PAYMINER
  }

  function Origin(o: TxOut): nat { o.tokenType / ZENT_COIN_TYPE }

  function Dest(o: TxOut): nat { if o.IsCrossChain() then o.Named() else 0 }

  /** The chain an output ends up on, 0 standing for the node's own chain. */
  function Local(n: Node, c: nat): nat { if c == 0 then n.chainId else c }

  /** A token away from its birth place moves towards it: the destination lies on the way from the source
      chain to the birth place, and on the way there from this chain. */
  ghost predicate HomewardOk(n: Node, src: nat, origin: nat, dest: nat)
    requires n.Ready()
  {
    origin != n.chainId && dest != origin && src != origin ==>
      Passes(n.chains, dest, src, origin) && (src != n.chainId ==> Passes(n.chains, dest, n.chainId, origin))
  }

  ghost predicate TransferOk(n: Node, src: nat, o: TxOut)
    requires n.Ready()
  {
    var origin, dest := Origin(o), Dest(o);
    && dest != n.chainId
    && (origin != 0 ==> origin in n.chains)
    && (dest != 0 ==>
          && dest in n.chains && origin != 0
          && HomewardOk(n, src, origin, dest)
          && Passes(n.chains, n.mainChainId, src, dest)
          && (|o.script| == 26 || |o.script| == 29))
  }

  ghost predicate OutputOk(n: Node, s: Source, o: TxOut)
    requires n.Ready()
  {
    (!o.IsSeparator() && o.IsContractCall() ==> !s.crossing) && (Moves(s, o) ==> TransferOk(n, s.src, o))
  }

  method CheckTransfer(n: Node, src: nat, o: TxOut) returns (ok: bool)
    requires n.Ready()
    ensures ok <==> TransferOk(n, src, o)
  {
    hide Passes, Tree;
    var origin, dest := Origin(o), Dest(o);
    hide Origin, Dest;
    if dest == n.chainId {
      return false;
    }
    if origin != 0 && origin !in n.chains {
      return false;
    }
    if dest != 0 {
      if dest !in n.chains {
        return false;
      }
      if origin == 0 {
        return false;
      }
      if origin != n.chainId && dest != origin && src != origin {
        var pass := PassThru(n.chains, dest, src, origin);
        if !pass {
          return false;
        }
        if src != n.chainId {
          pass := PassThru(n.chains, dest, n.chainId, origin);
          if !pass {
            return false;
          }
        }
      }
      var pass := PassThru(n.chains, n.mainChainId, src, dest);
      if !pass {
        return false;
      }
      if |o.script| != 26 && |o.script| != 29 {
        return false;
      }
    }
    return true;
  }

  // ----- Fees -----

  /** The chains that take a fee for a transfer to dest: those on the path that are not legacy. */
  ghost function Tolls(n: Node, dest: nat): (tolls: seq<nat>)
    requires n.Ready()
  {
    if dest in n.chains then Payable(n.chains, Path(n.chains, n.mainChainId, dest)) else []
  }

  /** Whether a chain goes by number d in scripts, which hold its low 24 bits. */
  ghost function Goes(d: nat): nat -> int {
    (c: nat) => if c % CHAIN_MASK == d then 1 else 0
  }

  /** What one output owes to the chain numbered d. */
  ghost function Owes(n: Node, s: Source, d: nat): TxOut -> int
    requires n.Ready()
  {
    (o: TxOut) => if Moves(s, o) then FEE_PER_CHAIN * Sum(Tolls(n, Local(n, Dest(o))), Goes(d)) else 0
  }

  /** What one output pays to the miner of the chain numbered d. */
  ghost function Pays(n: Node, d: nat): TxOut -> int {
    (o: TxOut) => if o.PaysMiner() && Local(n, o.Named()) == d then o.Amount() else 0
  }

  ghost function Charged(n: Node, s: Source, outs: seq<TxOut>, d: nat): int
    requires n.Ready()
  {
    Sum(outs, Owes(n, s, d))
  }

  ghost function Paid(n: Node, outs: seq<TxOut>, d: nat): int {
    Sum(outs, Pays(n, d))
  }

  /** Fees are paid in ZENT, or in the native token of the root chain. */
  predicate FeeToken(n: Node, o: TxOut) {
    o.tokenType == ZENT_COIN_TYPE || (o.tokenType == 0 && Local(n, o.Named()) == ROOT)
  }

  /** A payment to a miner is in the right token and goes to a chain that is owed something. */
  ghost predicate PaymentOk(n: Node, s: Source, outs: seq<TxOut>, o: TxOut)
    requires n.Ready()
  {
    o.PaysMiner() ==> FeeToken(n, o) && Charged(n, s, outs, Local(n, o.Named())) > 0
  }

  /** An acceptable transaction: every chain is paid exactly what it is owed. */
  ghost predicate Accepts(n: Node, s: Source, outs: seq<TxOut>)
    requires n.Ready()
  {
    && (forall o :: o in outs ==> OutputOk(n, s, o))
    && (forall o :: o in outs ==> PaymentOk(n, s, outs, o))
    && (forall d: nat :: Charged(n, s, outs, d) == Paid(n, outs, d))
  }

  // ----- The ledger of fees still due -----

  type Ledger = map<nat, int>

  lemma {:induction false} GoesNonNegative(cs: seq<nat>, d: nat)
    ensures Sum(cs, Goes(d)) >= 0
  {
    if cs != [] {
      GoesNonNegative(cs[..|cs| - 1], d);
    }
  }

  lemma OwesNonNegative(n: Node, s: Source, o: TxOut, d: nat)
    requires n.Ready()
    ensures Owes(n, s, d)(o) >= 0
  {
    GoesNonNegative(Tolls(n, Local(n, Dest(o))), d);
  }

  lemma {:induction false} ChargedNonNegative(n: Node, s: Source, outs: seq<TxOut>, d: nat)
    requires n.Ready()
    ensures Charged(n, s, outs, d) >= 0
  {
    if outs != [] {
      ChargedNonNegative(n, s, outs[..|outs| - 1], d);
      OwesNonNegative(n, s, outs[|outs| - 1], d);
    }
  }

  /** A ledger that holds an amount function: a key for every positive amount and no other. */
  ghost predicate Holds(ledger: Ledger, f: nat -> int) {
    forall d: nat :: (d in ledger <==> f(d) > 0) && (d in ledger ==> ledger[d] == f(d))
  }

  lemma SumLast<T>(s: seq<T>, i: nat, f: T -> int)
    requires i < |s|
    ensures Sum(s[..i + 1], f) == Sum(s[..i], f) + f(s[i])
  {
    assert s[..i + 1][..i] == s[..i];
  }

  /** Adds the fees of one transfer to the ledger. */
  method AddTolls(ledger: Ledger, ghost f: nat -> int, ghost cs: seq<nat>, path: seq<seq<nat>>, fees: seq<int>)
    returns (ledger': Ledger)
    requires Holds(ledger, f) && forall d: nat :: f(d) >= 0
    requires |path| == |fees| == |cs|
    requires forall k :: 0 <= k < |cs| ==> path[k] == FeeScript(cs[k]) && fees[k] == FEE_PER_CHAIN
    ensures Holds(ledger', (d: nat) => f(d) + FEE_PER_CHAIN * Sum(cs, Goes(d)))
  {
    hide FeeScript, ChainOf;
    ledger' := ledger;
    for i := 0 to |path|
      invariant Holds(ledger', (d: nat) => f(d) + FEE_PER_CHAIN * Sum(cs[..i], Goes(d)))
    {
      var d := ChainOf(path[i]);
      FeeScriptRoundTrip(cs[i]);
      forall e: nat ensures Sum(cs[..i + 1], Goes(e)) == Sum(cs[..i], Goes(e)) + if e == d then 1 else 0 {
        SumLast(cs, i, Goes(e));
      }
      forall e: nat ensures Sum(cs[..i], Goes(e)) >= 0 {
        GoesNonNegative(cs[..i], e);
      }
      if d in ledger' {
        ledger' := ledger'[d := ledger'[d] + fees[i]];
      } else {
        ledger' := ledger'[d := fees[i]];
      }
    }
    assert cs[..|cs|] == cs;
  }

  // ----- Checking a transaction -----

  lemma HoldsSame(ledger: Ledger, f: nat -> int, g: nat -> int)
    requires Holds(ledger, f) && forall d: nat :: f(d) == g(d)
    ensures Holds(ledger, g)
  {
  }

  ghost function ChargedTo(n: Node, s: Source, outs: seq<TxOut>): nat -> int
    requires n.Ready()
  {
    (d: nat) => Charged(n, s, outs, d)
  }

  lemma ChargedMore(n: Node, s: Source, outs: seq<TxOut>, i: nat)
    requires n.Ready() && i < |outs|
    ensures forall d: nat :: Charged(n, s, outs[..i], d) >= 0
    ensures forall d: nat :: Charged(n, s, outs[..i + 1], d) == Charged(n, s, outs[..i], d) + Owes(n, s, d)(outs[i])
  {
    forall d: nat
      ensures Charged(n, s, outs[..i], d) >= 0
      ensures Charged(n, s, outs[..i + 1], d) == Charged(n, s, outs[..i], d) + Owes(n, s, d)(outs[i])
    {
      ChargedNonNegative(n, s, outs[..i], d);
      SumLast(outs, i, Owes(n, s, d));
    }
  }

  lemma ChargedSame(n: Node, s: Source, outs: seq<TxOut>, i: nat, ledger: Ledger)
    requires n.Ready() && i < |outs| && !Moves(s, outs[i])
    requires Holds(ledger, ChargedTo(n, s, outs[..i]))
    ensures Holds(ledger, ChargedTo(n, s, outs[..i + 1]))
  {
    ChargedMore(n, s, outs, i);
    HoldsSame(ledger, ChargedTo(n, s, outs[..i]), ChargedTo(n, s, outs[..i + 1]));
  }

  /** Adds what one transfer owes to the ledger. */
  method ChargeOne(n: Node, s: Source, outs: seq<TxOut>, i: nat, ledger: Ledger) returns (ledger': Ledger)
    requires n.Ready() && i < |outs| && Moves(s, outs[i])
    requires Holds(ledger, ChargedTo(n, s, outs[..i]))
    ensures Holds(ledger', ChargedTo(n, s, outs[..i + 1]))
  {
    hide Holds, Charged, Moves, Tree, Payable, Dest, Local;
    var dest := Local(n, Dest(outs[i]));
    ghost var f := ChargedTo(n, s, outs[..i]);
    var path, fees := CtxFees(n.chains, n.mainChainId, dest);
    ChargedMore(n, s, outs, i);
    ledger' := AddTolls(ledger, f, Tolls(n, dest), path, fees);
    HoldsSame(ledger', (d: nat) => f(d) + FEE_PER_CHAIN * Sum(Tolls(n, dest), Goes(d)), ChargedTo(n, s, outs[..i + 1]));
  }

  /** First pass: checks every output and adds up what each chain is owed. */
  method ChargeAll(n: Node, s: Source, outs: seq<TxOut>) returns (r: Option<Ledger>)
    requires n.Ready()
    requires forall o :: o in outs ==> o.Readable()
    ensures r.Some? <==> forall o :: o in outs ==> OutputOk(n, s, o)
    ensures r.Some? ==> Holds(r.value, ChargedTo(n, s, outs))
  {
    var ledger: Ledger := map[];
    assert Holds(ledger, ChargedTo(n, s, outs[..0]));
    hide Holds, ChargedTo, TransferOk, Tree;
    for i := 0 to |outs|
      invariant forall k :: 0 <= k < i ==> OutputOk(n, s, outs[k])
      invariant Holds(ledger, ChargedTo(n, s, outs[..i]))
    {
      var o := outs[i];
      assert o in outs;
      if o.IsSeparator() {
        ChargedSame(n, s, outs, i, ledger);
        continue;
      }
      if o.IsContractCall() {
        if s.crossing {
          return None;
        }
        ChargedSame(n, s, outs, i, ledger);
        continue;
      }
      if (!o.IsCrossChain() && !s.crossing) || o.Opcode() == OP_PAYMINER {
        ChargedSame(n, s, outs, i, ledger);
        continue;
      }
      var ok := CheckTransfer(n, s.src, o);
      if !ok {
        return None;
      }
      ledger := ChargeOne(n, s, outs, i, ledger);
    }
    assert outs[..|outs|] == outs;
    return Some(ledger);
  }

  lemma {:induction false} PaidNothing(n: Node, outs: seq<TxOut>, d: nat)
    requires forall o :: o in outs && o.PaysMiner() ==> Local(n, o.Named()) != d
    ensures Paid(n, outs, d) == 0
  {
    if outs != [] {
      PaidNothing(n, outs[..|outs| - 1], d);
      assert outs[|outs| - 1] in outs;
    }
  }

  lemma PaidMore(n: Node, outs: seq<TxOut>, i: nat)
    requires i < |outs|
    ensures forall d: nat :: Paid(n, outs[..i + 1], d) == Paid(n, outs[..i], d) + Pays(n, d)(outs[i])
  {
    forall d: nat ensures Paid(n, outs[..i + 1], d) == Paid(n, outs[..i], d) + Pays(n, d)(outs[i]) {
      SumLast(outs, i, Pays(n, d));
    }
  }

  /** Second pass: takes the payments off the ledger. */
  method Settle(n: Node, s: Source, outs: seq<TxOut>, ledger: Ledger) returns (r: Option<Ledger>)
    requires n.Ready()
    requires Holds(ledger, ChargedTo(n, s, outs))
    ensures r.Some? <==> forall o :: o in outs ==> PaymentOk(n, s, outs, o)
    ensures r.Some? ==> r.value.Keys == ledger.Keys
    ensures r.Some? ==> forall d :: d in ledger ==> r.value[d] == ledger[d] - Paid(n, outs, d)
  {
    var due := ledger;
    hide Paid, Charged, FeeToken, Tree;
    assert forall d: nat :: Paid(n, outs[..0], d) == 0 by {
      forall d: nat ensures Paid(n, outs[..0], d) == 0 { PaidNothing(n, outs[..0], d); }
    }
    for i := 0 to |outs|
      invariant forall k :: 0 <= k < i ==> PaymentOk(n, s, outs, outs[k])
      invariant due.Keys == ledger.Keys
      invariant forall d :: d in ledger ==> due[d] == ledger[d] - Paid(n, outs[..i], d)
    {
      var o := outs[i];
      assert o in outs;
      PaidMore(n, outs, i);
      if o.IsSeparator() || o.IsContractCall() || o.Opcode() != OP_PAYMINER {
        continue;
      }
      var dest := Local(n, o.Named());
      if !FeeToken(n, o) {
        return None;
      }
      if dest !in due {
        return None;
      }
      due := due[dest := due[dest] - o.Amount()];
    }
    assert outs[..|outs|] == outs;
    return Some(due);
  }

  method AllZero(due: Ledger) returns (ok: bool)
    ensures ok <==> forall d :: d in due ==> due[d] == 0
  {
    if d :| d in due && due[d] != 0 {
      return false;
    }
    return true;
  }

  lemma Settled(n: Node, s: Source, outs: seq<TxOut>, ledger: Ledger, due: Ledger)
    requires n.Ready() && Holds(ledger, ChargedTo(n, s, outs))
    requires forall o :: o in outs ==> PaymentOk(n, s, outs, o)
    requires due.Keys == ledger.Keys && forall d :: d in ledger ==> due[d] == ledger[d] - Paid(n, outs, d)
    ensures (forall d :: d in due ==> due[d] == 0) <==> forall d: nat :: Charged(n, s, outs, d) == Paid(n, outs, d)
  {
    hide Paid, Charged, FeeToken, Tree;
    var f := ChargedTo(n, s, outs);
    forall d: nat ensures d !in ledger ==> Charged(n, s, outs, d) == 0 == Paid(n, outs, d) {
      if d !in ledger {
        ChargedNonNegative(n, s, outs, d);
        assert !(f(d) > 0);
        PaidNothing(n, outs, d);
      }
    }
    forall d | d in ledger ensures due[d] == 0 <==> Charged(n, s, outs, d) == Paid(n, outs, d) {
      assert ledger[d] == f(d);
    }
    if forall d: nat :: Charged(n, s, outs, d) == Paid(n, outs, d) {
      forall d | d in due ensures due[d] == 0 {
        assert Charged(n, s, outs, d) == Paid(n, outs, d);
      }
    }
  }

  /** The check accepts exactly the transactions in which every output is allowed, every payment to a
      miner is in order and every chain is paid what it is owed. */
  method CheckCrossChainTx(n: Node, ins: seq<nat>, outs: seq<TxOut>) returns (ok: bool)
    requires n.Ready()
    requires forall o :: o in outs ==> o.Readable()
    ensures |ins| == 1 && ins[0] / 0x800000 % 2 == 1 ==>
              (ok <==> Accepts(n, Source(ins[0] - 0x800000, true), outs))
    ensures |ins| != 1 || ins[0] / 0x800000 % 2 == 0 ==> (ok <==> Accepts(n, Source(n.chainId, false), outs))
  {
    hide Charged, Paid, OutputOk, PaymentOk, Holds, SourceOf, Tree;
    var s := SourceOf(n, ins);
    SourceIs(n, ins);
    var charged := ChargeAll(n, s, outs);
    if charged.None? {
      return false;
    }
    var due := Settle(n, s, outs, charged.value);
    if due.None? {
      return false;
    }
    ok := AllZero(due.value);
    Settled(n, s, outs, charged.value, due.value);
  }

  // ----- What acceptance means -----

  /** The order of the outputs does not matter. */
  lemma OrderIrrelevant(n: Node, s: Source, outs: seq<TxOut>, outs': seq<TxOut>)
    requires n.Ready() && multiset(outs) == multiset(outs')
    ensures Accepts(n, s, outs) <==> Accepts(n, s, outs')
  {
    hide OutputOk, FeeToken, Tree, Owes, Pays;
    SameElements(outs, outs');
    forall d: nat ensures Charged(n, s, outs, d) == Charged(n, s, outs', d) && Paid(n, outs, d) == Paid(n, outs', d) {
      SumIsPermutable(outs, outs', Owes(n, s, d));
      SumIsPermutable(outs, outs', Pays(n, d));
    }
    forall o ensures PaymentOk(n, s, outs, o) <==> PaymentOk(n, s, outs', o) {
    }
    hide Charged, Paid, PaymentOk;
  }

  lemma {:induction false} TollsOnce(cs: seq<nat>, d: nat)
    requires forall i :: 0 <= i < |cs| ==> cs[i] < CHAIN_MASK
    ensures Sum(cs, Goes(d)) == multiset(cs)[d]
  {
    if cs != [] {
      var k := |cs| - 1;
      TollsOnce(cs[..k], d);
      assert cs == cs[..k] + [cs[k]];
    }
  }

  lemma {:induction false} PayableFrom(m: Chains, p: seq<nat>, c: nat)
    requires forall i :: 0 <= i < |p| ==> p[i] in m
    ensures c in Payable(m, p) ==> c in p
  {
    if p != [] {
      PayableFrom(m, p[..|p| - 1], c);
    }
  }

  /** With chain numbers that fit a script, a transfer owes the flat fee to exactly the chains on the path
      from the main chain to its destination that are not legacy, and nothing to any other. */
  lemma FeePerChain(n: Node, s: Source, o: TxOut, d: nat)
    requires n.Ready() && Moves(s, o)
    requires forall c :: c in n.chains ==> c < CHAIN_MASK
    ensures var dest := Local(n, Dest(o));
            Owes(n, s, d)(o) ==
            if dest in n.chains && d in Path(n.chains, n.mainChainId, dest) && !n.chains[d].legacy then FEE_PER_CHAIN else 0
  {
    hide Dest, Local, Moves, Tree, Payable;
    var dest := Local(n, Dest(o));
    var tolls := Tolls(n, dest);
    if dest in n.chains {
      var p := Path(n.chains, n.mainChainId, dest);
      PayableExactly(n.chains, p, d);
      forall i | 0 <= i < |tolls| ensures tolls[i] < CHAIN_MASK {
        PayableFrom(n.chains, p, tolls[i]);
      }
      TollsOnce(tolls, d);
    }
  }

  // ----- The rules in terms of script bytes -----

  /** Flagging the number of a chain and reading it back from the one input of a transaction. */
  lemma FlaggedInput(n: Node, i: nat)
    requires i / 0x800000 % 2 == 0
    ensures SourceOf(n, [i + 0x800000]) == Source(i, true) && SourceOf(n, [i]) == Source(n.chainId, false)
  {
  }

  /** An output the checks read byte by byte: no separator, no contract call. */
  ghost predicate Plain(o: TxOut) {
    o.tokenType != 0xFC && |o.script| >= 25 && o.script[0] != 0x88 && forall b :: b in o.script ==> b < 256
  }

  /** The chain number in the script of a plain output. */
  ghost function Number(o: TxOut): nat
    requires Plain(o)
  {
    o.script[22] + 0x100 * o.script[23] + 0x10000 * o.script[24]
  }

  lemma NumberIs(o: TxOut)
    requires Plain(o)
    ensures o.Named() == Number(o) && o.Opcode() == o.script[21] && !o.IsSeparator() && !o.IsContractCall()
  {
    assert o.script[21] in o.script;
  }

  /** A separator is always allowed and a contract call exactly in a transaction of this chain. */
  lemma CallRules(n: Node, s: Source, o: TxOut)
    requires n.Ready() && o.Readable()
    ensures o.tokenType == 0xFC ==> OutputOk(n, s, o)
    ensures o.tokenType != 0xFC && o.script[0] == 0x88 ==> (OutputOk(n, s, o) <==> !s.crossing)
  {
  }

  /** A transaction from another chain that holds a contract call is never accepted. */
  lemma ForeignCallRefused(n: Node, src: nat, outs: seq<TxOut>, i: nat)
    requires n.Ready() && i < |outs|
    requires outs[i].tokenType != 0xFC && |outs[i].script| > 0 && outs[i].script[0] == 0x88
    ensures !Accepts(n, Source(src, true), outs)
  {
    assert outs[i] in outs;
    assert !OutputOk(n, Source(src, true), outs[i]);
  }

  /** Payments to miners are always allowed here. Sending to chain `to` a token of chain `of` needs another, known
      destination on whose path from the source the main chain lies, a known token, a token that does not leave the
      way to where it was born, and a script of 26 or 29 bytes. Any other output of an arriving transaction needs a
      known token. */
  lemma TransferRules(n: Node, s: Source, o: TxOut)
    requires n.Ready() && Plain(o)
    ensures o.script[21] == 0x44 ==> OutputOk(n, s, o)
    ensures o.script[21] == 0x66 && Number(o) == 0 ==>
              (OutputOk(n, s, o) <==>
               n.chainId != 0 && (o.tokenType < 0x100_0000_0000 || o.tokenType / 0x100_0000_0000 in n.chains))
    ensures o.script[21] == 0x66 && Number(o) != 0 ==>
              var of, to := o.tokenType / 0x100_0000_0000, Number(o);
              OutputOk(n, s, o) <==>
              && to != n.chainId && to in n.chains && of in n.chains && |o.script| in {26, 29}
              && Passes(n.chains, n.mainChainId, s.src, to)
              && (of in {n.chainId, to, s.src}
                  || (Passes(n.chains, to, s.src, of) && (s.src == n.chainId || Passes(n.chains, to, n.chainId, of))))
    ensures o.script[21] != 0x44 && o.script[21] != 0x66 ==>
              (OutputOk(n, s, o) <==>
               s.crossing ==> n.chainId != 0 && (o.tokenType < 0x100_0000_0000 || o.tokenType / 0x100_0000_0000 in n.chains))
  {
    NumberIs(o);
    hide ChainOf, Passes;
  }

  /** A plain output owes the fee to the paying chains on the path to where it goes, which is the chain its script
      names if it is a transfer that names one, and this chain otherwise. */
  lemma FeeRules(n: Node, s: Source, o: TxOut, d: nat)
    requires n.Ready() && Plain(o)
    requires forall c :: c in n.chains ==> c < CHAIN_MASK
    ensures var to := if o.script[21] == 0x66 && Number(o) != 0 then Number(o) else n.chainId;
            Owes(n, s, d)(o) ==
            if o.script[21] != 0x44 && (o.script[21] == 0x66 || s.crossing) && to in n.chains
               && d in Path(n.chains, n.mainChainId, to) && !n.chains[d].legacy
            then 100000 else 0
  {
    NumberIs(o);
    hide ChainOf, Path, Tree;
    if Moves(s, o) {
      FeePerChain(n, s, o, d);
    }
  }

  /** A plain output pays its amount to the chain its script names, or to this one, if it pays a miner. */
  lemma PayRules(n: Node, o: TxOut, d: nat)
    requires Plain(o)
    ensures Pays(n, d)(o) ==
            if o.script[21] == 0x44 && d == (if Number(o) == 0 then n.chainId else Number(o)) && o.value.Num?
            then o.value.amount else 0
  {
    NumberIs(o);
  }

  lemma {:induction false} ChargedIff(n: Node, s: Source, outs: seq<TxOut>, d: nat)
    requires n.Ready()
    ensures Charged(n, s, outs, d) > 0 <==> exists o :: o in outs && Owes(n, s, d)(o) > 0
  {
    hide Tolls, Moves, Tree, Local, Dest;
    if outs != [] {
      var k := |outs| - 1;
      ChargedIff(n, s, outs[..k], d);
      ChargedNonNegative(n, s, outs[..k], d);
      OwesNonNegative(n, s, outs[k], d);
      assert outs[k] in outs && forall o :: o in outs <==> o in outs[..k] || o == outs[k];
    }
  }

  /** Miners are paid in token type 2^40, or on chain 1 in token type 0, and only if some output owes their chain a fee. */
  lemma PaymentRules(n: Node, s: Source, outs: seq<TxOut>, o: TxOut)
    requires n.Ready() && Plain(o)
    ensures var to := if Number(o) == 0 then n.chainId else Number(o);
            PaymentOk(n, s, outs, o) <==>
            o.script[21] == 0x44 ==>
              && (o.tokenType == 0x100_0000_0000 || (o.tokenType == 0 && to == 1))
              && exists p :: p in outs && Owes(n, s, to)(p) > 0
  {
    NumberIs(o);
    hide ChainOf, Charged, Owes, Tree;
    ChargedIff(n, s, outs, Local(n, o.Named()));
  }

  // ----- Conservation over all chains -----

  ghost function Pick(ds: set<nat>): (d: nat)
    requires ds != {}
    ensures d in ds
  {
    var d :| d in ds;
    d
  }

  ghost function SumOver(ds: set<nat>, g: nat -> int): int {
    if ds == {} then 0 else var d := Pick(ds); g(d) + SumOver(ds - {d}, g)
  }

  lemma {:induction false} SumOverAdds(ds: set<nat>, f: nat -> int, g: nat -> int, h: nat -> int)
    requires forall d :: d in ds ==> h(d) == f(d) + g(d)
    ensures SumOver(ds, h) == SumOver(ds, f) + SumOver(ds, g)
  {
    if ds != {} {
      SumOverAdds(ds - {Pick(ds)}, f, g, h);
    }
  }

  lemma {:induction false} SumOverSame(ds: set<nat>, f: nat -> int, g: nat -> int)
    requires forall d :: d in ds ==> f(d) == g(d)
    ensures SumOver(ds, f) == SumOver(ds, g)
  {
    if ds != {} {
      SumOverSame(ds - {Pick(ds)}, f, g);
    }
  }

  /** Summing a function that is v at d and zero elsewhere. */
  lemma {:induction false} SumOverPoint(ds: set<nat>, d: nat, v: int, g: nat -> int)
    requires forall e :: e in ds ==> g(e) == if e == d then v else 0
    ensures SumOver(ds, g) == if d in ds then v else 0
  {
    if ds != {} {
      SumOverPoint(ds - {Pick(ds)}, d, v, g);
    }
  }

  /** The numbers the node's chains go by. */
  ghost function Numbers(n: Node): set<nat> {
    set c | c in n.chains :: c % CHAIN_MASK
  }

  lemma {:induction false} TollsCounted(ds: set<nat>, cs: seq<nat>)
    requires forall c :: c in cs ==> c % CHAIN_MASK in ds
    ensures SumOver(ds, (d: nat) => FEE_PER_CHAIN * Sum(cs, Goes(d))) == FEE_PER_CHAIN * |cs|
  {
    if cs == [] {
      SumOverPoint(ds, 0, 0, (d: nat) => FEE_PER_CHAIN * Sum(cs, Goes(d)));
    } else {
      var k := |cs| - 1;
      TollsCounted(ds, cs[..k]);
      var point := (d: nat) => if d == cs[k] % CHAIN_MASK then FEE_PER_CHAIN else 0;
      SumOverPoint(ds, cs[k] % CHAIN_MASK, FEE_PER_CHAIN, point);
      SumOverAdds(ds, (d: nat) => FEE_PER_CHAIN * Sum(cs[..k], Goes(d)), point, (d: nat) => FEE_PER_CHAIN * Sum(cs, Goes(d)));
    }
  }

  /** The fees of one output, over all chains. */
  ghost function Toll(n: Node, s: Source): TxOut -> int
    requires n.Ready()
  {
    (o: TxOut) => if Moves(s, o) then FEE_PER_CHAIN * |Tolls(n, Local(n, Dest(o)))| else 0
  }

  /** What one output pays to miners. */
  ghost function MinerValue(): TxOut -> int {
    (o: TxOut) => if o.PaysMiner() then o.Amount() else 0
  }

  lemma OwesIs(n: Node, s: Source, d: nat, o: TxOut)
    requires n.Ready()
    ensures Owes(n, s, d)(o) == if Moves(s, o) then FEE_PER_CHAIN * Sum(Tolls(n, Local(n, Dest(o))), Goes(d)) else 0
  {
  }

  lemma TollIsOwed(n: Node, s: Source, o: TxOut)
    requires n.Ready()
    ensures SumOver(Numbers(n), (d: nat) => Owes(n, s, d)(o)) == Toll(n, s)(o)
  {
    hide Dest, Local, Moves, Tree, Payable, SumOver, Sum, Owes;
    var ds := Numbers(n);
    var owed := (d: nat) => Owes(n, s, d)(o);
    forall d | d in ds
      ensures owed(d) == if Moves(s, o) then FEE_PER_CHAIN * Sum(Tolls(n, Local(n, Dest(o))), Goes(d)) else 0
    {
      OwesIs(n, s, d, o);
    }
    if Moves(s, o) {
      var dest := Local(n, Dest(o));
      var cs := Tolls(n, dest);
      forall c | c in cs ensures c % CHAIN_MASK in ds {
        if dest in n.chains {
          PayableFrom(n.chains, Path(n.chains, n.mainChainId, dest), c);
        }
      }
      TollsCounted(ds, cs);
      SumOverSame(ds, (d: nat) => FEE_PER_CHAIN * Sum(cs, Goes(d)), owed);
    } else {
      SumOverPoint(ds, 0, 0, owed);
    }
  }

  lemma {:induction false} ChargedInAll(n: Node, s: Source, outs: seq<TxOut>)
    requires n.Ready()
    ensures SumOver(Numbers(n), ChargedTo(n, s, outs)) == Sum(outs, Toll(n, s))
  {
    hide SumOver, Numbers, Owes, Toll, Tree;
    var ds := Numbers(n);
    if outs == [] {
      SumOverPoint(ds, 0, 0, ChargedTo(n, s, outs));
    } else {
      var k := |outs| - 1;
      ChargedInAll(n, s, outs[..k]);
      TollIsOwed(n, s, outs[k]);
      SumOverAdds(ds, ChargedTo(n, s, outs[..k]), (d: nat) => Owes(n, s, d)(outs[k]), ChargedTo(n, s, outs));
    }
  }

  lemma {:induction false} PaidInAll(n: Node, outs: seq<TxOut>)
    requires forall o :: o in outs && o.PaysMiner() ==> Local(n, o.Named()) in Numbers(n)
    ensures SumOver(Numbers(n), (d: nat) => Paid(n, outs, d)) == Sum(outs, MinerValue())
  {
    hide SumOver, Numbers, Local;
    var ds := Numbers(n);
    if outs == [] {
      SumOverPoint(ds, 0, 0, (d: nat) => Paid(n, outs, d));
    } else {
      var k := |outs| - 1;
      var o := outs[k];
      assert o in outs;
      PaidInAll(n, outs[..k]);
      var paid := (d: nat) => Pays(n, d)(o);
      forall d | d in ds ensures paid(d) == if d == Local(n, o.Named()) then MinerValue()(o) else 0 {
        assert paid(d) == Pays(n, d)(o);
      }
      SumOverPoint(ds, Local(n, o.Named()), MinerValue()(o), paid);
      SumOverAdds(ds, (d: nat) => Paid(n, outs[..k], d), paid, (d: nat) => Paid(n, outs, d));
    }
  }

  lemma {:induction false} GoesSomewhere(cs: seq<nat>, d: nat)
    requires Sum(cs, Goes(d)) > 0
    ensures exists c :: c in cs && c % CHAIN_MASK == d
  {
    var k := |cs| - 1;
    if cs[k] % CHAIN_MASK == d {
      assert cs[k] in cs;
    } else {
      GoesSomewhere(cs[..k], d);
      var c :| c in cs[..k] && c % CHAIN_MASK == d;
      assert c in cs;
    }
  }

  /** Only known chains are owed anything. */
  lemma {:induction false} ChargedIsNumber(n: Node, s: Source, outs: seq<TxOut>, d: nat)
    requires n.Ready() && Charged(n, s, outs, d) > 0
    ensures d in Numbers(n)
  {
    hide Dest, Local, Moves, Tree, Payable;
    var k := |outs| - 1;
    if Charged(n, s, outs[..k], d) > 0 {
      ChargedIsNumber(n, s, outs[..k], d);
    } else {
      var dest := Local(n, Dest(outs[k]));
      GoesSomewhere(Tolls(n, dest), d);
      var c :| c in Tolls(n, dest) && c % CHAIN_MASK == d;
      PayableFrom(n.chains, Path(n.chains, n.mainChainId, dest), c);
    }
  }

  /** What an accepted transaction pays to miners in all is the flat fee times the number of fee-taking chains
      its transfers pass, counted with repetition. */
  lemma FeesConserved(n: Node, s: Source, outs: seq<TxOut>)
    requires n.Ready() && Accepts(n, s, outs)
    ensures Sum(outs, MinerValue()) == Sum(outs, Toll(n, s))
  {
    forall o | o in outs && o.PaysMiner() ensures Local(n, o.Named()) in Numbers(n) {
      assert PaymentOk(n, s, outs, o);
      ChargedIsNumber(n, s, outs, Local(n, o.Named()));
    }
    hide Charged, Paid, Numbers, Local, MinerValue, Toll, Sum, SumOver, Tree;
    ChargedInAll(n, s, outs);
    PaidInAll(n, outs);
    SumOverSame(Numbers(n), ChargedTo(n, s, outs), (d: nat) => Paid(n, outs, d));
  }

  // ----- Matching an arriving transaction against the incoming pool -----

  datatype OutPoint = OutPoint(hash: nat, index: nat)

  function Match(a: TxOut, b: TxOut): bool {
    && a.tokenType == b.tokenType
    && a.script == b.script
    && (if a.rights.Some? then b.rights.Some? && a.rights.value == b.rights.value else b.rights.None?)
    && (if a.tokenType % 2 == 0 then a.Amount() == b.Amount()
        else a.value.HashOf? && b.value.HashOf? && a.value.hash == b.value.hash)
  }

  lemma MatchIsEquality(a: TxOut, b: TxOut)
    requires a.Typed() && b.Typed()
    ensures Match(a, b) <==> a == b
  {
  }

  /** The pool entries that hold an output. */
  ghost function Holders(pool: map<OutPoint, TxOut>, o: TxOut): set<OutPoint> {
    set k | k in pool && pool[k] == o
  }

  /** The pool holds exactly the outputs, with repetition. */
  ghost predicate Covers(pool: map<OutPoint, TxOut>, outs: seq<TxOut>) {
    forall o :: multiset(outs)[o] == |Holders(pool, o)|
  }

  /** Looks for an entry matching o, trying the entries in any order. */
  method FindMatch(o: TxOut, pool: map<OutPoint, TxOut>) returns (r: Option<OutPoint>)
    requires o.Typed() && forall k :: k in pool ==> pool[k].Typed()
    ensures r.Some? ==> r.value in Holders(pool, o)
    ensures r.None? ==> Holders(pool, o) == {}
  {
    var todo := pool.Keys;
    while todo != {}
      invariant todo <= pool.Keys
      invariant forall k :: k in pool && k !in todo ==> pool[k] != o
      decreases todo
    {
      var k :| k in todo;
      MatchIsEquality(o, pool[k]);
      if Match(o, pool[k]) {
        return Some(k);
      }
      todo := todo - {k};
    }
    return None;
  }

  /** Outputs consumed and entries left make up the pool. */
  ghost predicate Balanced(pool: map<OutPoint, TxOut>, done: seq<TxOut>, left: map<OutPoint, TxOut>) {
    forall o :: multiset(done)[o] + |Holders(left, o)| == |Holders(pool, o)|
  }

  lemma BalancedMore(pool: map<OutPoint, TxOut>, outs: seq<TxOut>, i: nat, left: map<OutPoint, TxOut>, k: OutPoint)
    requires i < |outs| && Balanced(pool, outs[..i], left) && k in Holders(left, outs[i])
    ensures Balanced(pool, outs[..i + 1], left - {k})
  {
    assert outs[..i + 1] == outs[..i] + [outs[i]];
    forall o ensures multiset(outs[..i + 1])[o] + |Holders(left - {k}, o)| == |Holders(pool, o)| {
      assert multiset(outs[..i])[o] + |Holders(left, o)| == |Holders(pool, o)|;
      if o == outs[i] {
        assert Holders(left - {k}, o) == Holders(left, o) - {k};
      } else {
        assert Holders(left - {k}, o) == Holders(left, o);
      }
    }
  }

  lemma Unmatched(pool: map<OutPoint, TxOut>, outs: seq<TxOut>, i: nat, left: map<OutPoint, TxOut>)
    requires i < |outs| && Balanced(pool, outs[..i], left) && Holders(left, outs[i]) == {}
    ensures !Covers(pool, outs)
  {
    var o := outs[i];
    assert outs == outs[..i] + ([o] + outs[i + 1..]);
    assert multiset(outs)[o] >= multiset(outs[..i])[o] + 1;
    assert multiset(outs[..i])[o] + |Holders(left, o)| == |Holders(pool, o)|;
  }

  /** Each output consumed is paired with an entry of its own that matches it; the other entries are left. */
  ghost predicate Paired(pool: map<OutPoint, TxOut>, done: seq<TxOut>, left: map<OutPoint, TxOut>, keys: seq<OutPoint>) {
    && |keys| == |done|
    && (forall i :: 0 <= i < |keys| ==> keys[i] in pool && keys[i] !in left && Match(done[i], pool[keys[i]]))
    && (forall i, j :: 0 <= i < j < |keys| ==> keys[i] != keys[j])
    && (forall k :: k in pool ==> k in keys || (k in left && left[k] == pool[k]))
    && left.Keys <= pool.Keys
  }

  lemma PairedMore(pool: map<OutPoint, TxOut>, outs: seq<TxOut>, i: nat, left: map<OutPoint, TxOut>,
                   keys: seq<OutPoint>, k: OutPoint)
    requires i < |outs| && Paired(pool, outs[..i], left, keys) && k in Holders(left, outs[i])
    requires Match(outs[i], outs[i])
    ensures Paired(pool, outs[..i + 1], left - {k}, keys + [k])
  {
    hide Match;
    assert k in pool && left[k] == pool[k];
    assert forall x :: x in keys ==> x in keys + [k];
    assert k in keys + [k];
  }

  /** An arriving transaction matches exactly when its outputs are the pool's outputs with repetition, whatever the
      order in which either is gone through; a match is a bijection between outputs and entries. */
  method MatchOutputs(outs: seq<TxOut>, pool: map<OutPoint, TxOut>) returns (ok: bool, ghost keys: seq<OutPoint>)
    requires forall o :: o in outs ==> o.Typed()
    requires forall k :: k in pool ==> pool[k].Typed()
    ensures ok <==> |outs| == |pool| && Covers(pool, outs)
    ensures ok ==> Paired(pool, outs, map[], keys)
  {
    keys := [];
    if |outs| != |pool| {
      return false, keys;
    }
    var left := pool;
    assert Balanced(pool, outs[..0], left);
    assert Paired(pool, outs[..0], left, keys);
    hide Balanced, Covers, Match, Paired;
    for i := 0 to |outs|
      invariant forall k :: k in left ==> left[k].Typed()
      invariant |left| == |pool| - i
      invariant Balanced(pool, outs[..i], left) && Paired(pool, outs[..i], left, keys)
    {
      assert outs[i] in outs;
      var k := FindMatch(outs[i], left);
      if k.None? {
        Unmatched(pool, outs, i, left);
        return false, keys;
      }
      MatchIsEquality(outs[i], outs[i]);
      BalancedMore(pool, outs, i, left, k.value);
      PairedMore(pool, outs, i, left, keys, k.value);
      left := left - {k.value};
      keys := keys + [k.value];
    }
    assert outs[..|outs|] == outs;
    AllMatched(pool, outs, left);
    assert left == map[];
    return true, keys;
  }

  lemma AllMatched(pool: map<OutPoint, TxOut>, outs: seq<TxOut>, left: map<OutPoint, TxOut>)
    requires Balanced(pool, outs, left) && |left| == 0
    ensures Covers(pool, outs)
  {
    forall o ensures multiset(outs)[o] == |Holders(pool, o)| {
      assert Holders(left, o) == {};
    }
  }
}

/** Transactions as the websocket code sees them, and what it means to follow outpoints through
    a sequence of transactions. */
module ChainScan {

  /** A hash, as the number its bytes denote. */
  type Hash = nat
  const ZERO_HASH: Hash := 0
  type Bytes = seq<int>

  datatype OutPoint = OutPoint(hash: Hash, index: nat)

  /** An address an output script pays to. A public key knows its own pay-to-hash address. */
  datatype Address =
    | PubKeyHash(hash160: Bytes)
    | ScriptHash(hash160: Bytes)
    | PubKey(serialized: Bytes, pkh: Bytes)
    | OtherAddress(encoded: string)

  /** An output: a separator carries no script; `bad` means its script has no standard form. */
  datatype Output = Output(separator: bool, bad: bool, addrs: seq<Address>)

  datatype Tx = Tx(hash: Hash, crossChain: bool, ins: seq<OutPoint>, outs: seq<Output>)

  /** The outpoints a transaction spends: none for a cross-chain one, and an input with the
      zero hash is not an ordinary input. */
  function Spends(tx: Tx): set<OutPoint> {
    SpendsUpTo(tx, |tx.ins|)
  }

  function SpendsUpTo(tx: Tx, n: nat): set<OutPoint>
    requires n <= |tx.ins|
  {
    set i | 0 <= i < n && !tx.crossChain && tx.ins[i].hash != ZERO_HASH :: tx.ins[i]
  }

  /** The outpoints of outputs for which `hit` holds. */
  ghost function CreatesUpTo(tx: Tx, hit: Output -> bool, n: nat): set<OutPoint>
    requires n <= |tx.outs|
  {
    set i | 0 <= i < n && hit(tx.outs[i]) :: OutPoint(tx.hash, i)
  }

  ghost function Creates(tx: Tx, hit: Output -> bool): set<OutPoint> {
    CreatesUpTo(tx, hit, |tx.outs|)
  }

  /** An outpoint is spent exactly by an input of an ordinary transaction that is not the zero one. */
  lemma SpendsAre(tx: Tx, op: OutPoint)
    ensures op in Spends(tx) <==> !tx.crossChain && op.hash != 0 && op in tx.ins
  {
    if op in tx.ins {
      var i :| 0 <= i < |tx.ins| && tx.ins[i] == op;
    }
  }

  /** An outpoint is created exactly by the output of that position, if it hits. */
  lemma CreatesAre(tx: Tx, hit: Output -> bool, op: OutPoint)
    ensures op in Creates(tx, hit) <==> op.hash == tx.hash && op.index < |tx.outs| && hit(tx.outs[op.index])
  {
  }

  /** Following a set of outpoints through one transaction, inputs before outputs. */
  ghost function Follow(tx: Tx, hit: Output -> bool, unspent: set<OutPoint>): set<OutPoint> {
    unspent - Spends(tx) + Creates(tx, hit)
  }

  ghost function FollowAll(txs: seq<Tx>, hit: Output -> bool, unspent: set<OutPoint>): set<OutPoint> {
    if txs == [] then unspent
    else Follow(txs[|txs| - 1], hit, FollowAll(txs[..|txs| - 1], hit, unspent))
  }

  /** op is not spent by any transaction from position i on. */
  ghost predicate UnspentFrom(txs: seq<Tx>, i: nat, op: OutPoint) {
    forall j :: i <= j < |txs| ==> op !in Spends(txs[j])
  }

  ghost predicate CreatedAndKept(txs: seq<Tx>, hit: Output -> bool, op: OutPoint) {
    exists i :: 0 <= i < |txs| && op in Creates(txs[i], hit) && UnspentFrom(txs, i + 1, op)
  }

  /** What is left after any sequence of transactions: exactly the outpoints that were followed
      from the start and never spent, and those created by a matching output and not spent
      afterwards. */
  lemma {:induction false} FollowAllExactly(txs: seq<Tx>, hit: Output -> bool,
                                            unspent: set<OutPoint>, op: OutPoint)
    ensures op in FollowAll(txs, hit, unspent)
        <==> (op in unspent && UnspentFrom(txs, 0, op)) || CreatedAndKept(txs, hit, op)
  {
    if txs != [] {
      var n := |txs| - 1;
      var front := txs[..n];
      FollowAllExactly(front, hit, unspent, op);
      hide Spends, Creates;
      assert UnspentFrom(txs, 0, op) <==> UnspentFrom(front, 0, op) && op !in Spends(txs[n]);
      CreatedLast(txs, hit, op);
    }
  }

  lemma CreatedLast(txs: seq<Tx>, hit: Output -> bool, op: OutPoint)
    requires txs != []
    ensures var n := |txs| - 1;
            (CreatedAndKept(txs, hit, op)
             <==> op in Creates(txs[n], hit) || (CreatedAndKept(txs[..n], hit, op) && op !in Spends(txs[n])))
  {
    var n := |txs| - 1;
    var front := txs[..n];
    hide Spends, Creates;
    if op in Creates(txs[n], hit) {
      assert UnspentFrom(txs, n + 1, op);
    }
    if CreatedAndKept(front, hit, op) && op !in Spends(txs[n]) {
      var i :| 0 <= i < |front| && op in Creates(front[i], hit) && UnspentFrom(front, i + 1, op);
      assert op in Creates(txs[i], hit) && UnspentFrom(txs, i + 1, op);
    }
    if CreatedAndKept(txs, hit, op) {
      var i :| 0 <= i < |txs| && op in Creates(txs[i], hit) && UnspentFrom(txs, i + 1, op);
      if i < n {
        assert op in Creates(front[i], hit) && UnspentFrom(front, i + 1, op);
        assert op !in Spends(txs[n]);
      }
    }
  }

  lemma {:induction false} FollowAllConcat(s: seq<Tx>, t: seq<Tx>, hit: Output -> bool, unspent: set<OutPoint>)
    ensures FollowAll(s + t, hit, unspent) == FollowAll(t, hit, FollowAll(s, hit, unspent))
  {
    if t == [] {
      assert s + t == s;
    } else {
      var n := |t| - 1;
      FollowAllConcat(s, t[..n], hit, unspent);
      assert (s + t)[..|s + t| - 1] == s + t[..n];
    }
  }

  /** What is followed depends only on which outputs hit. */
  lemma {:induction false} SameHits(txs: seq<Tx>, h: Output -> bool, h': Output -> bool, unspent: set<OutPoint>)
    requires forall t, i :: 0 <= t < |txs| && 0 <= i < |txs[t].outs| ==> h(txs[t].outs[i]) == h'(txs[t].outs[i])
    ensures FollowAll(txs, h, unspent) == FollowAll(txs, h', unspent)
  {
    if txs != [] {
      var n := |txs| - 1;
      SameHits(txs[..n], h, h', unspent);
      SameCreates(txs[n], h, h');
    }
  }

  lemma SameCreates(tx: Tx, h: Output -> bool, h': Output -> bool)
    requires forall i :: 0 <= i < |tx.outs| ==> h(tx.outs[i]) == h'(tx.outs[i])
    ensures Creates(tx, h) == Creates(tx, h')
  {
  }

  lemma CreatesAdds(tx: Tx, h: Output -> bool, h1: Output -> bool, h2: Output -> bool)
    requires forall out :: h(out) <==> h1(out) || h2(out)
    ensures Creates(tx, h) == Creates(tx, h1) + Creates(tx, h2)
  {
  }

  /** Following two sets of outpoints by two kinds of hits together is following them apart. */
  lemma {:induction false} FollowAllAdds(txs: seq<Tx>, h: Output -> bool, h1: Output -> bool, h2: Output -> bool,
                                         u1: set<OutPoint>, u2: set<OutPoint>)
    requires forall out :: h(out) <==> h1(out) || h2(out)
    ensures FollowAll(txs, h, u1 + u2) == FollowAll(txs, h1, u1) + FollowAll(txs, h2, u2)
  {
    if txs != [] {
      var n := |txs| - 1;
      FollowAllAdds(txs[..n], h, h1, h2, u1, u2);
      CreatesAdds(txs[n], h, h1, h2);
      hide Creates, Spends;
    }
  }

  lemma SpendsNext(tx: Tx, n: nat)
    requires n < |tx.ins|
    ensures SpendsUpTo(tx, n + 1)
         == SpendsUpTo(tx, n) + if !tx.crossChain && tx.ins[n].hash != ZERO_HASH then {tx.ins[n]} else {}
  {
  }

  lemma CreatesNext(tx: Tx, hit: Output -> bool, n: nat)
    requires n < |tx.outs|
    ensures CreatesUpTo(tx, hit, n + 1)
         == CreatesUpTo(tx, hit, n) + if hit(tx.outs[n]) then {OutPoint(tx.hash, n)} else {}
  {
  }
}

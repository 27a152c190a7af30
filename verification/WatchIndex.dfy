/** The notification manager's two-way indexes: from a watched outpoint or address to the
    clients watching it, and from each client to what it watches. */
module WatchIndex {
  import opened Options
  import opened ChainScan

  /** A client, identified by its quit channel. */
  datatype ClientId = ClientId(quit: nat)

  ghost function Watched<K(!new)>(rel: set<(K, ClientId)>, c: ClientId): set<K> {
    set p | p in rel && p.1 == c :: p.0
  }

  /** One index: `watchers` is the manager's map of inner client maps, `requests` collects the
      request sets the clients keep. Both represent one relation. */
  class Watch<K(==, !new)> {
    var watchers: map<K, set<ClientId>>
    var requests: map<ClientId, set<K>>
    ghost var rel: set<(K, ClientId)>

    /** The two directions agree, and no inner map is empty. */
    ghost predicate Valid()
      reads this
    {
      && (forall k, c :: (k, c) in rel <==> k in watchers && c in watchers[k])
      && (forall k, c :: (k, c) in rel <==> c in requests && k in requests[c])
      && (forall k :: k in watchers ==> watchers[k] != {})
    }

    constructor ()
      ensures Valid() && rel == {}
    {
      watchers, requests, rel := map[], map[], {};
    }

    method Add(c: ClientId, k: K)
      requires Valid()
      modifies this
      ensures Valid() && rel == old(rel) + {(k, c)}
    {
      requests := requests[c := (if c in requests then requests[c] else {}) + {k}];
      if k !in watchers {
        watchers := watchers[k := {}];
      }
      watchers := watchers[k := watchers[k] + {c}];
      rel := rel + {(k, c)};
    }

    method AddAll(c: ClientId, ks: seq<K>)
      requires Valid()
      modifies this
      ensures Valid() && forall k, d :: (k, d) in rel <==> (k, d) in old(rel) || (d == c && k in ks)
    {
      for i := 0 to |ks|
        invariant Valid() && forall k, d :: (k, d) in rel <==> (k, d) in old(rel) || (d == c && k in ks[..i])
      {
        Add(c, ks[i]);
        assert ks[..i + 1] == ks[..i] + [ks[i]];
      }
      assert ks[..|ks|] == ks;
    }

    /** Removing a request that was never made changes nothing. */
    method Remove(c: ClientId, k: K)
      requires Valid()
      modifies this
      ensures Valid() && rel == old(rel) - {(k, c)}
    {
      rel := rel - {(k, c)};
      if c in requests {
        requests := requests[c := requests[c] - {k}];
      }
      if k !in watchers { return; }
      watchers := watchers[k := watchers[k] - {c}];
      if watchers[k] == {} {
        assert forall d :: d in old(watchers)[k] && d != c ==> d in watchers[k];
        watchers := watchers - {k};
      }
    }

    /** The unregister step: every request of the client is removed. */
    method Drop(c: ClientId)
      requires Valid()
      modifies this
      ensures Valid() && forall k, d :: (k, d) in rel <==> (k, d) in old(rel) && d != c
    {
      var todo := if c in requests then requests[c] else {};
      while todo != {}
        invariant Valid() && forall k, d :: (k, d) in rel <==> (k, d) in old(rel) && (d != c || k in todo)
        decreases todo
      {
        var k :| k in todo;
        Remove(c, k);
        todo := todo - {k};
      }
    }

    /** Whether anybody watches anything. */
    method IsEmpty() returns (e: bool)
      requires Valid()
      ensures e <==> rel == {}
    {
      e := watchers == map[];
      if rel != {} {
        ghost var p :| p in rel;
        assert (p.0, p.1) in rel && p.0 in watchers;
      }
      if !e {
        var k :| k in watchers;
        var c :| c in watchers[k];
        assert (k, c) in rel;
      }
    }
  }

  /** Whether an output pays to an address that client c watches. */
  ghost predicate HitBy(encode: Address -> string, rel: set<(string, ClientId)>, c: ClientId, out: Output) {
    !out.separator && !out.bad && exists j :: 0 <= j < |out.addrs| && (encode(out.addrs[j]), c) in rel
  }

  ghost function HitsOf(encode: Address -> string, rel: set<(string, ClientId)>, c: ClientId): Output -> bool {
    out => HitBy(encode, rel, c, out)
  }

  /** Everybody's watched outpoints follow one transaction, each by its own watched addresses. */
  ghost predicate Followed(encode: Address -> string, addrs: set<(string, ClientId)>, tx: Tx,
                           rel: set<(OutPoint, ClientId)>, rel': set<(OutPoint, ClientId)>) {
    forall c :: Watched(rel', c) == Follow(tx, HitsOf(encode, addrs, c), Watched(rel, c))
  }

  ghost predicate FollowedAll(encode: Address -> string, addrs: set<(string, ClientId)>, txs: seq<Tx>,
                              rel: set<(OutPoint, ClientId)>, rel': set<(OutPoint, ClientId)>) {
    forall c :: Watched(rel', c) == FollowAll(txs, HitsOf(encode, addrs, c), Watched(rel, c))
  }

  ghost predicate Distinct(s: seq<ClientId>) {
    forall i, j :: 0 <= i < j < |s| ==> s[i] != s[j]
  }

  /** Some client watches an input of the transaction. */
  ghost predicate Redeems(tx: Tx, n: nat, rel: set<(OutPoint, ClientId)>, c: ClientId)
    requires n <= |tx.ins|
  {
    exists op :: op in SpendsUpTo(tx, n) && (op, c) in rel
  }

  ghost predicate Receives(encode: Address -> string, addrs: set<(string, ClientId)>, tx: Tx, n: nat, c: ClientId)
    requires n <= |tx.outs|
  {
    exists i :: 0 <= i < n && HitBy(encode, addrs, c, tx.outs[i])
  }

  lemma RedeemsAre(tx: Tx, rel: set<(OutPoint, ClientId)>)
    ensures forall c :: Redeems(tx, |tx.ins|, rel, c) <==>
              exists op :: op in tx.ins && !tx.crossChain && op.hash != 0 && (op, c) in rel
  {
    forall op ensures op in SpendsUpTo(tx, |tx.ins|) <==> !tx.crossChain && op.hash != 0 && op in tx.ins {
      SpendsAre(tx, op);
    }
    hide SpendsUpTo;
  }

  lemma ReceivesAre(encode: Address -> string, addrs: set<(string, ClientId)>, tx: Tx)
    ensures forall c :: Receives(encode, addrs, tx, |tx.outs|, c) <==>
              exists i, j :: 0 <= i < |tx.outs| && 0 <= j < |tx.outs[i].addrs| && !tx.outs[i].separator && !tx.outs[i].bad
                             && (encode(tx.outs[i].addrs[j]), c) in addrs
  {
    forall c
      ensures Receives(encode, addrs, tx, |tx.outs|, c) <==>
              exists i, j :: 0 <= i < |tx.outs| && 0 <= j < |tx.outs[i].addrs| && !tx.outs[i].separator && !tx.outs[i].bad
                             && (encode(tx.outs[i].addrs[j]), c) in addrs
    {
      if i, j :| 0 <= i < |tx.outs| && 0 <= j < |tx.outs[i].addrs| && !tx.outs[i].separator && !tx.outs[i].bad
                 && (encode(tx.outs[i].addrs[j]), c) in addrs {
        assert HitBy(encode, addrs, c, tx.outs[i]);
      }
    }
  }

  /** The pool transactions that spend one of the outpoints. */
  function PoolSpends(poolSpend: OutPoint -> Option<Tx>, ks: seq<OutPoint>): set<Tx> {
    set k | k in ks && poolSpend(k).Some? :: poolSpend(k).value
  }

  lemma PoolSpendsAre(poolSpend: OutPoint -> Option<Tx>, ks: seq<OutPoint>)
    ensures forall tx :: tx in PoolSpends(poolSpend, ks) <==> exists k :: k in ks && poolSpend(k) == Some(tx)
  {
    forall tx ensures tx in PoolSpends(poolSpend, ks) <==> exists k :: k in ks && poolSpend(k) == Some(tx) {
      if tx in PoolSpends(poolSpend, ks) {
        var k :| k in ks && poolSpend(k).Some? && poolSpend(k).value == tx;
        assert poolSpend(k) == Some(tx);
      }
    }
  }

  /** Who is told of a pool transaction. */
  datatype Notice = Notice(tx: Tx, clients: seq<ClientId>) {
    ghost predicate Right(rel: set<(OutPoint, ClientId)>) {
      Distinct(clients) && forall c :: c in clients <==> Redeems(tx, |tx.ins|, rel, c)
    }
  }

  lemma NoticesMore(notices: seq<Notice>, done: set<Tx>, n: Notice)
    requires forall tx :: tx in done ==> exists i :: 0 <= i < |notices| && notices[i].tx == tx
    ensures forall tx :: tx in done + {n.tx} ==> exists i :: 0 <= i < |notices + [n]| && (notices + [n])[i].tx == tx
  {
    var more := notices + [n];
    forall tx | tx in done + {n.tx} ensures exists i :: 0 <= i < |more| && more[i].tx == tx {
      if tx == n.tx {
        assert more[|notices|].tx == tx;
      } else {
        var i :| 0 <= i < |notices| && notices[i].tx == tx;
        assert more[i].tx == tx;
      }
    }
  }

  class Manager {
    const encode: Address -> string
    const ops: Watch<OutPoint>
    const addrs: Watch<string>
    var clients: set<ClientId>
    var blockNotifications: set<ClientId>
    var txNotifications: set<ClientId>

    ghost predicate Valid()
      reads this, ops, addrs
    {
      ops.Valid() && addrs.Valid() && ops as object != addrs as object
    }

    constructor (encode: Address -> string)
      ensures Valid() && ops.rel == {} && addrs.rel == {} && clients == {}
      ensures fresh(ops) && fresh(addrs) && this.encode == encode
    {
      this.encode := encode;
      ops := new Watch();
      addrs := new Watch();
      clients, blockNotifications, txNotifications := {}, {}, {};
    }

    /** Disconnecting: the client leaves every map. */
    method UnregisterClient(c: ClientId)
      requires Valid()
      modifies this, ops, addrs
      ensures Valid()
      ensures c !in clients && c !in blockNotifications && c !in txNotifications
      ensures c !in ops.requests || ops.requests[c] == {}
      ensures forall k :: k in ops.watchers ==> c !in ops.watchers[k]
      ensures forall k :: k in addrs.watchers ==> c !in addrs.watchers[k]
      ensures forall k, d :: d != c ==> ((k, d) in ops.rel <==> (k, d) in old(ops.rel))
      ensures forall k, d :: d != c ==> ((k, d) in addrs.rel <==> (k, d) in old(addrs.rel))
    {
      blockNotifications := blockNotifications - {c};
      txNotifications := txNotifications - {c};
      ops.Drop(c);
      addrs.Drop(c);
      clients := clients - {c};
      assert forall k :: (k, c) !in ops.rel;
      assert forall k :: (k, c) !in addrs.rel;
    }

    /** Everybody watching one spent outpoint is notified once for the transaction, and the
        request is dropped when the transaction is in a block. */
    method SpendOne(op: OutPoint, inBlock: bool, notified: seq<ClientId>) returns (notified': seq<ClientId>)
      requires Valid() && Distinct(notified)
      modifies ops
      ensures Valid() && Distinct(notified')
      ensures forall c :: c in notified' <==> c in notified || (op, c) in old(ops.rel)
      ensures forall k, c :: (k, c) in ops.rel <==> (k, c) in old(ops.rel) && !(inBlock && k == op)
    {
      notified' := notified;
      if op !in ops.watchers { return; }
      var todo := ops.watchers[op];
      while todo != {}
        invariant Valid() && Distinct(notified')
        invariant forall c :: c in todo ==> (op, c) in old(ops.rel)
        invariant forall c :: c in notified' <==> c in notified || ((op, c) in old(ops.rel) && c !in todo)
        invariant forall k, c :: (k, c) in ops.rel <==> (k, c) in old(ops.rel) && !(inBlock && k == op && c !in todo)
        decreases todo
      {
        var c :| c in todo;
        if inBlock {
          ops.Remove(c, op);
        }
        if c !in notified' {
          notified' := notified' + [c];
        }
        todo := todo - {c};
      }
    }

    /** The inputs of a transaction. */
    method NotifyForTxIns(tx: Tx, inBlock: bool) returns (notified: seq<ClientId>)
      requires Valid()
      modifies ops
      ensures Valid() && Distinct(notified)
      ensures forall c :: c in notified <==> Redeems(tx, |tx.ins|, old(ops.rel), c)
      ensures forall k, c :: (k, c) in ops.rel <==> (k, c) in old(ops.rel) && !(inBlock && k in Spends(tx))
    {
      notified := [];
      if tx.crossChain { return; }
      for i := 0 to |tx.ins|
        invariant Valid() && Distinct(notified)
        invariant forall c :: c in notified <==> Redeems(tx, i, old(ops.rel), c)
        invariant forall k, c :: (k, c) in ops.rel <==> (k, c) in old(ops.rel) && !(inBlock && k in SpendsUpTo(tx, i))
      {
        SpendsNext(tx, i);
        var op := tx.ins[i];
        RedeemsNext(tx, i, old(ops.rel));
        if op.hash == ZERO_HASH { continue; }
        if op in SpendsUpTo(tx, i) {
          AlreadySpent(tx, i, old(ops.rel), op);
        }
        notified := SpendOne(op, inBlock, notified);
      }
    }

    /** A client asks for outpoints. Whatever pool transactions spend them are reported at once: for each, every client
        that watches one of its inputs hears of it once. */
    method AddSpentRequests(c: ClientId, ks: seq<OutPoint>, poolSpend: OutPoint -> Option<Tx>) returns (notices: seq<Notice>)
      requires Valid()
      modifies ops
      ensures Valid() && forall k, d :: (k, d) in ops.rel <==> (k, d) in old(ops.rel) || (d == c && k in ks)
      ensures forall tx :: (exists i :: 0 <= i < |notices| && notices[i].tx == tx)
                           <==> exists k :: k in ks && poolSpend(k) == Some(tx)
      ensures forall i, j :: 0 <= i < j < |notices| ==> notices[i].tx != notices[j].tx
      ensures forall i :: 0 <= i < |notices| ==> notices[i].Right(ops.rel)
    {
      ops.AddAll(c, ks);
      ghost var rel := ops.rel;
      notices := [];
      ghost var done: set<Tx> := {};
      var todo := PoolSpends(poolSpend, ks);
      while todo != {}
        invariant Valid() && ops.rel == rel
        invariant done + todo == PoolSpends(poolSpend, ks) && done !! todo
        invariant forall i :: 0 <= i < |notices| ==> notices[i].tx in done && notices[i].Right(rel)
        invariant forall tx :: tx in done ==> exists i :: 0 <= i < |notices| && notices[i].tx == tx
        invariant forall i, j :: 0 <= i < j < |notices| ==> notices[i].tx != notices[j].tx
        decreases todo
      {
        var tx :| tx in todo;
        var notified := NotifyForTxIns(tx, false);
        assert ops.rel == rel by {
          forall p ensures p in ops.rel <==> p in rel {
            assert p == (p.0, p.1);
          }
        }
        NoticesMore(notices, done, Notice(tx, notified));
        notices := notices + [Notice(tx, notified)];
        todo, done := todo - {tx}, done + {tx};
      }
      PoolSpendsAre(poolSpend, ks);
    }

    /** Everybody watching one address is notified once for the transaction and watches the
        output from now on. */
    method PayOne(addr: string, op: OutPoint, notified: seq<ClientId>) returns (notified': seq<ClientId>)
      requires Valid() && Distinct(notified)
      modifies ops
      ensures Valid() && Distinct(notified')
      ensures forall c :: c in notified' <==> c in notified || (addr, c) in addrs.rel
      ensures forall k, c :: (k, c) in ops.rel <==> (k, c) in old(ops.rel) || (k == op && (addr, c) in addrs.rel)
    {
      notified' := notified;
      if addr !in addrs.watchers { return; }
      var todo := addrs.watchers[addr];
      while todo != {}
        invariant Valid() && Distinct(notified')
        invariant forall c :: c in todo ==> (addr, c) in addrs.rel
        invariant forall c :: c in notified' <==> c in notified || ((addr, c) in addrs.rel && c !in todo)
        invariant forall k, c :: (k, c) in ops.rel <==> (k, c) in old(ops.rel) || (k == op && (addr, c) in addrs.rel && c !in todo)
        decreases todo
      {
        var c :| c in todo;
        ops.AddAll(c, [op]);
        if c !in notified' {
          notified' := notified' + [c];
        }
        todo := todo - {c};
      }
    }

    /** One output: all its addresses. */
    method PayOutput(out: Output, op: OutPoint, notified: seq<ClientId>) returns (notified': seq<ClientId>)
      requires Valid() && Distinct(notified)
      modifies ops
      ensures Valid() && Distinct(notified')
      ensures forall c :: c in notified' <==> c in notified || HitBy(encode, addrs.rel, c, out)
      ensures forall k, c :: (k, c) in ops.rel <==> (k, c) in old(ops.rel) || (k == op && HitBy(encode, addrs.rel, c, out))
    {
      notified' := notified;
      if out.separator { return; }
      if out.bad { return; }
      for j := 0 to |out.addrs|
        invariant Valid() && Distinct(notified')
        invariant forall c :: c in notified' <==> c in notified || PaidTo(encode, addrs.rel, c, out, j)
        invariant forall k, c :: (k, c) in ops.rel <==> (k, c) in old(ops.rel) || (k == op && PaidTo(encode, addrs.rel, c, out, j))
      {
        PaidNext(encode, addrs.rel, out, j);
        notified' := PayOne(encode(out.addrs[j]), op, notified');
      }
    }

    /** The outputs of a transaction. */
    method NotifyForTxOuts(tx: Tx) returns (notified: seq<ClientId>)
      requires Valid()
      modifies ops
      ensures Valid() && Distinct(notified)
      ensures forall c :: c in notified <==> Receives(encode, addrs.rel, tx, |tx.outs|, c)
      ensures forall k, c :: (k, c) in ops.rel <==> (k, c) in old(ops.rel) || k in Creates(tx, HitsOf(encode, addrs.rel, c))
    {
      notified := [];
      for i := 0 to |tx.outs|
        invariant Valid() && Distinct(notified)
        invariant forall c :: c in notified <==> Receives(encode, addrs.rel, tx, i, c)
        invariant forall k, c :: (k, c) in ops.rel <==> (k, c) in old(ops.rel) || k in CreatesUpTo(tx, HitsOf(encode, addrs.rel, c), i)
      {
        CreatesForAll(encode, addrs.rel, tx, i);
        notified := PayOutput(tx.outs[i], OutPoint(tx.hash, i), notified);
      }
    }

    /** One transaction, in a block or in the memory pool. */
    method NotifyForTx(tx: Tx, inBlock: bool) returns (redeemed: seq<ClientId>, received: seq<ClientId>)
      requires Valid()
      modifies ops
      ensures Valid() && Distinct(redeemed) && Distinct(received)
      ensures forall c :: c in redeemed <==>
                exists op :: op in tx.ins && !tx.crossChain && op.hash != 0 && (op, c) in old(ops.rel)
      ensures forall c :: c in received <==>
                exists i, j :: 0 <= i < |tx.outs| && 0 <= j < |tx.outs[i].addrs| && !tx.outs[i].separator && !tx.outs[i].bad
                               && (encode(tx.outs[i].addrs[j]), c) in addrs.rel
      ensures inBlock ==> Followed(encode, addrs.rel, tx, old(ops.rel), ops.rel)
      ensures !inBlock ==> forall c :: Watched(ops.rel, c) == old(Watched(ops.rel, c)) + Creates(tx, HitsOf(encode, addrs.rel, c))
    {
      redeemed, received := [], [];
      var noOps := ops.IsEmpty();
      if !noOps {
        redeemed := NotifyForTxIns(tx, inBlock);
      }
      label Spent:
      var noAddrs := addrs.IsEmpty();
      if !noAddrs {
        received := NotifyForTxOuts(tx);
      }
      assert forall k, c ::
          (k, c) in ops.rel <==>
          ((k, c) in old(ops.rel) && !(inBlock && k in Spends(tx))) || k in Creates(tx, HitsOf(encode, addrs.rel, c));
      WatchedAfter(encode, addrs.rel, tx, inBlock, old(ops.rel), ops.rel);
      RedeemsAre(tx, old(ops.rel));
      ReceivesAre(encode, addrs.rel, tx);
    }

    /** A block joins the best chain. */
    method BlockConnected(txs: seq<Tx>)
      requires Valid()
      modifies ops
      ensures Valid() && FollowedAll(encode, addrs.rel, txs, old(ops.rel), ops.rel)
    {
      hide Followed, FollowedAll;
      FollowedNone(encode, addrs.rel, ops.rel);
      assert txs[..0] == [];
      var noOps := ops.IsEmpty();
      var noAddrs := addrs.IsEmpty();
      if noOps && noAddrs {
        NobodyFollows(encode, txs);
        return;
      }
      for i := 0 to |txs|
        invariant Valid() && FollowedAll(encode, addrs.rel, txs[..i], old(ops.rel), ops.rel)
      {
        ghost var before := ops.rel;
        var _, _ := NotifyForTx(txs[i], true);
        FollowedMore(encode, addrs.rel, txs, i, old(ops.rel), before, ops.rel);
      }
      assert txs[..|txs|] == txs;
    }
  }

  ghost predicate PaidTo(encode: Address -> string, addrs: set<(string, ClientId)>, c: ClientId, out: Output, n: nat)
    requires n <= |out.addrs|
  {
    exists j :: 0 <= j < n && (encode(out.addrs[j]), c) in addrs
  }

  lemma PaidNext(encode: Address -> string, addrs: set<(string, ClientId)>, out: Output, n: nat)
    requires n < |out.addrs|
    ensures forall c :: PaidTo(encode, addrs, c, out, n + 1)
                   <==> PaidTo(encode, addrs, c, out, n) || (encode(out.addrs[n]), c) in addrs
  {
  }

  lemma CreatesForAll(encode: Address -> string, addrs: set<(string, ClientId)>, tx: Tx, i: nat)
    requires i < |tx.outs|
    ensures forall c :: CreatesUpTo(tx, HitsOf(encode, addrs, c), i + 1)
                     == CreatesUpTo(tx, HitsOf(encode, addrs, c), i)
                        + if HitBy(encode, addrs, c, tx.outs[i]) then {OutPoint(tx.hash, i)} else {}
    ensures forall c :: Receives(encode, addrs, tx, i + 1, c)
                   <==> Receives(encode, addrs, tx, i, c) || HitBy(encode, addrs, c, tx.outs[i])
  {
    forall c {
      CreatesNext(tx, HitsOf(encode, addrs, c), i);
    }
  }

  lemma WatchedIs<K(!new)>(rel: set<(K, ClientId)>, c: ClientId, k: K)
    ensures k in Watched(rel, c) <==> (k, c) in rel
  {
    if (k, c) in rel {
      assert (k, c).0 == k;
    }
  }

  lemma WatchedAfter(encode: Address -> string, addrs: set<(string, ClientId)>, tx: Tx, inBlock: bool,
                     rel: set<(OutPoint, ClientId)>, rel': set<(OutPoint, ClientId)>)
    requires forall k, c ::
               (k, c) in rel' <==>
               ((k, c) in rel && !(inBlock && k in Spends(tx))) || k in Creates(tx, HitsOf(encode, addrs, c))
    ensures inBlock ==> Followed(encode, addrs, tx, rel, rel')
    ensures !inBlock ==> forall c :: Watched(rel', c) == Watched(rel, c) + Creates(tx, HitsOf(encode, addrs, c))
  {
    hide Spends, Creates, HitsOf, Watched;
    forall c ensures Watched(rel', c)
      == (if inBlock then Watched(rel, c) - Spends(tx) else Watched(rel, c)) + Creates(tx, HitsOf(encode, addrs, c))
    {
      forall k ensures k in Watched(rel', c) <==>
        (k in Watched(rel, c) && !(inBlock && k in Spends(tx))) || k in Creates(tx, HitsOf(encode, addrs, c))
      {
        WatchedIs(rel', c, k);
        WatchedIs(rel, c, k);
      }
    }
  }

  lemma FollowedNone(encode: Address -> string, addrs: set<(string, ClientId)>, rel: set<(OutPoint, ClientId)>)
    ensures FollowedAll(encode, addrs, [], rel, rel)
  {
  }

  lemma FollowedMore(encode: Address -> string, addrs: set<(string, ClientId)>, txs: seq<Tx>, i: nat,
                     rel0: set<(OutPoint, ClientId)>, rel: set<(OutPoint, ClientId)>, rel': set<(OutPoint, ClientId)>)
    requires i < |txs| && FollowedAll(encode, addrs, txs[..i], rel0, rel) && Followed(encode, addrs, txs[i], rel, rel')
    ensures FollowedAll(encode, addrs, txs[..i + 1], rel0, rel')
  {
    assert txs[..i + 1][..i] == txs[..i];
    hide Watched, Follow, HitsOf;
  }

  lemma {:induction false} NobodyFollows(encode: Address -> string, txs: seq<Tx>)
    ensures FollowedAll(encode, {}, txs, {}, {})
  {
    if txs != [] {
      var n := |txs| - 1;
      NobodyFollows(encode, txs[..n]);
      forall c ensures Creates(txs[n], HitsOf(encode, {}, c)) == {} {
      }
    }
  }

  lemma RedeemsNext(tx: Tx, i: nat, rel: set<(OutPoint, ClientId)>)
    requires i < |tx.ins|
    ensures forall c :: Redeems(tx, i + 1, rel, c)
                   <==> Redeems(tx, i, rel, c) || (!tx.crossChain && tx.ins[i].hash != ZERO_HASH && (tx.ins[i], c) in rel)
  {
    SpendsNext(tx, i);
  }

  lemma AlreadySpent(tx: Tx, i: nat, rel: set<(OutPoint, ClientId)>, op: OutPoint)
    requires i <= |tx.ins| && op in SpendsUpTo(tx, i)
    ensures forall c :: (op, c) in rel ==> Redeems(tx, i, rel, c)
  {
  }

  /** After a block, an outpoint that one of its transactions spends is watched by nobody,
      unless an output of that transaction or a later one is that outpoint. */
  lemma SpentIsUnwatched(encode: Address -> string, addrs: set<(string, ClientId)>, txs: seq<Tx>,
                         rel: set<(OutPoint, ClientId)>, rel': set<(OutPoint, ClientId)>, j: nat, op: OutPoint, c: ClientId)
    requires FollowedAll(encode, addrs, txs, rel, rel') && j < |txs| && op in Spends(txs[j])
    requires forall i :: j <= i < |txs| ==> txs[i].hash != op.hash
    ensures (op, c) !in rel'
  {
    var hits := HitsOf(encode, addrs, c);
    WatchedIs(rel', c, op);
    FollowAllExactly(txs, hits, Watched(rel, c), op);
    assert !UnspentFrom(txs, 0, op);
    NotCreatedAfter(txs, hits, j, op);
  }

  lemma NotCreatedAfter(txs: seq<Tx>, hits: Output -> bool, j: nat, op: OutPoint)
    requires j < |txs| && op in Spends(txs[j]) && forall i :: j <= i < |txs| ==> txs[i].hash != op.hash
    ensures !CreatedAndKept(txs, hits, op)
  {
    forall i | 0 <= i < |txs| ensures !(op in Creates(txs[i], hits) && UnspentFrom(txs, i + 1, op)) {
      if i < j {
        assert !UnspentFrom(txs, i + 1, op);
      }
    }
  }
}

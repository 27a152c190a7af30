/** The notification manager's loop over whole runs: what each client watches after any sequence of blocks, pool
    transactions and requests. */
module WatchRuns {
  import opened ChainScan
  import opened WatchIndex

  /** What the loop is told. */
  datatype Event =
    | Block(txs: seq<Tx>)
    | Pool(tx: Tx)
    | AddOps(client: ClientId, ops: seq<OutPoint>)
    | RemoveOp(client: ClientId, op: OutPoint)
    | AddAddrs(client: ClientId, addrs: seq<string>)
    | RemoveAddr(client: ClientId, addr: string)
    | Unregister(client: ClientId)

  /** What one client has asked for: address strings, and the outpoints it watches. */
  datatype View = View(asks: set<string>, watched: set<OutPoint>)

  /** The outputs that pay to one of the strings. */
  ghost function Hit(encode: Address -> string, asks: set<string>): Output -> bool {
    (out: Output) =>
      !out.separator && !out.bad && exists j :: 0 <= j < |out.addrs| && encode(out.addrs[j]) in asks
  }

  /** An event as one client sees it. Nothing takes back what a pool transaction adds but a block that spends it. */
  ghost function Seen(encode: Address -> string, c: ClientId, v: View, e: Event): View {
    match e
    case Block(txs) => v.(watched := FollowAll(txs, Hit(encode, v.asks), v.watched))
    case Pool(tx) => v.(watched := v.watched + Creates(tx, Hit(encode, v.asks)))
    case AddOps(d, ops) => if d == c then v.(watched := v.watched + set op | op in ops) else v
    case RemoveOp(d, op) => if d == c then v.(watched := v.watched - {op}) else v
    case AddAddrs(d, addrs) => if d == c then v.(asks := v.asks + set s | s in addrs) else v
    case RemoveAddr(d, addr) => if d == c then v.(asks := v.asks - {addr}) else v
    case Unregister(d) => if d == c then View({}, {}) else v
  }

  ghost function SeenAll(encode: Address -> string, c: ClientId, v: View, es: seq<Event>): View {
    if es == [] then v else Seen(encode, c, SeenAll(encode, c, v, es[..|es| - 1]), es[|es| - 1])
  }

  ghost function ViewOf(addrs: set<(string, ClientId)>, ops: set<(OutPoint, ClientId)>, c: ClientId): View {
    View(Watched(addrs, c), Watched(ops, c))
  }

  /** Every client's view after the event follows from its view before. */
  ghost predicate Served(encode: Address -> string, addrs: set<(string, ClientId)>, ops: set<(OutPoint, ClientId)>,
                         addrs': set<(string, ClientId)>, ops': set<(OutPoint, ClientId)>, e: Event) {
    forall c :: ViewOf(addrs', ops', c) == Seen(encode, c, ViewOf(addrs, ops, c), e)
  }

  lemma HitIs(encode: Address -> string, addrs: set<(string, ClientId)>, c: ClientId, out: Output)
    ensures Hit(encode, Watched(addrs, c))(out) <==> HitBy(encode, addrs, c, out)
  {
    forall j | 0 <= j < |out.addrs| ensures encode(out.addrs[j]) in Watched(addrs, c) <==> (encode(out.addrs[j]), c) in addrs {
      WatchedIs(addrs, c, encode(out.addrs[j]));
    }
  }

  lemma BlockSeen(encode: Address -> string, addrs: set<(string, ClientId)>, txs: seq<Tx>,
                  rel: set<(OutPoint, ClientId)>, rel': set<(OutPoint, ClientId)>)
    requires FollowedAll(encode, addrs, txs, rel, rel')
    ensures Served(encode, addrs, rel, addrs, rel', Block(txs))
  {
    hide Watched, FollowAll, Hit, HitBy;
    forall c ensures ViewOf(addrs, rel', c) == Seen(encode, c, ViewOf(addrs, rel, c), Block(txs)) {
      forall out ensures Hit(encode, Watched(addrs, c))(out) == HitsOf(encode, addrs, c)(out) {
        HitIs(encode, addrs, c, out);
      }
      SameHits(txs, Hit(encode, Watched(addrs, c)), HitsOf(encode, addrs, c), Watched(rel, c));
    }
  }

  lemma PoolSeen(encode: Address -> string, addrs: set<(string, ClientId)>, tx: Tx,
                 rel: set<(OutPoint, ClientId)>, rel': set<(OutPoint, ClientId)>)
    requires forall c :: Watched(rel', c) == Watched(rel, c) + Creates(tx, HitsOf(encode, addrs, c))
    ensures Served(encode, addrs, rel, addrs, rel', Pool(tx))
  {
    hide Watched, Creates, Hit, HitBy;
    forall c ensures ViewOf(addrs, rel', c) == Seen(encode, c, ViewOf(addrs, rel, c), Pool(tx)) {
      forall out ensures Hit(encode, Watched(addrs, c))(out) == HitsOf(encode, addrs, c)(out) {
        HitIs(encode, addrs, c, out);
      }
      SameCreates(tx, Hit(encode, Watched(addrs, c)), HitsOf(encode, addrs, c));
    }
  }

  /** A relation that gains or loses pairs of one client. */
  lemma WatchedChange<K(!new)>(rel: set<(K, ClientId)>, rel': set<(K, ClientId)>, d: ClientId, more: set<K>, less: set<K>)
    requires forall k, c :: (k, c) in rel' <==> ((k, c) in rel && !(c == d && k in less)) || (c == d && k in more)
    ensures forall c :: Watched(rel', c) == if c == d then (Watched(rel, c) - less) + more else Watched(rel, c)
  {
    hide Watched;
    forall c ensures Watched(rel', c) == if c == d then (Watched(rel, c) - less) + more else Watched(rel, c) {
      forall k ensures k in Watched(rel', c) <==> k in if c == d then (Watched(rel, c) - less) + more else Watched(rel, c) {
        WatchedIs(rel', c, k);
        WatchedIs(rel, c, k);
      }
    }
  }

  lemma WatchedDropped<K(!new)>(rel: set<(K, ClientId)>, rel': set<(K, ClientId)>, d: ClientId)
    requires forall k, c :: (k, c) in rel' <==> (k, c) in rel && c != d
    ensures forall c :: Watched(rel', c) == if c == d then {} else Watched(rel, c)
  {
    hide Watched;
    forall c ensures Watched(rel', c) == if c == d then {} else Watched(rel, c) {
      forall k ensures k in Watched(rel', c) <==> k in if c == d then {} else Watched(rel, c) {
        WatchedIs(rel', c, k);
        WatchedIs(rel, c, k);
      }
    }
  }

  /** One turn of the loop for a request of a client. */
  method ServeRequest(m: Manager, e: Event)
    requires m.Valid() && !e.Block? && !e.Pool?
    modifies m, m.ops, m.addrs
    ensures forall k, c :: (k, c) in m.ops.rel <==>
              || (e.AddOps? && c == e.client && k in e.ops)
              || ((k, c) in old(m.ops.rel) && !(c == e.client && (e.Unregister? || (e.RemoveOp? && k == e.op))))
    ensures forall s, c :: (s, c) in m.addrs.rel <==>
              || (e.AddAddrs? && c == e.client && s in e.addrs)
              || ((s, c) in old(m.addrs.rel) && !(c == e.client && (e.Unregister? || (e.RemoveAddr? && s == e.addr))))
    ensures m.Valid() && Served(m.encode, old(m.addrs.rel), old(m.ops.rel), m.addrs.rel, m.ops.rel, e)
  {
    hide Watched, FollowAll, Hit;
    match e
    case AddOps(d, ops) =>
      m.ops.AddAll(d, ops);
      WatchedChange(old(m.ops.rel), m.ops.rel, d, set op | op in ops, {});
    case RemoveOp(d, op) =>
      m.ops.Remove(d, op);
      WatchedChange(old(m.ops.rel), m.ops.rel, d, {}, {op});
    case AddAddrs(d, addrs) =>
      m.addrs.AddAll(d, addrs);
      WatchedChange(old(m.addrs.rel), m.addrs.rel, d, set s | s in addrs, {});
    case RemoveAddr(d, addr) =>
      m.addrs.Remove(d, addr);
      WatchedChange(old(m.addrs.rel), m.addrs.rel, d, {}, {addr});
    case Unregister(d) =>
      m.UnregisterClient(d);
      WatchedDropped(old(m.ops.rel), m.ops.rel, d);
      WatchedDropped(old(m.addrs.rel), m.addrs.rel, d);
  }

  /** One turn of the loop. */
  method Serve(m: Manager, e: Event)
    requires m.Valid()
    modifies m, m.ops, m.addrs
    ensures m.Valid() && Served(m.encode, old(m.addrs.rel), old(m.ops.rel), m.addrs.rel, m.ops.rel, e)
  {
    hide Served, FollowedAll, Watched;
    match e {
      case Block(txs) =>
        m.BlockConnected(txs);
        BlockSeen(m.encode, m.addrs.rel, txs, old(m.ops.rel), m.ops.rel);
      case Pool(tx) =>
        var _, _ := m.NotifyForTx(tx, false);
        PoolSeen(m.encode, m.addrs.rel, tx, old(m.ops.rel), m.ops.rel);
      case _ =>
        ServeRequest(m, e);
    }
  }

  /** The loop: whatever happens, in whatever order and to whomever, each client's view is the fold of the events over
      the view it had. */
  method ServeAll(m: Manager, es: seq<Event>)
    requires m.Valid()
    modifies m, m.ops, m.addrs
    ensures m.Valid()
    ensures forall c :: ViewOf(m.addrs.rel, m.ops.rel, c) == SeenAll(m.encode, c, old(ViewOf(m.addrs.rel, m.ops.rel, c)), es)
  {
    hide Seen, ViewOf;
    for i := 0 to |es|
      invariant m.Valid()
      invariant forall c ::
        ViewOf(m.addrs.rel, m.ops.rel, c) == SeenAll(m.encode, c, old(ViewOf(m.addrs.rel, m.ops.rel, c)), es[..i])
    {
      Serve(m, es[i]);
      assert es[..i + 1][..i] == es[..i];
    }
    assert es[..|es|] == es;
  }

  // ------------------------------------------- a client that makes no requests

  /** No event is a request of client c. */
  ghost predicate Quiet(c: ClientId, es: seq<Event>) {
    forall i :: 0 <= i < |es| ==> es[i].Block? || es[i].Pool? || es[i].client != c
  }

  /** The transactions of the blocks, in order. */
  ghost function Mined(es: seq<Event>): seq<Tx> {
    if es == [] then [] else Mined(es[..|es| - 1]) + if es[|es| - 1].Block? then es[|es| - 1].txs else []
  }

  /** A pool transaction created op by a hit, and no later block spends it. */
  ghost predicate PooledAndKept(es: seq<Event>, hit: Output -> bool, op: OutPoint) {
    exists i :: 0 <= i < |es| && PooledAt(es, hit, op, i)
  }

  ghost predicate PooledAt(es: seq<Event>, hit: Output -> bool, op: OutPoint, i: nat)
    requires i < |es|
  {
    es[i].Pool? && op in Creates(es[i].tx, hit) && UnspentFrom(Mined(es[i + 1..]), 0, op)
  }

  lemma MinedLast(es: seq<Event>, i: nat)
    requires i < |es|
    ensures var n := |es| - 1;
            i < n ==> Mined(es[i + 1..]) == Mined(es[..n][i + 1..]) + if es[n].Block? then es[n].txs else []
    ensures i == |es| - 1 ==> Mined(es[i + 1..]) == []
  {
    var n := |es| - 1;
    if i < n {
      assert es[i + 1..][..n - i - 1] == es[..n][i + 1..];
      assert es[i + 1..][n - i - 1] == es[n];
    }
  }

  lemma UnspentConcat(s: seq<Tx>, t: seq<Tx>, op: OutPoint)
    ensures UnspentFrom(s + t, 0, op) <==> UnspentFrom(s, 0, op) && UnspentFrom(t, 0, op)
  {
    hide Spends;
    if UnspentFrom(s + t, 0, op) {
      forall j | 0 <= j < |s| ensures op !in Spends(s[j]) { assert (s + t)[j] == s[j]; }
      forall j | 0 <= j < |t| ensures op !in Spends(t[j]) { assert (s + t)[|s| + j] == t[j]; }
    }
  }

  /** How the last event changes what the pool has left. */
  lemma PooledLast(es: seq<Event>, hit: Output -> bool, op: OutPoint)
    requires es != []
    ensures var n := |es| - 1;
            PooledAndKept(es, hit, op) <==>
            || (es[n].Pool? && op in Creates(es[n].tx, hit))
            || (PooledAndKept(es[..n], hit, op) && (es[n].Block? ==> UnspentFrom(es[n].txs, 0, op)))
  {
    var n := |es| - 1;
    var front := es[..n];
    var last := if es[n].Block? then es[n].txs else [];
    MinedLast(es, n);
    forall i | 0 <= i < n
      ensures PooledAt(es, hit, op, i) <==> PooledAt(front, hit, op, i) && UnspentFrom(last, 0, op)
    {
      MinedLast(es, i);
      UnspentConcat(Mined(front[i + 1..]), last, op);
      hide Creates, Spends, Mined, UnspentFrom;
      assert front[i] == es[i];
    }
    assert PooledAt(es, hit, op, n) <==> es[n].Pool? && op in Creates(es[n].tx, hit);
    hide PooledAt;
  }

  /** A client that makes no requests keeps its strings, and watches in the end exactly what following the blocks
      leaves, and what pool transactions created by a hit and no later block spent. */
  lemma {:induction false} LiveExactly(encode: Address -> string, c: ClientId, v: View, es: seq<Event>, op: OutPoint)
    requires Quiet(c, es)
    ensures var hit := Hit(encode, v.asks);
            && SeenAll(encode, c, v, es).asks == v.asks
            && (op in SeenAll(encode, c, v, es).watched <==>
                op in FollowAll(Mined(es), hit, v.watched) || PooledAndKept(es, hit, op))
  {
    if es != [] {
      var n := |es| - 1;
      var front := es[..n];
      var hit := Hit(encode, v.asks);
      var w := SeenAll(encode, c, v, front);
      assert Quiet(c, front);
      LiveExactly(encode, c, v, front, op);
      PooledLast(es, hit, op);
      LastSeen(encode, c, w, es[n], op);
      assert Mined(es) == Mined(front) + if es[n].Block? then es[n].txs else [];
      if es[n].Block? {
        FollowAllConcat(Mined(front), es[n].txs, hit, v.watched);
        FollowAllExactly(es[n].txs, hit, FollowAll(Mined(front), hit, v.watched), op);
      } else {
        assert Mined(es) == Mined(front);
      }
      hide FollowAll, Creates, PooledAndKept, Seen, Hit, Mined, CreatedAndKept, UnspentFrom;
    }
  }

  lemma LastSeen(encode: Address -> string, c: ClientId, w: View, e: Event, op: OutPoint)
    requires e.Block? || e.Pool? || e.client != c
    ensures var hit := Hit(encode, w.asks);
            && Seen(encode, c, w, e).asks == w.asks
            && (e.Block? ==>
                  (op in Seen(encode, c, w, e).watched <==>
                   (op in w.watched && UnspentFrom(e.txs, 0, op)) || CreatedAndKept(e.txs, hit, op)))
            && (e.Pool? ==> (op in Seen(encode, c, w, e).watched <==> op in w.watched || op in Creates(e.tx, hit)))
            && (!e.Block? && !e.Pool? ==> Seen(encode, c, w, e) == w)
  {
    if e.Block? {
      FollowAllExactly(e.txs, Hit(encode, w.asks), w.watched, op);
    }
  }
}

/** The address manager as it runs: one object per known address, shared by the index, the new
    buckets and the tried lists and updated in place. Each method is proved to do to the
    abstract tables what module AddrBook says, so the lemmas of AddrRuns hold of it. */
module AddrManager {
  import opened Options
  import opened AddrBook
  import opened AddrRuns
  import opened AddrStore
  import opened Shuffling

  const GET_ADDR_MAX := 2500
  const GET_ADDR_PERCENT := 23

  class KnownAddress {
    ghost const key: Key
    var na: NetAddress
    var srcAddr: NetAddress
    var attempts: int
    var lastattempt: Time
    var lastsuccess: Time
    var tried: bool
    var refs: int

    constructor (ghost key: Key, na: NetAddress, srcAddr: NetAddress)
      ensures this.key == key
      ensures Record() == Info(na, srcAddr, 0, ZERO_TIME, ZERO_TIME, false, 0)
    {
      this.key := key;
      this.na, this.srcAddr := na, srcAddr;
      attempts, lastattempt, lastsuccess := 0, ZERO_TIME, ZERO_TIME;
      tried, refs := false, 0;
    }

    ghost function Record(): Info
      reads this
    {
      Info(na, srcAddr, attempts, lastattempt, lastsuccess, tried, refs)
    }
  }

  /** Each indexed object is filed under its own key and carries the abstract record. */
  ghost predicate IndexLinked(addrIndex: map<Key, KnownAddress>, repr: set<KnownAddress>, index: map<Key, Info>)
    reads repr
  {
    && addrIndex.Keys == index.Keys
    && forall k :: k in addrIndex ==>
         addrIndex[k] in repr && addrIndex[k].key == k && addrIndex[k].Record() == index[k]
  }

  /** Every new-bucket entry is the indexed object itself, not a copy. */
  ghost predicate NewLinked(addrNew: seq<map<Key, KnownAddress>>, addrIndex: map<Key, KnownAddress>, news: seq<set<Key>>) {
    && |addrNew| == |news| == NEW_BUCKET_COUNT
    && (forall i :: 0 <= i < |addrNew| ==> addrNew[i].Keys == news[i])
    && (forall i, k :: 0 <= i < |addrNew| && k in addrNew[i] ==> k in addrIndex && addrNew[i][k] == addrIndex[k])
  }

  /** Likewise every tried entry. */
  ghost predicate TriedLinked(addrTried: seq<seq<KnownAddress>>, addrIndex: map<Key, KnownAddress>, tried: seq<seq<Key>>) {
    && |addrTried| == |tried| == TRIED_BUCKET_COUNT
    && (forall i :: 0 <= i < |addrTried| ==> |addrTried[i]| == |tried[i]|)
    && (forall i, j :: 0 <= i < |addrTried| && 0 <= j < |addrTried[i]| ==>
          var k := tried[i][j]; k in addrIndex && addrIndex[k] == addrTried[i][j])
  }

  lemma ReleaseLinks(addrNew: seq<map<Key, KnownAddress>>, addrTried: seq<seq<KnownAddress>>,
                     addrIndex: map<Key, KnownAddress>, b: Book, bucket: nat, k: Key)
    requires NewLinked(addrNew, addrIndex, b.news) && TriedLinked(addrTried, addrIndex, b.tried)
    requires k in b.index && bucket < |addrNew| && Loose(b, bucket, k)
    ensures var rest := if b.index[k].refs == 1 then addrIndex - {k} else addrIndex;
            && NewLinked(addrNew[bucket := addrNew[bucket] - {k}], rest, Released(b, bucket, k).news)
            && TriedLinked(addrTried, rest, b.tried)
  {
  }

  /** Putting an indexed object into a new bucket, and taking it out of one. */
  lemma PutLinks(addrNew: seq<map<Key, KnownAddress>>, addrIndex: map<Key, KnownAddress>, news: seq<set<Key>>,
                 bucket: nat, k: Key)
    requires NewLinked(addrNew, addrIndex, news) && bucket < |addrNew| && k in addrIndex
    ensures bucket < |news|
    ensures NewLinked(addrNew[bucket := addrNew[bucket][k := addrIndex[k]]], addrIndex, news[bucket := news[bucket] + {k}])
  {
  }

  lemma TakeLinks(addrNew: seq<map<Key, KnownAddress>>, addrIndex: map<Key, KnownAddress>, news: seq<set<Key>>,
                  bucket: nat, k: Key)
    requires NewLinked(addrNew, addrIndex, news) && bucket < |addrNew|
    ensures bucket < |news|
    ensures NewLinked(addrNew[bucket := addrNew[bucket] - {k}], addrIndex, news[bucket := news[bucket] - {k}])
  {
  }

  /** Appending to a tried list, and taking a place in one. */
  lemma PushLinks(addrTried: seq<seq<KnownAddress>>, addrIndex: map<Key, KnownAddress>, tried: seq<seq<Key>>,
                  bucket: nat, k: Key)
    requires TriedLinked(addrTried, addrIndex, tried) && bucket < |addrTried| && k in addrIndex
    ensures bucket < |tried|
    ensures TriedLinked(addrTried[bucket := addrTried[bucket] + [addrIndex[k]]], addrIndex,
                        tried[bucket := tried[bucket] + [k]])
  {
  }

  lemma SeatLinks(addrTried: seq<seq<KnownAddress>>, addrIndex: map<Key, KnownAddress>, tried: seq<seq<Key>>,
                  bucket: nat, e: nat, k: Key)
    requires TriedLinked(addrTried, addrIndex, tried) && bucket < |addrTried| && e < |addrTried[bucket]| && k in addrIndex
    ensures bucket < |tried| && e < |tried[bucket]|
    ensures TriedLinked(addrTried[bucket := addrTried[bucket][e := addrIndex[k]]], addrIndex,
                        tried[bucket := tried[bucket][e := k]])
  {
  }

  lemma IndexLess(addrIndex: map<Key, KnownAddress>, repr: set<KnownAddress>, index: map<Key, Info>, k: Key)
    requires IndexLinked(addrIndex, repr, index)
    ensures IndexLinked(addrIndex - {k}, repr, index - {k})
  {
  }

  lemma IndexMore(addrIndex: map<Key, KnownAddress>, repr: set<KnownAddress>, index: map<Key, Info>, k: Key, ka: KnownAddress)
    requires IndexLinked(addrIndex, repr, index) && ka.key == k
    ensures IndexLinked(addrIndex[k := ka], repr + {ka}, index[k := ka.Record()])
  {
  }

  lemma EnrollLinks(addrNew: seq<map<Key, KnownAddress>>, addrTried: seq<seq<KnownAddress>>,
                    addrIndex: map<Key, KnownAddress>, b: Book, k: Key, ka: KnownAddress)
    requires NewLinked(addrNew, addrIndex, b.news) && TriedLinked(addrTried, addrIndex, b.tried)
    requires k !in addrIndex
    ensures NewLinked(addrNew, addrIndex[k := ka], b.news) && TriedLinked(addrTried, addrIndex[k := ka], b.tried)
  {
  }

  lemma NotedSame(b: Book, k: Key)
    requires k in b.index
    ensures Noted(b, k, b.index[k]) == b
  {
    assert b.index[k := b.index[k]] == b.index;
  }

  /** The generator's number below n; n must be positive. */
  function Int31n(roll: nat, n: int): (r: nat)
    requires n > 0
    ensures r < n
  {
    roll % n
  }

  class AddrManager {
    const env: Env
    const externalips: set<Key>
    var key: Bytes
    var addrIndex: map<Key, KnownAddress>
    var addrNew: seq<map<Key, KnownAddress>>
    var addrTried: seq<seq<KnownAddress>>
    var nTried: int
    var nNew: int

    /** The abstract tables, and the address objects in use. */
    ghost var book: Book
    ghost var repr: set<KnownAddress>

    /** The objects represent the abstract tables. */
    ghost predicate Linked()
      reads this, repr
    {
      && book.secret == key && book.nNew == nNew && book.nTried == nTried
      && IndexLinked(addrIndex, repr, book.index)
      && NewLinked(addrNew, addrIndex, book.news)
      && TriedLinked(addrTried, addrIndex, book.tried)
    }

    ghost predicate Valid()
      reads this, repr
    {
      Linked() && Inv(env, book)
    }

    constructor (env: Env, externalips: set<Key>, key: Bytes)
      ensures Valid() && book == Fresh(key)
      ensures this.env == env && this.externalips == externalips && repr == {}
    {
      this.env := env;
      this.externalips := externalips;
      this.key := key;
      addrIndex := map[];
      addrNew := seq(NEW_BUCKET_COUNT, _ => map[]);
      addrTried := seq(TRIED_BUCKET_COUNT, _ => []);
      nTried, nNew := 0, 0;
      book := Fresh(key);
      repr := {};
      FreshInv(env, key);
    }

    /** After updates of one indexed object, the index carries its new record. */
    twostate lemma IndexAfter(ka: KnownAddress)
      requires old(IndexLinked(addrIndex, repr, book.index)) && old(addrIndex) == addrIndex
      requires old(book) == book && old(repr) == repr
      requires ka.key in addrIndex && addrIndex[ka.key] == ka
      requires forall o :: o in repr && o != ka ==> o.Record() == old(o.Record())
      ensures IndexLinked(addrIndex, repr, book.index[ka.key := ka.Record()])
    {
    }

    /** What the links say of one indexed object. */
    lemma OwnFacts(k: Key)
      requires Linked() && k in addrIndex
      ensures addrIndex[k] in repr && addrIndex[k].key == k && k in book.index && addrIndex[k].Record() == book.index[k]
      ensures |addrNew| == |book.news| == NEW_BUCKET_COUNT && |addrTried| == |book.tried| == TRIED_BUCKET_COUNT
    {
      hide NewLinked, TriedLinked;
      SizeFacts();
    }

    lemma SizeFacts()
      requires Linked()
      ensures |addrNew| == |book.news| == NEW_BUCKET_COUNT && |addrTried| == |book.tried| == TRIED_BUCKET_COUNT
    {
      hide IndexLinked;
    }

    lemma HeldObject(bucket: nat, k: Key)
      requires Linked() && bucket < |addrNew| && k in addrNew[bucket]
      ensures k in addrIndex && addrNew[bucket][k] == addrIndex[k]
    {
      hide IndexLinked, TriedLinked;
    }

    method Find(addr: NetAddress) returns (ka: KnownAddress?)
      requires Linked()
      ensures ka == null <==> env.KeyOf(addr) !in addrIndex
      ensures ka != null ==> ka == addrIndex[env.KeyOf(addr)]
    {
      var k := env.KeyOf(addr);
      ka := if k in addrIndex then addrIndex[k] else null;
    }

    // ------------------------------------------------------------ expireNew

    /** Takes one address out of a new bucket, and out of the index when that was its last reference. */
    method Release(bucket: nat, k: Key)
      requires Linked() && bucket < |addrNew| && k in addrNew[bucket] && Loose(book, bucket, k)
      modifies this`addrIndex, this`addrNew, this`nNew, this`book, {addrIndex[k]}`refs
      ensures Linked()
      ensures book == Released(old(book), bucket, k)
      ensures Within(addrIndex, old(addrIndex))
    {
      hide IndexLinked, NewLinked, TriedLinked, Loose;
      HeldObject(bucket, k);
      OwnFacts(k);
      ReleaseLinks(addrNew, addrTried, addrIndex, book, bucket, k);
      ghost var index := book.index;
      var v := addrNew[bucket][k];
      addrNew := addrNew[bucket := addrNew[bucket] - {k}];
      v.refs := v.refs - 1;
      IndexAfter(v);
      if v.refs == 0 {
        IndexLess(addrIndex, repr, index[k := v.Record()], k);
        assert index[k := v.Record()] - {k} == index - {k};
        nNew := nNew - 1;
        addrIndex := addrIndex - {k};
      }
      book := Released(book, bucket, k);
    }

    /** The bad ones among the seen addresses are dropped, and oldest is an oldest of the others. */
    ghost predicate Expiring(b: Book, bucket: nat, bad: set<Key>, seen: set<Key>, oldest: KnownAddress?)
      requires bucket < |b.news| && seen <= b.index.Keys
      reads this, repr
    {
      && Linked() && book == DropRefs(b, bucket, seen * bad)
      && if oldest == null then seen <= bad
         else oldest.key in addrIndex && addrIndex[oldest.key] == oldest && IsOldest(b, oldest.key, seen - bad)
    }

    /** One turn of the expiry loop, at address k. */
    method ExpireVisit(bucket: nat, bad: set<Key>, k: Key, oldest: KnownAddress?, ghost b: Book, ghost seen: set<Key>)
      returns (oldest': KnownAddress?)
      requires bucket < |b.news| && Expirable(env, b, bucket) && seen <= b.news[bucket]
      requires k in b.news[bucket] - seen
      requires Expiring(b, bucket, bad, seen, oldest)
      modifies this`addrIndex, this`addrNew, this`nNew, this`book, repr`refs
      ensures Expiring(b, bucket, bad, seen + {k}, oldest')
      ensures Within(addrIndex, old(addrIndex))
    {
      ExpireStep(env, b, bucket, seen * bad, k);
      var v := addrNew[bucket][k];
      oldest' := oldest;
      if k in bad {
        assert (seen + {k}) * bad == seen * bad + {k};
        assert seen + {k} - bad == seen - bad;
        Release(bucket, k);
      } else {
        assert (seen + {k}) * bad == seen * bad;
        if oldest == null || !(v.na.timestamp > oldest.na.timestamp) {
          oldest' := v;
        }
      }
    }

    lemma ExpiringStart(bucket: nat, bad: set<Key>)
      requires Linked() && bucket < |addrNew| && Expirable(env, book, bucket)
      ensures bucket < |book.news| && addrNew[bucket].Keys == book.news[bucket] <= book.index.Keys
      ensures Expiring(book, bucket, bad, {}, null)
    {
      DropNone(book, bucket);
      assert {} * bad == {};
    }

    /** The expiry loop; the visiting order is arbitrary. */
    method ExpireScan(bucket: nat, bad: set<Key>) returns (oldest: KnownAddress?)
      requires Linked() && bucket < |addrNew| && Expirable(env, book, bucket)
      modifies this`addrIndex, this`addrNew, this`nNew, this`book, repr`refs
      ensures Expiring(old(book), bucket, bad, old(addrNew[bucket].Keys), oldest)
      ensures Within(addrIndex, old(addrIndex))
    {
      hide *;
      ExpiringStart(bucket, bad);
      ghost var b := book;
      ghost var seen := {};
      var todo := addrNew[bucket].Keys;
      oldest := null;
      WithinSelf(addrIndex);
      while todo != {}
        invariant seen + todo == b.news[bucket] && seen !! todo
        invariant Expiring(b, bucket, bad, seen, oldest)
        invariant Within(addrIndex, old(addrIndex))
        decreases todo
      {
        var k :| k in todo;
        ghost var before := addrIndex;
        oldest := ExpireVisit(bucket, bad, k, oldest, b, seen);
        WithinTrans(addrIndex, before, old(addrIndex));
        todo, seen := todo - {k}, seen + {k};
      }
      assert seen == b.news[bucket];
    }

    /** Empties a bucket of its bad addresses and of one oldest remaining address. */
    method ExpireNew(bucket: nat, bad: set<Key>) returns (ghost victim: Option<Key>)
      requires Linked() && bucket < |addrNew| && Expirable(env, book, bucket)
      modifies this`addrIndex, this`addrNew, this`nNew, this`book, repr`refs
      ensures Linked()
      ensures IsVictim(old(book), bucket, bad, victim)
      ensures book == Expired(old(book), bucket, bad, victim)
      ensures Within(addrIndex, old(addrIndex))
    {
      ghost var b := book;
      ghost var all := addrNew[bucket].Keys;
      var oldest := ExpireScan(bucket, bad);
      victim := if oldest == null then None else Some(oldest.key);
      if oldest != null {
        ghost var before := addrIndex;
        ExpireStep(env, b, bucket, all * bad, oldest.key);
        ExpireOldest(bucket, oldest);
        WithinTrans(addrIndex, before, old(addrIndex));
      } else {
        assert all * bad + {} == all * bad;
      }
    }

    /** The step after the expiry loop. */
    method ExpireOldest(bucket: nat, oldest: KnownAddress)
      requires Linked() && bucket < |addrNew| && env.KeyOf(oldest.na) == oldest.key
      requires oldest.key in addrIndex && addrIndex[oldest.key] == oldest && oldest.key in addrNew[bucket]
      requires Loose(book, bucket, oldest.key)
      modifies this`addrIndex, this`addrNew, this`nNew, this`book, {oldest}`refs
      ensures Linked() && book == Released(old(book), bucket, oldest.key)
      ensures Within(addrIndex, old(addrIndex))
    {
      Release(bucket, env.KeyOf(oldest.na));
    }

    // -------------------------------------------------------- updateAddress

    /** Replaces the address record of a known address; records themselves are never changed. */
    method Replace(ka: KnownAddress, na: NetAddress)
      requires Linked() && ka.key in addrIndex && addrIndex[ka.key] == ka
      modifies this`book, ka`na
      ensures Linked() && book == Noted(old(book), ka.key, old(book).index[ka.key].(na := na))
    {
      hide IndexLinked, NewLinked, TriedLinked;
      OwnFacts(ka.key);
      ka.na := na;
      IndexAfter(ka);
      book := Noted(book, ka.key, book.index[ka.key].(na := na));
    }

    /** Announced again: a newer time stamp or a new service replaces the address record. */
    method Refresh(ka: KnownAddress, netAddr: NetAddress)
      requires Linked() && ka.key in addrIndex && addrIndex[ka.key] == ka
      modifies this`book, ka`na
      ensures Linked() && book == Noted(old(book), ka.key, Refreshed(old(book).index[ka.key], netAddr))
    {
      hide IndexLinked, NewLinked, TriedLinked;
      OwnFacts(ka.key);
      if netAddr.timestamp > ka.na.timestamp || !(netAddr.services <= ka.na.services) {
        Replace(ka, ka.na.(timestamp := netAddr.timestamp, services := ka.na.services + netAddr.services));
      } else {
        NotedSame(book, ka.key);
      }
    }

    /** A new address enters the index. */
    method Enroll(k: Key, netAddr: NetAddress, srcAddr: NetAddress) returns (ka: KnownAddress)
      requires Linked() && k !in addrIndex
      modifies this`addrIndex, this`nNew, this`book, this`repr
      ensures Linked() && book == Enrolled(old(book), k, netAddr, srcAddr)
      ensures addrIndex == old(addrIndex)[k := ka] && fresh(ka) && repr == old(repr) + {ka}
    {
      hide IndexLinked, NewLinked, TriedLinked;
      ka := new KnownAddress(k, netAddr, srcAddr);
      EnrollLinks(addrNew, addrTried, addrIndex, book, k, ka);
      IndexMore(addrIndex, repr, book.index, k, ka);
      addrIndex := addrIndex[k := ka];
      nNew := nNew + 1;
      repr := repr + {ka};
      book := Enrolled(book, k, netAddr, srcAddr);
    }

    method PutInBucket(k: Key, ka: KnownAddress, bucket: nat)
      requires Linked() && bucket < |addrNew| && k in addrIndex && addrIndex[k] == ka
      modifies this`addrNew, this`book, ka`refs
      ensures Linked() && book == AddRef(old(book), k, bucket)
    {
      hide IndexLinked, NewLinked, TriedLinked;
      OwnFacts(k);
      PutLinks(addrNew, addrIndex, book.news, bucket, k);
      ka.refs := ka.refs + 1;
      IndexAfter(ka);
      addrNew := addrNew[bucket := addrNew[bucket][k := ka]];
      book := AddRef(book, k, bucket);
    }

    /** Puts the address into a new bucket, expiring others first when the bucket is over full. */
    method Place(k: Key, ka: KnownAddress, bucket: nat, bad: set<Key>, ghost roll: nat) returns (ghost c: Choice)
      requires Linked() && InvBut(env, book, k) && bucket < |addrNew| && k in addrIndex && addrIndex[k] == ka
      requires k !in addrNew[bucket]
      modifies this`addrIndex, this`addrNew, this`nNew, this`book, repr`refs
      ensures Linked() && c.roll == roll && c.bad == bad && IsVictim(old(book), bucket, bad, c.victim)
      ensures book == Placed(old(book), k, bucket, c)
    {
      hide Keyed, RefsExact, StatusBut, TriedSound, Counted, Bounded, DropRefs, AddRef;
      if |addrNew[bucket]| > NEW_BUCKET_SIZE {
        ghost var b := book;
        InvExpirable(env, book, k, bucket);
        ghost var victim := ExpireNew(bucket, bad);
        ExpiredKeeps(b, bucket, bad, victim, k);
        c := Choice(roll, bad, victim);
      } else {
        ghost var victim := SomeVictim(book, bucket, bad);
        c := Choice(roll, bad, victim);
      }
      PutInBucket(k, ka, bucket);
    }

    /** Whether a known address goes on to a new bucket: it is untried, below the reference
        limit, and the generator returns zero. */
    method Chosen(ka: KnownAddress, roll: nat) returns (yes: bool)
      requires Linked() && Inv(env, book) && ka.key in addrIndex && addrIndex[ka.key] == ka
      ensures yes == Rolled(book.index[ka.key], Choice(roll, {}, None))
    {
      assert ka.Record() == book.index[ka.key];
      if ka.tried { return false; }
      if ka.refs == NEW_BUCKETS_PER_ADDRESS { return false; }
      var factor := 2 * ka.refs;
      return Int31n(roll, factor) == 0;
    }

    lemma LinkFacts(bucket: nat, k: Key)
      requires Linked() && bucket < NEW_BUCKET_COUNT
      ensures key == book.secret && addrIndex.Keys == book.index.Keys
      ensures k in addrIndex ==> addrIndex[k] in repr && addrIndex[k].key == k && addrIndex[k].Record() == book.index[k]
      ensures bucket < |addrNew| && bucket < |book.news| && addrNew[bucket].Keys == book.news[bucket]
    {
    }

    /** A known address announced again. */
    method UpdateKnown(ka: KnownAddress, netAddr: NetAddress, srcAddr: NetAddress, roll: nat, bad: set<Key>)
      returns (ghost c: Choice)
      requires Valid() && env.KeyOf(netAddr) in addrIndex && addrIndex[env.KeyOf(netAddr)] == ka
      modifies this`addrIndex, this`addrNew, this`nNew, this`book, repr`na, repr`refs
      ensures Linked() && c.roll == roll && c.bad == bad && Fair(env, old(book), netAddr, srcAddr, c)
      ensures book == UpdatedKnown(env, old(book), netAddr, srcAddr, c)
    {
      hide Keyed, Indexed, RefsExact, Status, TriedSound, Counted, Bounded, Linked, Refreshed, IsVictim;
      var k := env.KeyOf(netAddr);
      var bucket := env.NewBucket(key, netAddr, srcAddr);
      ghost var b := book;
      LinkFacts(bucket, k);
      ghost var victim := SomeVictim(b, bucket, bad);
      c := Choice(roll, bad, victim);
      RefreshedKeepsInv(env, b, k, netAddr);
      Refresh(ka, netAddr);
      LinkFacts(bucket, k);
      var go := Chosen(ka, roll);
      if !go { return; }
      if k in addrNew[bucket] { return; }
      RolledIsInvBut(env, book, k, c);
      c := Place(k, ka, bucket, bad, roll);
      VictimBeforeNote(b, k, Refreshed(b.index[k], netAddr), bucket, c);
    }

    /** An address heard of for the first time. */
    method UpdateUnknown(netAddr: NetAddress, srcAddr: NetAddress, roll: nat, bad: set<Key>) returns (ghost c: Choice)
      requires Valid() && env.KeyOf(netAddr) !in addrIndex
      modifies this`addrIndex, this`addrNew, this`nNew, this`book, this`repr, repr`refs
      ensures Linked() && fresh(repr - old(repr))
      ensures c.roll == roll && c.bad == bad && Fair(env, old(book), netAddr, srcAddr, c)
      ensures book == UpdatedUnknown(env, old(book), netAddr, srcAddr, c)
    {
      hide Keyed, Indexed, RefsExact, Status, TriedSound, Counted, Bounded, Linked, IsVictim;
      var k := env.KeyOf(netAddr);
      var bucket := env.NewBucket(key, netAddr, srcAddr);
      ghost var b := book;
      LinkFacts(bucket, k);
      EnrolledKeepsInv(env, b, k, netAddr, srcAddr);
      var ka := Enroll(k, netAddr, srcAddr);
      LinkFacts(bucket, k);
      c := Place(k, ka, bucket, bad, roll);
      VictimBeforeEnrolling(b, k, netAddr, srcAddr, bucket, c);
    }

    /** Adds an address, or takes note that it was announced again. */
    method UpdateAddress(netAddr: NetAddress, srcAddr: NetAddress, roll: nat, bad: set<Key>) returns (ghost c: Choice)
      requires Valid()
      modifies this`addrIndex, this`addrNew, this`nNew, this`book, this`repr, repr`na, repr`refs
      ensures Valid() && fresh(repr - old(repr))
      ensures c.roll == roll && c.bad == bad && Fair(env, old(book), netAddr, srcAddr, c)
      ensures book == Updated(env, externalips, old(book), netAddr, srcAddr, c)
    {
      hide Keyed, Indexed, RefsExact, Status, TriedSound, Counted, Bounded, Linked, IsVictim, UpdatedKnown, UpdatedUnknown;
      ghost var b := book;
      LinkFacts(env.NewBucket(key, netAddr, srcAddr), env.KeyOf(netAddr));
      ghost var victim := SomeVictim(b, env.NewBucket(key, netAddr, srcAddr), bad);
      c := Choice(roll, bad, victim);
      if !env.routable(netAddr.ip) { return; }
      if env.KeyOf(netAddr) in externalips { return; }
      var ka := Find(netAddr);
      if ka != null {
        c := UpdateKnown(ka, netAddr, srcAddr, roll, bad);
      } else {
        c := UpdateUnknown(netAddr, srcAddr, roll, bad);
      }
      UpdatedKeepsInv(env, externalips, b, netAddr, srcAddr, c);
    }

    // ----------------------------------------------------------------- good

    /** Records the success; k is in the same tables as before. */
    method Succeed(ka: KnownAddress, now: Time)
      requires Linked() && ka.key in addrIndex && addrIndex[ka.key] == ka
      modifies this`book, ka`lastsuccess, ka`lastattempt, ka`attempts
      ensures Linked() && book == Noted(old(book), ka.key, Succeeded(old(book).index[ka.key], now))
    {
      hide IndexLinked, NewLinked, TriedLinked;
      OwnFacts(ka.key);
      ka.lastsuccess := now;
      ka.lastattempt := now;
      ka.attempts := 0;
      IndexAfter(ka);
      book := Noted(book, ka.key, Succeeded(book.index[ka.key], now));
    }

    /** Deletes the address from one new bucket that holds it. */
    method TakeOut(k: Key, ka: KnownAddress, i: nat)
      requires Linked() && k in addrIndex && addrIndex[k] == ka && i < |addrNew| && i < |book.news|
      modifies this`addrNew, this`book, ka`refs
      ensures Linked() && book == TakenOut(old(book), k, i) && |addrNew| == old(|addrNew|)
      ensures forall j :: 0 <= j < |addrNew| && j != i ==> addrNew[j] == old(addrNew[j])
    {
      hide IndexLinked, NewLinked, TriedLinked;
      OwnFacts(k);
      TakeLinks(addrNew, addrIndex, book.news, i, k);
      addrNew := addrNew[i := addrNew[i] - {k}];
      ka.refs := ka.refs - 1;
      IndexAfter(ka);
      book := TakenOut(book, k, i);
    }

    /** Removes the address from all new buckets and returns the first that held it. */
    method TakeOutOfAll(k: Key, ka: KnownAddress) returns (oldBucket: int)
      requires Linked() && k in addrIndex && addrIndex[k] == ka
      modifies this`addrNew, this`book, ka`refs
      ensures Linked() && book == Unheld(old(book), k, |old(book).news|)
      ensures oldBucket == FirstHolder(old(book).news, k, 0)
    {
      hide *;
      ghost var b := book;
      LinkedLengths(k);
      var n := |addrNew|;
      oldBucket := -1;
      UnheldNone(b, k);
      FirstBelowNone(b.news, k);
      for i := 0 to n
        invariant k in b.index && |addrNew| == |b.news| == n == NEW_BUCKET_COUNT
        invariant Linked() && book == Unheld(b, k, i) && FirstBelow(b.news, k, i, oldBucket)
      {
        UnheldNext(b, k, i);
        FirstBelowNext(b.news, k, i, oldBucket);
        LinkFacts(i, k);
        if k in addrNew[i] {
          TakeOut(k, ka, i);
          if oldBucket == -1 {
            oldBucket := i;
          }
        }
      }
      FirstBelowAll(b.news, k, oldBucket);
    }

    lemma LinkedLengths(k: Key)
      requires Linked() && k in addrIndex
      ensures |addrNew| == |book.news| == NEW_BUCKET_COUNT && k in book.index
    {
    }

    /** The position of the eldest entry of a tried bucket. */
    method PickTried(bucket: nat) returns (oldestElem: nat)
      requires Linked() && bucket < |addrTried| && |addrTried[bucket]| > 0
      ensures bucket < |book.tried| && |book.tried[bucket]| == |addrTried[bucket]|
      ensures forall j :: 0 <= j < |book.tried[bucket]| ==> book.tried[bucket][j] in book.index
      ensures oldestElem == Eldest(TriedTimes(book, bucket))
    {
      hide IndexLinked, NewLinked, TriedLinked;
      SizeFacts();
      TriedFacts(bucket);
      ghost var ts := TriedTimes(book, bucket);
      var oldest := addrTried[bucket][0];
      oldestElem := 0;
      assert ts[..1] == [ts[0]];
      for i := 1 to |addrTried[bucket]|
        invariant oldestElem < i && oldest == addrTried[bucket][oldestElem] && oldestElem == Eldest(ts[..i])
      {
        var ka := addrTried[bucket][i];
        assert ts[..i + 1][..i] == ts[..i];
        assert ka.na.timestamp == ts[i] && oldest.na.timestamp == ts[oldestElem];
        if oldest.na.timestamp > ka.na.timestamp {
          oldestElem := i;
          oldest := ka;
        }
      }
      assert ts[..|ts|] == ts;
    }

    /** Room in the tried bucket: append. */
    method Promote(k: Key, ka: KnownAddress, bucket: nat)
      requires Linked() && k in addrIndex && addrIndex[k] == ka && bucket < |addrTried|
      modifies this`addrTried, this`nTried, this`book, ka`tried
      ensures Linked() && bucket < |old(book).tried| && book == Promoted(old(book), k, bucket)
    {
      hide IndexLinked, NewLinked, TriedLinked;
      OwnFacts(k);
      PushLinks(addrTried, addrIndex, book.tried, bucket, k);
      ka.tried := true;
      IndexAfter(ka);
      addrTried := addrTried[bucket := addrTried[bucket] + [ka]];
      nTried := nTried + 1;
      book := Promoted(book, k, bucket);
    }

    /** No room: take the place of entry e of the tried bucket. */
    method Seat(k: Key, ka: KnownAddress, bucket: nat, e: nat)
      requires Linked() && k in addrIndex && addrIndex[k] == ka && bucket < |addrTried| && e < |addrTried[bucket]|
      modifies this`addrTried, this`book, ka`tried
      ensures Linked() && bucket < |old(book).tried| && e < |old(book).tried[bucket]|
      ensures book == Seated(old(book), k, bucket, e)
    {
      hide IndexLinked, NewLinked, TriedLinked;
      OwnFacts(k);
      SeatLinks(addrTried, addrIndex, book.tried, bucket, e, k);
      ka.tried := true;
      IndexAfter(ka);
      addrTried := addrTried[bucket := addrTried[bucket][e := ka]];
      book := Seated(book, k, bucket, e);
    }

    /** The evicted address goes back to a new bucket. */
    method Demote(rmka: KnownAddress, newBucket: nat)
      requires Linked() && rmka.key in addrIndex && addrIndex[rmka.key] == rmka && newBucket < |addrNew|
      requires env.KeyOf(rmka.na) == rmka.key
      modifies this`addrNew, this`nNew, this`book, rmka`tried, rmka`refs
      ensures Linked() && newBucket < |old(book).news| && book == Demoted(old(book), rmka.key, newBucket)
    {
      hide IndexLinked, NewLinked, TriedLinked;
      OwnFacts(rmka.key);
      PutLinks(addrNew, addrIndex, book.news, newBucket, rmka.key);
      rmka.tried := false;
      rmka.refs := rmka.refs + 1;
      IndexAfter(rmka);
      nNew := nNew + 1;
      var rmkey := env.KeyOf(rmka.na);
      addrNew := addrNew[newBucket := addrNew[newBucket][rmkey := rmka]];
      book := Demoted(book, rmkey, newBucket);
    }

    lemma TriedFacts(bucket: nat)
      requires Linked() && bucket < TRIED_BUCKET_COUNT
      ensures |addrTried| == |book.tried| == TRIED_BUCKET_COUNT && |addrTried[bucket]| == |book.tried[bucket]|
      ensures forall j :: 0 <= j < |addrTried[bucket]| ==>
                var q := book.tried[bucket][j];
                && q in addrIndex && q in book.index && addrTried[bucket][j] == addrIndex[q]
                && addrIndex[q] in repr && addrIndex[q].key == q && addrIndex[q].Record() == book.index[q]
    {
    }

    /** Files the address in its tried bucket, evicting the eldest entry of a full one. */
    method MoveToTried(k: Key, ka: KnownAddress, oldBucket: nat)
      requires Linked() && Middle(env, book, k) && k in addrIndex && addrIndex[k] == ka && oldBucket < NEW_BUCKET_COUNT
      modifies this`addrTried, this`addrNew, this`nNew, this`nTried, this`book, repr`tried, repr`refs
      ensures Linked() && book == GoodMoved(env, old(book), k, oldBucket)
    {
      hide Linked, Indexed, RefsExact, StatusBut, TriedListed, TriedDistinct, Bounded, Seated, Demoted, Promoted, TriedTimes;
      LinkFacts(oldBucket, k);
      var bucket := env.TriedBucket(key, ka.na);
      TriedFacts(bucket);
      if |addrTried[bucket]| < TRIED_BUCKET_SIZE {
        Promote(k, ka, bucket);
        return;
      }
      var e := PickTried(bucket);
      var rmka := addrTried[bucket][e];
      var newBucket := env.NewBucket(key, rmka.na, rmka.srcAddr);
      LinkFacts(newBucket, rmka.key);
      if |addrNew[newBucket]| >= NEW_BUCKET_SIZE {
        newBucket := oldBucket;
      }
      Seat(k, ka, bucket, e);
      Demote(rmka, newBucket);
    }

    /** One new address less. */
    method Uncount()
      requires Linked()
      modifies this`nNew, this`book
      ensures Linked() && book == old(book).(nNew := old(book).nNew - 1)
    {
      hide IndexLinked, NewLinked, TriedLinked;
      nNew := nNew - 1;
      book := book.(nNew := book.nNew - 1);
    }

    /** Marks an address good and moves it to the tried table. */
    method Good(addr: NetAddress, now: Time)
      requires Valid()
      modifies this`addrTried, this`addrNew, this`nNew, this`nTried, this`book
      modifies repr`tried, repr`refs, repr`lastsuccess, repr`lastattempt, repr`attempts
      ensures Valid() && book == MarkedGood(env, old(book), addr, now)
    {
      hide Linked, Keyed, Indexed, RefsExact, Status, TriedSound, Counted, Bounded, Middle, Freed, GoodMoved, Unheld;
      ghost var b := book;
      MarkedGoodKeepsInv(env, b, addr, now);
      var k := env.KeyOf(addr);
      LinkFacts(0, k);
      var ka := Find(addr);
      if ka == null { return; }
      Succeed(ka, now);
      NotedKeepsInv(env, b, k, Succeeded(b.index[k], now));
      LinkFacts(0, k);
      if ka.tried { return; }
      ghost var b1 := book;
      FreedIsMiddle(env, b1, k);
      var oldBucket := TakeOutOfAll(k, ka);
      Uncount();
      UnheldAll(b1, k);
      if oldBucket == -1 {
        assert false;
      }
      MoveToTried(k, ka, oldBucket);
    }

    // ------------------------------------------------ single-record updates

    method Tally(ka: KnownAddress, now: Time)
      requires Linked() && ka.key in addrIndex && addrIndex[ka.key] == ka
      modifies this`book, ka`attempts, ka`lastattempt
      ensures Linked() && book == Noted(old(book), ka.key, Tried(old(book).index[ka.key], now))
    {
      hide IndexLinked, NewLinked, TriedLinked;
      OwnFacts(ka.key);
      ka.attempts := ka.attempts + 1;
      ka.lastattempt := now;
      IndexAfter(ka);
      book := Noted(book, ka.key, Tried(book.index[ka.key], now));
    }

    /** Counts a connection attempt. */
    method Attempt(addr: NetAddress, now: Time)
      requires Valid()
      modifies this`book, repr`attempts, repr`lastattempt
      ensures Valid() && book == Attempted(env, old(book), addr, now)
    {
      hide Linked, Keyed, Indexed, RefsExact, Status, TriedSound, Counted, Bounded;
      AttemptedKeepsInv(env, book, addr, now);
      LinkFacts(0, env.KeyOf(addr));
      var ka := Find(addr);
      if ka == null { return; }
      Tally(ka, now);
    }

    /** Notes that the address is connected now. */
    method Connected(addr: NetAddress, now: Time)
      requires Valid()
      modifies this`book, repr`na
      ensures Valid() && book == MarkedConnected(env, old(book), addr, now)
    {
      hide Linked, Keyed, Indexed, RefsExact, Status, TriedSound, Counted, Bounded;
      ConnectedKeepsInv(env, book, addr, now);
      LinkFacts(0, env.KeyOf(addr));
      var ka := Find(addr);
      if ka == null { return; }
      if now > ka.na.timestamp + TWENTY_MINUTES {
        Replace(ka, ka.na.(timestamp := now));
      }
    }

    /** Sets the services of the address. */
    method SetServices(addr: NetAddress, services: Services)
      requires Valid()
      modifies this`book, repr`na
      ensures Valid() && book == ServicesSet(env, old(book), addr, services)
    {
      hide Linked, Keyed, Indexed, RefsExact, Status, TriedSound, Counted, Bounded;
      ServicesKeepInv(env, book, addr, services);
      LinkFacts(0, env.KeyOf(addr));
      var ka := Find(addr);
      if ka == null { return; }
      if ka.na.services != services {
        Replace(ka, ka.na.(services := services));
      } else {
        NotedSame(book, env.KeyOf(addr));
      }
    }

    // ------------------------------------------------------------ savePeers

    method SaveAddresses() returns (vs: seq<SavedAddress>)
      requires Linked()
      ensures Enumerates(Names(vs), book.index.Keys)
      ensures forall i :: 0 <= i < |vs| ==>
                vs[i].addr in book.index && vs[i] == SavedInfo(env, vs[i].addr, book.index[vs[i].addr])
    {
      hide NewLinked, TriedLinked;
      vs := [];
      var todo := addrIndex.Keys;
      assert Elements(Names(vs)) == {};
      while todo != {}
        invariant todo <= addrIndex.Keys
        invariant Enumerates(Names(vs), addrIndex.Keys - todo)
        invariant forall i :: 0 <= i < |vs| ==>
                    vs[i].addr in book.index && vs[i] == SavedInfo(env, vs[i].addr, book.index[vs[i].addr])
      {
        var k :| k in todo;
        var v := addrIndex[k];
        assert v.Record() == book.index[k];
        var ska := SavedAddress(k, env.KeyOf(v.srcAddr), v.attempts,
                                Unix(v.na.timestamp), Unix(v.lastattempt), Unix(v.lastsuccess));
        EnumerateMore(Names(vs), addrIndex.Keys - todo, k);
        assert Names(vs + [ska]) == Names(vs) + [k];
        assert addrIndex.Keys - (todo - {k}) == addrIndex.Keys - todo + {k};
        vs := vs + [ska];
        todo := todo - {k};
      }
    }

    method SaveNewBuckets() returns (rows: seq<seq<Key>>)
      requires Linked()
      ensures |rows| == |book.news| && forall i :: 0 <= i < |rows| ==> Enumerates(rows[i], book.news[i])
    {
      hide IndexLinked, TriedLinked, Enumerates;
      rows := [];
      for i := 0 to |addrNew|
        invariant |rows| == i && forall j :: 0 <= j < i ==> Enumerates(rows[j], book.news[j])
      {
        var row := Enumeration(addrNew[i].Keys);
        rows := rows + [row];
      }
    }

    method SaveTriedBuckets() returns (rows: seq<seq<Key>>)
      requires Linked() && Keyed(env, book)
      ensures rows == book.tried
    {
      hide NewLinked;
      rows := [];
      for i := 0 to |addrTried|
        invariant rows == book.tried[..i]
      {
        var row := [];
        for j := 0 to |addrTried[i]|
          invariant row == book.tried[i][..j]
        {
          var ka := addrTried[i][j];
          row := row + [env.KeyOf(ka.na)];
        }
        assert row == book.tried[i];
        rows := rows + [row];
      }
    }

    /** Writes all tables to a file; the map orders are arbitrary. */
    method SavePeers() returns (f: File)
      requires Valid()
      ensures IsSave(env, book, f)
    {
      hide IndexLinked, TriedLinked, Indexed, RefsExact, Status, TriedSound, Counted, Bounded, Keyed, Enumerates;
      var addresses := SaveAddresses();
      var news := SaveNewBuckets();
      var trieds := SaveTriedBuckets();
      f := File(SERIALISATION_VERSION, key, addresses, news, trieds);
    }

    // ------------------------------------------------------ deserializePeers

    /** No table holds anything yet. */
    ghost predicate Bare()
      reads this`addrNew, this`addrTried
    {
      && |addrNew| == NEW_BUCKET_COUNT && |addrTried| == TRIED_BUCKET_COUNT
      && (forall i :: 0 <= i < |addrNew| ==> addrNew[i] == map[])
      && (forall i :: 0 <= i < |addrTried| ==> addrTried[i] == [])
    }

    /** Files a freshly read address, replacing one of the same key. */
    method Store(k: Key, ka: KnownAddress)
      requires Linked() && Bare() && ka.key == k && ka !in repr
      modifies this`addrIndex, this`book, this`repr
      ensures Linked() && book == Noted(old(book), k, ka.Record()) && repr == old(repr) + {ka}
    {
      hide IndexLinked, NewLinked, TriedLinked;
      BareLinks(addrNew, addrTried, addrIndex, addrIndex[k := ka], book);
      IndexMore(addrIndex, repr, book.index, k, ka);
      addrIndex := addrIndex[k := ka];
      repr := repr + {ka};
      book := Noted(book, k, ka.Record());
    }

    method LoadAddress(v: SavedAddress) returns (ok: bool)
      requires Linked() && Bare()
      modifies this`addrIndex, this`book, this`repr
      ensures Linked() && fresh(repr - old(repr))
      ensures Loaded(book, ok) == ReadAddress(env, old(book), v)
    {
      hide IndexLinked, NewLinked, TriedLinked, Bare;
      var na := env.parse(v.addr);
      if na.None? { return false; }
      var src := env.parse(v.src);
      if src.None? { return false; }
      var k := env.KeyOf(na.value);
      var ka := new KnownAddress(k, na.value, src.value);
      ka.attempts := v.attempts;
      ka.lastattempt := FromUnix(v.lastAttempt);
      ka.lastsuccess := FromUnix(v.lastSuccess);
      FreshKeepsLinks();
      Store(k, ka);
      return true;
    }

    twostate lemma FreshKeepsLinks()
      requires old(Linked()) && old(Bare()) && unchanged(this)
      requires forall ka :: ka in repr ==> ka.Record() == old(ka.Record())
      ensures Linked() && Bare()
    {
    }

    method LoadAddresses(vs: seq<SavedAddress>) returns (ok: bool)
      requires Linked() && Bare()
      modifies this`addrIndex, this`book, this`repr
      ensures Linked() && fresh(repr - old(repr)) && Loaded(book, ok) == ReadAddresses(env, old(book), vs)
    {
      hide Linked, Bare, ReadAddress;
      ghost var b := book;
      for i := 0 to |vs|
        invariant Linked() && Bare() && fresh(repr - old(repr))
        invariant Loaded(book, true) == ReadAddresses(env, b, vs[..i])
      {
        assert vs[..i + 1][..i] == vs[..i];
        ok := LoadAddress(vs[i]);
        if !ok {
          AddressesFail(env, b, vs, i + 1);
          return;
        }
      }
      assert vs[..|vs|] == vs;
      return true;
    }

    lemma EntryFacts(e: Entry)
      requires Linked() && e.bucket < if e.tried then TRIED_BUCKET_COUNT else NEW_BUCKET_COUNT
      ensures addrIndex.Keys == book.index.Keys
      ensures e.key in addrIndex ==> addrIndex[e.key] in repr && addrIndex[e.key].refs == book.index[e.key].refs
      ensures |addrNew| == |book.news| == NEW_BUCKET_COUNT && |addrTried| == |book.tried| == TRIED_BUCKET_COUNT
      ensures nNew == book.nNew
    {
    }

    /** One new address more. */
    method CountNew()
      requires Linked()
      modifies this`nNew, this`book
      ensures Linked() && book == old(book).(nNew := old(book).nNew + 1)
    {
      hide IndexLinked, NewLinked, TriedLinked;
      nNew := nNew + 1;
      book := book.(nNew := book.nNew + 1);
    }

    method LoadEntry(e: Entry) returns (ok: bool)
      requires Linked() && e.bucket < if e.tried then TRIED_BUCKET_COUNT else NEW_BUCKET_COUNT
      modifies this`addrNew, this`addrTried, this`nNew, this`nTried, this`book, repr`refs, repr`tried
      ensures Linked() && Loaded(book, ok) == ReadEntry(old(book), e)
    {
      hide Linked, AddRef, Promoted;
      EntryFacts(e);
      if e.key !in addrIndex { return false; }
      var ka := addrIndex[e.key];
      if e.tried {
        Promote(e.key, ka, e.bucket);
      } else {
        if ka.refs == 0 {
          CountNew();
        }
        PutInBucket(e.key, ka, e.bucket);
      }
      return true;
    }

    /** Reads one bucket of the file, stopping at the first address that was not listed. */
    method LoadBucket(tried: bool, bucket: nat, ks: seq<Key>, ghost b: Book, ghost es: seq<Entry>) returns (ok: bool)
      requires Linked() && bucket < if tried then TRIED_BUCKET_COUNT else NEW_BUCKET_COUNT
      requires Loaded(book, true) == ReadEntries(b, es)
      modifies this`addrNew, this`addrTried, this`nNew, this`nTried, this`book, repr`refs, repr`tried
      ensures Linked() && Loaded(book, ok) == ReadEntries(b, es + Row(tried, bucket, ks))
    {
      hide Linked, ReadEntry, ReadEntries, Row;
      ghost var row := Row(tried, bucket, ks);
      assert es + row[..0] == es;
      for j := 0 to |ks|
        invariant Linked() && Loaded(book, true) == ReadEntries(b, es + row[..j])
      {
        ReadNext(b, es, tried, bucket, ks, j);
        ok := LoadEntry(Entry(tried, bucket, ks[j]));
        if !ok {
          EntriesFail(b, es + row[..j + 1], row[j + 1..]);
          assert es + row[..j + 1] + row[j + 1..] == es + row;
          return;
        }
      }
      assert row[..|ks|] == row;
      return true;
    }

    method LoadBuckets(tried: bool, buckets: seq<seq<Key>>, ghost b: Book, ghost es: seq<Entry>) returns (ok: bool)
      requires Linked() && |buckets| == if tried then TRIED_BUCKET_COUNT else NEW_BUCKET_COUNT
      requires Loaded(book, true) == ReadEntries(b, es)
      modifies this`addrNew, this`addrTried, this`nNew, this`nTried, this`book, repr`refs, repr`tried
      ensures Linked() && Loaded(book, ok) == ReadEntries(b, es + Rows(tried, buckets))
    {
      hide Linked, ReadEntries, Row;
      assert buckets[..0] == [] && es + Rows(tried, []) == es;
      for i := 0 to |buckets|
        invariant Linked() && Loaded(book, true) == ReadEntries(b, es + Rows(tried, buckets[..i]))
      {
        ghost var rows := Rows(tried, buckets[..i]);
        assert buckets[..i + 1][..i] == buckets[..i];
        assert es + rows + Row(tried, i, buckets[i]) == es + Rows(tried, buckets[..i + 1]);
        ok := LoadBucket(tried, i, buckets[i], b, es + rows);
        if !ok {
          ghost var rest := RowsSplit(tried, buckets, i + 1);
          EntriesFail(b, es + Rows(tried, buckets[..i + 1]), rest);
          assert es + Rows(tried, buckets[..i + 1]) + rest == es + Rows(tried, buckets);
          return;
        }
      }
      assert buckets[..|buckets|] == buckets;
      return true;
    }

    /** The loader's sanity check, in any order. */
    method CheckSanity() returns (ok: bool)
      requires Linked()
      ensures ok == Sane(book.index)
    {
      hide NewLinked, TriedLinked;
      var todo := addrIndex.Keys;
      while todo != {}
        invariant todo <= addrIndex.Keys
        invariant forall k :: k in addrIndex && k !in todo ==>
                    !(book.index[k].refs == 0 && !book.index[k].tried) && !(book.index[k].refs > 0 && book.index[k].tried)
      {
        var k :| k in todo;
        var v := addrIndex[k];
        assert v.Record() == book.index[k];
        if v.refs == 0 && !v.tried { return false; }
        if v.refs > 0 && v.tried { return false; }
        todo := todo - {k};
      }
      return true;
    }

    method SetKey(key': Bytes)
      requires Linked()
      modifies this`key, this`book
      ensures Linked() && book == old(book).(secret := key')
    {
      hide IndexLinked, NewLinked, TriedLinked;
      key := key';
      book := book.(secret := key');
    }

    /** Reads a file into a manager whose tables are empty. */
    method DeserializePeers(f: File) returns (ok: bool)
      requires Linked() && Bare() && WellTyped(f)
      modifies this, repr`refs, repr`tried
      ensures Linked() && fresh(repr - old(repr)) && Loaded(book, ok) == Load(env, old(book), f)
    {
      hide Linked, Bare, ReadAddresses, ReadEntries, Rows, Sane;
      if f.version != SERIALISATION_VERSION { return false; }
      SetKey(f.secret);
      ok := LoadAddresses(f.addresses);
      if !ok { return; }
      ghost var b := book;
      ReadNothing(b);
      ok := LoadBuckets(false, f.newBuckets, b, []);
      assert [] + Rows(false, f.newBuckets) == Rows(false, f.newBuckets);
      if !ok {
        EntriesFail(b, Rows(false, f.newBuckets), Rows(true, f.triedBuckets));
        return;
      }
      ok := LoadBuckets(true, f.triedBuckets, b, Rows(false, f.newBuckets));
      if !ok { return; }
      ok := CheckSanity();
    }

    /** Empties the tables; the counters stay as they are. */
    method ResetTables(key': Bytes)
      requires Linked()
      modifies this`key, this`addrIndex, this`addrNew, this`addrTried, this`book
      ensures Linked() && Bare() && book == Reset(old(book), key')
    {
      addrIndex := map[];
      key := key';
      addrNew := seq(NEW_BUCKET_COUNT, _ => map[]);
      addrTried := seq(TRIED_BUCKET_COUNT, _ => []);
      book := Reset(book, key');
    }

    /** Loads the peers file at start-up; a bad file leaves the tables empty. */
    method LoadPeers(f: File, key': Bytes) returns (ok: bool)
      requires Linked() && Bare() && WellTyped(f)
      modifies this, repr`refs, repr`tried
      ensures Linked() && fresh(repr - old(repr)) && ok == Load(env, old(book), f).ok
      ensures book == (if ok then Load(env, old(book), f).book else Reset(Load(env, old(book), f).book, key'))
    {
      hide Linked, Bare, Load;
      ok := DeserializePeers(f);
      if !ok {
        ResetTables(key');
      }
    }

    // --------------------------------------------------------- addressCache

    method AllAddresses() returns (all: array<NetAddress>, ghost ks: seq<Key>)
      requires Linked()
      ensures fresh(all) && all.Length == |ks| == |addrIndex| && Shows(book.index, all[..], ks)
      ensures Enumerates(ks, book.index.Keys)
    {
      hide NewLinked, TriedLinked;
      ks := [];
      var nas := [];
      var todo := addrIndex.Keys;
      while todo != {}
        invariant todo <= addrIndex.Keys && Enumerates(ks, addrIndex.Keys - todo) && Shows(book.index, nas, ks)
      {
        var k :| k in todo;
        assert addrIndex[k].Record() == book.index[k];
        EnumerateMore(ks, addrIndex.Keys - todo, k);
        assert addrIndex.Keys - (todo - {k}) == addrIndex.Keys - todo + {k};
        nas, ks, todo := nas + [addrIndex[k].na], ks + [k], todo - {k};
      }
      assert addrIndex.Keys - todo == addrIndex.Keys;
      DistinctSize(ks);
      all := new NetAddress[|nas|](i requires 0 <= i < |nas| => nas[i]);
      assert all[..] == nas;
    }

    /** A random sample of the known addresses: 23 per cent of them, at most 2500, no address
        twice. The picks stand for the random generator: they say which places of the order in which the
        index was gone through are taken. */
    method AddressCache(picks: seq<nat>) returns (r: seq<NetAddress>, ghost order: seq<Key>, ghost ks: seq<Key>)
      requires Linked() && |picks| == |addrIndex| && Pickable(|addrIndex|, picks)
      ensures |r| == Min(|book.index| * GET_ADDR_PERCENT / 100, GET_ADDR_MAX)
      ensures NoDuplicates(ks) && Shows(book.index, r, ks)
      ensures Enumerates(order, book.index.Keys) && |order| == |picks|
      ensures |ks| == |r| <= |picks| && Taken(order, Arranged(|picks|, picks[..|r|]), ks)
    {
      var n := |addrIndex|;
      hide Linked, Shows, Enumerates, NoDuplicates, IsPermutation, Arranged;
      IndexSize();
      if n == 0 {
        ShowsNone(book.index);
        return [], [], [];
      }
      var allAddr;
      allAddr, order := AllAddresses();
      ghost var all := allAddr[..];
      var numAddresses := n * GET_ADDR_PERCENT / 100;
      if numAddresses > GET_ADDR_MAX {
        numAddresses := GET_ADDR_MAX;
      }
      Shuffle(allAddr, numAddresses, picks);
      ghost var perm := Arranged(n, picks[..numAddresses]);
      ArrangedIsPermutation(n, picks[..numAddresses]);
      r := allAddr[..numAddresses];
      ks := ShowsPermuted(book.index, all, order, allAddr[..], perm, numAddresses);
    }

    lemma IndexSize()
      requires Linked()
      ensures |addrIndex| == |book.index|
    {
      assert |addrIndex| == |addrIndex.Keys| && |book.index| == |book.index.Keys|;
    }
  }

  lemma ShowsNone(index: map<Key, Info>)
    ensures Shows(index, [], []) && NoDuplicates<Key>([])
    ensures |index| == 0 ==> Enumerates([], index.Keys)
  {
  }

  lemma ShowsPermuted(index: map<Key, Info>, nas: seq<NetAddress>, ks: seq<Key>, nas': seq<NetAddress>,
                      perm: seq<nat>, n: nat) returns (ks': seq<Key>)
    requires Shows(index, nas, ks) && Enumerates(ks, index.Keys) && IsPermutation(perm, |nas|) && n <= |nas| == |nas'|
    requires forall i :: 0 <= i < |nas| ==> nas'[i] == nas[perm[i]]
    ensures |ks'| == n && NoDuplicates(ks') && Shows(index, nas'[..n], ks') && Taken(ks, perm, ks')
  {
    ks' := seq(n, i requires 0 <= i < n => ks[perm[i]]);
    forall i, j | 0 <= i < j < n ensures ks'[i] != ks'[j] {
      assert perm[i] != perm[j];
    }
  }

  function Min(a: int, b: int): int { if a < b then a else b }

  /** nas are the address records of the addresses ks. */
  ghost predicate Shows(index: map<Key, Info>, nas: seq<NetAddress>, ks: seq<Key>) {
    |nas| == |ks| && forall i :: 0 <= i < |ks| ==> ks[i] in index && nas[i] == index[ks[i]].na
  }

  lemma ReadNext(b: Book, es: seq<Entry>, tried: bool, bucket: nat, ks: seq<Key>, j: nat)
    requires j < |ks|
    ensures var l := ReadEntries(b, es + Row(tried, bucket, ks)[..j]);
            ReadEntries(b, es + Row(tried, bucket, ks)[..j + 1]) ==
            if l.ok then ReadEntry(l.book, Entry(tried, bucket, ks[j])) else l
  {
    var row := Row(tried, bucket, ks);
    var all := es + row[..j + 1];
    assert all[..|all| - 1] == es + row[..j];
    assert all[|all| - 1] == Entry(tried, bucket, ks[j]);
  }

  lemma ReadNothing(b: Book)
    ensures Loaded(b, true) == ReadEntries(b, [])
  {
  }

  /** The rows after the first n, in the flattened order. */
  lemma {:induction false} RowsSplit(tried: bool, buckets: seq<seq<Key>>, n: nat) returns (rest: seq<Entry>)
    requires n <= |buckets|
    ensures Rows(tried, buckets) == Rows(tried, buckets[..n]) + rest
  {
    if n == |buckets| {
      rest := [];
      assert buckets[..n] == buckets;
    } else {
      var m := |buckets| - 1;
      assert buckets[..m][..n] == buckets[..n];
      rest := RowsSplit(tried, buckets[..m], n);
      rest := rest + Row(tried, m, buckets[m]);
    }
  }

  lemma BareLinks(addrNew: seq<map<Key, KnownAddress>>, addrTried: seq<seq<KnownAddress>>,
                  addrIndex: map<Key, KnownAddress>, addrIndex': map<Key, KnownAddress>, b: Book)
    requires NewLinked(addrNew, addrIndex, b.news) && TriedLinked(addrTried, addrIndex, b.tried)
    requires forall i :: 0 <= i < |addrNew| ==> addrNew[i] == map[]
    requires forall i :: 0 <= i < |addrTried| ==> addrTried[i] == []
    ensures NewLinked(addrNew, addrIndex', b.news) && TriedLinked(addrTried, addrIndex', b.tried)
  {
  }

  method Enumeration(s: set<Key>) returns (r: seq<Key>)
    ensures Enumerates(r, s)
  {
    r := [];
    var todo := s;
    while todo != {}
      invariant todo <= s && Enumerates(r, s - todo)
    {
      var k :| k in todo;
      EnumerateMore(r, s - todo, k);
      assert s - (todo - {k}) == s - todo + {k};
      r := r + [k];
      todo := todo - {k};
    }
  }

  lemma EnumerateMore(r: seq<Key>, s: set<Key>, k: Key)
    requires Enumerates(r, s) && k !in s
    ensures Enumerates(r + [k], s + {k})
  {
    ElementsLast(r, k);
    forall i | 0 <= i < |r| ensures r[i] != k {
      assert r[i] in Elements(r);
    }
  }

  /** Among the given addresses, v has the least time stamp. */
  ghost predicate IsOldest(b: Book, v: Key, among: set<Key>)
    requires among <= b.index.Keys
  {
    v in among && forall k :: k in among ==> b.index[v].na.timestamp <= b.index[k].na.timestamp
  }

  /** m is part of n. */
  ghost predicate Within(m: map<Key, KnownAddress>, n: map<Key, KnownAddress>) {
    forall k :: k in m ==> k in n && m[k] == n[k]
  }

  lemma WithinSelf(m: map<Key, KnownAddress>)
    ensures Within(m, m)
  {
  }

  lemma WithinTrans(l: map<Key, KnownAddress>, m: map<Key, KnownAddress>, n: map<Key, KnownAddress>)
    requires Within(l, m) && Within(m, n)
    ensures Within(l, n)
  {
  }
}

/** What each operation leaves in the tables, field by field and bucket by bucket. */
module AddrEffects {
  import opened Options
  import opened AddrBook
  import opened AddrRuns

  // --------------------------------------------------------- marking as good

  /** An address nobody knows changes nothing; one already tried only gets its record set. */
  lemma GoodAgain(env: Env, b: Book, na: NetAddress, now: Time)
    requires Inv(env, b)
    ensures var b' := MarkedGood(env, b, na, now);
            var k := env.KeyOf(na);
            && (k !in b.index ==> b' == b)
            && (k in b.index && b.index[k].tried ==>
                  b' == b.(index := b.index[k := Info(b.index[k].na, b.index[k].src, 0, now, now, true, 0)]))
  {
    GoodConserves(env, b, na, now);
  }

  /** With room in its tried bucket the address leaves every new bucket and goes to the end there. */
  lemma GoodRoom(env: Env, b: Book, na: NetAddress, now: Time)
    requires Inv(env, b) && env.KeyOf(na) in b.index && !b.index[env.KeyOf(na)].tried
    requires var to := env.TriedBucket(b.secret, b.index[env.KeyOf(na)].na);
             |b.tried[to]| < TRIED_BUCKET_SIZE
    ensures var k := env.KeyOf(na);
            var ka := b.index[k];
            var to := env.TriedBucket(b.secret, ka.na);
            MarkedGood(env, b, na, now) ==
            Book(b.secret, b.index[k := Info(ka.na, ka.src, 0, now, now, true, 0)],
                 seq(|b.news|, i requires 0 <= i < |b.news| => b.news[i] - {k}),
                 b.tried[to := b.tried[to] + [k]], b.nNew - 1, b.nTried + 1)
  {
    hide Keyed, Indexed, TriedSound, Counted, Bounded;
    var k := env.KeyOf(na);
    FreedFrom(env, b, k, now);
    assert b.index[k].refs == |Holders(b.news, k)|;
  }

  /** Entry e of a tried bucket has the least time stamp, and is the first that does. */
  ghost predicate FirstEldest(b: Book, to: nat, e: nat) {
    && to < |b.tried| && e < |b.tried[to]| && b.tried[to][e] in b.index
    && forall j :: 0 <= j < |b.tried[to]| && b.tried[to][j] in b.index ==>
         var eldest := b.index[b.tried[to][e]].na.timestamp;
         var other := b.index[b.tried[to][j]].na.timestamp;
         if j < e then eldest < other else eldest <= other
  }

  /** Where an evicted address goes: to the new bucket its hash names if that holds fewer than 64
      addresses once k is out, else to the first of the buckets k was in. */
  ghost predicate SentTo(env: Env, b: Book, k: Key, rm: Info, home: nat)
    requires Shape(b)
  {
    var hashed := env.NewBucket(b.secret, rm.na, rm.src);
    && home < |b.news|
    && if |b.news[hashed] - {k}| < NEW_BUCKET_SIZE then home == hashed
       else k in b.news[home] && forall j :: 0 <= j < home ==> k !in b.news[j]
  }

  /** The tables once k has taken entry e of a tried bucket and the evicted address is in new bucket home. */
  ghost function Exchanged(b: Book, k: Key, now: Time, to: nat, e: nat, home: nat): Book
    requires k in b.index && to < |b.tried| && e < |b.tried[to]| && b.tried[to][e] in b.index
  {
    var ka := b.index[k];
    var rm := b.tried[to][e];
    Book(b.secret,
         b.index[k := Info(ka.na, ka.src, 0, now, now, true, 0)][rm := b.index[rm].(tried := false, refs := 1)],
         seq(|b.news|, i requires 0 <= i < |b.news| => b.news[i] - {k} + (if i == home then {rm} else {})),
         b.tried[to := b.tried[to][e := k]], b.nNew, b.nTried)
  }

  lemma EldestEntry(b: Book, to: nat)
    requires to < |b.tried| && |b.tried[to]| > 0
    requires forall j :: 0 <= j < |b.tried[to]| ==> b.tried[to][j] in b.index
    ensures FirstEldest(b, to, Eldest(TriedTimes(b, to)))
  {
    var ts := TriedTimes(b, to);
    forall j | 0 <= j < |b.tried[to]| ensures b.index[b.tried[to][j]].na.timestamp == ts[j] {
    }
  }

  lemma MoveFull(env: Env, b: Book, k: Key, freed: nat) returns (e: nat, home: nat)
    requires Middle(env, b, k) && freed < NEW_BUCKET_COUNT
    requires |b.tried[env.TriedBucket(b.secret, b.index[k].na)]| == TRIED_BUCKET_SIZE
    ensures var to := env.TriedBucket(b.secret, b.index[k].na);
            && FirstEldest(b, to, e) && b.tried[to][e] != k && b.index[b.tried[to][e]].refs == 0
            && home == Home(env, b, b.index[b.tried[to][e]], freed)
            && GoodMoved(env, b, k, freed) == Swapped(b, k, to, e, home)
  {
    hide Keyed, Indexed, RefsExact, TriedListed, TriedDistinct, Bounded, FirstEldest, Home, Eldest, Seated, Demoted;
    var to := env.TriedBucket(b.secret, b.index[k].na);
    EldestEntry(b, to);
    e := Eldest(TriedTimes(b, to));
    home := Home(env, b, b.index[b.tried[to][e]], freed);
  }

  lemma StillEldest(b: Book, k: Key, now: Time, to: nat, e: nat)
    requires k in b.index && FirstEldest(Freed(Noted(b, k, Succeeded(b.index[k], now)), k), to, e)
    ensures FirstEldest(b, to, e)
  {
  }

  lemma ExchangedFrom(b: Book, k: Key, now: Time, to: nat, e: nat, home: nat)
    requires RefsExact(b) && k in b.index && to < |b.tried| && e < |b.tried[to]| && home < |b.news|
    requires b.tried[to][e] != k && b.tried[to][e] in b.index && b.index[b.tried[to][e]].refs == 0
    ensures var b2 := Freed(Noted(b, k, Succeeded(b.index[k], now)), k);
            Swapped(b2, k, to, e, home) == Exchanged(b, k, now, to, e, home)
  {
    assert b.index[k].refs == |Holders(b.news, k)|;
    var b' := Swapped(Freed(Noted(b, k, Succeeded(b.index[k], now)), k), k, to, e, home);
    var want := Exchanged(b, k, now, to, e, home);
    assert b'.news == want.news;
    assert b'.index == want.index;
  }

  lemma SentFrom(env: Env, b: Book, k: Key, now: Time, rm: Info, home: nat)
    requires Shape(b) && k in b.index && FirstHolder(b.news, k, 0) != -1
    requires home == Home(env, Freed(Noted(b, k, Succeeded(b.index[k], now)), k), rm, FirstHolder(b.news, k, 0))
    ensures SentTo(env, b, k, rm, home)
  {
  }

  /** Without room it takes the place of the first of the eldest entries, which goes back to a new bucket. */
  lemma GoodFull(env: Env, b: Book, na: NetAddress, now: Time) returns (e: nat, home: nat)
    requires Inv(env, b) && env.KeyOf(na) in b.index && !b.index[env.KeyOf(na)].tried
    requires var to := env.TriedBucket(b.secret, b.index[env.KeyOf(na)].na);
             |b.tried[to]| == TRIED_BUCKET_SIZE
    ensures var k := env.KeyOf(na);
            var to := env.TriedBucket(b.secret, b.index[k].na);
            && FirstEldest(b, to, e) && b.tried[to][e] != k
            && SentTo(env, b, k, b.index[b.tried[to][e]], home)
            && MarkedGood(env, b, na, now) == Exchanged(b, k, now, to, e, home)
  {
    hide Keyed, Indexed, RefsExact, Status, TriedSound, Counted, Bounded;
    hide Middle, FirstEldest, SentTo, Exchanged, Swapped, Home, GoodMoved;
    var k := env.KeyOf(na);
    var to := env.TriedBucket(b.secret, b.index[k].na);
    var b1 := Noted(b, k, Succeeded(b.index[k], now));
    FreedFrom(env, b, k, now);
    e, home := MoveFull(env, Freed(b1, k), k, FirstHolder(b1.news, k, 0));
    StillEldest(b, k, now, to, e);
    SentFrom(env, b, k, now, b.index[b.tried[to][e]], home);
    ExchangedFrom(b, k, now, to, e, home);
  }

  // --------------------------------------------------------- adding addresses

  /** Whether the address gets into the new bucket its hash names: an unknown one always, a known
      one when it is untried, in fewer than eight buckets, not in this one, and the roll says so. */
  ghost predicate Enters(env: Env, b: Book, na: NetAddress, src: NetAddress, c: Choice)
    requires Shape(b)
  {
    var k := env.KeyOf(na);
    k in b.index ==>
      && !b.index[k].tried && 1 <= b.index[k].refs < NEW_BUCKETS_PER_ADDRESS
      && k !in b.news[env.NewBucket(b.secret, na, src)] && c.roll % (2 * b.index[k].refs) == 0
  }

  /** The address, if it is let in, is known afterwards; an unknown one has a blank record with
      one reference; a known one keeps everything but what the announcement brings: the services
      are joined, and the time stamp is taken over if it is later or a service is new. */
  ghost predicate Announced(b: Book, b': Book, k: Key, na: NetAddress, src: NetAddress, enters: bool) {
    && k in b'.index
    && (k !in b.index ==> b'.index[k] == Info(na, src, 0, ZERO_TIME, ZERO_TIME, false, 1))
    && (k in b.index ==>
          var ka, ka' := b.index[k], b'.index[k];
          && ka'.na.services == ka.na.services + na.services
          && ka'.na.timestamp == (if ka.na.timestamp < na.timestamp || exists s :: s in na.services && s !in ka.na.services
                                  then na.timestamp else ka.na.timestamp)
          && ka'.na.ip == ka.na.ip && ka'.na.port == ka.na.port
          && ka'.src == ka.src && ka'.attempts == ka.attempts && ka'.tried == ka.tried
          && ka'.lastAttempt == ka.lastAttempt && ka'.lastSuccess == ka.lastSuccess
          && ka'.refs == ka.refs + (if enters then 1 else 0))
  }

  lemma PlacedRecord(b: Book, k: Key, bucket: nat, c: Choice)
    requires Indexed(b) && bucket < |b.news| && k in b.index
    requires |b.news[bucket]| > NEW_BUCKET_SIZE ==> IsVictim(b, bucket, c.bad, c.victim)
    ensures var b' := Placed(b, k, bucket, c);
            && k in b'.index
            && b'.index[k] == b.index[k].(refs := b.index[k].refs + (if k in b.news[bucket] then 0 else 1))
  {
  }

  lemma RefreshedRecord(ka: Info, na: NetAddress)
    ensures var r := Refreshed(ka, na);
            && r == ka.(na := r.na) && r.na == ka.na.(timestamp := r.na.timestamp, services := r.na.services)
            && r.na.services == ka.na.services + na.services
            && r.na.timestamp == (if ka.na.timestamp < na.timestamp || exists s :: s in na.services && s !in ka.na.services
                                  then na.timestamp else ka.na.timestamp)
  {
    if na.services <= ka.na.services {
      assert ka.na.services + na.services == ka.na.services;
    }
  }

  /** What one announcement of an address does to its record. */
  lemma AddRecords(env: Env, externals: set<Key>, b: Book, na: NetAddress, src: NetAddress, c: Choice)
    requires Inv(env, b) && Fair(env, b, na, src, c)
    ensures var b' := Updated(env, externals, b, na, src, c);
            if env.routable(na.ip) && env.KeyOf(na) !in externals
            then Announced(b, b', env.KeyOf(na), na, src, Enters(env, b, na, src, c))
            else b' == b
  {
    hide Keyed, RefsExact, TriedSound, Counted, Bounded, Placed, Refreshed;
    var k := env.KeyOf(na);
    var bucket := env.NewBucket(b.secret, na, src);
    if k !in b.index {
      PlacedRecord(Enrolled(b, k, na, src), k, bucket, c);
    } else {
      RefreshedRecord(b.index[k], na);
      var base := Noted(b, k, Refreshed(b.index[k], na));
      if k in b.news[bucket] {
        PlacedAgain(base, k, bucket, c);
      } else {
        VictimSurvivesNote(b, base, k, bucket, c);
        PlacedRecord(base, k, bucket, c);
      }
    }
  }

  /** The addresses an overflowing bucket loses: the bad ones and the oldest of the others. */
  ghost predicate Loses(b: Book, to: nat, c: Choice, q: Key)
    requires to < |b.news|
  {
    |b.news[to]| > NEW_BUCKET_SIZE && q in b.news[to] && (q in c.bad || c.victim == Some(q))
  }

  /** k is put in bucket `to`, which loses the addresses that expire if it held more than 64;
      an address losing its last bucket is forgotten; nothing else changes. */
  ghost predicate PutIn(b: Book, b': Book, k: Key, to: nat, c: Choice)
    requires to < |b.news|
  {
    && |b'.news| == |b.news| && (forall i :: 0 <= i < |b.news| && i != to ==> b'.news[i] == b.news[i])
    && (forall q :: q in b'.news[to] <==> q == k || (q in b.news[to] && !Loses(b, to, c, q)))
    && (forall q :: q in b.index && q != k ==>
          if !Loses(b, to, c, q) then q in b'.index && b'.index[q] == b.index[q]
          else if b.index[q].refs == 1 then q !in b'.index
          else q in b'.index && b'.index[q] == b.index[q].(refs := b.index[q].refs - 1))
  }

  lemma GoneAre(b: Book, bucket: nat, c: Choice)
    requires Indexed(b) && bucket < |b.news| && |b.news[bucket]| > NEW_BUCKET_SIZE
    requires IsVictim(b, bucket, c.bad, c.victim)
    ensures forall q :: q in Gone(b, bucket, c.bad, c.victim) <==> Loses(b, bucket, c, q)
    ensures Gone(b, bucket, c.bad, c.victim) <= b.news[bucket]
  {
  }

  lemma PlacedRoom(b: Book, k: Key, bucket: nat, c: Choice)
    requires bucket < |b.news| && k in b.index && k !in b.news[bucket] && |b.news[bucket]| <= NEW_BUCKET_SIZE
    ensures PutIn(b, Placed(b, k, bucket, c), k, bucket, c)
  {
    hide Expired;
  }

  lemma PlacedFull(b: Book, k: Key, bucket: nat, c: Choice)
    requires Indexed(b) && bucket < |b.news| && k in b.index && k !in b.news[bucket]
    requires |b.news[bucket]| > NEW_BUCKET_SIZE && IsVictim(b, bucket, c.bad, c.victim)
    ensures PutIn(b, Placed(b, k, bucket, c), k, bucket, c)
  {
    hide IsVictim, Gone, Loses, Indexed, LastRefs;
    GoneAre(b, bucket, c);
    ExpiredKeeps(b, bucket, c.bad, c.victim, k);
  }

  lemma PlacedPuts(b: Book, k: Key, bucket: nat, c: Choice)
    requires Indexed(b) && bucket < |b.news| && k in b.index && k !in b.news[bucket]
    requires |b.news[bucket]| > NEW_BUCKET_SIZE ==> IsVictim(b, bucket, c.bad, c.victim)
    ensures PutIn(b, Placed(b, k, bucket, c), k, bucket, c)
  {
    hide *;
    if |b.news[bucket]| > NEW_BUCKET_SIZE {
      PlacedFull(b, k, bucket, c);
    } else {
      PlacedRoom(b, k, bucket, c);
    }
  }

  lemma PutsFrom(b: Book, b1: Book, b': Book, k: Key, ka: Info, to: nat, c: Choice)
    requires to < |b.news| && b1.news == b.news && b1.index == b.index[k := ka] && PutIn(b1, b', k, to, c)
    ensures PutIn(b, b', k, to, c)
  {
    forall q ensures Loses(b, to, c, q) <==> Loses(b1, to, c, q) {
    }
  }

  /** What one announcement does to the buckets and to every other address. */
  lemma AddBuckets(env: Env, externals: set<Key>, b: Book, na: NetAddress, src: NetAddress, c: Choice)
    requires Inv(env, b) && Fair(env, b, na, src, c)
    requires env.routable(na.ip) && env.KeyOf(na) !in externals
    ensures var b' := Updated(env, externals, b, na, src, c);
            var k := env.KeyOf(na);
            if Enters(env, b, na, src, c) then PutIn(b, b', k, env.NewBucket(b.secret, na, src), c)
            else b'.news == b.news && forall q :: q in b.index && q != k ==> q in b'.index && b'.index[q] == b.index[q]
  {
    hide Keyed, RefsExact, TriedSound, Counted, Bounded, Placed, Refreshed, PutIn;
    var k := env.KeyOf(na);
    var to := env.NewBucket(b.secret, na, src);
    if k !in b.index {
      var base := Enrolled(b, k, na, src);
      PlacedPuts(base, k, to, c);
      PutsFrom(b, base, Placed(base, k, to, c), k, base.index[k], to, c);
    } else {
      var base := Noted(b, k, Refreshed(b.index[k], na));
      if k in b.news[to] {
        PlacedAgain(base, k, to, c);
      } else {
        VictimSurvivesNote(b, base, k, to, c);
        PlacedPuts(base, k, to, c);
        PutsFrom(b, base, Placed(base, k, to, c), k, base.index[k], to, c);
      }
    }
  }

  /** Whoever survives the overflow of a bucket is no older than one that did not. */
  lemma SurvivorsAreYounger(env: Env, b: Book, na: NetAddress, src: NetAddress, c: Choice, q: Key)
    requires Inv(env, b) && Fair(env, b, na, src, c)
    requires var to := env.NewBucket(b.secret, na, src);
             |b.news[to]| > NEW_BUCKET_SIZE && q in b.news[to] && !Loses(b, to, c, q)
    ensures var to := env.NewBucket(b.secret, na, src);
            exists v :: v in b.index && q in b.index && Loses(b, to, c, v) && v !in c.bad
                        && b.index[v].na.timestamp <= b.index[q].na.timestamp
  {
    var to := env.NewBucket(b.secret, na, src);
    assert q in b.news[to] - c.bad;
    assert Loses(b, to, c, c.victim.value);
  }

  // ------------------------------------------- attempts, connections, services

  /** b' differs from b at most in the record of k. */
  ghost predicate OnlyRecord(b: Book, b': Book, k: Key) {
    && b'.index.Keys == b.index.Keys && (forall q :: q in b.index && q != k ==> b'.index[q] == b.index[q])
    && b' == b.(index := b'.index)
  }

  lemma AttemptRecords(env: Env, b: Book, na: NetAddress, now: Time)
    ensures var b' := Attempted(env, b, na, now);
            var k := env.KeyOf(na);
            && OnlyRecord(b, b', k)
            && (k in b.index ==>
                  var ka := b.index[k];
                  b'.index[k] == Info(ka.na, ka.src, ka.attempts + 1, now, ka.lastSuccess, ka.tried, ka.refs))
  {
    var b' := Attempted(env, b, na, now);
    assert b'.index.Keys == b.index.Keys;
  }

  /** A connection moves the time stamp exactly when the old one is more than twenty minutes back. */
  lemma ConnectedRecords(env: Env, b: Book, na: NetAddress, now: Time)
    ensures var b' := MarkedConnected(env, b, na, now);
            var k := env.KeyOf(na);
            && OnlyRecord(b, b', k)
            && (k in b.index ==>
                  var ka := b.index[k];
                  var seen := if now - ka.na.timestamp > 1200 * NANOS then now else ka.na.timestamp;
                  b'.index[k] == Info(NetAddress(ka.na.ip, ka.na.port, seen, ka.na.services), ka.src, ka.attempts,
                                      ka.lastAttempt, ka.lastSuccess, ka.tried, ka.refs))
  {
    var b' := MarkedConnected(env, b, na, now);
    assert b'.index.Keys == b.index.Keys;
  }

  lemma ServicesRecords(env: Env, b: Book, na: NetAddress, services: Services)
    ensures var b' := ServicesSet(env, b, na, services);
            var k := env.KeyOf(na);
            && OnlyRecord(b, b', k)
            && (k in b.index ==>
                  var ka := b.index[k];
                  b'.index[k] == Info(NetAddress(ka.na.ip, ka.na.port, ka.na.timestamp, services), ka.src, ka.attempts,
                                      ka.lastAttempt, ka.lastSuccess, ka.tried, ka.refs))
  {
    var b' := ServicesSet(env, b, na, services);
    assert b'.index.Keys == b.index.Keys;
  }
}

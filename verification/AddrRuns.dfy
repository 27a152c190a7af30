/** What holds of the address tables over every run of the manager's operations. */
module AddrRuns {
  import opened Options
  import opened AddrBook

  datatype Op =
    | Add(na: NetAddress, src: NetAddress, c: Choice)
    | Good(na: NetAddress, now: Time)
    | Attempt(na: NetAddress, now: Time)
    | Connected(na: NetAddress, now: Time)
    | SetServices(na: NetAddress, services: Services)

  function Tried(ka: Info, now: Time): Info {
    ka.(attempts := ka.attempts + 1, lastAttempt := now)
  }

  function Attempted(env: Env, b: Book, na: NetAddress, now: Time): Book {
    var k := env.KeyOf(na);
    if k !in b.index then b
    else Noted(b, k, Tried(b.index[k], now))
  }

  /** The time stamp moves only when it is more than twenty minutes old. */
  function MarkedConnected(env: Env, b: Book, na: NetAddress, now: Time): Book {
    var k := env.KeyOf(na);
    if k !in b.index || now <= b.index[k].na.timestamp + TWENTY_MINUTES then b
    else Noted(b, k, b.index[k].(na := b.index[k].na.(timestamp := now)))
  }

  function ServicesSet(env: Env, b: Book, na: NetAddress, services: Services): Book {
    var k := env.KeyOf(na);
    if k !in b.index then b
    else Noted(b, k, b.index[k].(na := b.index[k].na.(services := services)))
  }

  ghost function Next(env: Env, externals: set<Key>, b: Book, op: Op): Book
    requires Inv(env, b)
  {
    match op
    case Add(na, src, c) => Updated(env, externals, b, na, src, c)
    case Good(na, now) => MarkedGood(env, b, na, now)
    case Attempt(na, now) => Attempted(env, b, na, now)
    case Connected(na, now) => MarkedConnected(env, b, na, now)
    case SetServices(na, services) => ServicesSet(env, b, na, services)
  }

  ghost predicate Possible(env: Env, b: Book, op: Op)
    requires Inv(env, b)
  {
    op.Add? ==> Fair(env, b, op.na, op.src, op.c)
  }

  lemma AttemptedKeepsInv(env: Env, b: Book, na: NetAddress, now: Time)
    requires Inv(env, b)
    ensures Inv(env, Attempted(env, b, na, now))
  {
    hide Inv;
    var k := env.KeyOf(na);
    if k in b.index {
      NotedKeepsInv(env, b, k, Tried(b.index[k], now));
    }
  }

  lemma ConnectedKeepsInv(env: Env, b: Book, na: NetAddress, now: Time)
    requires Inv(env, b)
    ensures Inv(env, MarkedConnected(env, b, na, now))
  {
    hide Inv;
    var k := env.KeyOf(na);
    if k in b.index {
      NotedKeepsInv(env, b, k, b.index[k].(na := b.index[k].na.(timestamp := now)));
    }
  }

  lemma ServicesKeepInv(env: Env, b: Book, na: NetAddress, services: Services)
    requires Inv(env, b)
    ensures Inv(env, ServicesSet(env, b, na, services))
  {
    hide Inv;
    var k := env.KeyOf(na);
    if k in b.index {
      NotedKeepsInv(env, b, k, b.index[k].(na := b.index[k].na.(services := services)));
    }
  }

  lemma NextKeepsInv(env: Env, externals: set<Key>, b: Book, op: Op)
    requires Inv(env, b) && Possible(env, b, op)
    ensures Inv(env, Next(env, externals, b, op))
  {
    match op
    case Add(na, src, c) => UpdatedKeepsInv(env, externals, b, na, src, c);
    case Good(na, now) => MarkedGoodKeepsInv(env, b, na, now);
    case Attempt(na, now) => AttemptedKeepsInv(env, b, na, now);
    case Connected(na, now) => ConnectedKeepsInv(env, b, na, now);
    case SetServices(na, services) => ServicesKeepInv(env, b, na, services);
  }

  /** trace is a run: each book follows from the one before by ops[i]. */
  ghost predicate IsRun(env: Env, externals: set<Key>, start: Book, trace: seq<Book>, ops: seq<Op>) {
    && |trace| == |ops| + 1 && trace[0] == start
    && forall i :: 0 <= i < |ops| ==> Follows(env, externals, trace[i], ops[i], trace[i + 1])
  }

  ghost predicate Follows(env: Env, externals: set<Key>, b: Book, op: Op, b': Book) {
    Inv(env, b) ==> Possible(env, b, op) && b' == Next(env, externals, b, op)
  }

  /** The whole invariant holds after every operation of every run that starts with it: from an empty manager, and
      from one that has loaded its file. */
  lemma {:induction false} EveryRunKeepsInv(env: Env, externals: set<Key>, start: Book,
                                            trace: seq<Book>, ops: seq<Op>, n: nat)
    requires Inv(env, start) && IsRun(env, externals, start, trace, ops) && n < |trace|
    ensures Inv(env, trace[n])
  {
    if n > 0 {
      EveryRunKeepsInv(env, externals, start, trace, ops, n - 1);
      assert Follows(env, externals, trace[n - 1], ops[n - 1], trace[n]);
      NextKeepsInv(env, externals, trace[n - 1], ops[n - 1]);
    }
  }

  // --------------------------------------------- what the invariant amounts to

  lemma SplitIndex(index: map<Key, Info>)
    ensures |UntriedKeys(index)| + |TriedKeys(index)| == |index|
  {
    assert UntriedKeys(index) + TriedKeys(index) == index.Keys;
    assert UntriedKeys(index) !! TriedKeys(index);
  }

  /** A tried address occupies exactly one slot of the tried lists; an untried one none. */
  lemma TriedSlotUnique(env: Env, b: Book, k: Key, i: nat, j: nat, i': nat, j': nat)
    requires Inv(env, b) && i < |b.tried| && j < |b.tried[i]| && i' < |b.tried| && j' < |b.tried[i']|
    requires b.tried[i][j] == k && b.tried[i'][j'] == k
    ensures i == i' && j == j'
    ensures k in b.index && b.index[k].tried && b.index[k].refs == 0
  {
    assert b.index[b.tried[i][j]].tried;
    assert i == env.TriedBucket(b.secret, b.index[k].na) == i';
    assert NoDuplicates(b.tried[i]);
  }

  function Elements<T(==)>(s: seq<T>): set<T> {
    set x | x in s
  }

  lemma {:induction false} DistinctSize<T>(s: seq<T>)
    requires NoDuplicates(s)
    ensures |Elements(s)| == |s|
  {
    if |s| == 0 {
      assert Elements(s) == {};
    } else {
      var t := s[..|s| - 1];
      DistinctSize(t);
      assert s == t + [s[|s| - 1]];
      assert Elements(s) == Elements(t) + {s[|s| - 1]};
      assert s[|s| - 1] !in Elements(t);
    }
  }

  function Slots(tried: seq<seq<Key>>): nat {
    if |tried| == 0 then 0 else Slots(tried[..|tried| - 1]) + |tried[|tried| - 1]|
  }

  function ListedUpTo(b: Book, n: nat): set<Key>
    requires n <= |b.tried|
  {
    set i, j | 0 <= i < n && 0 <= j < |b.tried[i]| :: b.tried[i][j]
  }

  lemma ListedGrows(env: Env, b: Book, n: nat)
    requires Shape(b) && TriedSound(env, b) && 0 < n <= |b.tried|
    ensures ListedUpTo(b, n) == ListedUpTo(b, n - 1) + Elements(b.tried[n - 1])
    ensures ListedUpTo(b, n - 1) !! Elements(b.tried[n - 1])
  {
    var last := b.tried[n - 1];
    forall k | k in Elements(last) ensures k in ListedUpTo(b, n) && k !in ListedUpTo(b, n - 1) {
      var j :| 0 <= j < |last| && last[j] == k;
      assert b.tried[n - 1][j] == k;
      assert env.TriedBucket(b.secret, b.index[k].na) == n - 1;
    }
  }

  lemma {:induction false} ListedSize(env: Env, b: Book, n: nat)
    requires Shape(b) && TriedSound(env, b) && Bounded(b) && n <= |b.tried|
    ensures |ListedUpTo(b, n)| == Slots(b.tried[..n])
    ensures Slots(b.tried[..n]) <= n * TRIED_BUCKET_SIZE
  {
    if n == 0 {
      assert ListedUpTo(b, 0) == {};
    } else {
      hide ListedUpTo, Elements, TriedPlaced, TriedListed;
      ListedSize(env, b, n - 1);
      ListedGrows(env, b, n);
      DistinctSize(b.tried[n - 1]);
      assert b.tried[..n][..n - 1] == b.tried[..n - 1];
    }
  }

  /** The tried addresses fill the tried slots, one each. */
  lemma TriedFillSlots(env: Env, b: Book)
    requires Shape(b) && TriedSound(env, b) && Bounded(b)
    ensures |TriedKeys(b.index)| == Slots(b.tried) <= TRIED_BUCKET_COUNT * TRIED_BUCKET_SIZE
  {
    ListedSize(env, b, |b.tried|);
    assert b.tried[..|b.tried|] == b.tried;
    assert ListedUpTo(b, |b.tried|) == TriedKeys(b.index) by {
      forall k | k in TriedKeys(b.index) ensures k in ListedUpTo(b, |b.tried|) {
        var i := env.TriedBucket(b.secret, b.index[k].na);
        var j :| 0 <= j < |b.tried[i]| && b.tried[i][j] == k;
      }
    }
  }

  /** nTried counts the occupied tried slots, and never exceeds their number. */
  lemma TriedCountIsSlots(env: Env, b: Book)
    requires Inv(env, b)
    ensures b.nTried == Slots(b.tried) <= TRIED_BUCKET_COUNT * TRIED_BUCKET_SIZE
  {
    TriedFillSlots(env, b);
  }

  function HeldUpTo(news: seq<set<Key>>, n: nat): set<Key>
    requires n <= |news|
  {
    set i, k | 0 <= i < n && k in news[i] :: k
  }

  lemma {:induction false} HeldSize(b: Book, n: nat)
    requires Bounded(b) && n <= |b.news|
    ensures |HeldUpTo(b.news, n)| <= n * (NEW_BUCKET_SIZE + 1)
  {
    if n == 0 {
      assert HeldUpTo(b.news, 0) == {};
    } else {
      HeldSize(b, n - 1);
      assert HeldUpTo(b.news, n) == HeldUpTo(b.news, n - 1) + b.news[n - 1];
    }
  }

  /** The manager never knows more addresses than the tables have room for, and its count
      of known addresses is the size of its index. */
  lemma AddressCountBounded(env: Env, b: Book)
    requires Inv(env, b)
    ensures b.nNew + b.nTried == |b.index|
    ensures b.nNew <= NEW_BUCKET_COUNT * (NEW_BUCKET_SIZE + 1)
    ensures b.nTried <= TRIED_BUCKET_COUNT * TRIED_BUCKET_SIZE
  {
    SplitIndex(b.index);
    TriedCountIsSlots(env, b);
    HeldSize(b, |b.news|);
    assert UntriedKeys(b.index) <= HeldUpTo(b.news, |b.news|) by {
      forall k | k in UntriedKeys(b.index) ensures k in HeldUpTo(b.news, |b.news|) {
        FirstHolderExists(env, b, k);
        assert k in b.news[FirstHolder(b.news, k, 0)];
      }
    }
    SubsetSize(UntriedKeys(b.index), HeldUpTo(b.news, |b.news|));
  }

  // ------------------------------------------------------- what operations do

  /** b' has the tried table of b, all its tried addresses but perhaps k unchanged, no
      address b lacks but perhaps k, and k with at most one reference more. */
  ghost predicate Remembers(b: Book, b': Book, k: Key) {
    && b'.tried == b.tried && b'.nTried == b.nTried && b'.secret == b.secret
    && b'.index.Keys <= b.index.Keys + {k}
    && (forall q :: q in b.index && b.index[q].tried && q != k ==> q in b'.index && b'.index[q] == b.index[q])
    && (k in b.index ==> k in b'.index && b'.index[k].tried == b.index[k].tried
                         && b.index[k].refs <= b'.index[k].refs <= b.index[k].refs + 1)
  }

  lemma PlacedRemembers(b: Book, k: Key, bucket: nat, c: Choice)
    requires Indexed(b) && bucket < |b.news| && k in b.index
    requires |b.news[bucket]| > NEW_BUCKET_SIZE ==> IsVictim(b, bucket, c.bad, c.victim)
    requires forall q :: q in b.index && b.index[q].tried ==> q !in b.news[bucket]
    ensures Remembers(b, Placed(b, k, bucket, c), k)
  {
    if |b.news[bucket]| > NEW_BUCKET_SIZE && k !in b.news[bucket] {
      assert Gone(b, bucket, c.bad, c.victim) <= b.news[bucket];
    }
  }

  lemma RemembersFrom(b: Book, b1: Book, b': Book, k: Key, ka: Info)
    requires b1.index == b.index[k := ka] && b1.tried == b.tried && b1.nTried == b.nTried && b1.secret == b.secret
    requires k in b.index ==> ka.tried == b.index[k].tried && ka.refs == b.index[k].refs
    requires Remembers(b1, b', k)
    ensures Remembers(b, b', k) && k in b'.index
  {
  }

  lemma TriedNotHeld(b: Book, bucket: nat)
    requires RefsExact(b) && Status(b) && bucket < |b.news|
    ensures forall q :: q in b.index && b.index[q].tried ==> q !in b.news[bucket]
  {
    forall q | q in b.index && b.index[q].tried ensures q !in b.news[bucket] {
      assert bucket in Holders(b.news, q) <==> q in b.news[bucket];
      assert |Holders(b.news, q)| == 0;
    }
  }

  /** Adding never forgets a tried address, knows at most the new one more, and does know the
      new one unless it is not routable or is one of our own. */
  lemma AddRemembers(env: Env, externals: set<Key>, b: Book, na: NetAddress, src: NetAddress, c: Choice)
    requires Inv(env, b) && Fair(env, b, na, src, c)
    ensures Remembers(b, Updated(env, externals, b, na, src, c), env.KeyOf(na))
    ensures env.routable(na.ip) && env.KeyOf(na) !in externals
            ==> env.KeyOf(na) in Updated(env, externals, b, na, src, c).index
  {
    hide Keyed, RefsExact, TriedSound, Counted, Bounded, Placed;
    var k := env.KeyOf(na);
    var bucket := env.NewBucket(b.secret, na, src);
    TriedNotHeld(b, bucket);
    if k !in b.index {
      var base := Enrolled(b, k, na, src);
      PlacedRemembers(base, k, bucket, c);
      RemembersFrom(b, base, Placed(base, k, bucket, c), k, base.index[k]);
    } else if Rolled(b.index[k], c) && k !in b.news[bucket] {
      var base := Noted(b, k, Refreshed(b.index[k], na));
      VictimSurvivesNote(b, base, k, bucket, c);
      PlacedRemembers(base, k, bucket, c);
      RemembersFrom(b, base, Placed(base, k, bucket, c), k, base.index[k]);
    } else {
      PlacedAgain(Noted(b, k, Refreshed(b.index[k], na)), k, bucket, c);
    }
  }

  lemma PlacedAgain(b: Book, k: Key, bucket: nat, c: Choice)
    requires bucket < |b.news| && k in b.index
    ensures k in b.news[bucket] ==> Placed(b, k, bucket, c) == b
  {
  }

  /** What becomes of every other address when k is marked good. */
  ghost predicate Evicted(env: Env, b: Book, b': Book, k: Key, rm: Key)
    requires Shape(b)
  {
    && k in b.index && rm in b.index && rm in b'.index
    && b.index[rm].tried && !b'.index[rm].tried && b'.index[rm].refs == 1
    && (exists home :: Holders(b'.news, rm) == {home})
    && |b.tried[env.TriedBucket(b.secret, b.index[k].na)]| == TRIED_BUCKET_SIZE
    && rm in b.tried[env.TriedBucket(b.secret, b.index[k].na)]
    && forall q :: q in b.tried[env.TriedBucket(b.secret, b.index[k].na)] && q in b.index ==>
         b.index[rm].na.timestamp <= b.index[q].na.timestamp
  }

  lemma SwapEvicts(env: Env, b: Book, k: Key, freed: nat)
    requires Middle(env, b, k) && freed < NEW_BUCKET_COUNT
    requires |b.tried[env.TriedBucket(b.secret, b.index[k].na)]| == TRIED_BUCKET_SIZE
    ensures var bucket := env.TriedBucket(b.secret, b.index[k].na);
            var rm := b.tried[bucket][Eldest(TriedTimes(b, bucket))];
            rm != k && Evicted(env, b, GoodMoved(env, b, k, freed), k, rm)
  {
    var bucket := env.TriedBucket(b.secret, b.index[k].na);
    var ts := TriedTimes(b, bucket);
    var e := Eldest(ts);
    var rm := b.tried[bucket][e];
    var home := Home(env, b, b.index[rm], freed);
    SwappedRefs(env, b, k, bucket, e, home);
    forall q | q in b.tried[bucket] ensures b.index[rm].na.timestamp <= b.index[q].na.timestamp {
      var j :| 0 <= j < |b.tried[bucket]| && b.tried[bucket][j] == q;
      assert ts[e] <= ts[j];
    }
  }

  /** Everything but k, and at most one evicted address, is untouched. */
  ghost predicate OnlyMoves(env: Env, b: Book, b': Book, k: Key)
    requires Shape(b)
  {
    && b'.index.Keys == b.index.Keys
    && (forall q :: q in b.index && q != k ==> b'.index[q] == b.index[q] || Evicted(env, b, b', k, q))
    && (forall q, q' :: q in Changed(b, b') - {k} && q' in Changed(b, b') - {k} ==> q == q')
  }

  function Changed(b: Book, b': Book): set<Key> {
    set q | q in b.index && !(q in b'.index && b'.index[q] == b.index[q])
  }

  lemma MoveConserves(env: Env, b: Book, k: Key, freed: nat)
    requires Middle(env, b, k) && freed < NEW_BUCKET_COUNT
    ensures var b' := GoodMoved(env, b, k, freed);
            && OnlyMoves(env, b, b', k)
            && b'.nNew + b'.nTried == b.nNew + b.nTried + 1
            && b'.index[k] == b.index[k].(tried := true)
  {
    hide Keyed, Indexed, RefsExact, StatusBut, TriedListed, TriedDistinct, Evicted;
    var bucket := env.TriedBucket(b.secret, b.index[k].na);
    if |b.tried[bucket]| == TRIED_BUCKET_SIZE {
      SwapEvicts(env, b, k, freed);
      SwapOnly(b, k, bucket, Eldest(TriedTimes(b, bucket)),
               Home(env, b, b.index[b.tried[bucket][Eldest(TriedTimes(b, bucket))]], freed));
    } else {
      PromoteOnly(b, k, bucket);
    }
  }

  lemma PromoteOnly(b: Book, k: Key, bucket: nat)
    requires k in b.index && bucket < |b.tried|
    ensures Changed(b, Promoted(b, k, bucket)) <= {k}
  {
  }

  lemma SwapOnly(b: Book, k: Key, bucket: nat, e: nat, home: nat)
    requires k in b.index && bucket < |b.tried| && e < |b.tried[bucket]| && home < |b.news|
    requires b.tried[bucket][e] in b.index && b.tried[bucket][e] != k
    ensures Changed(b, Swapped(b, k, bucket, e, home)) <= {k, b.tried[bucket][e]}
    ensures Swapped(b, k, bucket, e, home).index[k] == b.index[k].(tried := true)
  {
  }

  lemma OnlyMovesFrom(env: Env, b: Book, b1: Book, b': Book, k: Key)
    requires Shape(b) && Shape(b1) && k in b.index && OnlyMoves(env, b1, b', k)
    requires b1.index.Keys == b.index.Keys && b1.tried == b.tried && b1.secret == b.secret
    requires b1.index[k].na == b.index[k].na
    requires forall q :: q in b.index && q != k ==> b1.index[q] == b.index[q]
    ensures OnlyMoves(env, b, b', k)
  {
    forall q | q in b.index && q != k && b'.index[q] != b.index[q] ensures Evicted(env, b, b', k, q) {
      assert Evicted(env, b1, b', k, q);
    }
    assert Changed(b, b') - {k} == Changed(b1, b') - {k};
  }

  lemma FreedFrom(env: Env, b: Book, k: Key, now: Time)
    requires Inv(env, b) && k in b.index && !b.index[k].tried
    ensures var b1 := Noted(b, k, Succeeded(b.index[k], now));
            && FirstHolder(b1.news, k, 0) != -1 && Middle(env, Freed(b1, k), k)
  {
    NotedKeepsInv(env, b, k, Succeeded(b.index[k], now));
    FreedIsMiddle(env, Noted(b, k, Succeeded(b.index[k], now)), k);
  }

  lemma UntriedGoodConserves(env: Env, b: Book, na: NetAddress, now: Time)
    requires Inv(env, b) && env.KeyOf(na) in b.index && !b.index[env.KeyOf(na)].tried
    ensures var b' := MarkedGood(env, b, na, now);
            var k := env.KeyOf(na);
            && OnlyMoves(env, b, b', k)
            && b'.nNew + b'.nTried == b.nNew + b.nTried
            && b'.index[k] == Info(b.index[k].na, b.index[k].src, 0, now, now, true, 0)
  {
    var k := env.KeyOf(na);
    var b1 := Noted(b, k, Succeeded(b.index[k], now));
    FreedFrom(env, b, k, now);
    var b2 := Freed(b1, k);
    MoveConserves(env, b2, k, FirstHolder(b1.news, k, 0));
    OnlyMovesFrom(env, b, b2, MarkedGood(env, b, na, now), k);
  }

  /** Marking an address good loses no address and keeps the total; afterwards the address, tried
      before or not, is tried, in no new bucket, with no attempts and both times set to now; every
      other address is untouched, except at most one: the eldest entry of a full tried bucket,
      which reappears in exactly one new bucket. */
  lemma GoodConserves(env: Env, b: Book, na: NetAddress, now: Time)
    requires Inv(env, b)
    ensures var b' := MarkedGood(env, b, na, now);
            var k := env.KeyOf(na);
            && OnlyMoves(env, b, b', k)
            && b'.nNew + b'.nTried == b.nNew + b.nTried
            && (k in b.index ==> b'.index[k] == Info(b.index[k].na, b.index[k].src, 0, now, now, true, 0))
  {
    var k := env.KeyOf(na);
    if k in b.index && !b.index[k].tried {
      UntriedGoodConserves(env, b, na, now);
    }
  }

  /** When the random generator is asked for a number below twice the reference count, that
      bound is positive. */
  lemma RollBoundPositive(env: Env, b: Book, k: Key)
    requires Inv(env, b) && k in b.index && !b.index[k].tried
    ensures 2 * b.index[k].refs > 0
    ensures FirstHolder(b.news, k, 0) != -1
  {
    FirstHolderExists(env, b, k);
  }
}

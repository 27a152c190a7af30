/** The address manager's tables as values: what every operation of the
    manager does to them, and the invariant all operations keep.

    Choices the node does not make deterministically (map iteration order, the
    random generator, the clock) are parameters, so every lemma holds for all
    of them. */
module AddrBook {
  import opened Options

  // ---------------------------------------------------------------- constants

  const NEW_BUCKET_COUNT := 1024
  const TRIED_BUCKET_COUNT := 64
  const NEW_BUCKET_SIZE := 64
  const TRIED_BUCKET_SIZE := 256
  const NEW_BUCKETS_PER_ADDRESS := 8

  /** Nanoseconds since the Unix epoch; ZERO_TIME is the year-one zero value. */
  type Time = int
  const NANOS := 1_000_000_000
  const ZERO_TIME := -62135596800 * NANOS
  const TWENTY_MINUTES := 1200 * NANOS

  // --------------------------------------------------------------- data model

  newtype byte = x: int | 0 <= x < 256
  type Bytes = seq<byte>
  datatype Key = Key(text: Bytes)   // an ip:port string

  /** A mask of service flags, as the set of the bits that are on. */
  type Services = set<nat>

  datatype NetAddress = NetAddress(ip: Bytes, port: nat, timestamp: Time, services: Services)

  /** The functions the tables rely on but do not look into. */
  datatype Env = Env(
    keyOf: (Bytes, nat) -> Key,                 // the ip:port string
    routable: Bytes -> bool,
    newHash: (Bytes, Bytes, Bytes) -> nat,      // secret, address, source
    triedHash: (Bytes, Bytes, nat) -> nat,      // secret, address, port
    parse: Key -> Option<NetAddress>)           // reading an ip:port string back
  {
    function KeyOf(na: NetAddress): Key { keyOf(na.ip, na.port) }

    function NewBucket(secret: Bytes, na: NetAddress, src: NetAddress): (i: nat)
      ensures i < NEW_BUCKET_COUNT
    {
      newHash(secret, na.ip, src.ip) % NEW_BUCKET_COUNT
    }

    function TriedBucket(secret: Bytes, na: NetAddress): (i: nat)
      ensures i < TRIED_BUCKET_COUNT
    {
      triedHash(secret, na.ip, na.port) % TRIED_BUCKET_COUNT
    }
  }

  datatype Info = Info(na: NetAddress, src: NetAddress, attempts: int,
                       lastAttempt: Time, lastSuccess: Time, tried: bool, refs: int)

  datatype Book = Book(secret: Bytes, index: map<Key, Info>, news: seq<set<Key>>,
                       tried: seq<seq<Key>>, nNew: int, nTried: int)

  // ---------------------------------------------------------------- invariant

  /** The new buckets that hold k. */
  function Holders(news: seq<set<Key>>, k: Key): set<int> {
    set i | 0 <= i < |news| && k in news[i]
  }

  function UntriedKeys(index: map<Key, Info>): set<Key> {
    set k | k in index && !index[k].tried
  }

  function TriedKeys(index: map<Key, Info>): set<Key> {
    set k | k in index && index[k].tried
  }

  ghost predicate NoDuplicates<T>(s: seq<T>) {
    forall i, j :: 0 <= i < j < |s| ==> s[i] != s[j]
  }

  ghost predicate Shape(b: Book) {
    |b.news| == NEW_BUCKET_COUNT && |b.tried| == TRIED_BUCKET_COUNT
  }

  ghost predicate Keyed(env: Env, b: Book) {
    forall k :: k in b.index ==> env.KeyOf(b.index[k].na) == k
  }

  /** Every new-bucket entry is an indexed address. */
  ghost predicate Indexed(b: Book) {
    forall i, k :: 0 <= i < |b.news| && k in b.news[i] ==> k in b.index
  }

  /** refs is the number of new buckets holding the address. */
  ghost predicate RefsExact(b: Book) {
    forall k :: k in b.index ==> b.index[k].refs == |Holders(b.news, k)|
  }

  /** Each address is either tried and in no new bucket, or untried and in one to eight. */
  ghost predicate Status(b: Book) {
    forall k :: k in b.index ==>
      if b.index[k].tried then b.index[k].refs == 0
      else 1 <= b.index[k].refs <= NEW_BUCKETS_PER_ADDRESS
  }

  /** Every tried entry is a tried address sitting in the bucket its hash assigns. */
  ghost predicate TriedPlaced(env: Env, b: Book) {
    forall i, j :: 0 <= i < |b.tried| && 0 <= j < |b.tried[i]| ==>
      var k := b.tried[i][j];
      k in b.index && b.index[k].tried && env.TriedBucket(b.secret, b.index[k].na) == i
  }

  ghost predicate TriedListed(env: Env, b: Book)
    requires Shape(b)
  {
    forall k :: k in b.index && b.index[k].tried ==>
      k in b.tried[env.TriedBucket(b.secret, b.index[k].na)]
  }

  ghost predicate TriedDistinct(b: Book) {
    forall i :: 0 <= i < |b.tried| ==> NoDuplicates(b.tried[i])
  }

  ghost predicate Counted(b: Book) {
    b.nNew == |UntriedKeys(b.index)| && b.nTried == |TriedKeys(b.index)|
  }

  /** A new bucket may hold one more than its nominal size: expiry starts only above it. */
  ghost predicate Bounded(b: Book) {
    && (forall i :: 0 <= i < |b.news| ==> |b.news[i]| <= NEW_BUCKET_SIZE + 1)
    && (forall i :: 0 <= i < |b.tried| ==> |b.tried[i]| <= TRIED_BUCKET_SIZE)
  }

  ghost predicate Inv(env: Env, b: Book) {
    && Shape(b) && Keyed(env, b) && Indexed(b) && RefsExact(b) && Status(b)
    && TriedSound(env, b) && Counted(b) && Bounded(b)
  }

  function Fresh(secret: Bytes): Book {
    Book(secret, map[], seq(NEW_BUCKET_COUNT, _ => {}), seq(TRIED_BUCKET_COUNT, _ => []), 0, 0)
  }

  lemma FreshInv(env: Env, secret: Bytes)
    ensures Inv(env, Fresh(secret))
  {
    assert UntriedKeys(map[]) == {} && TriedKeys(map[]) == {};
  }

  // --------------------------------------------------------- adding addresses

  /** A known address announced again takes over the newer time stamp and the union of services. */
  function Refreshed(ka: Info, na: NetAddress): Info {
    if na.timestamp > ka.na.timestamp || !(na.services <= ka.na.services)
    then ka.(na := ka.na.(timestamp := na.timestamp, services := ka.na.services + na.services))
    else ka
  }

  function LastRefs(index: map<Key, Info>, gone: set<Key>): set<Key> {
    set k | k in gone && k in index && index[k].refs == 1
  }

  function DroppedIndex(index: map<Key, Info>, gone: set<Key>): map<Key, Info> {
    map k | k in index && !(k in gone && index[k].refs == 1) ::
      if k in gone then index[k].(refs := index[k].refs - 1) else index[k]
  }

  /** Removes the keys `gone` from one new bucket; an address losing its last reference leaves the index. */
  function DropRefs(b: Book, bucket: nat, gone: set<Key>): Book
    requires bucket < |b.news|
  {
    b.(index := DroppedIndex(b.index, gone),
       news := b.news[bucket := b.news[bucket] - gone],
       nNew := b.nNew - |LastRefs(b.index, gone)|)
  }

  /** The address expireNew throws away besides the bad ones: one with the oldest time stamp, if any is left. */
  ghost predicate IsVictim(b: Book, bucket: nat, bad: set<Key>, victim: Option<Key>)
    requires bucket < |b.news| && Indexed(b)
  {
    var kept := b.news[bucket] - bad;
    match victim
    case None => kept == {}
    case Some(v) => v in kept && forall k :: k in kept ==> b.index[v].na.timestamp <= b.index[k].na.timestamp
  }

  function Gone(b: Book, bucket: nat, bad: set<Key>, victim: Option<Key>): set<Key>
    requires bucket < |b.news|
  {
    (b.news[bucket] * bad) + (if victim.Some? then {victim.value} else {})
  }

  function Expired(b: Book, bucket: nat, bad: set<Key>, victim: Option<Key>): Book
    requires bucket < |b.news|
  {
    DropRefs(b, bucket, Gone(b, bucket, bad, victim))
  }

  /** The random and unordered choices of one call: the random number, the addresses
      isBad rejects, and the oldest address found. */
  datatype Choice = Choice(roll: nat, bad: set<Key>, victim: Option<Key>)

  function AddRef(b: Book, k: Key, bucket: nat): Book
    requires bucket < |b.news| && k in b.index
  {
    b.(index := b.index[k := b.index[k].(refs := b.index[k].refs + 1)],
       news := b.news[bucket := b.news[bucket] + {k}])
  }

  function Placed(b: Book, k: Key, bucket: nat, c: Choice): Book
    requires bucket < |b.news| && k in b.index
  {
    if k in b.news[bucket] then b
    else if |b.news[bucket]| > NEW_BUCKET_SIZE then
      var b' := Expired(b, bucket, c.bad, c.victim);
      if k in b'.index then AddRef(b', k, bucket) else b'
    else AddRef(b, k, bucket)
  }

  function Noted(b: Book, k: Key, ka: Info): Book {
    b.(index := b.index[k := ka])
  }

  function Enrolled(b: Book, k: Key, na: NetAddress, src: NetAddress): Book {
    b.(index := b.index[k := Info(na, src, 0, ZERO_TIME, ZERO_TIME, false, 0)], nNew := b.nNew + 1)
  }

  /** Whether the call reaches the new bucket for a known address. */
  predicate Rolled(ka: Info, c: Choice) {
    !ka.tried && ka.refs != NEW_BUCKETS_PER_ADDRESS && ka.refs > 0 && c.roll % (2 * ka.refs) == 0
  }

  function UpdatedKnown(env: Env, b: Book, na: NetAddress, src: NetAddress, c: Choice): Book
    requires Shape(b) && env.KeyOf(na) in b.index
  {
    var k := env.KeyOf(na);
    var b' := Noted(b, k, Refreshed(b.index[k], na));
    if Rolled(b.index[k], c) then Placed(b', k, env.NewBucket(b.secret, na, src), c) else b'
  }

  function UpdatedUnknown(env: Env, b: Book, na: NetAddress, src: NetAddress, c: Choice): Book
    requires Shape(b)
  {
    var k := env.KeyOf(na);
    Placed(Enrolled(b, k, na, src), k, env.NewBucket(b.secret, na, src), c)
  }

  /** What updateAddress does. */
  function Updated(env: Env, externals: set<Key>, b: Book, na: NetAddress, src: NetAddress, c: Choice): Book
    requires Shape(b)
  {
    var k := env.KeyOf(na);
    if !env.routable(na.ip) || k in externals then b
    else if k in b.index then UpdatedKnown(env, b, na, src, c)
    else UpdatedUnknown(env, b, na, src, c)
  }

  /** The choices are ones the call can make: the victim is an oldest survivor whenever a bucket overflows. */
  ghost predicate Fair(env: Env, b: Book, na: NetAddress, src: NetAddress, c: Choice)
    requires Shape(b) && Indexed(b)
  {
    var bucket := env.NewBucket(b.secret, na, src);
    |b.news[bucket]| > NEW_BUCKET_SIZE ==> IsVictim(b, bucket, c.bad, c.victim)
  }

  // ------------------------------------------------------- lemmas: the counts

  lemma SameCounts(index: map<Key, Info>, index': map<Key, Info>)
    requires index'.Keys == index.Keys
    requires forall k :: k in index ==> index'[k].tried == index[k].tried
    ensures UntriedKeys(index') == UntriedKeys(index) && TriedKeys(index') == TriedKeys(index)
  {
  }

  lemma CountPromotion(index: map<Key, Info>, k: Key, ka: Info)
    requires k in index && !index[k].tried && ka.tried
    ensures |UntriedKeys(index[k := ka])| == |UntriedKeys(index)| - 1
    ensures |TriedKeys(index[k := ka])| == |TriedKeys(index)| + 1
  {
    assert UntriedKeys(index[k := ka]) == UntriedKeys(index) - {k};
    assert TriedKeys(index[k := ka]) == TriedKeys(index) + {k};
  }

  lemma CountDemotion(index: map<Key, Info>, k: Key, ka: Info)
    requires k in index && index[k].tried && !ka.tried
    ensures |UntriedKeys(index[k := ka])| == |UntriedKeys(index)| + 1
    ensures |TriedKeys(index[k := ka])| == |TriedKeys(index)| - 1
  {
    assert UntriedKeys(index[k := ka]) == UntriedKeys(index) + {k};
    assert TriedKeys(index[k := ka]) == TriedKeys(index) - {k};
  }

  // -------------------------------------------------- lemmas: reference counts

  lemma HoldersAfterRemoval(news: seq<set<Key>>, bucket: nat, gone: set<Key>, k: Key)
    requires bucket < |news|
    ensures Holders(news[bucket := news[bucket] - gone], k)
         == if k in gone then Holders(news, k) - {bucket} else Holders(news, k)
  {
  }

  lemma HoldersAfterInsert(news: seq<set<Key>>, bucket: nat, k: Key, q: Key)
    requires bucket < |news|
    ensures Holders(news[bucket := news[bucket] + {k}], q)
         == if q == k then Holders(news, q) + {bucket} else Holders(news, q)
  {
  }

  ghost predicate StatusBut(b: Book, k: Key) {
    forall q :: q in b.index && q != k ==>
      if b.index[q].tried then b.index[q].refs == 0
      else 1 <= b.index[q].refs <= NEW_BUCKETS_PER_ADDRESS
  }

  /** The invariant with one address allowed to have no reference yet: the state
      between enrolling an address and putting it in a bucket. */
  ghost predicate InvBut(env: Env, b: Book, k: Key) {
    && Shape(b) && Keyed(env, b) && Indexed(b) && RefsExact(b)
    && StatusBut(b, k)
    && (k in b.index ==> !b.index[k].tried && 0 <= b.index[k].refs < NEW_BUCKETS_PER_ADDRESS)
    && TriedSound(env, b) && Counted(b) && Bounded(b)
  }

  lemma DropUntried(b: Book, bucket: nat, gone: set<Key>)
    requires bucket < |b.news|
    requires forall k :: k in gone ==> k in b.index && !b.index[k].tried
    ensures UntriedKeys(DropRefs(b, bucket, gone).index) == UntriedKeys(b.index) - LastRefs(b.index, gone)
    ensures TriedKeys(DropRefs(b, bucket, gone).index) == TriedKeys(b.index)
    ensures LastRefs(b.index, gone) <= UntriedKeys(b.index)
  {
  }

  lemma DropKeepsCount(b: Book, bucket: nat, gone: set<Key>)
    requires bucket < |b.news| && Counted(b)
    requires forall k :: k in gone ==> k in b.index && !b.index[k].tried
    ensures Counted(DropRefs(b, bucket, gone))
  {
    DropUntried(b, bucket, gone);
    hide UntriedKeys, TriedKeys, LastRefs;
  }

  lemma HoldersAfterDrop(b: Book, bucket: nat, gone: set<Key>, q: Key)
    requires bucket < |b.news| && gone <= b.news[bucket]
    ensures |Holders(DropRefs(b, bucket, gone).news, q)| == |Holders(b.news, q)| - if q in gone then 1 else 0
  {
    HoldersAfterRemoval(b.news, bucket, gone, q);
    assert q in gone ==> bucket in Holders(b.news, q);
  }

  lemma DropKeepsRefs(env: Env, b: Book, bucket: nat, gone: set<Key>, k: Key)
    requires InvBut(env, b, k) && bucket < |b.news|
    requires gone <= b.news[bucket] && k !in gone
    ensures var b' := DropRefs(b, bucket, gone); Indexed(b') && RefsExact(b')
  {
    var b' := DropRefs(b, bucket, gone);
    forall q | q in b.index
      ensures |Holders(b'.news, q)| == if q in gone then b.index[q].refs - 1 else b.index[q].refs
    {
      HoldersAfterDrop(b, bucket, gone, q);
    }
    forall i, q | 0 <= i < |b'.news| && q in b'.news[i] ensures q in b'.index {
      assert q in b.news[i];
      assert i in Holders(b'.news, q);
      assert |Holders(b'.news, q)| > 0;
    }
  }

  lemma GoneAreUntried(env: Env, b: Book, bucket: nat, gone: set<Key>, k: Key)
    requires InvBut(env, b, k) && bucket < |b.news| && gone <= b.news[bucket] && k !in gone
    ensures forall q :: q in gone ==> q in b.index && !b.index[q].tried && b.index[q].refs >= 1
  {
    forall q | q in gone ensures q in b.index && !b.index[q].tried && b.index[q].refs >= 1 {
      assert bucket in Holders(b.news, q);
    }
  }

  lemma DropKeepsBounds(b: Book, bucket: nat, gone: set<Key>)
    requires Shape(b) && Bounded(b) && bucket < |b.news|
    ensures Shape(DropRefs(b, bucket, gone)) && Bounded(DropRefs(b, bucket, gone))
  {
    hide DroppedIndex;
    SubsetSize(b.news[bucket] - gone, b.news[bucket]);
  }

  lemma DropKeepsRecords(env: Env, b: Book, bucket: nat, gone: set<Key>, k: Key)
    requires Keyed(env, b) && StatusBut(b, k) && bucket < |b.news| && k !in gone
    requires forall q :: q in gone ==> q in b.index && !b.index[q].tried && b.index[q].refs >= 1
    ensures var b' := DropRefs(b, bucket, gone);
            && Keyed(env, b') && StatusBut(b', k)
            && (k in b'.index ==> k in b.index && b'.index[k] == b.index[k])
  {
  }

  lemma DropKeepsTried(b: Book, bucket: nat, gone: set<Key>)
    requires bucket < |b.news|
    requires forall q :: q in gone ==> q in b.index && !b.index[q].tried
    ensures SameTried(b, DropRefs(b, bucket, gone))
  {
  }

  /** Expiring from one bucket keeps the invariant and everything about tried addresses. */
  lemma DropKeepsInv(env: Env, b: Book, bucket: nat, gone: set<Key>, k: Key)
    requires InvBut(env, b, k) && bucket < |b.news|
    requires gone <= b.news[bucket] && k !in gone
    ensures InvBut(env, DropRefs(b, bucket, gone), k)
  {
    hide Keyed, Indexed, RefsExact, StatusBut, TriedSound, Counted, Bounded, SameTried, DropRefs;
    GoneAreUntried(env, b, bucket, gone, k);
    DropKeepsRefs(env, b, bucket, gone, k);
    DropKeepsBounds(b, bucket, gone);
    DropKeepsRecords(env, b, bucket, gone, k);
    DropKeepsTried(b, bucket, gone);
    DropKeepsCount(b, bucket, gone);
    TriedFrame(env, b, DropRefs(b, bucket, gone));
  }

  /** Both books have the same tried addresses, with the same endpoints, in the same lists. */
  ghost predicate SameTried(b: Book, b': Book) {
    && b'.secret == b.secret && b'.tried == b.tried
    && (forall k :: k in b.index && b.index[k].tried ==>
          k in b'.index && b'.index[k].tried
          && b'.index[k].na.ip == b.index[k].na.ip && b'.index[k].na.port == b.index[k].na.port)
    && (forall k :: k in b'.index && b'.index[k].tried ==> k in b.index && b.index[k].tried)
  }

  ghost predicate TriedSound(env: Env, b: Book)
    requires Shape(b)
  {
    TriedPlaced(env, b) && TriedListed(env, b) && TriedDistinct(b)
  }

  lemma TriedFrame(env: Env, b: Book, b': Book)
    requires Shape(b) && Shape(b') && TriedSound(env, b) && SameTried(b, b')
    ensures TriedSound(env, b')
  {
  }

  /** k is in no tried list, and in no other bucket if it has one reference left. */
  ghost predicate Loose(b: Book, bucket: nat, k: Key)
    requires k in b.index
  {
    && (forall i, j :: 0 <= i < |b.tried| && 0 <= j < |b.tried[i]| ==> b.tried[i][j] != k)
    && (forall i :: 0 <= i < |b.news| && i != bucket && k in b.news[i] ==> b.index[k].refs != 1)
  }

  /** An address in a new bucket is in no tried list, and losing its last reference it is in no other bucket. */
  lemma HeldFacts(env: Env, b: Book, k0: Key, bucket: nat, k: Key)
    requires InvBut(env, b, k0) && bucket < |b.news| && k in b.news[bucket] && k != k0
    ensures k in b.index && !b.index[k].tried && b.index[k].refs >= 1
    ensures Loose(b, bucket, k)
  {
    assert bucket in Holders(b.news, k);
    forall i | 0 <= i < |b.news| && i != bucket && k in b.news[i] ensures b.index[k].refs != 1 {
      assert {bucket, i} <= Holders(b.news, k);
      SubsetSize({bucket, i}, Holders(b.news, k));
    }
  }

  /** Removes one key from one new bucket. */
  function Released(b: Book, bucket: nat, k: Key): Book
    requires bucket < |b.news| && k in b.index
  {
    var b' := b.(news := b.news[bucket := b.news[bucket] - {k}]);
    if b.index[k].refs == 1 then b'.(index := b.index - {k}, nNew := b.nNew - 1)
    else b'.(index := b.index[k := b.index[k].(refs := b.index[k].refs - 1)])
  }

  lemma DropAnotherIndex(index: map<Key, Info>, gone: set<Key>, k: Key)
    requires k !in gone && k in index
    ensures k in DroppedIndex(index, gone) && DroppedIndex(index, gone)[k] == index[k]
    ensures DroppedIndex(index, gone + {k})
         == if index[k].refs == 1 then DroppedIndex(index, gone) - {k}
            else DroppedIndex(index, gone)[k := index[k].(refs := index[k].refs - 1)]
  {
  }

  lemma LastRefsAnother(index: map<Key, Info>, gone: set<Key>, k: Key)
    requires k !in gone && k in index
    ensures |LastRefs(index, gone + {k})| == |LastRefs(index, gone)| + if index[k].refs == 1 then 1 else 0
  {
    assert LastRefs(index, gone + {k}) == LastRefs(index, gone) + (if index[k].refs == 1 then {k} else {});
  }

  /** Dropping keys one at a time is the same as dropping them together. */
  lemma DropAnother(b: Book, bucket: nat, gone: set<Key>, k: Key)
    requires bucket < |b.news| && k !in gone && k in b.index
    ensures var b1 := DropRefs(b, bucket, gone);
            && k in b1.index && b1.index[k] == b.index[k]
            && Released(b1, bucket, k) == DropRefs(b, bucket, gone + {k})
  {
    hide DroppedIndex, LastRefs;
    DropAnotherIndex(b.index, gone, k);
    LastRefsAnother(b.index, gone, k);
    assert b.news[bucket] - gone - {k} == b.news[bucket] - (gone + {k});
  }

  /** Every address of the bucket can be taken out of it. */
  ghost predicate Expirable(env: Env, b: Book, bucket: nat)
    requires bucket < |b.news|
  {
    forall k :: k in b.news[bucket] ==> k in b.index && Loose(b, bucket, k) && env.KeyOf(b.index[k].na) == k
  }

  lemma InvExpirable(env: Env, b: Book, k0: Key, bucket: nat)
    requires InvBut(env, b, k0) && bucket < |b.news| && k0 !in b.news[bucket]
    ensures Expirable(env, b, bucket)
  {
    forall k | k in b.news[bucket] ensures k in b.index && Loose(b, bucket, k) {
      HeldFacts(env, b, k0, bucket, k);
    }
  }

  /** What holds of the next address while a bucket is being expired. */
  lemma ExpireStep(env: Env, b: Book, bucket: nat, gone: set<Key>, k: Key)
    requires bucket < |b.news| && Expirable(env, b, bucket) && k in b.news[bucket] && k !in gone
    ensures var b1 := DropRefs(b, bucket, gone);
            && k in b1.index && b1.index[k] == b.index[k] && k in b1.news[bucket]
            && Loose(b1, bucket, k) && env.KeyOf(b1.index[k].na) == k
            && Released(b1, bucket, k) == DropRefs(b, bucket, gone + {k})
  {
    DropAnother(b, bucket, gone, k);
  }

  lemma DropNone(b: Book, bucket: nat)
    requires bucket < |b.news|
    ensures DropRefs(b, bucket, {}) == b
  {
    assert LastRefs(b.index, {}) == {};
    assert b.news[bucket] - {} == b.news[bucket];
  }

  lemma SubsetSize<T>(a: set<T>, b: set<T>)
    requires a <= b
    ensures |a| <= |b|
  {
    assert b == a + (b - a);
  }

  lemma AddRefKeepsRefs(b: Book, k: Key, bucket: nat)
    requires Indexed(b) && RefsExact(b) && bucket < |b.news| && k in b.index && k !in b.news[bucket]
    ensures var b' := AddRef(b, k, bucket); Indexed(b') && RefsExact(b')
  {
    var b' := AddRef(b, k, bucket);
    forall q | q in b'.index ensures b'.index[q].refs == |Holders(b'.news, q)| {
      HoldersAfterInsert(b.news, bucket, k, q);
    }
  }

  lemma AddRefKeepsBounds(b: Book, k: Key, bucket: nat)
    requires Shape(b) && Bounded(b) && Counted(b) && bucket < |b.news| && k in b.index
    requires |b.news[bucket]| <= NEW_BUCKET_SIZE
    ensures var b' := AddRef(b, k, bucket); Shape(b') && Bounded(b') && Counted(b')
  {
    SameCounts(b.index, AddRef(b, k, bucket).index);
    hide UntriedKeys, TriedKeys;
  }

  lemma AddRefKeepsRecords(env: Env, b: Book, k: Key, bucket: nat)
    requires Keyed(env, b) && StatusBut(b, k) && bucket < |b.news|
    requires k in b.index && !b.index[k].tried && 0 <= b.index[k].refs < NEW_BUCKETS_PER_ADDRESS
    ensures var b' := AddRef(b, k, bucket); Keyed(env, b') && Status(b') && SameTried(b, b')
  {
  }

  lemma AddRefKeepsInv(env: Env, b: Book, k: Key, bucket: nat)
    requires InvBut(env, b, k) && bucket < |b.news|
    requires k in b.index && k !in b.news[bucket] && |b.news[bucket]| <= NEW_BUCKET_SIZE
    ensures Inv(env, AddRef(b, k, bucket))
  {
    hide Keyed, Indexed, RefsExact, StatusBut, Status, TriedSound, Counted, Bounded, SameTried, AddRef;
    AddRefKeepsRefs(b, k, bucket);
    AddRefKeepsBounds(b, k, bucket);
    AddRefKeepsRecords(env, b, k, bucket);
    TriedFrame(env, b, AddRef(b, k, bucket));
  }

  /** Expiry makes room: at least one entry goes, so the bucket ends at or below its nominal size. */
  lemma ExpiredMakesRoom(b: Book, bucket: nat, bad: set<Key>, victim: Option<Key>)
    requires bucket < |b.news| && Indexed(b) && IsVictim(b, bucket, bad, victim)
    requires b.news[bucket] != {}
    ensures Gone(b, bucket, bad, victim) <= b.news[bucket]
    ensures |Expired(b, bucket, bad, victim).news[bucket]| < |b.news[bucket]|
  {
    var gone := Gone(b, bucket, bad, victim);
    assert gone != {} by {
      if victim.None? {
        assert b.news[bucket] * bad == b.news[bucket];
      } else {
        assert victim.value in gone;
      }
    }
    var g :| g in gone;
    assert b.news[bucket] - gone <= b.news[bucket] - {g};
    SubsetSize(b.news[bucket] - gone, b.news[bucket] - {g});
  }

  /** Some address is oldest among those that are not bad. */
  lemma SomeVictim(b: Book, bucket: nat, bad: set<Key>) returns (victim: Option<Key>)
    requires bucket < |b.news| && Indexed(b)
    ensures IsVictim(b, bucket, bad, victim)
  {
    var kept := b.news[bucket] - bad;
    if kept == {} {
      victim := None;
    } else {
      var v := OldestOf(b.index, kept);
      victim := Some(v);
    }
  }

  lemma OldestOf(index: map<Key, Info>, among: set<Key>) returns (v: Key)
    requires among != {} && among <= index.Keys
    ensures v in among && forall k :: k in among ==> index[v].na.timestamp <= index[k].na.timestamp
  {
    v :| v in among;
    var rest := among - {v};
    if rest != {} {
      var w := OldestOf(index, rest);
      if index[w].na.timestamp < index[v].na.timestamp {
        v := w;
      }
    }
  }

  lemma ExpiredKeeps(b: Book, bucket: nat, bad: set<Key>, victim: Option<Key>, k: Key)
    requires bucket < |b.news| && Indexed(b) && IsVictim(b, bucket, bad, victim)
    requires k in b.index && k !in b.news[bucket]
    ensures k in Expired(b, bucket, bad, victim).index
  {
  }

  lemma PlacedKeepsInv(env: Env, b: Book, k: Key, bucket: nat, c: Choice)
    requires InvBut(env, b, k) && bucket < |b.news| && k in b.index
    requires k in b.news[bucket] ==> b.index[k].refs > 0
    requires |b.news[bucket]| > NEW_BUCKET_SIZE ==> IsVictim(b, bucket, c.bad, c.victim)
    ensures Inv(env, Placed(b, k, bucket, c))
  {
    if k !in b.news[bucket] {
      if |b.news[bucket]| > NEW_BUCKET_SIZE {
        ExpiredMakesRoom(b, bucket, c.bad, c.victim);
        var gone := Gone(b, bucket, c.bad, c.victim);
        DropKeepsInv(env, b, bucket, gone, k);
        AddRefKeepsInv(env, Expired(b, bucket, c.bad, c.victim), k, bucket);
      } else {
        AddRefKeepsInv(env, b, k, bucket);
      }
    }
  }

  lemma NotedKeepsRecords(env: Env, b: Book, k: Key, ka: Info)
    requires Inv(env, b) && k in b.index
    requires ka.na.ip == b.index[k].na.ip && ka.na.port == b.index[k].na.port
    requires ka.tried == b.index[k].tried && ka.refs == b.index[k].refs
    ensures var b' := Noted(b, k, ka);
            && Shape(b') && Keyed(env, b') && Indexed(b') && RefsExact(b') && Status(b')
            && Bounded(b') && Counted(b') && SameTried(b, b')
  {
    hide TriedSound;
    SameCounts(b.index, Noted(b, k, ka).index);
  }

  /** Replacing an address's record by one with the same endpoint and status keeps the invariant. */
  lemma NotedKeepsInv(env: Env, b: Book, k: Key, ka: Info)
    requires Inv(env, b) && k in b.index
    requires ka.na.ip == b.index[k].na.ip && ka.na.port == b.index[k].na.port
    requires ka.tried == b.index[k].tried && ka.refs == b.index[k].refs
    ensures Inv(env, Noted(b, k, ka))
  {
    hide Keyed, Indexed, RefsExact, StatusBut, Status, TriedSound, Counted, Bounded, SameTried, Noted;
    NotedKeepsRecords(env, b, k, ka);
    TriedFrame(env, b, Noted(b, k, ka));
  }

  lemma EnrolledKeepsRefs(b: Book, k: Key, na: NetAddress, src: NetAddress)
    requires Indexed(b) && RefsExact(b) && Counted(b) && k !in b.index
    ensures var b' := Enrolled(b, k, na, src); Indexed(b') && RefsExact(b') && Counted(b')
    ensures forall i :: 0 <= i < |b.news| ==> k !in b.news[i]
  {
    var b' := Enrolled(b, k, na, src);
    assert Holders(b.news, k) == {};
    assert UntriedKeys(b'.index) == UntriedKeys(b.index) + {k};
    assert TriedKeys(b'.index) == TriedKeys(b.index);
  }

  lemma EnrolledKeepsRecords(env: Env, b: Book, k: Key, na: NetAddress, src: NetAddress)
    requires Shape(b) && Keyed(env, b) && Status(b) && Bounded(b) && k !in b.index && env.KeyOf(na) == k
    ensures var b' := Enrolled(b, k, na, src);
            && Shape(b') && Keyed(env, b') && StatusBut(b', k) && Bounded(b') && SameTried(b, b')
            && k in b'.index && !b'.index[k].tried && b'.index[k].refs == 0
  {
  }

  lemma EnrolledKeepsInv(env: Env, b: Book, k: Key, na: NetAddress, src: NetAddress)
    requires Inv(env, b) && k !in b.index && env.KeyOf(na) == k
    ensures InvBut(env, Enrolled(b, k, na, src), k)
    ensures forall i :: 0 <= i < |b.news| ==> k !in b.news[i]
  {
    hide Keyed, Indexed, RefsExact, StatusBut, Status, TriedSound, Counted, Bounded, SameTried, Enrolled;
    EnrolledKeepsRefs(b, k, na, src);
    EnrolledKeepsRecords(env, b, k, na, src);
    TriedFrame(env, b, Enrolled(b, k, na, src));
  }

  lemma RolledKeepsInv(env: Env, b: Book, na: NetAddress, src: NetAddress, c: Choice)
    requires Inv(env, b) && Fair(env, b, na, src, c) && env.KeyOf(na) in b.index && Rolled(b.index[env.KeyOf(na)], c)
    ensures var k := env.KeyOf(na);
            var b' := Noted(b, k, Refreshed(b.index[k], na));
            Inv(env, Placed(b', k, env.NewBucket(b.secret, na, src), c))
  {
    var k := env.KeyOf(na);
    var bucket := env.NewBucket(b.secret, na, src);
    var b' := Noted(b, k, Refreshed(b.index[k], na));
    NotedKeepsInv(env, b, k, Refreshed(b.index[k], na));
    hide Keyed, RefsExact, TriedSound, Counted, Bounded;
    if k !in b.news[bucket] {
      VictimSurvivesNote(b, b', k, bucket, c);
      PlacedKeepsInv(env, b', k, bucket, c);
    }
  }

  /** Adding an address, known or not, keeps the invariant whatever is rolled, bad or oldest. */
  lemma UpdatedKeepsInv(env: Env, externals: set<Key>, b: Book, na: NetAddress, src: NetAddress, c: Choice)
    requires Inv(env, b) && Fair(env, b, na, src, c)
    ensures Inv(env, Updated(env, externals, b, na, src, c))
  {
    hide Keyed, RefsExact, TriedSound, Counted, Bounded;
    var k := env.KeyOf(na);
    if !env.routable(na.ip) || k in externals {
    } else if k in b.index {
      NotedKeepsInv(env, b, k, Refreshed(b.index[k], na));
      if Rolled(b.index[k], c) {
        RolledKeepsInv(env, b, na, src, c);
      }
    } else {
      EnrolledKeepsInv(env, b, k, na, src);
      PlacedKeepsInv(env, Enrolled(b, k, na, src), k, env.NewBucket(b.secret, na, src), c);
    }
  }

  lemma RefreshedKeepsInv(env: Env, b: Book, k: Key, na: NetAddress)
    requires Inv(env, b) && k in b.index
    ensures Inv(env, Noted(b, k, Refreshed(b.index[k], na)))
    ensures forall c :: Rolled(Refreshed(b.index[k], na), c) == Rolled(b.index[k], c)
  {
    hide Inv;
    NotedKeepsInv(env, b, k, Refreshed(b.index[k], na));
  }

  lemma RolledIsInvBut(env: Env, b: Book, k: Key, c: Choice)
    requires Inv(env, b) && k in b.index && Rolled(b.index[k], c)
    ensures InvBut(env, b, k)
  {
    hide Keyed, Indexed, RefsExact, TriedSound, Counted, Bounded;
  }

  lemma VictimBeforeNote(b: Book, k: Key, ka: Info, bucket: nat, c: Choice)
    requires bucket < |b.news| && Indexed(b) && k in b.index && k !in b.news[bucket]
    requires Indexed(Noted(b, k, ka)) && IsVictim(Noted(b, k, ka), bucket, c.bad, c.victim)
    ensures IsVictim(b, bucket, c.bad, c.victim)
  {
  }

  lemma VictimBeforeEnrolling(b: Book, k: Key, na: NetAddress, src: NetAddress, bucket: nat, c: Choice)
    requires bucket < |b.news| && Indexed(b) && k !in b.index
    requires Indexed(Enrolled(b, k, na, src)) && IsVictim(Enrolled(b, k, na, src), bucket, c.bad, c.victim)
    ensures IsVictim(b, bucket, c.bad, c.victim)
  {
  }

  lemma VictimSurvivesNote(b: Book, b': Book, k: Key, bucket: nat, c: Choice)
    requires bucket < |b.news| && b'.news == b.news && Indexed(b) && Indexed(b') && k !in b.news[bucket]
    requires forall q :: q in b.index && q != k ==> q in b'.index && b'.index[q] == b.index[q]
    requires |b.news[bucket]| > NEW_BUCKET_SIZE ==> IsVictim(b, bucket, c.bad, c.victim)
    ensures |b'.news[bucket]| > NEW_BUCKET_SIZE ==> IsVictim(b', bucket, c.bad, c.victim)
  {
  }

  // ------------------------------------------------------ promoting to tried

  /** The first of the least time stamps: the entry pickTried evicts. */
  function Eldest(ts: seq<Time>): (e: nat)
    requires |ts| > 0
    ensures e < |ts|
    ensures forall j :: 0 <= j < |ts| ==> ts[e] <= ts[j]
    ensures forall j :: 0 <= j < e ==> ts[e] < ts[j]
  {
    if |ts| == 1 then 0
    else
      var last := |ts| - 1;
      var e := Eldest(ts[..last]);
      if ts[e] > ts[last] then last else e
  }

  /** The first new bucket at or after i that holds k, or -1. */
  function FirstHolder(news: seq<set<Key>>, k: Key, i: nat): (r: int)
    requires i <= |news|
    ensures r == -1 ==> forall j :: i <= j < |news| ==> k !in news[j]
    ensures r != -1 ==> i <= r < |news| && k in news[r] && forall j :: i <= j < r ==> k !in news[j]
    decreases |news| - i
  {
    if i == |news| then -1 else if k in news[i] then i else FirstHolder(news, k, i + 1)
  }

  /** r is the first of the buckets below n that hold k, or -1. */
  ghost predicate FirstBelow(news: seq<set<Key>>, k: Key, n: nat, r: int)
    requires n <= |news|
  {
    if r == -1 then forall j :: 0 <= j < n ==> k !in news[j]
    else 0 <= r < n && k in news[r] && forall j :: 0 <= j < r ==> k !in news[j]
  }

  lemma FirstBelowNone(news: seq<set<Key>>, k: Key)
    ensures FirstBelow(news, k, 0, -1)
  {
  }

  lemma FirstBelowNext(news: seq<set<Key>>, k: Key, n: nat, r: int)
    requires n < |news| && FirstBelow(news, k, n, r)
    ensures FirstBelow(news, k, n + 1, if k in news[n] && r == -1 then n else r)
  {
  }

  lemma FirstBelowAll(news: seq<set<Key>>, k: Key, r: int)
    requires FirstBelow(news, k, |news|, r)
    ensures r == FirstHolder(news, k, 0)
  {
  }

  function Without(news: seq<set<Key>>, k: Key): (r: seq<set<Key>>)
    ensures |r| == |news|
  {
    seq(|news|, i requires 0 <= i < |news| => news[i] - {k})
  }

  function Succeeded(ka: Info, now: Time): Info {
    ka.(lastSuccess := now, lastAttempt := now, attempts := 0)
  }

  /** The address has left every new bucket but is not yet tried. */
  function Freed(b: Book, k: Key): Book
    requires k in b.index
  {
    b.(index := b.index[k := b.index[k].(refs := b.index[k].refs - |Holders(b.news, k)|)],
       news := Without(b.news, k), nNew := b.nNew - 1)
  }

  /** k taken out of one new bucket. */
  function TakenOut(b: Book, k: Key, i: nat): Book
    requires k in b.index && i < |b.news|
  {
    b.(index := b.index[k := b.index[k].(refs := b.index[k].refs - 1)],
       news := b.news[i := b.news[i] - {k}])
  }

  /** k taken out of the first n new buckets. */
  function Unheld(b: Book, k: Key, n: nat): Book
    requires k in b.index && n <= |b.news|
  {
    b.(index := b.index[k := b.index[k].(refs := b.index[k].refs - |Holders(b.news[..n], k)|)],
       news := Without(b.news[..n], k) + b.news[n..])
  }

  lemma UnheldNone(b: Book, k: Key)
    requires k in b.index
    ensures Unheld(b, k, 0) == b
  {
    assert Holders(b.news[..0], k) == {};
    assert Without(b.news[..0], k) + b.news[0..] == b.news;
    assert b.index[k := b.index[k]] == b.index;
  }

  lemma UnheldNext(b: Book, k: Key, n: nat)
    requires k in b.index && n < |b.news|
    ensures var b' := Unheld(b, k, n);
            && k in b'.index && |b'.news| == |b.news| && b'.news[n] == b.news[n]
            && Unheld(b, k, n + 1) == if k in b.news[n] then TakenOut(b', k, n) else b'
  {
    var b' := Unheld(b, k, n);
    assert Holders(b.news[..n + 1], k) == Holders(b.news[..n], k) + (if k in b.news[n] then {n} else {});
    assert b.news[n] - {k} == if k in b.news[n] then b.news[n] - {k} else b.news[n];
    assert Without(b.news[..n + 1], k) + b.news[n + 1..] == b'.news[n := b'.news[n] - {k}];
    if k !in b.news[n] {
      assert b'.news[n := b'.news[n] - {k}] == b'.news;
    }
  }

  lemma UnheldAll(b: Book, k: Key)
    requires k in b.index
    ensures Unheld(b, k, |b.news|).(nNew := Unheld(b, k, |b.news|).nNew - 1) == Freed(b, k)
  {
    assert b.news[..|b.news|] == b.news;
    assert Without(b.news, k) + b.news[|b.news|..] == Without(b.news, k);
  }

  function Promoted(b: Book, k: Key, bucket: nat): Book
    requires k in b.index && bucket < |b.tried|
  {
    b.(index := b.index[k := b.index[k].(tried := true)],
       tried := b.tried[bucket := b.tried[bucket] + [k]],
       nTried := b.nTried + 1)
  }

  /** The address takes slot e of a full tried bucket; the evicted one goes back to a new bucket. */
  function Swapped(b: Book, k: Key, bucket: nat, e: nat, home: nat): Book
    requires k in b.index && bucket < |b.tried| && e < |b.tried[bucket]| && home < |b.news|
    requires b.tried[bucket][e] in b.index
  {
    var rm := b.tried[bucket][e];
    Demoted(Seated(b, k, bucket, e), rm, home)
  }

  function Seated(b: Book, k: Key, bucket: nat, e: nat): Book
    requires k in b.index && bucket < |b.tried| && e < |b.tried[bucket]|
  {
    b.(index := b.index[k := b.index[k].(tried := true)], tried := b.tried[bucket := b.tried[bucket][e := k]])
  }

  function Demoted(b: Book, rm: Key, home: nat): Book
    requires rm in b.index && home < |b.news|
  {
    b.(index := b.index[rm := b.index[rm].(tried := false, refs := b.index[rm].refs + 1)],
       news := b.news[home := b.news[home] + {rm}], nNew := b.nNew + 1)
  }

  function TriedTimes(b: Book, bucket: nat): (ts: seq<Time>)
    requires bucket < |b.tried|
    requires forall j :: 0 <= j < |b.tried[bucket]| ==> b.tried[bucket][j] in b.index
    ensures |ts| == |b.tried[bucket]|
  {
    seq(|b.tried[bucket]|, j requires 0 <= j < |b.tried[bucket]| => b.index[b.tried[bucket][j]].na.timestamp)
  }

  /** The evicted address returns to the bucket its hash assigns if that has room, else to the freed one. */
  function Home(env: Env, b: Book, rm: Info, freed: nat): (i: nat)
    requires Shape(b) && freed < NEW_BUCKET_COUNT
    ensures i < NEW_BUCKET_COUNT
  {
    var home := env.NewBucket(b.secret, rm.na, rm.src);
    if |b.news[home]| >= NEW_BUCKET_SIZE then freed else home
  }

  function GoodMoved(env: Env, b: Book, k: Key, freed: nat): Book
    requires Middle(env, b, k) && freed < NEW_BUCKET_COUNT
  {
    var bucket := env.TriedBucket(b.secret, b.index[k].na);
    if |b.tried[bucket]| < TRIED_BUCKET_SIZE then Promoted(b, k, bucket)
    else
      var e := Eldest(TriedTimes(b, bucket));
      Swapped(b, k, bucket, e, Home(env, b, b.index[b.tried[bucket][e]], freed))
  }

  /** What Good does. */
  function MarkedGood(env: Env, b: Book, na: NetAddress, now: Time): Book
    requires Inv(env, b)
  {
    var k := env.KeyOf(na);
    if k !in b.index then b
    else
      var b1 := Noted(b, k, Succeeded(b.index[k], now));
      if b.index[k].tried then b1
      else
        NotedKeepsInv(env, b, k, Succeeded(b.index[k], now));
        FreedIsMiddle(env, b1, k);
        GoodMoved(env, Freed(b1, k), k, FirstHolder(b1.news, k, 0))
  }

  /** The invariant while Good moves k: k is in no table and nNew does not count it. */
  ghost predicate Middle(env: Env, b: Book, k: Key) {
    && Shape(b) && Keyed(env, b) && Indexed(b) && RefsExact(b) && TriedSound(env, b) && Bounded(b)
    && k in b.index && !b.index[k].tried && b.index[k].refs == 0
    && StatusBut(b, k)
    && b.nNew == |UntriedKeys(b.index)| - 1 && b.nTried == |TriedKeys(b.index)|
  }

  lemma FreedRefs(b: Book, k: Key)
    requires Indexed(b) && RefsExact(b) && k in b.index
    ensures var b' := Freed(b, k); Indexed(b') && RefsExact(b') && b'.index[k].refs == 0
  {
    var b' := Freed(b, k);
    forall q | q in b.index
      ensures Holders(b'.news, q) == if q == k then {} else Holders(b.news, q)
    {
    }
  }

  lemma FreedBounded(b: Book, k: Key)
    requires Bounded(b) && k in b.index
    ensures Bounded(Freed(b, k))
    ensures forall i :: 0 <= i < |b.news| && k in b.news[i] ==> |Freed(b, k).news[i]| == |b.news[i]| - 1
  {
    var b' := Freed(b, k);
    forall i | 0 <= i < |b.news| ensures |b'.news[i]| <= |b.news[i]| {
      SubsetSize(b'.news[i], b.news[i]);
    }
  }

  lemma FreedTried(env: Env, b: Book, k: Key)
    requires Shape(b) && TriedSound(env, b) && k in b.index && !b.index[k].tried
    ensures TriedSound(env, Freed(b, k))
  {
    TriedFrame(env, b, Freed(b, k));
  }

  lemma FirstHolderExists(env: Env, b: Book, k: Key)
    requires Inv(env, b) && k in b.index && !b.index[k].tried
    ensures FirstHolder(b.news, k, 0) != -1
  {
    assert |Holders(b.news, k)| >= 1;
    var i :| i in Holders(b.news, k);
    assert k in b.news[i];
  }

  lemma FreedRoom(env: Env, b: Book, k: Key)
    requires Inv(env, b) && k in b.index && !b.index[k].tried
    ensures Bounded(Freed(b, k)) && Keyed(env, Freed(b, k)) && StatusBut(Freed(b, k), k)
    ensures FirstHolder(b.news, k, 0) != -1
    ensures |Freed(b, k).news[FirstHolder(b.news, k, 0)]| <= NEW_BUCKET_SIZE
  {
    FreedBounded(b, k);
    FirstHolderExists(env, b, k);
  }

  /** Taking an untried address out of the new buckets leaves it in no table; it was in some
      bucket, so a bucket is freed. */
  lemma FreedIsMiddle(env: Env, b: Book, k: Key)
    requires Inv(env, b) && k in b.index && !b.index[k].tried
    ensures Middle(env, Freed(b, k), k)
    ensures FirstHolder(b.news, k, 0) != -1
    ensures |Freed(b, k).news[FirstHolder(b.news, k, 0)]| <= NEW_BUCKET_SIZE
  {
    hide Keyed, Indexed, RefsExact, StatusBut, TriedSound, Bounded, Freed, UntriedKeys, TriedKeys;
    FreedRefs(b, k);
    FreedTried(env, b, k);
    FreedCounts(b, k);
    FreedRoom(env, b, k);
  }

  lemma FreedCounts(b: Book, k: Key)
    requires Shape(b) && Counted(b) && k in b.index
    ensures var b' := Freed(b, k);
            && Shape(b') && k in b'.index && b'.index[k].tried == b.index[k].tried
            && b'.nNew == |UntriedKeys(b'.index)| - 1 && b'.nTried == |TriedKeys(b'.index)|
  {
    SameCounts(b.index, Freed(b, k).index);
    hide UntriedKeys, TriedKeys;
  }

  lemma PromotedTried(env: Env, b: Book, k: Key, bucket: nat)
    requires Middle(env, b, k) && bucket == env.TriedBucket(b.secret, b.index[k].na)
    ensures TriedSound(env, Promoted(b, k, bucket))
  {
    var b' := Promoted(b, k, bucket);
    forall q | q in b'.index && b'.index[q].tried
      ensures q in b'.tried[env.TriedBucket(b.secret, b'.index[q].na)]
    {
      if q == k {
        assert b'.tried[bucket][|b.tried[bucket]|] == k;
      } else {
        var i := env.TriedBucket(b.secret, b.index[q].na);
        var j :| 0 <= j < |b.tried[i]| && b.tried[i][j] == q;
        assert b'.tried[i][j] == q;
      }
    }
  }

  lemma PromotedKeepsInv(env: Env, b: Book, k: Key, bucket: nat)
    requires Middle(env, b, k) && bucket == env.TriedBucket(b.secret, b.index[k].na)
    requires |b.tried[bucket]| < TRIED_BUCKET_SIZE
    ensures Inv(env, Promoted(b, k, bucket))
  {
    hide TriedSound;
    PromotedTried(env, b, k, bucket);
    CountPromotion(b.index, k, b.index[k].(tried := true));
  }

  lemma SwappedPlaced(env: Env, b: Book, k: Key, bucket: nat, e: nat, home: nat)
    requires Middle(env, b, k) && bucket == env.TriedBucket(b.secret, b.index[k].na)
    requires e < |b.tried[bucket]| && home < |b.news|
    ensures var b' := Swapped(b, k, bucket, e, home); TriedPlaced(env, b') && TriedDistinct(b')
  {
    hide Keyed, Indexed, RefsExact, StatusBut, Bounded;
    assert NoDuplicates(b.tried[bucket]);
    assert k !in b.tried[bucket];
  }

  lemma SwappedListed(env: Env, b: Book, k: Key, bucket: nat, e: nat, home: nat)
    requires Middle(env, b, k) && bucket == env.TriedBucket(b.secret, b.index[k].na)
    requires e < |b.tried[bucket]| && home < |b.news|
    ensures TriedListed(env, Swapped(b, k, bucket, e, home))
  {
    hide Keyed, Indexed, RefsExact, StatusBut, Bounded;
    var b' := Swapped(b, k, bucket, e, home);
    forall q | q in b'.index && b'.index[q].tried
      ensures q in b'.tried[env.TriedBucket(b.secret, b'.index[q].na)]
    {
      if q == k {
        assert b'.tried[bucket][e] == k;
      } else {
        var i := env.TriedBucket(b.secret, b.index[q].na);
        var j :| 0 <= j < |b.tried[i]| && b.tried[i][j] == q;
        assert b'.tried[i][j] == q;
      }
    }
  }

  lemma SwappedRefs(env: Env, b: Book, k: Key, bucket: nat, e: nat, home: nat)
    requires Middle(env, b, k) && bucket < |b.tried|
    requires e < |b.tried[bucket]| && home < |b.news|
    ensures var b' := Swapped(b, k, bucket, e, home);
            var rm := b.tried[bucket][e];
            Indexed(b') && RefsExact(b') && b'.index[rm].refs == 1 && Holders(b'.news, rm) == {home}
  {
    hide Keyed, TriedListed, TriedDistinct, Bounded;
    var b' := Swapped(b, k, bucket, e, home);
    var rm := b.tried[bucket][e];
    assert Holders(b.news, rm) == {};
    forall q | q in b.index ensures b'.index[q].refs == |Holders(b'.news, q)| {
      HoldersAfterInsert(b.news, home, rm, q);
    }
    HoldersAfterInsert(b.news, home, rm, rm);
  }

  lemma SwappedCounted(env: Env, b: Book, k: Key, bucket: nat, e: nat, home: nat)
    requires Middle(env, b, k) && bucket < |b.tried|
    requires e < |b.tried[bucket]| && home < |b.news|
    ensures Counted(Swapped(b, k, bucket, e, home))
  {
    hide Keyed, Indexed, RefsExact, StatusBut, TriedListed, TriedDistinct, Bounded, UntriedKeys, TriedKeys;
    var rm := b.tried[bucket][e];
    var half := b.index[k := b.index[k].(tried := true)];
    CountPromotion(b.index, k, half[k]);
    CountDemotion(half, rm, b.index[rm].(tried := false, refs := b.index[rm].refs + 1));
  }

  lemma SwappedKeepsRecords(env: Env, b: Book, k: Key, bucket: nat, e: nat, home: nat)
    requires Middle(env, b, k) && bucket < |b.tried|
    requires e < |b.tried[bucket]| && home < |b.news| && |b.news[home]| <= NEW_BUCKET_SIZE
    ensures var b' := Swapped(b, k, bucket, e, home);
            Shape(b') && Keyed(env, b') && Status(b') && Bounded(b')
  {
    hide Indexed, RefsExact, TriedListed, TriedDistinct;
  }

  lemma SwappedKeepsInv(env: Env, b: Book, k: Key, bucket: nat, e: nat, home: nat)
    requires Middle(env, b, k) && bucket == env.TriedBucket(b.secret, b.index[k].na)
    requires e < |b.tried[bucket]| && home < |b.news| && |b.news[home]| <= NEW_BUCKET_SIZE
    ensures Inv(env, Swapped(b, k, bucket, e, home))
  {
    SwappedPlaced(env, b, k, bucket, e, home);
    SwappedListed(env, b, k, bucket, e, home);
    SwappedRefs(env, b, k, bucket, e, home);
    SwappedCounted(env, b, k, bucket, e, home);
    SwappedKeepsRecords(env, b, k, bucket, e, home);
    hide Keyed, Indexed, RefsExact, Status, StatusBut, TriedListed, TriedDistinct, Counted, Bounded;
  }

  /** Marking an address good keeps the invariant on every path. */
  lemma MarkedGoodKeepsInv(env: Env, b: Book, na: NetAddress, now: Time)
    requires Inv(env, b)
    ensures Inv(env, MarkedGood(env, b, na, now))
  {
    var k := env.KeyOf(na);
    if k in b.index {
      var b1 := Noted(b, k, Succeeded(b.index[k], now));
      NotedKeepsInv(env, b, k, Succeeded(b.index[k], now));
      if !b.index[k].tried {
        FreedIsMiddle(env, b1, k);
        var b2 := Freed(b1, k);
        MovedKeepsInv(env, b2, k, FirstHolder(b1.news, k, 0));
      }
    }
  }

  lemma MovedKeepsInv(env: Env, b: Book, k: Key, freed: nat)
    requires Middle(env, b, k) && freed < NEW_BUCKET_COUNT && |b.news[freed]| <= NEW_BUCKET_SIZE
    ensures Inv(env, GoodMoved(env, b, k, freed))
  {
    var bucket := env.TriedBucket(b.secret, b.index[k].na);
    if |b.tried[bucket]| < TRIED_BUCKET_SIZE {
      PromotedKeepsInv(env, b, k, bucket);
    } else {
      var e := Eldest(TriedTimes(b, bucket));
      SwappedKeepsInv(env, b, k, bucket, e, Home(env, b, b.index[b.tried[bucket][e]], freed));
    }
  }
}

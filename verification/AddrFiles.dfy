/** Which peers files that the loader accepts give tables that satisfy the invariant. */
module AddrFiles {
  import opened Options
  import opened AddrBook
  import opened AddrRuns
  import opened AddrStore

  /** The address a file lists under a key: the last one that goes by it. */
  ghost function AddressOf(env: Env, vs: seq<SavedAddress>, k: Key): Option<NetAddress> {
    if vs == [] then None
    else
      var na := env.parse(vs[|vs| - 1].addr);
      if na.Some? && env.KeyOf(na.value) == k then na else AddressOf(env, vs[..|vs| - 1], k)
  }

  /** The new buckets of a file that name an address. */
  ghost function Named(f: File, k: Key): set<int> {
    set i | 0 <= i < |f.newBuckets| && k in f.newBuckets[i]
  }

  ghost predicate Unrepeated(f: File) {
    forall i :: 0 <= i < |f.newBuckets| ==> NoDuplicates(f.newBuckets[i])
  }

  ghost predicate Sized(f: File) {
    && (forall i :: 0 <= i < |f.newBuckets| ==> |f.newBuckets[i]| <= NEW_BUCKET_SIZE + 1)
    && (forall i :: 0 <= i < |f.triedBuckets| ==> |f.triedBuckets[i]| <= TRIED_BUCKET_SIZE)
  }

  ghost predicate Spread(f: File) {
    forall k :: |Named(f, k)| <= NEW_BUCKETS_PER_ADDRESS
  }

  /** Tried addresses are named once, in the bucket their hash assigns. */
  ghost predicate TriedInPlace(env: Env, f: File) {
    && (forall i :: 0 <= i < |f.triedBuckets| ==> NoDuplicates(f.triedBuckets[i]))
    && (forall i, j :: 0 <= i < |f.triedBuckets| && 0 <= j < |f.triedBuckets[i]| ==>
          var na := AddressOf(env, f.addresses, f.triedBuckets[i][j]);
          na.Some? && env.TriedBucket(f.secret, na.value) == i)
  }

  /** What the loader does not check: no bucket names an address twice or more addresses than it has room for, no
      address is named by more than eight new buckets, and tried addresses are where their hash puts them. */
  ghost predicate Orderly(env: Env, f: File) {
    Unrepeated(f) && Sized(f) && Spread(f) && TriedInPlace(env, f)
  }

  // ------------------------------------------------------- the list of addresses

  lemma {:induction false} IndexAddress(env: Env, b: Book, vs: seq<SavedAddress>, k: Key)
    requires b.index == map[] && ReadAddresses(env, b, vs).ok
    ensures var index := ReadAddresses(env, b, vs).book.index;
            && (k in index <==> AddressOf(env, vs, k).Some?)
            && (k in index ==> index[k].na == AddressOf(env, vs, k).value)
  {
    if vs != [] {
      IndexAddress(env, b, vs[..|vs| - 1], k);
    }
  }

  lemma BlankStarts(b0: Book)
    requires b0 == Fresh(b0.secret).(index := b0.index)
    requires forall k :: k in b0.index ==> b0.index[k].refs == 0 && !b0.index[k].tried
    ensures Progress(b0, b0, [])
  {
    assert Elements<Key>([]) == {};
    forall k | k in b0.index ensures Holders(b0.news, k) == {} && !InSome(b0.tried, k) {
    }
    assert Referenced(b0.index) == {};
    SlotsEmpty(TRIED_BUCKET_COUNT);
    hide *;
  }

  // ----------------------------------------------- repetition shows in the counts

  /** No address has more references than buckets hold it; it can only have as many, or more. */
  ghost predicate Covered(b: Book) {
    forall k :: k in b.index ==> b.index[k].refs >= |Holders(b.news, k)|
  }

  /** The entry is not for a new bucket that holds its address already. */
  ghost predicate IsFirst(b: Book, e: Entry) {
    e.tried || e.bucket >= |b.news| || e.key !in b.news[e.bucket]
  }

  lemma SlackGrows(b: Book, e: Entry)
    requires ReadEntry(b, e).ok && Covered(b)
    ensures var b' := ReadEntry(b, e).book;
            && Covered(b')
            && (RefsExact(b') ==> RefsExact(b) && IsFirst(b, e))
  {
    var b' := ReadEntry(b, e).book;
    if e.tried {
      assert b'.news == b.news && b'.index.Keys == b.index.Keys;
      forall k | k in b.index ensures b'.index[k].refs == b.index[k].refs {
      }
      hide Holders;
    } else {
      forall k | k in b.index
        ensures b'.index[k].refs == b.index[k].refs + if k == e.key then 1 else 0
        ensures |Holders(b'.news, k)| == |Holders(b.news, k)| + if k == e.key && e.key !in b.news[e.bucket] then 1 else 0
      {
        HoldersAfterInsert(b.news, e.bucket, e.key, k);
        HeldBy(b.news, e.bucket, k);
      }
      hide Holders;
      assert b'.index.Keys == b.index.Keys;
    }
  }

  lemma HeldBy(news: seq<set<Key>>, bucket: nat, k: Key)
    requires bucket < |news|
    ensures bucket in Holders(news, k) <==> k in news[bucket]
    ensures k in news[bucket] ==> Holders(news, k) + {bucket} == Holders(news, k)
  {
  }

  lemma {:induction false} ReadCovered(b0: Book, es: seq<Entry>)
    requires Progress(b0, b0, []) && ReadEntries(b0, es).ok
    ensures Covered(ReadEntries(b0, es).book)
  {
    if es != [] {
      hide Progress, Covered, ReadEntry;
      ReadCovered(b0, es[..|es| - 1]);
      SlackGrows(ReadEntries(b0, es[..|es| - 1]).book, es[|es| - 1]);
    }
  }

  /** If the reference counts come out right, no new bucket named an address twice. */
  lemma {:induction false} ExactIsDistinct(b0: Book, es: seq<Entry>)
    requires Progress(b0, b0, []) && ReadEntries(b0, es).ok && RefsExact(ReadEntries(b0, es).book)
    ensures Distinct(es) && Progress(b0, ReadEntries(b0, es).book, es)
  {
    hide Progress, Column, Distinct, RefsExact, Covered, ReadEntry;
    if es == [] {
      NothingDistinct();
    } else {
      var n := |es| - 1;
      var e, front := es[n], es[..n];
      var b := ReadEntries(b0, front).book;
      ReadCovered(b0, front);
      SlackGrows(b, e);
      ExactIsDistinct(b0, front);
      assert es == front + [e];
      FreshInColumn(b0, b, front, e);
      DistinctMore(front, e);
      ProgressStep(b0, b, front, e);
    }
  }

  lemma NothingDistinct()
    ensures Distinct([])
  {
  }

  lemma FreshInColumn(b0: Book, b: Book, es: seq<Entry>, e: Entry)
    requires Progress(b0, b, es) && ReadEntry(b, e).ok && IsFirst(b, e)
    ensures e.key in b.index && e.bucket < if e.tried then |b.tried| else |b.news|
    ensures !e.tried ==> e.key !in Column(es, false, e.bucket)
  {
    if !e.tried {
      NotElement(Column(es, false, e.bucket), e.key);
    }
  }

  lemma DistinctMore(es: seq<Entry>, e: Entry)
    requires Distinct(es) && (e.tried || e.key !in Column(es, false, e.bucket))
    ensures Distinct(es + [e])
  {
    forall i ensures NoDuplicates(Column(es + [e], false, i)) {
      ColumnLast(es, e, false, i);
      assert NoDuplicates(Column(es, false, i));
    }
  }

  // ------------------------------------------------- what acceptance does check

  lemma {:induction false} ReadKeeps(b0: Book, es: seq<Entry>)
    requires ReadEntries(b0, es).ok
    ensures var b := ReadEntries(b0, es).book;
            && b.index.Keys == b0.index.Keys && |b.news| == |b0.news| && |b.tried| == |b0.tried|
            && forall p :: 0 <= p < |es| ==> InRange(b0, es[p])
  {
    if es != [] {
      ReadKeeps(b0, es[..|es| - 1]);
      forall p | 0 <= p < |es| ensures InRange(b0, es[p]) {
        if p < |es| - 1 {
          assert es[..|es| - 1][p] == es[p];
        }
      }
    }
  }

  /** The tables of b are those of the file. */
  ghost predicate TablesOf(f: File, b: Book) {
    && Shape(b) && |f.newBuckets| == |b.news| && b.tried == f.triedBuckets
    && forall i :: 0 <= i < |b.news| ==> b.news[i] == Elements(f.newBuckets[i])
  }

  lemma TablesAreFile(f: File, b: Book)
    requires WellTyped(f) && TablesRead(b, Entries(f))
    ensures TablesOf(f, b)
  {
    hide Entries, Column, Elements;
    forall i | 0 <= i < |b.news| ensures b.news[i] == Elements(f.newBuckets[i]) {
      ColumnOfEntries(f, false, i);
    }
    forall i | 0 <= i < |b.tried| ensures b.tried[i] == f.triedBuckets[i] {
      ColumnOfEntries(f, true, i);
    }
  }

  lemma UnrepeatedIff(f: File)
    ensures Distinct(Entries(f)) <==> Unrepeated(f)
  {
    hide Entries, Column, NoDuplicates;
    if Distinct(Entries(f)) {
      forall i | 0 <= i < |f.newBuckets| ensures NoDuplicates(f.newBuckets[i]) {
        ColumnOfEntries(f, false, i);
        assert NoDuplicates(Column(Entries(f), false, i));
      }
    }
    if Unrepeated(f) {
      forall i: nat ensures NoDuplicates(Column(Entries(f), false, i)) {
        ColumnOfEntries(f, false, i);
        NoneRepeated();
      }
    }
  }

  lemma NoneRepeated()
    ensures NoDuplicates<Key>([])
  {
  }

  // ------------------------------------------------------- clause by clause

  lemma SpreadIff(f: File, b: Book)
    requires TablesOf(f, b) && Indexed(b) && RefsExact(b) && Sane(b.index)
    ensures Status(b) <==> Spread(f)
  {
    forall k ensures Named(f, k) == Holders(b.news, k) {
    }
    forall k | k !in b.index ensures Named(f, k) == {} {
    }
    hide Named, Holders, TablesOf, Indexed;
    if Status(b) {
      forall k ensures |Named(f, k)| <= NEW_BUCKETS_PER_ADDRESS {
        if k in b.index {
          assert b.index[k].refs == |Holders(b.news, k)|;
        }
      }
    }
    if Spread(f) {
      forall k | k in b.index
        ensures if b.index[k].tried then b.index[k].refs == 0 else 1 <= b.index[k].refs <= NEW_BUCKETS_PER_ADDRESS
      {
        assert b.index[k].refs == |Holders(b.news, k)| && |Named(f, k)| <= NEW_BUCKETS_PER_ADDRESS;
      }
    }
  }

  lemma SizedIff(f: File, b: Book)
    requires TablesOf(f, b) && Unrepeated(f)
    ensures Bounded(b) <==> Sized(f)
  {
    hide Elements, NoDuplicates;
    forall i | 0 <= i < |b.news| ensures |b.news[i]| == |f.newBuckets[i]| {
      DistinctSize(f.newBuckets[i]);
    }
  }

  /** The index has the addresses the file lists, tried when a tried bucket names them. */
  ghost predicate IndexOf(env: Env, f: File, b: Book) {
    && b.secret == f.secret
    && (forall k :: k in b.index <==> AddressOf(env, f.addresses, k).Some?)
    && (forall k :: k in b.index ==>
          b.index[k].na == AddressOf(env, f.addresses, k).value && (b.index[k].tried <==> InSome(b.tried, k)))
  }

  lemma TriedIff(env: Env, f: File, b: Book)
    requires TablesOf(f, b) && IndexOf(env, f, b)
    ensures TriedSound(env, b) <==> TriedInPlace(env, f)
  {
    hide AddressOf;
    if TriedSound(env, b) {
      forall i, j | 0 <= i < |f.triedBuckets| && 0 <= j < |f.triedBuckets[i]|
        ensures var na := AddressOf(env, f.addresses, f.triedBuckets[i][j]);
                na.Some? && env.TriedBucket(f.secret, na.value) == i
      {
        assert b.tried[i][j] in b.index;
      }
    }
    if TriedInPlace(env, f) {
      InPlaceIsPlaced(env, f, b);
      InPlaceIsListed(env, f, b);
    }
  }

  lemma InPlaceIsPlaced(env: Env, f: File, b: Book)
    requires TablesOf(f, b) && IndexOf(env, f, b) && TriedInPlace(env, f)
    ensures TriedPlaced(env, b)
  {
    hide AddressOf;
    forall i, j | 0 <= i < |b.tried| && 0 <= j < |b.tried[i]|
      ensures var k := b.tried[i][j]; k in b.index && b.index[k].tried && env.TriedBucket(b.secret, b.index[k].na) == i
    {
      var k := f.triedBuckets[i][j];
      assert k in b.tried[i];
    }
  }

  lemma InPlaceIsListed(env: Env, f: File, b: Book)
    requires TablesOf(f, b) && IndexOf(env, f, b) && TriedInPlace(env, f)
    ensures TriedListed(env, b)
  {
    hide AddressOf;
    forall k | k in b.index && b.index[k].tried ensures k in b.tried[env.TriedBucket(b.secret, b.index[k].na)] {
      var i :| 0 <= i < |b.tried| && k in b.tried[i];
      var j :| 0 <= j < |b.tried[i]| && b.tried[i][j] == k;
      assert f.triedBuckets[i][j] == k;
    }
  }

  lemma CountedWhenSound(env: Env, b: Book)
    requires Shape(b) && TriedSound(env, b) && Bounded(b) && RefsExact(b) && Sane(b.index) && CountsRead(b)
    ensures Counted(b)
  {
    TriedFillSlots(env, b);
    hide TriedSound, Bounded, Shape, TriedKeys, Slots;
    forall k | k in b.index ensures b.index[k].refs > 0 <==> !b.index[k].tried {
      assert b.index[k].refs == |Holders(b.news, k)|;
    }
    assert Referenced(b.index) == UntriedKeys(b.index);
  }

  // ------------------------------------------------------------ the equivalence

  /** The file's entries were read without repetition. */
  ghost predicate ReadCleanly(env: Env, f: File, b: Book) {
    && TablesOf(f, b) && IndexOf(env, f, b) && RefsExact(b) && CountsRead(b) && Indexed(b) && Keyed(env, b)
    && Sane(b.index) && Unrepeated(f)
  }

  lemma CleanIff(env: Env, f: File, b: Book)
    requires ReadCleanly(env, f, b)
    ensures Inv(env, b) <==> Orderly(env, f)
  {
    hide TablesOf, IndexOf, RefsExact, CountsRead, Indexed, Keyed, Sane, Unrepeated, Status, Spread, Bounded, Sized,
         TriedSound, TriedInPlace, Counted, Shape;
    assert Shape(b) by { TablesShape(f, b); }
    SpreadIff(f, b);
    SizedIff(f, b);
    TriedIff(env, f, b);
    if Orderly(env, f) {
      CountedWhenSound(env, b);
    }
  }

  lemma TablesShape(f: File, b: Book)
    requires TablesOf(f, b)
    ensures Shape(b)
  {
  }

  lemma RecordsAre(env: Env, f: File, b0: Book, b: Book)
    requires Shape(b) && RecordsRead(b0, b) && b0.secret == f.secret && Keyed(env, b0)
    requires forall k :: (k in b0.index <==> AddressOf(env, f.addresses, k).Some?)
    requires forall k :: k in b0.index ==> b0.index[k].na == AddressOf(env, f.addresses, k).value
    ensures IndexOf(env, f, b) && RefsExact(b) && Keyed(env, b)
  {
    hide AddressOf, Holders, InSome, Shape;
  }

  lemma EntriesIndexed(f: File, b0: Book, b: Book)
    requires TablesOf(f, b) && b.index.Keys == b0.index.Keys
    requires forall p :: 0 <= p < |Entries(f)| ==> InRange(b0, Entries(f)[p])
    ensures Indexed(b)
  {
    forall i, k | 0 <= i < |b.news| && k in b.news[i] ensures k in b.index {
      var j :| 0 <= j < |f.newBuckets[i]| && f.newBuckets[i][j] == k;
      var p := RowsHave(false, f.newBuckets, i, j);
      assert Entries(f)[p] == Rows(false, f.newBuckets)[p];
    }
  }

  lemma {:induction false} RowsHave(t: bool, buckets: seq<seq<Key>>, i: nat, j: nat) returns (p: nat)
    requires i < |buckets| && j < |buckets[i]|
    ensures p < |Rows(t, buckets)| && Rows(t, buckets)[p].key == buckets[i][j]
  {
    var n := |buckets| - 1;
    if i < n {
      p := RowsHave(t, buckets[..n], i, j);
    } else {
      p := |Rows(t, buckets[..n])| + j;
    }
  }

  lemma CleanRead(env: Env, f: File, b0: Book, b: Book)
    requires WellTyped(f) && Unrepeated(f) && Progress(b0, b, Entries(f)) && Sane(b.index)
    requires b0.secret == f.secret && Keyed(env, b0)
    requires forall p :: 0 <= p < |Entries(f)| ==> InRange(b0, Entries(f)[p])
    requires forall k :: (k in b0.index <==> AddressOf(env, f.addresses, k).Some?)
    requires forall k :: k in b0.index ==> b0.index[k].na == AddressOf(env, f.addresses, k).value
    ensures ReadCleanly(env, f, b)
  {
    assert b.index.Keys == b0.index.Keys && Shape(b);
    hide Entries, WellTyped, Unrepeated, Sane, Keyed, InRange, AddressOf, TablesRead, RecordsRead, CountsRead, IndexOf,
         RefsExact, Indexed, TablesOf, Shape;
    TablesAreFile(f, b);
    RecordsAre(env, f, b0, b);
    EntriesIndexed(f, b0, b);
  }

  /** A file the loader accepts leaves the manager with the whole invariant if and only if it is orderly. */
  lemma AcceptedLoad(env: Env, f: File, secret: Bytes)
    requires WellTyped(f) && Load(env, Fresh(secret), f).ok
    ensures Inv(env, Load(env, Fresh(secret), f).book) <==> Orderly(env, f)
  {
    var start := Fresh(secret).(secret := f.secret);
    var es := Entries(f);
    var b0 := ReadAddresses(env, start, f.addresses).book;
    var b := ReadEntries(b0, es).book;
    assert ReadAddresses(env, start, f.addresses).ok && ReadEntries(b0, es).ok && Sane(b.index);
    assert Load(env, Fresh(secret), f).book == b;
    ReadAddressesExactly(env, start, f.addresses);
    assert b0 == Fresh(b0.secret).(index := b0.index);
    hide Load, Fresh, Entries, Sane, ReadEntries, ReadAddresses, Orderly, WellTyped, AddressOf;
    BlankStarts(b0);
    forall k
      ensures k in b0.index <==> AddressOf(env, f.addresses, k).Some?
      ensures k in b0.index ==> b0.index[k].na == AddressOf(env, f.addresses, k).value
    {
      IndexAddress(env, start, f.addresses, k);
    }
    ReadKeeps(b0, es);
    CleanOrNot(env, f, b0, b);
  }

  lemma CleanOrNot(env: Env, f: File, b0: Book, b: Book)
    requires WellTyped(f) && Progress(b0, b0, []) && ReadEntries(b0, Entries(f)) == Loaded(b, true) && Sane(b.index)
    requires b0.secret == f.secret && Keyed(env, b0)
    requires forall p :: 0 <= p < |Entries(f)| ==> InRange(b0, Entries(f)[p])
    requires forall k :: (k in b0.index <==> AddressOf(env, f.addresses, k).Some?)
    requires forall k :: k in b0.index ==> b0.index[k].na == AddressOf(env, f.addresses, k).value
    ensures Inv(env, b) <==> Orderly(env, f)
  {
    hide Shape, Indexed, RefsExact, Status, TriedSound, Counted, Bounded, Keyed, Sized, Spread, TriedInPlace, Unrepeated, Progress,
         ReadEntries, Sane, WellTyped, Entries, AddressOf, InRange, Distinct, ReadCleanly;
    var es := Entries(f);
    UnrepeatedIff(f);
    if Inv(env, b) {
      ExactIsDistinct(b0, es);
      CleanRead(env, f, b0, b);
      CleanIff(env, f, b);
    }
    if Orderly(env, f) {
      ProgressAll(b0, es, |es|);
      assert es[..|es|] == es;
      CleanRead(env, f, b0, b);
      CleanIff(env, f, b);
    }
  }

  /** A file that names its one address twice in one new bucket is accepted and breaks the invariant. */
  lemma RepeatedEntry(env: Env, na: NetAddress, k: Key, secret: Bytes)
    requires env.parse(k) == Some(na) && env.KeyOf(na) == k
    ensures var f := File(SERIALISATION_VERSION, secret, [SavedAddress(k, k, 0, 0, 0, 0)],
                          OneBucket([k, k], NEW_BUCKET_COUNT), OneBucket([], TRIED_BUCKET_COUNT));
            Load(env, Fresh(secret), f).ok && !Inv(env, Load(env, Fresh(secret), f).book)
  {
    var news, trieds := OneBucket([k, k], NEW_BUCKET_COUNT), OneBucket([], TRIED_BUCKET_COUNT);
    var v := SavedAddress(k, k, 0, 0, 0, 0);
    var f := File(SERIALISATION_VERSION, secret, [v], news, trieds);
    OneBucketRows(false, [k, k], NEW_BUCKET_COUNT);
    OneBucketRows(true, [], TRIED_BUCKET_COUNT);
    var e := Entry(false, 0, k);
    assert Entries(f) == [e, e] by {
      assert Row(true, 0, []) == [];
      assert Row(false, 0, [k, k]) == [e, e];
    }
    assert f.newBuckets[0] == [k, k] && !NoDuplicates([k, k]) by {
      assert [k, k][0] == [k, k][1];
    }
    hide OneBucket, Rows, Inv, Orderly;
    var start := Fresh(secret);
    assert start.(secret := f.secret) == start;
    ReadOne(env, start, v);
    var b1 := ReadAddress(env, start, v).book;
    ReadTwo(b1, e, e);
    assert ReadEntry(b1, e).ok && ReadEntry(b1, e).book.index.Keys == {k};
    AcceptedLoad(env, f, secret);
    OrderlyUnrepeated(env, f);
  }

  lemma OrderlyUnrepeated(env: Env, f: File)
    ensures Orderly(env, f) ==> Unrepeated(f)
  {
  }

  // --------------------------------------------------------- a node's whole life

  /** What a node starts from: its file, or empty tables when the file does not load. */
  function Started(env: Env, f: File, secret: Bytes, secret': Bytes): Book {
    var l := Load(env, Fresh(secret), f);
    if l.ok then l.book else Reset(l.book, secret')
  }

  /** From the moment it has read its file, over every run of operations, a node's tables satisfy the invariant if and
      only if the file is orderly or fails before its first counted entry. */
  lemma EveryLifeKeepsInv(env: Env, externals: set<Key>, f: File, secret: Bytes, secret': Bytes,
                          trace: seq<Book>, ops: seq<Op>)
    requires WellTyped(f) && IsRun(env, externals, Started(env, f, secret, secret'), trace, ops)
    ensures (forall n :: 0 <= n < |trace| ==> Inv(env, trace[n])) <==>
            if Load(env, Fresh(secret), f).ok then Orderly(env, f) else FailsEarly(env, f)
  {
    hide Inv, Load, Orderly, FailsEarly, Reset, Fresh;
    if Load(env, Fresh(secret), f).ok {
      AcceptedLoad(env, f, secret);
    } else {
      FailedLoad(env, f, secret, secret');
    }
    var start := Started(env, f, secret, secret');
    assert trace[0] == start;
    if Inv(env, start) {
      forall n | 0 <= n < |trace| ensures Inv(env, trace[n]) {
        EveryRunKeepsInv(env, externals, start, trace, ops, n);
      }
    }
  }

  /** In particular after a restart from what it saved itself. */
  lemma RestartKeepsInv(env: Env, externals: set<Key>, b: Book, f: File, secret: Bytes, secret': Bytes,
                        trace: seq<Book>, ops: seq<Op>, n: nat)
    requires Inv(env, b) && Parses(env, b) && BucketsStable(env, b) && IsSave(env, b, f)
    requires IsRun(env, externals, Started(env, f, secret, secret'), trace, ops) && n < |trace|
    ensures Inv(env, trace[n])
  {
    hide Inv, Load, Parses, BucketsStable, IsSave, Restored;
    LoadAfterSave(env, b, f, secret);
    RestoredInv(env, b);
    EveryRunKeepsInv(env, externals, Started(env, f, secret, secret'), trace, ops, n);
  }
}

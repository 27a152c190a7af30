/** The peers file: what savePeers writes, what deserializePeers makes of a file, and that
    loading what was saved gives the tables back. */
module AddrStore {
  import opened Options
  import opened AddrBook
  import opened AddrRuns

  const SERIALISATION_VERSION := 1

  datatype SavedAddress = SavedAddress(addr: Key, src: Key, attempts: int,
                                       timeStamp: int, lastAttempt: int, lastSuccess: int)

  datatype File = File(version: int, secret: Bytes, addresses: seq<SavedAddress>,
                       newBuckets: seq<seq<Key>>, triedBuckets: seq<seq<Key>>)

  /** Whole seconds; the zero time and all others round down. */
  function Unix(t: Time): int { t / NANOS }

  function FromUnix(s: int): Time { s * NANOS }

  // -------------------------------------------------------------------- saving

  function SavedInfo(env: Env, k: Key, ka: Info): SavedAddress {
    SavedAddress(k, env.KeyOf(ka.src), ka.attempts, Unix(ka.na.timestamp), Unix(ka.lastAttempt), Unix(ka.lastSuccess))
  }

  ghost predicate Enumerates<T>(s: seq<T>, of: set<T>) {
    NoDuplicates(s) && Elements(s) == of
  }

  function Names(vs: seq<SavedAddress>): (ks: seq<Key>)
    ensures |ks| == |vs|
  {
    seq(|vs|, i requires 0 <= i < |vs| => vs[i].addr)
  }

  /** f is a file the saver may write for b: maps are written in any order, lists in theirs. */
  ghost predicate IsSave(env: Env, b: Book, f: File) {
    && f.version == SERIALISATION_VERSION && f.secret == b.secret
    && Enumerates(Names(f.addresses), b.index.Keys)
    && (forall i :: 0 <= i < |f.addresses| ==>
          f.addresses[i].addr in b.index && f.addresses[i] == SavedInfo(env, f.addresses[i].addr, b.index[f.addresses[i].addr]))
    && |f.newBuckets| == |b.news| && |f.triedBuckets| == |b.tried|
    && (forall i :: 0 <= i < |b.news| ==> Enumerates(f.newBuckets[i], b.news[i]))
    && f.triedBuckets == b.tried
  }

  /** A saved record holds the address string, the string of its source, its attempts, and the
      whole seconds of its three times. */
  lemma SavedRecords(env: Env, b: Book, f: File, i: nat)
    requires IsSave(env, b, f) && i < |f.addresses|
    ensures var v := f.addresses[i];
            && v.addr in b.index
            && var ka := b.index[v.addr];
               && v.src == env.keyOf(ka.src.ip, ka.src.port) && v.attempts == ka.attempts
               && v.timeStamp * NANOS <= ka.na.timestamp < (v.timeStamp + 1) * NANOS
               && v.lastAttempt * NANOS <= ka.lastAttempt < (v.lastAttempt + 1) * NANOS
               && v.lastSuccess * NANOS <= ka.lastSuccess < (v.lastSuccess + 1) * NANOS
  {
  }

  // ------------------------------------------------------------------- loading

  /** The tables after reading so far, and whether everything read was acceptable. */
  datatype Loaded = Loaded(book: Book, ok: bool)

  /** A record as it comes out of the file: no reference, not tried. */
  function ReadInfo(na: NetAddress, src: NetAddress, v: SavedAddress): Info {
    Info(na, src, v.attempts, FromUnix(v.lastAttempt), FromUnix(v.lastSuccess), false, 0)
  }

  function ReadAddress(env: Env, b: Book, v: SavedAddress): Loaded {
    match (env.parse(v.addr), env.parse(v.src))
    case (Some(na), Some(src)) => Loaded(Noted(b, env.KeyOf(na), ReadInfo(na, src, v)), true)
    case _ => Loaded(b, false)
  }

  function ReadAddresses(env: Env, b: Book, vs: seq<SavedAddress>): Loaded {
    if vs == [] then Loaded(b, true)
    else
      var before := ReadAddresses(env, b, vs[..|vs| - 1]);
      if before.ok then ReadAddress(env, before.book, vs[|vs| - 1]) else before
  }

  /** One bucket entry of the file. */
  datatype Entry = Entry(tried: bool, bucket: nat, key: Key)

  function Row(tried: bool, bucket: nat, ks: seq<Key>): (es: seq<Entry>)
    ensures |es| == |ks|
  {
    seq(|ks|, j requires 0 <= j < |ks| => Entry(tried, bucket, ks[j]))
  }

  function Rows(tried: bool, buckets: seq<seq<Key>>): seq<Entry> {
    if buckets == [] then []
    else Rows(tried, buckets[..|buckets| - 1]) + Row(tried, |buckets| - 1, buckets[|buckets| - 1])
  }

  function Entries(f: File): seq<Entry> {
    Rows(false, f.newBuckets) + Rows(true, f.triedBuckets)
  }

  function ReadNew(b: Book, e: Entry): Book
    requires e.key in b.index && e.bucket < |b.news|
  {
    var b' := if b.index[e.key].refs == 0 then b.(nNew := b.nNew + 1) else b;
    AddRef(b', e.key, e.bucket)
  }

  function ReadTried(b: Book, e: Entry): Book
    requires e.key in b.index && e.bucket < |b.tried|
  {
    Promoted(b, e.key, e.bucket)
  }

  /** Reading one entry: its address must have been listed. The arrays of the file have as
      many rows as the tables, so the bucket always exists. */
  function ReadEntry(b: Book, e: Entry): Loaded {
    if e.key !in b.index || e.bucket >= (if e.tried then |b.tried| else |b.news|) then Loaded(b, false)
    else if e.tried then Loaded(ReadTried(b, e), true)
    else Loaded(ReadNew(b, e), true)
  }

  function ReadEntries(b: Book, es: seq<Entry>): Loaded {
    if es == [] then Loaded(b, true)
    else
      var before := ReadEntries(b, es[..|es| - 1]);
      if before.ok then ReadEntry(before.book, es[|es| - 1]) else before
  }

  /** The loader's final check: every address is new or tried, and not both. */
  predicate Sane(index: map<Key, Info>) {
    forall k :: k in index ==>
      !(index[k].refs == 0 && !index[k].tried) && !(index[k].refs > 0 && index[k].tried)
  }

  /** The file's two bucket arrays have the fixed sizes of the tables. */
  ghost predicate WellTyped(f: File) {
    |f.newBuckets| == NEW_BUCKET_COUNT && |f.triedBuckets| == TRIED_BUCKET_COUNT
  }

  /** What deserializePeers does to tables b. */
  function Load(env: Env, b: Book, f: File): Loaded {
    if f.version != SERIALISATION_VERSION then Loaded(b, false)
    else
      var l1 := ReadAddresses(env, b.(secret := f.secret), f.addresses);
      if !l1.ok then l1
      else
        var l2 := ReadEntries(l1.book, Entries(f));
        if !l2.ok then l2 else Loaded(l2.book, Sane(l2.book.index))
  }

  // ------------------------------------------------- lemmas: failures are final

  lemma {:induction false} AddressesFail(env: Env, b: Book, vs: seq<SavedAddress>, n: nat)
    requires n <= |vs| && !ReadAddresses(env, b, vs[..n]).ok
    ensures ReadAddresses(env, b, vs) == ReadAddresses(env, b, vs[..n])
  {
    if n == |vs| {
      assert vs[..n] == vs;
    } else {
      var m := |vs| - 1;
      assert vs[..m][..n] == vs[..n];
      AddressesFail(env, b, vs[..m], n);
    }
  }

  lemma {:induction false} EntriesFail(b: Book, es: seq<Entry>, fs: seq<Entry>)
    requires !ReadEntries(b, es).ok
    ensures ReadEntries(b, es + fs) == ReadEntries(b, es)
  {
    if fs == [] {
      assert es + fs == es;
    } else {
      var n := |fs| - 1;
      EntriesFail(b, es, fs[..n]);
      assert (es + fs)[..|es + fs| - 1] == es + fs[..n];
    }
  }

  // ------------------------------------------------------- lemmas: the columns

  /** The keys of the entries for one bucket, in order. */
  function Column(es: seq<Entry>, tried: bool, bucket: nat): seq<Key> {
    if es == [] then []
    else
      var e := es[|es| - 1];
      Column(es[..|es| - 1], tried, bucket) + if e.tried == tried && e.bucket == bucket then [e.key] else []
  }

  lemma {:induction false} ColumnOfSum(es: seq<Entry>, fs: seq<Entry>, tried: bool, bucket: nat)
    ensures Column(es + fs, tried, bucket) == Column(es, tried, bucket) + Column(fs, tried, bucket)
  {
    if fs == [] {
      assert es + fs == es;
    } else {
      var n := |fs| - 1;
      ColumnOfSum(es, fs[..n], tried, bucket);
      assert (es + fs)[..|es + fs| - 1] == es + fs[..n];
    }
  }

  lemma {:induction false} ColumnOfRow(t: bool, i: nat, ks: seq<Key>, tried: bool, bucket: nat)
    ensures Column(Row(t, i, ks), tried, bucket) == if t == tried && i == bucket then ks else []
  {
    if ks != [] {
      var n := |ks| - 1;
      ColumnOfRow(t, i, ks[..n], tried, bucket);
      assert Row(t, i, ks)[..n] == Row(t, i, ks[..n]);
      assert ks[..n] + [ks[n]] == ks;
    }
  }

  lemma {:induction false} ColumnOfRows(t: bool, buckets: seq<seq<Key>>, tried: bool, bucket: nat)
    ensures Column(Rows(t, buckets), tried, bucket)
         == if t == tried && bucket < |buckets| then buckets[bucket] else []
  {
    if buckets != [] {
      var n := |buckets| - 1;
      ColumnOfRows(t, buckets[..n], tried, bucket);
      ColumnOfSum(Rows(t, buckets[..n]), Row(t, n, buckets[n]), tried, bucket);
      ColumnOfRow(t, n, buckets[n], tried, bucket);
    }
  }

  lemma ColumnOfEntries(f: File, tried: bool, bucket: nat)
    ensures var buckets := if tried then f.triedBuckets else f.newBuckets;
            Column(Entries(f), tried, bucket) == if bucket < |buckets| then buckets[bucket] else []
  {
    ColumnOfSum(Rows(false, f.newBuckets), Rows(true, f.triedBuckets), tried, bucket);
    ColumnOfRows(false, f.newBuckets, tried, bucket);
    ColumnOfRows(true, f.triedBuckets, tried, bucket);
  }

  lemma ColumnPrefix(es: seq<Entry>, n: nat, tried: bool, bucket: nat)
    requires n <= |es|
    ensures Column(es[..n], tried, bucket) <= Column(es, tried, bucket)
  {
    ColumnOfSum(es[..n], es[n..], tried, bucket);
    assert es[..n] + es[n..] == es;
  }

  /** Every entry of the file names a bucket of its table. */
  lemma {:induction false} RowsInRange(t: bool, buckets: seq<seq<Key>>, p: nat)
    requires p < |Rows(t, buckets)|
    ensures Rows(t, buckets)[p].tried == t && Rows(t, buckets)[p].bucket < |buckets|
    ensures Rows(t, buckets)[p].key in buckets[Rows(t, buckets)[p].bucket]
  {
    var n := |buckets| - 1;
    var front := Rows(t, buckets[..n]);
    if p < |front| {
      RowsInRange(t, buckets[..n], p);
    }
  }

  // -------------------------------------------------- lemmas: reading addresses

  /** The address strings of the tables can be read back. */
  ghost predicate Parses(env: Env, b: Book) {
    forall k :: k in b.index ==>
      && env.parse(k).Some? && env.KeyOf(env.parse(k).value) == k
      && env.parse(env.KeyOf(b.index[k].src)).Some?
  }

  function Blank(env: Env, k: Key, ka: Info): Info
    requires env.parse(k).Some? && env.parse(env.KeyOf(ka.src)).Some?
  {
    ReadInfo(env.parse(k).value, env.parse(env.KeyOf(ka.src)).value, SavedInfo(env, k, ka))
  }

  /** The tables after the address list of a saved file has been read. */
  ghost function Listed(env: Env, b: Book): Book
    requires Parses(env, b)
  {
    Fresh(b.secret).(index := map k | k in b.index :: Blank(env, k, b.index[k]))
  }

  /** The index holds exactly the given addresses, as the file has them. */
  ghost predicate ListedSome(env: Env, b: Book, index: map<Key, Info>, ks: set<Key>)
    requires Parses(env, b)
  {
    && index.Keys == ks <= b.index.Keys
    && forall k :: k in index ==> index[k] == Blank(env, k, b.index[k])
  }

  lemma ReadListedStep(env: Env, b: Book, before: Book, v: SavedAddress, ks: set<Key>)
    requires Parses(env, b) && v.addr in b.index && v == SavedInfo(env, v.addr, b.index[v.addr])
    requires ListedSome(env, b, before.index, ks)
    ensures var l := ReadAddress(env, before, v);
            && l.ok && l.book == before.(index := l.book.index)
            && ListedSome(env, b, l.book.index, ks + {v.addr})
  {
  }

  lemma {:induction false} ReadListed(env: Env, b: Book, f: File, n: nat)
    requires Parses(env, b) && IsSave(env, b, f) && n <= |f.addresses|
    ensures var l := ReadAddresses(env, Fresh(b.secret), f.addresses[..n]);
            && l.ok && l.book == Fresh(b.secret).(index := l.book.index)
            && ListedSome(env, b, l.book.index, Elements(Names(f.addresses)[..n]))
  {
    hide Parses, ListedSome, ReadAddress, Fresh, Elements;
    var ks := Names(f.addresses);
    if n == 0 {
      ReadNone(env, b, ks[..0]);
    } else {
      ReadListed(env, b, f, n - 1);
      assert f.addresses[..n][..n - 1] == f.addresses[..n - 1];
      var before := ReadAddresses(env, Fresh(b.secret), f.addresses[..n - 1]);
      ReadListedStep(env, b, before.book, f.addresses[n - 1], Elements(ks[..n - 1]));
      assert ks[..n] == ks[..n - 1] + [ks[n - 1]];
      ElementsLast(ks[..n - 1], ks[n - 1]);
    }
  }

  lemma ReadNone(env: Env, b: Book, ks: seq<Key>)
    requires Parses(env, b) && ks == []
    ensures ListedSome(env, b, Fresh(b.secret).index, Elements(ks))
    ensures Fresh(b.secret) == Fresh(b.secret).(index := Fresh(b.secret).index)
  {
    assert Elements(ks) == {};
  }

  lemma ReadAllListed(env: Env, b: Book, f: File)
    requires Parses(env, b) && IsSave(env, b, f)
    ensures ReadAddresses(env, Fresh(b.secret), f.addresses) == Loaded(Listed(env, b), true)
  {
    var n := |f.addresses|;
    ReadListed(env, b, f, n);
    assert f.addresses[..n] == f.addresses && Names(f.addresses)[..n] == Names(f.addresses);
    assert ReadAddresses(env, Fresh(b.secret), f.addresses).book.index == Listed(env, b).index;
  }

  // ---------------------------------------------------- lemmas: reading entries

  ghost predicate TablesRead(b: Book, es: seq<Entry>) {
    && Shape(b)
    && (forall i :: 0 <= i < |b.news| ==> b.news[i] == Elements(Column(es, false, i)))
    && (forall i :: 0 <= i < |b.tried| ==> b.tried[i] == Column(es, true, i))
  }

  ghost predicate InSome(tried: seq<seq<Key>>, k: Key) {
    exists i :: 0 <= i < |tried| && k in tried[i]
  }

  /** Each record differs from what the list said only in its reference count and tried mark. */
  ghost predicate RecordsRead(b0: Book, b: Book) {
    && b.secret == b0.secret && b.index.Keys == b0.index.Keys
    && forall k :: k in b.index ==>
         b.index[k] == b0.index[k].(refs := |Holders(b.news, k)|, tried := InSome(b.tried, k))
  }

  function Referenced(index: map<Key, Info>): set<Key> {
    set k | k in index && index[k].refs > 0
  }

  ghost predicate CountsRead(b: Book) {
    b.nNew == |Referenced(b.index)| && b.nTried == Slots(b.tried)
  }

  ghost predicate Progress(b0: Book, b: Book, es: seq<Entry>) {
    TablesRead(b, es) && RecordsRead(b0, b) && CountsRead(b)
  }

  lemma ColumnLast(es: seq<Entry>, e: Entry, tried: bool, bucket: nat)
    ensures Column(es + [e], tried, bucket)
         == Column(es, tried, bucket) + if e.tried == tried && e.bucket == bucket then [e.key] else []
  {
    assert (es + [e])[..|es|] == es;
  }

  lemma ElementsLast(s: seq<Key>, k: Key)
    ensures Elements(s + [k]) == Elements(s) + {k}
  {
  }

  lemma NewTables(b: Book, es: seq<Entry>, e: Entry)
    requires TablesRead(b, es) && !e.tried && e.bucket < |b.news| && e.key in b.index
    ensures TablesRead(ReadNew(b, e), es + [e])
  {
    var b' := ReadNew(b, e);
    forall i | 0 <= i < |b'.news| ensures b'.news[i] == Elements(Column(es + [e], false, i)) {
      ColumnLast(es, e, false, i);
      ElementsLast(Column(es, false, i), e.key);
      assert Column(es, false, i) + [] == Column(es, false, i);
    }
    forall i | 0 <= i < |b'.tried| ensures b'.tried[i] == Column(es + [e], true, i) {
      ColumnLast(es, e, true, i);
    }
  }

  lemma NewRecords(b0: Book, b: Book, e: Entry)
    requires RecordsRead(b0, b) && e.key in b.index && e.bucket < |b.news| && e.key !in b.news[e.bucket]
    ensures RecordsRead(b0, ReadNew(b, e))
  {
    var b' := ReadNew(b, e);
    forall k | k in b'.index
      ensures b'.index[k] == b0.index[k].(refs := |Holders(b'.news, k)|, tried := InSome(b'.tried, k))
    {
      HoldersAfterInsert(b.news, e.bucket, e.key, k);
      hide Holders, InSome;
    }
  }

  lemma NewCounts(b: Book, e: Entry)
    requires CountsRead(b) && e.key in b.index && e.bucket < |b.news| && b.index[e.key].refs >= 0
    ensures CountsRead(ReadNew(b, e))
  {
    assert Referenced(ReadNew(b, e).index) == Referenced(b.index) + {e.key};
    if b.index[e.key].refs > 0 {
      assert Referenced(b.index) + {e.key} == Referenced(b.index);
    }
  }

  lemma TriedTables(b: Book, es: seq<Entry>, e: Entry)
    requires TablesRead(b, es) && e.tried && e.bucket < |b.tried| && e.key in b.index
    ensures TablesRead(ReadTried(b, e), es + [e])
  {
    var b' := ReadTried(b, e);
    forall i | 0 <= i < |b'.news| ensures b'.news[i] == Elements(Column(es + [e], false, i)) {
      ColumnLast(es, e, false, i);
      assert Column(es, false, i) + [] == Column(es, false, i);
    }
    forall i | 0 <= i < |b'.tried| ensures b'.tried[i] == Column(es + [e], true, i) {
      ColumnLast(es, e, true, i);
      assert Column(es, true, i) + [] == Column(es, true, i);
    }
  }

  lemma InSomeAfter(tried: seq<seq<Key>>, i: nat, k: Key, q: Key)
    requires i < |tried|
    ensures InSome(tried[i := tried[i] + [k]], q) <==> InSome(tried, q) || q == k
  {
    var tried' := tried[i := tried[i] + [k]];
    assert k in tried'[i];
    if InSome(tried, q) {
      var j :| 0 <= j < |tried| && q in tried[j];
      assert q in tried'[j];
    }
  }

  lemma TriedRecords(b0: Book, b: Book, e: Entry)
    requires RecordsRead(b0, b) && e.key in b.index && e.bucket < |b.tried|
    ensures RecordsRead(b0, ReadTried(b, e))
  {
    var b' := ReadTried(b, e);
    forall k | k in b'.index
      ensures b'.index[k] == b0.index[k].(refs := |Holders(b'.news, k)|, tried := InSome(b'.tried, k))
    {
      InSomeAfter(b.tried, e.bucket, e.key, k);
      hide Holders, InSome;
    }
  }

  lemma {:induction false} SlotsAfter(tried: seq<seq<Key>>, i: nat, k: Key)
    requires i < |tried|
    ensures Slots(tried[i := tried[i] + [k]]) == Slots(tried) + 1
  {
    var n := |tried| - 1;
    var tried' := tried[i := tried[i] + [k]];
    if i == n {
      assert tried'[..n] == tried[..n];
    } else {
      SlotsAfter(tried[..n], i, k);
      assert tried'[..n] == tried[..n][i := tried[i] + [k]];
    }
  }

  lemma TriedCounts(b: Book, e: Entry)
    requires CountsRead(b) && e.key in b.index && e.bucket < |b.tried|
    ensures CountsRead(ReadTried(b, e))
  {
    SlotsAfter(b.tried, e.bucket, e.key);
    assert Referenced(ReadTried(b, e).index) == Referenced(b.index);
  }

  /** No entry is repeated within its bucket. */
  ghost predicate Distinct(es: seq<Entry>) {
    forall i: nat :: NoDuplicates(Column(es, false, i))
  }

  lemma ProgressStep(b0: Book, b: Book, es: seq<Entry>, e: Entry)
    requires Progress(b0, b, es) && e.key in b.index && e.bucket < (if e.tried then |b.tried| else |b.news|)
    requires !e.tried ==> e.key !in Column(es, false, e.bucket)
    ensures ReadEntry(b, e).ok && Progress(b0, ReadEntry(b, e).book, es + [e])
  {
    hide Column, Elements, Referenced, InSome, Holders;
    if e.tried {
      TriedTables(b, es, e);
      TriedRecords(b0, b, e);
      TriedCounts(b, e);
    } else {
      NotElement(Column(es, false, e.bucket), e.key);
      NewTables(b, es, e);
      NewRecords(b0, b, e);
      NewCounts(b, e);
    }
  }

  lemma NotElement(s: seq<Key>, k: Key)
    ensures k in Elements(s) <==> k in s
  {
  }

  lemma EntryIsNew(es: seq<Entry>, n: nat)
    requires 0 < n <= |es| && Distinct(es)
    ensures var e := es[n - 1]; e.tried || e.key !in Column(es[..n - 1], false, e.bucket)
  {
    var e := es[n - 1];
    if !e.tried {
      assert es[..n] == es[..n - 1] + [e];
      ColumnLast(es[..n - 1], e, false, e.bucket);
      ColumnPrefix(es, n, false, e.bucket);
      LastIsNew(Column(es[..n - 1], false, e.bucket), e.key, Column(es, false, e.bucket));
    }
  }

  ghost predicate InRange(b: Book, e: Entry) {
    e.key in b.index && e.bucket < if e.tried then |b.tried| else |b.news|
  }

  /** Reading any file without repetitions whose addresses are all listed goes through to the end. */
  lemma {:induction false} ProgressAll(b0: Book, es: seq<Entry>, n: nat)
    requires n <= |es| && Progress(b0, b0, []) && Distinct(es)
    requires forall p :: 0 <= p < |es| ==> InRange(b0, es[p])
    ensures ReadEntries(b0, es[..n]).ok && Progress(b0, ReadEntries(b0, es[..n]).book, es[..n])
  {
    hide Progress, Column, Distinct, ReadEntry;
    if n == 0 {
      assert es[..0] == [];
    } else {
      ProgressAll(b0, es, n - 1);
      var e := es[n - 1];
      assert es[..n][..n - 1] == es[..n - 1] && es[..n] == es[..n - 1] + [e];
      var b := ReadEntries(b0, es[..n - 1]).book;
      EntryIsNew(es, n);
      ProgressSameKeys(b0, b, es[..n - 1]);
      assert InRange(b0, e);
      ProgressStep(b0, b, es[..n - 1], e);
    }
  }

  lemma ProgressSameKeys(b0: Book, b: Book, es: seq<Entry>)
    requires Progress(b0, b, es) && Progress(b0, b0, [])
    ensures b.index.Keys == b0.index.Keys && |b.news| == |b0.news| && |b.tried| == |b0.tried|
  {
  }

  lemma LastIsNew(s: seq<Key>, k: Key, t: seq<Key>)
    requires s + [k] <= t && NoDuplicates(t)
    ensures k !in s
  {
    assert t[|s|] == k;
    forall i | 0 <= i < |s| ensures s[i] != k {
      assert t[i] == s[i];
    }
  }

  // ---------------------------------------------------------- the round trip

  /** What a saved book comes back as: the same tables, marks, reference counts, attempts and
      counters; times cut to whole seconds; address and source as their strings read. */
  ghost function Restored(env: Env, b: Book): Book
    requires Parses(env, b)
  {
    b.(index := map k | k in b.index ::
         Blank(env, k, b.index[k]).(tried := b.index[k].tried, refs := b.index[k].refs))
  }

  lemma ListedStarts(env: Env, b: Book)
    requires Parses(env, b)
    ensures Progress(Listed(env, b), Listed(env, b), [])
  {
    var b0 := Listed(env, b);
    assert Elements<Key>([]) == {};
    forall k | k in b0.index ensures Holders(b0.news, k) == {} && !InSome(b0.tried, k) {
    }
    assert Referenced(b0.index) == {};
    SlotsEmpty(TRIED_BUCKET_COUNT);
    hide *;
  }

  lemma {:induction false} SlotsEmpty(n: nat)
    ensures Slots(seq(n, _ => [])) == 0
  {
    var e: seq<seq<Key>> := seq(n, _ => []);
    if n > 0 {
      SlotsEmpty(n - 1);
      assert e[..n - 1] == seq(n - 1, _ => []);
    }
  }

  lemma SavedEntriesInRange(env: Env, b: Book, f: File)
    requires Inv(env, b) && Parses(env, b) && IsSave(env, b, f)
    ensures forall p :: 0 <= p < |Entries(f)| ==> InRange(Listed(env, b), Entries(f)[p])
  {
    hide RefsExact, Status, TriedListed, TriedDistinct, Counted, Bounded, Column, Rows;
    var n := |Rows(false, f.newBuckets)|;
    forall p | 0 <= p < |Entries(f)| ensures InRange(Listed(env, b), Entries(f)[p]) {
      if p < n {
        RowsInRange(false, f.newBuckets, p);
        var e := Entries(f)[p];
        assert e.key in Elements(f.newBuckets[e.bucket]);
      } else {
        RowsInRange(true, f.triedBuckets, p - n);
      }
    }
  }

  lemma SavedEntriesDistinct(env: Env, b: Book, f: File)
    requires IsSave(env, b, f)
    ensures Distinct(Entries(f))
  {
    forall i: nat ensures NoDuplicates(Column(Entries(f), false, i)) {
      ColumnOfEntries(f, false, i);
    }
  }

  lemma ReferencedAreUntried(env: Env, b: Book)
    requires Inv(env, b)
    ensures Referenced(b.index) == UntriedKeys(b.index)
  {
  }

  lemma InSomeIsTried(env: Env, b: Book, k: Key)
    requires Inv(env, b) && k in b.index
    ensures InSome(b.tried, k) <==> b.index[k].tried
  {
    if b.index[k].tried {
      assert k in b.tried[env.TriedBucket(b.secret, b.index[k].na)];
    }
  }

  lemma ReadTablesAre(env: Env, b: Book, f: File, bN: Book)
    requires IsSave(env, b, f) && Shape(b) && TablesRead(bN, Entries(f))
    ensures bN.news == b.news && bN.tried == b.tried
  {
    forall i | 0 <= i < |b.news| ensures bN.news[i] == b.news[i] {
      ColumnOfEntries(f, false, i);
    }
    forall i | 0 <= i < |b.tried| ensures bN.tried[i] == b.tried[i] {
      ColumnOfEntries(f, true, i);
    }
  }

  lemma ReadRecordsAre(env: Env, b: Book, bN: Book)
    requires Inv(env, b) && Parses(env, b) && RecordsRead(Listed(env, b), bN) && bN.news == b.news && bN.tried == b.tried
    ensures bN.index == Restored(env, b).index
  {
    hide Keyed, Indexed, Status, TriedSound, Counted, Bounded, InSome, Holders;
    forall k | k in b.index ensures bN.index[k] == Restored(env, b).index[k] {
      InSomeIsTried(env, b, k);
      assert b.index[k].refs == |Holders(b.news, k)|;
    }
  }

  lemma ReadCountsAre(env: Env, b: Book, bN: Book)
    requires Inv(env, b) && Parses(env, b) && CountsRead(bN) && bN.tried == b.tried && bN.index == Restored(env, b).index
    ensures bN.nNew == b.nNew && bN.nTried == b.nTried
  {
    assert Referenced(bN.index) == Referenced(b.index);
    ReferencedAreUntried(env, b);
    TriedCountIsSlots(env, b);
  }

  lemma ReadIsRestored(env: Env, b: Book, f: File, bN: Book)
    requires Inv(env, b) && Parses(env, b) && IsSave(env, b, f) && Progress(Listed(env, b), bN, Entries(f))
    ensures bN == Restored(env, b) && Sane(bN.index)
  {
    hide TablesRead, RecordsRead, CountsRead, Keyed, Indexed, RefsExact, TriedSound, Counted, Bounded, Entries;
    ReadTablesAre(env, b, f, bN);
    ReadRecordsAre(env, b, bN);
    ReadCountsAre(env, b, bN);
    RecordsSecret(Listed(env, b), bN);
  }

  lemma RecordsSecret(b0: Book, b: Book)
    requires RecordsRead(b0, b)
    ensures b.secret == b0.secret
  {
  }

  /** t' is t cut to the whole second. */
  ghost predicate CutToSecond(t: Time, t': Time) {
    t' <= t < t' + NANOS && t' % NANOS == 0
  }

  /** b' has the tables, counts and secret of b and its addresses with their attempts, status and
      references; the times of the attempts are cut to the second, and the addresses and their
      sources are what their strings read back as. */
  ghost predicate GivesBack(env: Env, b: Book, b': Book) {
    && b'.secret == b.secret && b'.news == b.news && b'.tried == b.tried
    && b'.nNew == b.nNew && b'.nTried == b.nTried && b'.index.Keys == b.index.Keys
    && forall k :: k in b.index && k in b'.index ==>
         var ka, ka' := b.index[k], b'.index[k];
         && ka'.attempts == ka.attempts && ka'.tried == ka.tried && ka'.refs == ka.refs
         && CutToSecond(ka.lastAttempt, ka'.lastAttempt) && CutToSecond(ka.lastSuccess, ka'.lastSuccess)
         && env.parse(k) == Some(ka'.na) && env.parse(env.KeyOf(ka.src)) == Some(ka'.src)
  }

  lemma SecondsCut(t: Time)
    ensures CutToSecond(t, FromUnix(Unix(t)))
  {
  }

  lemma RestoredGivesBack(env: Env, b: Book)
    requires Parses(env, b)
    ensures GivesBack(env, b, Restored(env, b))
  {
    hide Unix, FromUnix, CutToSecond;
    var b' := Restored(env, b);
    assert b'.index.Keys == b.index.Keys;
    forall k | k in b.index
      ensures CutToSecond(b.index[k].lastAttempt, b'.index[k].lastAttempt)
      ensures CutToSecond(b.index[k].lastSuccess, b'.index[k].lastSuccess)
    {
      SecondsCut(b.index[k].lastAttempt);
      SecondsCut(b.index[k].lastSuccess);
    }
  }

  lemma LoadIsRestored(env: Env, b: Book, f: File, secret: Bytes)
    requires Inv(env, b) && Parses(env, b) && IsSave(env, b, f)
    ensures Load(env, Fresh(secret), f) == Loaded(Restored(env, b), true)
  {
    hide Inv, Parses, Entries, Progress, Distinct, Sane, Restored, Listed, ReadEntries, ReadAddresses;
    assert Fresh(secret).(secret := f.secret) == Fresh(b.secret);
    ReadAllListed(env, b, f);
    ListedStarts(env, b);
    SavedEntriesInRange(env, b, f);
    SavedEntriesDistinct(env, b, f);
    var es := Entries(f);
    ProgressAll(Listed(env, b), es, |es|);
    assert es[..|es|] == es;
    ReadIsRestored(env, b, f, ReadEntries(Listed(env, b), es).book);
  }

  /** Loading a file saved from any reachable state into a fresh manager, whatever orders the
      saver used, passes every check and gives the saved tables back. */
  lemma LoadAfterSave(env: Env, b: Book, f: File, secret: Bytes)
    requires Inv(env, b) && Parses(env, b) && IsSave(env, b, f)
    ensures Load(env, Fresh(secret), f) == Loaded(Restored(env, b), true)
    ensures GivesBack(env, b, Load(env, Fresh(secret), f).book)
  {
    hide *;
    LoadIsRestored(env, b, f, secret);
    RestoredGivesBack(env, b);
  }

  /** Reading an address string back finds the tried bucket the address had. */
  ghost predicate BucketsStable(env: Env, b: Book) {
    forall k :: k in b.index && env.parse(k).Some? ==>
      env.TriedBucket(b.secret, env.parse(k).value) == env.TriedBucket(b.secret, b.index[k].na)
  }

  /** A loaded manager starts from a state that satisfies the whole invariant again. */
  lemma RestoredInv(env: Env, b: Book)
    requires Inv(env, b) && Parses(env, b) && BucketsStable(env, b)
    ensures Inv(env, Restored(env, b))
  {
    hide TriedSound, Keyed, Indexed, RefsExact, Status, Counted, Bounded;
    RestoredTables(env, b);
    RestoredCounts(env, b);
    RestoredTried(env, b);
  }

  lemma RestoredTables(env: Env, b: Book)
    requires Inv(env, b) && Parses(env, b)
    ensures var b' := Restored(env, b);
            Shape(b') && Keyed(env, b') && Indexed(b') && RefsExact(b') && Status(b') && Bounded(b')
  {
  }

  lemma RestoredCounts(env: Env, b: Book)
    requires Counted(b) && Parses(env, b)
    ensures Counted(Restored(env, b))
  {
    SameCounts(b.index, Restored(env, b).index);
    hide UntriedKeys, TriedKeys;
  }

  lemma RestoredTried(env: Env, b: Book)
    requires Shape(b) && TriedSound(env, b) && Parses(env, b) && BucketsStable(env, b)
    ensures Shape(Restored(env, b)) && TriedSound(env, Restored(env, b))
  {
  }

  // ------------------------------------------------------------ failed loads

  /** What a failed load leaves behind: reset empties the tables but not the counters. */
  function Reset(b: Book, secret: Bytes): Book {
    Fresh(secret).(nNew := b.nNew, nTried := b.nTried)
  }

  ghost predicate AllParse(env: Env, vs: seq<SavedAddress>) {
    forall i :: 0 <= i < |vs| ==> env.parse(vs[i].addr).Some? && env.parse(vs[i].src).Some?
  }

  ghost function ParsedKeys(env: Env, vs: seq<SavedAddress>): set<Key>
    requires AllParse(env, vs)
  {
    set i | 0 <= i < |vs| :: env.KeyOf(env.parse(vs[i].addr).value)
  }

  lemma {:induction false} ReadAddressesExactly(env: Env, b: Book, vs: seq<SavedAddress>)
    requires b.index == map[]
    ensures var l := ReadAddresses(env, b, vs);
            && l.ok == AllParse(env, vs)
            && l.book.nNew == b.nNew && l.book.nTried == b.nTried && l.book.news == b.news && l.book.tried == b.tried
            && l.book.secret == b.secret
            && (forall k :: k in l.book.index ==>
                  l.book.index[k].refs == 0 && !l.book.index[k].tried && env.KeyOf(l.book.index[k].na) == k)
            && (l.ok ==> l.book.index.Keys == ParsedKeys(env, vs))
  {
    if vs == [] {
    } else {
      var n := |vs| - 1;
      ReadAddressesExactly(env, b, vs[..n]);
      if AllParse(env, vs) {
        assert ParsedKeys(env, vs) == ParsedKeys(env, vs[..n]) + {env.KeyOf(env.parse(vs[n].addr).value)};
      } else if AllParse(env, vs[..n]) {
        assert env.parse(vs[n].addr).None? || env.parse(vs[n].src).None?;
      }
    }
  }

  lemma {:induction false} ReadEntriesCounts(b: Book, es: seq<Entry>)
    requires b.nNew == b.nTried == 0 && forall k :: k in b.index ==> b.index[k].refs == 0
    ensures var l := ReadEntries(b, es);
            && l.book.index.Keys == b.index.Keys && |l.book.news| == |b.news| && |l.book.tried| == |b.tried|
            && l.book.nNew >= 0 && l.book.nTried >= 0
            && (es != [] && ReadEntry(b, es[0]).ok ==> l.book.nNew + l.book.nTried > 0)
            && (es == [] || !ReadEntry(b, es[0]).ok ==> l.book == b)
            && (es != [] && !ReadEntry(b, es[0]).ok ==> !l.ok)
  {
    if es != [] {
      var n := |es| - 1;
      ReadEntriesCounts(b, es[..n]);
      if n > 0 {
        assert es[..n][0] == es[0];
      }
    }
  }

  /** The file fails before any bucket entry has been counted. */
  ghost predicate FailsEarly(env: Env, f: File) {
    || f.version != SERIALISATION_VERSION
    || !AllParse(env, f.addresses)
    || Entries(f) == []
    || Entries(f)[0].key !in ParsedKeys(env, f.addresses)
  }

  lemma ResetInvIff(env: Env, b: Book, secret: Bytes)
    requires b.nNew >= 0 && b.nTried >= 0
    ensures Inv(env, Reset(b, secret)) <==> b.nNew + b.nTried == 0
  {
    FreshInv(env, secret);
    assert UntriedKeys(map[]) == {} && TriedKeys(map[]) == {};
    if b.nNew + b.nTried == 0 {
      assert Reset(b, secret) == Fresh(secret);
    }
  }

  /** After a file that fails to load, the emptied manager satisfies its invariant exactly
      when the failure came before the first counted entry; otherwise its counters report
      addresses it does not have. */
  lemma FailedLoad(env: Env, f: File, secret: Bytes, secret': Bytes)
    requires WellTyped(f) && !Load(env, Fresh(secret), f).ok
    ensures Inv(env, Reset(Load(env, Fresh(secret), f).book, secret')) <==> FailsEarly(env, f)
  {
    var b := Load(env, Fresh(secret), f).book;
    if f.version != SERIALISATION_VERSION {
      ResetInvIff(env, b, secret');
    } else {
      var start := Fresh(secret).(secret := f.secret);
      ReadAddressesExactly(env, start, f.addresses);
      var l1 := ReadAddresses(env, start, f.addresses);
      if l1.ok {
        ReadEntriesCounts(l1.book, Entries(f));
        if Entries(f) != [] {
          FirstInRange(f);
        }
      }
      ResetInvIff(env, b, secret');
    }
  }

  lemma FirstInRange(f: File)
    requires Entries(f) != []
    ensures var e := Entries(f)[0]; e.bucket < if e.tried then |f.triedBuckets| else |f.newBuckets|
  {
    if |Rows(false, f.newBuckets)| > 0 {
      RowsInRange(false, f.newBuckets, 0);
    } else {
      RowsInRange(true, f.triedBuckets, 0);
    }
  }

  function OneBucket(ks: seq<Key>, n: nat): (r: seq<seq<Key>>)
    requires n > 0
    ensures |r| == n
  {
    seq(n, i => if i == 0 then ks else [])
  }

  lemma {:induction false} OneBucketRows(t: bool, ks: seq<Key>, n: nat)
    requires n > 0
    ensures Rows(t, OneBucket(ks, n)) == Row(t, 0, ks)
  {
    var bs := OneBucket(ks, n);
    if n == 1 {
      assert bs[..0] == [];
    } else {
      OneBucketRows(t, ks, n - 1);
      assert bs[..n - 1] == OneBucket(ks, n - 1);
      assert Row(t, n - 1, []) == [];
    }
  }

  /** A file that lists one address and then names another in the same bucket fails to load
      and leaves the manager reporting one address while knowing none. */
  lemma FailedLoadMiscounts(env: Env, na: NetAddress, k: Key, k': Key, secret: Bytes, secret': Bytes)
    requires env.parse(k) == Some(na) && env.KeyOf(na) == k && k' != k
    ensures var f := File(SERIALISATION_VERSION, secret, [SavedAddress(k, k, 0, 0, 0, 0)],
                          OneBucket([k, k'], NEW_BUCKET_COUNT), OneBucket([], TRIED_BUCKET_COUNT));
            var l := Load(env, Fresh(secret), f);
            && !l.ok && Reset(l.book, secret').nNew == 1 && Reset(l.book, secret').index == map[]
  {
    var news, trieds := OneBucket([k, k'], NEW_BUCKET_COUNT), OneBucket([], TRIED_BUCKET_COUNT);
    var v := SavedAddress(k, k, 0, 0, 0, 0);
    var f := File(SERIALISATION_VERSION, secret, [v], news, trieds);
    OneBucketRows(false, [k, k'], NEW_BUCKET_COUNT);
    OneBucketRows(true, [], TRIED_BUCKET_COUNT);
    var e, e' := Entry(false, 0, k), Entry(false, 0, k');
    assert Entries(f) == [e, e'] by {
      assert Row(true, 0, []) == [];
      assert Row(false, 0, [k, k']) == [e, e'];
    }
    hide OneBucket, Rows;
    var start := Fresh(secret);
    assert start.(secret := f.secret) == start;
    ReadOne(env, start, v);
    var b1 := ReadAddress(env, start, v).book;
    ReadTwo(b1, e, e');
    assert ReadEntry(b1, e).ok && ReadEntry(b1, e).book.index.Keys == {k};
  }

  lemma ReadOne(env: Env, b: Book, v: SavedAddress)
    ensures ReadAddresses(env, b, [v]) == ReadAddress(env, b, v)
  {
    var vs := [v];
    assert vs[..|vs| - 1] == [];
    assert ReadAddresses(env, b, vs[..|vs| - 1]) == Loaded(b, true);
  }

  lemma ReadTwo(b: Book, e: Entry, e': Entry)
    ensures var l := ReadEntry(b, e);
            ReadEntries(b, [e, e']) == if l.ok then ReadEntry(l.book, e') else l
  {
    var es, fs := [e, e'], [e];
    assert es[..|es| - 1] == fs && fs[..|fs| - 1] == [];
    assert ReadEntries(b, fs[..|fs| - 1]) == Loaded(b, true);
    assert ReadEntries(b, fs) == ReadEntry(b, e);
  }
}

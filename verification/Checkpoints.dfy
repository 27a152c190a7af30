/** Checkpoints: merging the built-in and the configured ones, and the chain's cached search
    for the latest one reached. */
module Checkpoints {
  import opened Options
  import opened Sequences

  type Hash = nat
  datatype Checkpoint = Checkpoint(height: int, hash: Hash)
  // ------------------------------------------------------------------- merging

  ghost predicate SortedByHeight(s: seq<Checkpoint>) {
    forall i, j :: 0 <= i < j < |s| ==> s[i].height <= s[j].height
  }

  ghost predicate Increasing(s: seq<Checkpoint>) {
    forall i, j :: 0 <= i < j < |s| ==> s[i].height < s[j].height
  }

  /** The last configured checkpoint of each height. */
  function LastPerHeight(additional: seq<Checkpoint>): (m: map<int, Checkpoint>)
    ensures forall h :: h in m ==> m[h] in additional && m[h].height == h
    ensures forall c :: c in additional ==> c.height in m
  {
    if additional == [] then map[]
    else
      var last := additional[|additional| - 1];
      LastPerHeight(additional[..|additional| - 1])[last.height := last]
  }

  /** Of several checkpoints configured for a height the last one counts. */
  lemma {:induction false} LastCounts(additional: seq<Checkpoint>, i: nat)
    requires i < |additional| && forall j :: i < j < |additional| ==> additional[j].height != additional[i].height
    ensures additional[i].height in LastPerHeight(additional)
    ensures LastPerHeight(additional)[additional[i].height] == additional[i]
  {
    if i < |additional| - 1 {
      LastCounts(additional[..|additional| - 1], i);
    }
  }

  function Kept(defaults: seq<Checkpoint>, extra: map<int, Checkpoint>): seq<Checkpoint> {
    if defaults == [] then []
    else
      var last := defaults[|defaults| - 1];
      Kept(defaults[..|defaults| - 1], extra) + if last.height in extra then [] else [last]
  }

  ghost predicate Distinct(s: seq<Checkpoint>) {
    forall i, j :: 0 <= i < j < |s| ==> s[i].height != s[j].height
  }

  method Insert(r: seq<Checkpoint>, c: Checkpoint) returns (r': seq<Checkpoint>)
    requires SortedByHeight(r)
    ensures SortedByHeight(r') && multiset(r') == multiset(r) + multiset{c}
  {
    var k := 0;
    while k < |r| && r[k].height <= c.height
      invariant 0 <= k <= |r| && forall j :: 0 <= j < k ==> r[j].height <= c.height
    {
      k := k + 1;
    }
    MultisetSplit(r[..k], c, r[k..]);
    assert r[..k] + r[k..] == r;
    r' := r[..k] + [c] + r[k..];
  }

  /** Sorting by height, standing for the library sort. */
  method Sort(s: seq<Checkpoint>) returns (r: seq<Checkpoint>)
    ensures SortedByHeight(r) && multiset(r) == multiset(s)
  {
    hide SortedByHeight;
    r := SortNothing();
    for i := 0 to |s|
      invariant SortedByHeight(r) && multiset(r) == multiset(s[..i])
    {
      assert s[..i + 1] == s[..i] + [s[i]];
      r := Insert(r, s[i]);
    }
    assert s[..|s|] == s;
  }

  method SortNothing() returns (r: seq<Checkpoint>)
    ensures r == [] && SortedByHeight(r)
  {
    r := [];
  }

  lemma LastOfMore(s: seq<Checkpoint>, i: nat)
    requires i < |s|
    ensures LastPerHeight(s[..i + 1]) == LastPerHeight(s[..i])[s[i].height := s[i]]
  {
    assert s[..i + 1][..i] == s[..i];
  }

  method CollectExtra(additional: seq<Checkpoint>) returns (extra: map<int, Checkpoint>)
    ensures extra == LastPerHeight(additional)
  {
    extra := map[];
    assert LastPerHeight(additional[..0]) == map[];
    hide LastPerHeight;
    for i := 0 to |additional|
      invariant extra == LastPerHeight(additional[..i])
    {
      LastOfMore(additional, i);
      extra := extra[additional[i].height := additional[i]];
    }
    assert additional[..|additional|] == additional;
  }

  method CollectKept(defaults: seq<Checkpoint>, extra: map<int, Checkpoint>) returns (kept: seq<Checkpoint>)
    ensures kept == Kept(defaults, extra)
  {
    kept := [];
    for i := 0 to |defaults|
      invariant kept == Kept(defaults[..i], extra)
    {
      assert defaults[..i + 1][..i] == defaults[..i];
      if defaults[i].height !in extra {
        kept := kept + [defaults[i]];
      }
    }
    assert defaults[..|defaults|] == defaults;
  }

  function Values(extra: map<int, Checkpoint>): set<Checkpoint> {
    set h | h in extra :: extra[h]
  }

  /** Configured checkpoints never share a height with one another or with a kept one. */
  ghost predicate Compatible(kept: seq<Checkpoint>, extra: map<int, Checkpoint>) {
    && (forall h :: h in extra ==> extra[h].height == h)
    && (forall c :: c in kept ==> c.height !in extra)
  }

  ghost predicate Appended(kept: seq<Checkpoint>, done: set<Checkpoint>, r: seq<Checkpoint>) {
    multiset(r) == multiset(kept) + multiset(done) && (Distinct(r) <==> Distinct(kept))
  }

  lemma AppendedFrom(kept: seq<Checkpoint>, done: set<Checkpoint>, r: seq<Checkpoint>, c: Checkpoint)
    requires Appended(kept, done, r)
    ensures c in r <==> c in kept || c in done
  {
    assert c in r <==> c in multiset(r);
    assert c in kept <==> c in multiset(kept);
  }

  lemma AppendedMore(kept: seq<Checkpoint>, extra: map<int, Checkpoint>, done: set<Checkpoint>,
                     r: seq<Checkpoint>, c: Checkpoint)
    requires Appended(kept, done, r) && Compatible(kept, extra) && done <= Values(extra)
    requires c in Values(extra) && c !in done
    ensures Appended(kept, done + {c}, r + [c])
  {
    hide Distinct;
    forall i | 0 <= i < |r| ensures r[i].height != c.height {
      AppendedFrom(kept, done, r, r[i]);
    }
    DistinctMore(r, c);
    assert multiset(done + {c}) == multiset(done) + multiset{c};
  }

  /** The configured checkpoints are appended in any order. */
  method AppendExtra(kept: seq<Checkpoint>, extra: map<int, Checkpoint>) returns (r: seq<Checkpoint>)
    requires Compatible(kept, extra)
    ensures Appended(kept, Values(extra), r)
  {
    r := kept;
    var todo := Values(extra);
    assert Appended(kept, {}, r);
    hide Appended, Compatible, Values;
    ghost var done := {};
    while todo != {}
      invariant done + todo == Values(extra) && done !! todo
      invariant Appended(kept, done, r)
      decreases todo
    {
      var c :| c in todo;
      AppendedMore(kept, extra, done, r, c);
      r := r + [c];
      todo := todo - {c};
      done := done + {c};
    }
  }

  /** Merges the configured checkpoints into the built-in ones: the result is sorted by height and
      holds exactly the surviving checkpoints; heights strictly increase exactly when the
      built-in ones that are kept have distinct heights. */
  method MergeCheckpoints(defaults: seq<Checkpoint>, additional: seq<Checkpoint>) returns (r: seq<Checkpoint>)
    ensures SortedByHeight(r)
    ensures forall c :: c in r <==> Merged(defaults, additional, c)
    ensures multiset(r) == multiset(Kept(defaults, LastPerHeight(additional))) + multiset(Values(LastPerHeight(additional)))
    ensures Increasing(r) <==> Distinct(Kept(defaults, LastPerHeight(additional)))
  {
    hide SortedByHeight, Increasing, Distinct, Kept, LastPerHeight;
    var extra := CollectExtra(additional);
    var kept := CollectKept(defaults, extra);
    KeptAre(defaults, extra);
    var checkpoints := AppendExtra(kept, extra);
    r := Sort(checkpoints);
    SameElements(r, checkpoints);
    DistinctSorted(checkpoints, r);
    forall c ensures c in r <==> Merged(defaults, additional, c) {
      AppendedFrom(kept, Values(extra), checkpoints, c);
    }
  }

  /** Whether a checkpoint survives merging: a configured one if it is the last of its height, a
      built-in one if no configured one has its height. */
  ghost predicate Merged(defaults: seq<Checkpoint>, additional: seq<Checkpoint>, c: Checkpoint) {
    var extra := LastPerHeight(additional);
    if c.height in extra then extra[c.height] == c else c in defaults
  }

  lemma {:induction false} KeptAre(defaults: seq<Checkpoint>, extra: map<int, Checkpoint>)
    ensures forall c :: c in Kept(defaults, extra) <==> c in defaults && c.height !in extra
  {
    if defaults != [] {
      KeptAre(defaults[..|defaults| - 1], extra);
      assert defaults == defaults[..|defaults| - 1] + [defaults[|defaults| - 1]];
    }
  }

  lemma DistinctMore(s: seq<Checkpoint>, c: Checkpoint)
    requires forall i :: 0 <= i < |s| ==> s[i].height != c.height
    ensures Distinct(s + [c]) <==> Distinct(s)
  {
    if Distinct(s + [c]) {
      forall i, j | 0 <= i < j < |s| ensures s[i].height != s[j].height {
        assert (s + [c])[i].height != (s + [c])[j].height;
      }
    }
  }

  ghost function AtHeight(h: int): Checkpoint -> int {
    (c: Checkpoint) => if c.height == h then 1 else 0
  }

  ghost function CountHeight(s: seq<Checkpoint>, h: int): int {
    Sum(s, AtHeight(h))
  }

  lemma {:induction false} CountNonNegative(s: seq<Checkpoint>, h: int)
    ensures CountHeight(s, h) >= 0
  {
    if s != [] {
      CountNonNegative(s[..|s| - 1], h);
    }
  }

  lemma {:induction false} CountPositive(s: seq<Checkpoint>, i: nat)
    requires i < |s|
    ensures CountHeight(s, s[i].height) >= 1
  {
    CountNonNegative(s[..|s| - 1], s[i].height);
    if i < |s| - 1 {
      CountPositive(s[..|s| - 1], i);
    }
  }

  lemma CountTwo(s: seq<Checkpoint>, i: nat, j: nat)
    requires i < j < |s| && s[i].height == s[j].height
    ensures CountHeight(s, s[i].height) >= 2
  {
    CountPositive(s[..j], i);
    CountPositive(s[j..], 0);
    SumConcat(s[..j], s[j..], AtHeight(s[i].height));
    assert s[..j] + s[j..] == s;
  }

  lemma {:induction false} CountAtMostOne(s: seq<Checkpoint>, h: int)
    requires Distinct(s)
    ensures CountHeight(s, h) <= 1
  {
    if s != [] {
      var n := |s| - 1;
      CountAtMostOne(s[..n], h);
      if s[n].height == h {
        CountNone(s[..n], h);
      }
    }
  }

  lemma {:induction false} CountNone(s: seq<Checkpoint>, h: int)
    requires forall i :: 0 <= i < |s| ==> s[i].height != h
    ensures CountHeight(s, h) == 0
  {
    if s != [] {
      CountNone(s[..|s| - 1], h);
    }
  }

  lemma DistinctIsPermutable(s: seq<Checkpoint>, r: seq<Checkpoint>)
    requires multiset(s) == multiset(r) && Distinct(s)
    ensures Distinct(r)
  {
    forall i, j | 0 <= i < j < |r| ensures r[i].height != r[j].height {
      var h := r[i].height;
      CountAtMostOne(s, h);
      SumIsPermutable(s, r, AtHeight(h));
      if r[i].height == r[j].height {
        CountTwo(r, i, j);
      }
    }
  }

  lemma DistinctSorted(s: seq<Checkpoint>, r: seq<Checkpoint>)
    requires multiset(s) == multiset(r) && SortedByHeight(r)
    ensures Increasing(r) <==> Distinct(s)
  {
    if Distinct(s) {
      DistinctIsPermutable(s, r);
    }
    if Increasing(r) {
      assert Distinct(r);
      DistinctIsPermutable(r, s);
    }
  }

  // ------------------------------------------------------ the cached search

  /** What the chain answers about blocks: its height, the block nodes it knows and those on
      the best chain. */
  datatype Chain = Chain(tip: int, known: set<Hash>, best: set<Hash>)

  /** The best chain holds exactly the checkpoints at or below its height. */
  ghost predicate Agrees(cps: seq<Checkpoint>, chain: Chain) {
    && chain.best <= chain.known
    && forall i :: 0 <= i < |cps| ==> (cps[i].hash in chain.best <==> cps[i].height <= chain.tip)
  }

  /** The index of the latest checkpoint at or below a height, or -1. */
  function Latest(cps: seq<Checkpoint>, tip: int): (i: int)
    requires Increasing(cps)
    ensures -1 <= i < |cps|
    ensures forall j :: 0 <= j < |cps| ==> (cps[j].height <= tip <==> j <= i)
  {
    if cps == [] then -1
    else if cps[|cps| - 1].height <= tip then |cps| - 1
    else Latest(cps[..|cps| - 1], tip)
  }

  datatype Outcome = Node(hash: Option<Hash>) | LookupFailed

  /** The hashes of distinct checkpoints differ. */
  ghost predicate DistinctHashes(cps: seq<Checkpoint>) {
    forall i, j :: 0 <= i < j < |cps| ==> cps[i].hash != cps[j].hash
  }

  function NodeOf(cps: seq<Checkpoint>, i: int): Option<Hash>
    requires -1 <= i < |cps|
  {
    if i == -1 then None else Some(cps[i].hash)
  }

  class Cache {
    const checkpoints: seq<Checkpoint>
    var checkpointNode: Option<Hash>
    var nextCheckpoint: Option<Checkpoint>
    ghost var at: int     // index of the cached checkpoint, -1 for none, -2 before the first search

    ghost predicate Valid()
      reads this
    {
      && Increasing(checkpoints) && DistinctHashes(checkpoints)
      && -2 <= at < |checkpoints|
      && if at == -2 then checkpointNode.None? && nextCheckpoint.None?
         else
           && checkpoints != []
           && checkpointNode == NodeOf(checkpoints, at)
           && nextCheckpoint == (if at + 1 < |checkpoints| then Some(checkpoints[at + 1]) else None)
    }

    constructor (checkpoints: seq<Checkpoint>)
      requires Increasing(checkpoints) && DistinctHashes(checkpoints)
      ensures Valid() && at == -2 && this.checkpoints == checkpoints
    {
      this.checkpoints := checkpoints;
      checkpointNode, nextCheckpoint, at := None, None, -2;
    }

    /** One call, on a chain that is not behind the cache: the first call finds the latest
        checkpoint; a later one moves the cache forward by at most one. */
    method FindPrevious(chain: Chain) returns (r: Outcome)
      requires Valid() && Agrees(checkpoints, chain) && at <= Latest(checkpoints, chain.tip)
      modifies this`checkpointNode, this`nextCheckpoint, this`at
      ensures Valid()
      ensures checkpoints != [] ==> at == After(checkpoints, old(at), chain.tip) && r == Node(NodeOf(checkpoints, at))
      ensures checkpoints == [] ==> r == Node(None) && at == old(at)
      ensures checkpoints != [] ==>
                (r == Node(NodeOf(checkpoints, Latest(checkpoints, chain.tip))) <==>
                 old(at) == -2 || Latest(checkpoints, chain.tip) <= old(at) + 1)
    {
      if checkpoints == [] {
        return Node(None);
      }
      AnswerIsLatestIff(checkpoints, at, chain.tip);
      var n := |checkpoints|;
      if checkpointNode.None? && nextCheckpoint.None? {
        var i := n - 1;
        while i >= 0
          invariant -1 <= i < n && Valid() && at == -2
          invariant Latest(checkpoints, chain.tip) <= i
        {
          var h := checkpoints[i].hash;
          if !(h !in chain.known || h !in chain.best) {
            checkpointNode := Some(h);
            at := i;
            if i < n - 1 {
              nextCheckpoint := Some(checkpoints[i + 1]);
            }
            return Node(checkpointNode);
          }
          i := i - 1;
        }
        nextCheckpoint := Some(checkpoints[0]);
        at := -1;
        return Node(None);
      }
      if nextCheckpoint.None? {
        return Node(checkpointNode);
      }
      if chain.tip < nextCheckpoint.value.height {
        return Node(checkpointNode);
      }
      var hash := nextCheckpoint.value.hash;
      if hash !in chain.known {
        return LookupFailed;
      }
      checkpointNode := Some(hash);
      var checkpointIndex := -1;
      var i := n - 1;
      while i >= 0
        invariant -1 <= i < n && old(at) + 1 <= i && checkpointIndex == -1
      {
        if checkpoints[i].hash == hash {
          checkpointIndex := i;
          break;
        }
        i := i - 1;
      }
      nextCheckpoint := None;
      if checkpointIndex != -1 && checkpointIndex < n - 1 {
        nextCheckpoint := Some(checkpoints[checkpointIndex + 1]);
      }
      at := at + 1;
      return Node(checkpointNode);
    }
  }

  function Min(a: int, b: int): int { if a < b then a else b }

  /** Where the cache stands after a call. */
  function After(cps: seq<Checkpoint>, at: int, tip: int): int
    requires Increasing(cps)
  {
    if at == -2 then Latest(cps, tip) else Min(at + 1, Latest(cps, tip))
  }

  /** A call answers with the latest checkpoint reached exactly when it is the first call or the
      chain has passed at most one checkpoint since the cache last moved. */
  lemma AnswerIsLatestIff(cps: seq<Checkpoint>, at: int, tip: int)
    requires Increasing(cps) && DistinctHashes(cps) && -2 <= at <= Latest(cps, tip)
    ensures NodeOf(cps, After(cps, at, tip)) == NodeOf(cps, Latest(cps, tip)) <==> at == -2 || Latest(cps, tip) <= at + 1
  {
    NodesDiffer(cps, After(cps, at, tip), Latest(cps, tip));
  }

  lemma NodesDiffer(cps: seq<Checkpoint>, i: int, j: int)
    requires DistinctHashes(cps) && -1 <= i < |cps| && -1 <= j < |cps|
    ensures NodeOf(cps, i) == NodeOf(cps, j) <==> i == j
  {
  }

  /** A growing chain never loses checkpoints. */
  lemma LatestMonotone(cps: seq<Checkpoint>, tip: int, tip': int)
    requires Increasing(cps) && tip <= tip'
    ensures Latest(cps, tip) <= Latest(cps, tip')
  {
    var i := Latest(cps, tip);
    if i >= 0 {
      assert cps[i].height <= tip;
    }
  }

  /** The cache positions over a run of calls, one per tip. */
  function Positions(cps: seq<Checkpoint>, tips: seq<int>): int
    requires Increasing(cps)
  {
    if tips == [] then -2
    else After(cps, Positions(cps, tips[..|tips| - 1]), tips[|tips| - 1])
  }

  /** One checkpoint is passed at height 15 and two more by height 35: the second call answers with the middle one. */
  lemma LagExample()
    ensures var cps := [Checkpoint(10, 1), Checkpoint(20, 2), Checkpoint(30, 3)];
            && Increasing(cps) && DistinctHashes(cps)
            && NodeOf(cps, Latest(cps, 35)) == Some(3)
            && -1 <= Positions(cps, [15, 35]) < 3 && NodeOf(cps, Positions(cps, [15, 35])) == Some(2)
  {
    var cps := [Checkpoint(10, 1), Checkpoint(20, 2), Checkpoint(30, 3)];
    assert cps[0].height <= 15 < cps[1].height && cps[2].height <= 35;
    assert Latest(cps, 15) == 0 && Latest(cps, 35) == 2;
    var one, two := [15], [15, 35];
    assert one[..0] == [] && two[..1] == one;
    assert Positions(cps, one[..0]) == -2;
    assert Positions(cps, one) == 0;
  }

  ghost predicate Growing(tips: seq<int>) {
    forall i, j :: 0 <= i < j < |tips| ==> tips[i] <= tips[j]
  }

  /** Over any run of calls on a growing chain the cache never moves back and never gets ahead
      of the latest checkpoint. */
  lemma {:induction false} RunOfCalls(cps: seq<Checkpoint>, tips: seq<int>)
    requires Increasing(cps) && Growing(tips) && tips != []
    ensures var n := |tips| - 1;
            && (n == 0 || Positions(cps, tips[..n]) <= Positions(cps, tips))
            && Positions(cps, tips) <= Latest(cps, tips[n])
            && Positions(cps, tips) >= -1
  {
    var n := |tips| - 1;
    if n > 0 {
      RunOfCalls(cps, tips[..n]);
      LatestMonotone(cps, tips[n - 1], tips[n]);
    } else {
      assert tips[..0] == [];
    }
  }

  /** Calling again on a chain that stands still closes the gap one checkpoint at a time. */
  lemma {:induction false} RepeatedCalls(cps: seq<Checkpoint>, tips: seq<int>, tip: int, k: nat)
    requires Increasing(cps) && Growing(tips) && tips != [] && tips[|tips| - 1] <= tip
    ensures Positions(cps, tips + seq(k, _ => tip)) == Min(Positions(cps, tips) + k, Latest(cps, tip))
  {
    RunOfCalls(cps, tips);
    LatestMonotone(cps, tips[|tips| - 1], tip);
    if k == 0 {
      assert tips + seq(0, _ => tip) == tips;
    } else {
      RepeatedCalls(cps, tips, tip, k - 1);
      var all := tips + seq(k, _ => tip);
      assert all[..|all| - 1] == tips + seq(k - 1, _ => tip);
    }
  }
}

/** The Fisher-Yates shuffle with which the address manager samples its addresses: every selection of
    places comes from exactly one sequence of random picks, so uniform picks give a uniform sample. */
module Shuffling {
  import opened AddrBook

  ghost predicate IsPermutation(perm: seq<nat>, n: nat) {
    |perm| == n && NoDuplicates(perm) && forall i :: 0 <= i < n ==> perm[i] < n
  }

  /** What the random generator may answer: the i-th pick is below n - i. */
  predicate Pickable(n: nat, picks: seq<nat>) {
    |picks| <= n && forall i :: 0 <= i < |picks| ==> picks[i] < n - i
  }

  function Swapped<T>(s: seq<T>, i: nat, j: nat): seq<T>
    requires i < |s| && j < |s|
  {
    s[i := s[j]][j := s[i]]
  }

  /** Where the elements of an array of length n come from after the swaps. */
  ghost function Arranged(n: nat, picks: seq<nat>): (perm: seq<nat>)
    requires Pickable(n, picks)
    ensures |perm| == n
  {
    if picks == [] then seq(n, i => i)
    else
      var i := |picks| - 1;
      Swapped(Arranged(n, picks[..i]), i, picks[i] + i)
  }

  lemma {:induction false} ArrangedIsPermutation(n: nat, picks: seq<nat>)
    requires Pickable(n, picks)
    ensures IsPermutation(Arranged(n, picks), n)
  {
    if picks != [] {
      ArrangedIsPermutation(n, picks[..|picks| - 1]);
    }
  }

  /** Every place is somewhere in the arrangement. */
  lemma {:induction false} ArrangedHas(n: nat, picks: seq<nat>, v: nat) returns (x: nat)
    requires Pickable(n, picks) && v < n
    ensures x < n && Arranged(n, picks)[x] == v
  {
    if picks == [] {
      x := v;
    } else {
      var i := |picks| - 1;
      var j := picks[i] + i;
      var y := ArrangedHas(n, picks[..i], v);
      x := if y == i then j else if y == j then i else y;
    }
  }

  /** Later swaps leave the places already dealt with alone. */
  lemma LastSwap(n: nat, picks: seq<nat>)
    requires Pickable(n, picks) && picks != []
    ensures var i := |picks| - 1;
            && (forall k :: 0 <= k < i ==> Arranged(n, picks)[k] == Arranged(n, picks[..i])[k])
            && Arranged(n, picks)[i] == Arranged(n, picks[..i])[picks[i] + i]
  {
  }

  /** The selection made: the places of the first elements. */
  ghost predicate Selects(n: nat, picks: seq<nat>, places: seq<nat>) {
    && Pickable(n, picks) && |picks| == |places|
    && forall k :: 0 <= k < |places| ==> Arranged(n, picks)[k] == places[k]
  }

  lemma SelectsLess(n: nat, picks: seq<nat>, places: seq<nat>)
    requires Selects(n, picks, places) && picks != []
    ensures var i := |picks| - 1;
            Selects(n, picks[..i], places[..i]) && Arranged(n, picks[..i])[picks[i] + i] == places[i]
  {
    hide Arranged;
    LastSwap(n, picks);
  }

  /** Different picks select differently. */
  lemma {:induction false} PicksDetermined(n: nat, picks: seq<nat>, picks': seq<nat>, places: seq<nat>)
    requires Selects(n, picks, places) && Selects(n, picks', places)
    ensures picks == picks'
  {
    if picks != [] {
      hide Arranged;
      var i := |picks| - 1;
      SelectsLess(n, picks, places);
      SelectsLess(n, picks', places);
      PicksDetermined(n, picks[..i], picks'[..i], places[..i]);
      ArrangedIsPermutation(n, picks[..i]);
      assert picks[i] == picks'[i];
      assert picks == picks[..i] + [picks[i]] && picks' == picks'[..i] + [picks'[i]];
    }
  }

  /** Every selection of distinct places, in any order, comes from some picks. */
  lemma {:induction false} EverySelection(n: nat, places: seq<nat>) returns (picks: seq<nat>)
    requires |places| <= n && NoDuplicates(places) && forall i :: 0 <= i < |places| ==> places[i] < n
    ensures Selects(n, picks, places)
  {
    if places == [] {
      picks := [];
    } else {
      hide Arranged;
      var i := |places| - 1;
      var before := EverySelection(n, places[..i]);
      var x := ArrangedHas(n, before, places[i]);
      forall y | 0 <= y < i ensures Arranged(n, before)[y] != places[i] {
        assert Arranged(n, before)[y] == places[..i][y];
      }
      picks := before + [x - i];
      assert picks[..i] == before;
      LastSwap(n, picks);
    }
  }

  /** ks are the elements of order at the first places of the arrangement. */
  ghost predicate Taken<T(!new)>(order: seq<T>, perm: seq<nat>, ks: seq<T>) {
    |ks| <= |perm| && forall i :: 0 <= i < |ks| ==> perm[i] < |order| && ks[i] == order[perm[i]]
  }

  /** Different picks give different samples. */
  lemma SampleDetermined<T(!new)>(order: seq<T>, picks: seq<nat>, picks': seq<nat>, ks: seq<T>)
    requires NoDuplicates(order) && |picks| == |picks'| == |ks|
    requires Pickable(|order|, picks) && Taken(order, Arranged(|order|, picks), ks)
    requires Pickable(|order|, picks') && Taken(order, Arranged(|order|, picks'), ks)
    ensures picks == picks'
  {
    hide Arranged, Pickable;
    var n := |order|;
    var places := Arranged(n, picks)[..|ks|];
    forall i | 0 <= i < |ks| ensures Arranged(n, picks')[i] == places[i] {
      assert order[Arranged(n, picks)[i]] == order[Arranged(n, picks')[i]];
    }
    PicksDetermined(n, picks, picks', places);
  }

  /** Every sample of distinct elements, in any order, comes from some picks. */
  lemma EverySample<T(!new)>(order: seq<T>, ks: seq<T>) returns (picks: seq<nat>)
    requires NoDuplicates(ks) && forall k :: k in ks ==> k in order
    requires |ks| <= |order|
    ensures |picks| == |ks| && Pickable(|order|, picks) && Taken(order, Arranged(|order|, picks), ks)
  {
    hide Arranged, Pickable;
    var places := PlacesOf(order, ks);
    picks := EverySelection(|order|, places);
  }

  lemma {:induction false} PlacesOf<T(!new)>(order: seq<T>, ks: seq<T>) returns (places: seq<nat>)
    requires NoDuplicates(ks) && forall k :: k in ks ==> k in order
    ensures |places| == |ks| && NoDuplicates(places)
    ensures forall i :: 0 <= i < |ks| ==> places[i] < |order| && order[places[i]] == ks[i]
  {
    if ks == [] {
      places := [];
    } else {
      var n := |ks| - 1;
      var front := PlacesOf(order, ks[..n]);
      assert ks[n] in ks;
      var x :| 0 <= x < |order| && order[x] == ks[n];
      forall i | 0 <= i < n ensures front[i] != x {
        assert order[front[i]] == ks[..n][i] != ks[n];
      }
      places := front + [x];
    }
  }

  /** s is s0 rearranged. */
  ghost predicate Pulled<T>(s0: seq<T>, perm: seq<nat>, s: seq<T>) {
    |s| == |s0| == |perm| && forall k :: 0 <= k < |s| ==> perm[k] < |s0| && s[k] == s0[perm[k]]
  }

  lemma PulledNone<T>(s: seq<T>, picks: seq<nat>)
    requires Pickable(|s|, picks)
    ensures Pulled(s, Arranged(|s|, picks[..0]), s)
  {
  }

  lemma ArrangedNext(n: nat, picks: seq<nat>, i: nat)
    requires Pickable(n, picks) && i < |picks|
    ensures Arranged(n, picks[..i + 1]) == Swapped(Arranged(n, picks[..i]), i, picks[i] + i)
  {
    assert picks[..i + 1][..i] == picks[..i];
  }

  lemma PulledSwap<T>(s0: seq<T>, perm: seq<nat>, s: seq<T>, i: nat, j: nat)
    requires Pulled(s0, perm, s) && i < |s| && j < |s|
    ensures Pulled(s0, Swapped(perm, i, j), Swapped(s, i, j))
  {
  }

  lemma PulledMore<T>(s0: seq<T>, picks: seq<nat>, i: nat, s: seq<T>)
    requires Pickable(|s0|, picks) && i < |picks| && Pulled(s0, Arranged(|s0|, picks[..i]), s)
    ensures i < |s| && picks[i] + i < |s|
    ensures Pulled(s0, Arranged(|s0|, picks[..i + 1]), Swapped(s, i, picks[i] + i))
  {
    hide Arranged, Swapped;
    ArrangedNext(|s0|, picks, i);
    PulledSwap(s0, Arranged(|s0|, picks[..i]), s, i, picks[i] + i);
  }

  method SwapSlots<T>(a: array<T>, i: nat, j: nat)
    requires i < a.Length && j < a.Length
    modifies a
    ensures a[..] == Swapped(old(a[..]), i, j)
  {
    a[i], a[j] := a[j], a[i];
  }

  /** Shuffles the first places of an array in place. */
  method Shuffle<T>(a: array<T>, count: nat, picks: seq<nat>)
    requires count <= |picks| && Pickable(a.Length, picks)
    modifies a
    ensures Pulled(old(a[..]), Arranged(a.Length, picks[..count]), a[..])
  {
    ghost var s0 := a[..];
    PulledNone(s0, picks);
    hide Arranged, Pulled, Swapped;
    for i := 0 to count
      invariant Pulled(s0, Arranged(a.Length, picks[..i]), a[..])
    {
      PulledMore(s0, picks, i, a[..]);
      SwapSlots(a, i, picks[i] + i);
    }
  }
}

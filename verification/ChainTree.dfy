/** The tree of chains: the path a transfer takes between two chains, the fees charged along it,
    and the test whether a chain lies on it. */
module ChainTree {
  const ROOT: nat := 1
  const FEE_PER_CHAIN := 100000
  const OP_PAYMINER := 0x44

  datatype Descriptor = Descriptor(chainId: nat, parent: nat, legacy: bool)

  type Chains = map<nat, Descriptor>

  ghost predicate Ranked(m: Chains, rank: nat -> nat) {
    forall c :: c in m && m[c].parent != 0 ==> rank(m[c].parent) < rank(c)
  }

  /** Chains are filed under their own numbers, no chain but the root lacks a parent, and parents are known: this much
      is checked when the map is loaded. Taken for granted are that the root has no parent and that 0, which stands for
      no parent, is no chain. */
  ghost predicate Wired(m: Chains) {
    forall c {:trigger m[c]} :: c in m ==>
      && c != 0 && m[c].chainId == c && (m[c].parent == 0 <==> c == ROOT)
      && (m[c].parent != 0 ==> m[c].parent in m)
  }

  /** A checked map in which following parents comes to an end. */
  ghost predicate Tree(m: Chains) {
    Wired(m) && exists rank: nat -> nat :: Ranked(m, rank)
  }

  ghost function Ranking(m: Chains): (rank: nat -> nat)
    requires Tree(m)
    ensures Ranked(m, rank)
  {
    var rank :| Ranked(m, rank);
    rank
  }

  /** A chain and its ancestors, up to the root. */
  ghost function Line(m: Chains, c: nat): (line: seq<nat>)
    requires Tree(m) && c in m
    ensures line != [] && line[0] == c && line[|line| - 1] == ROOT
    decreases Ranking(m)(c)
  {
    if m[c].parent == 0 then [c] else [c] + Line(m, m[c].parent)
  }

  lemma {:induction false} LineLinks(m: Chains, c: nat, i: nat)
    requires Tree(m) && c in m && i < |Line(m, c)|
    ensures Line(m, c)[i] in m
    ensures Line(m, Line(m, c)[i]) == Line(m, c)[i..]
    decreases i
  {
    if i > 0 {
      assert m[c].parent != 0;
      assert Line(m, c)[i] == Line(m, m[c].parent)[i - 1];
      LineLinks(m, m[c].parent, i - 1);
      assert Line(m, c)[i..] == Line(m, m[c].parent)[i - 1..];
    }
  }

  lemma LineStep(m: Chains, c: nat, i: nat)
    requires Tree(m) && c in m && i < |Line(m, c)|
    ensures Line(m, c)[i] in m
    ensures m[Line(m, c)[i]].parent == 0 <==> i == |Line(m, c)| - 1
    ensures i + 1 < |Line(m, c)| ==> m[Line(m, c)[i]].parent == Line(m, c)[i + 1]
  {
    LineLinks(m, c, i);
    var x := Line(m, c)[i];
    if m[x].parent != 0 {
      assert Line(m, x) == [x] + Line(m, m[x].parent);
      assert Line(m, x)[1] == m[x].parent;
    } else {
      assert |Line(m, x)| == 1;
    }
  }

  /** Two lines that share a chain share everything above it. */
  lemma Aligned(m: Chains, a: nat, b: nat, i: nat, j: nat)
    requires Tree(m) && a in m && b in m
    requires i < |Line(m, a)| && j < |Line(m, b)| && Line(m, a)[i] == Line(m, b)[j]
    ensures |Line(m, a)| - i == |Line(m, b)| - j
    ensures forall x :: i <= x < |Line(m, a)| ==> Line(m, a)[x] == Line(m, b)[x - i + j]
  {
    hide Line, Tree;
    LineLinks(m, a, i);
    LineLinks(m, b, j);
    var la, lb := Line(m, a), Line(m, b);
    assert |la[i..]| == |lb[j..]|;
    forall x | i <= x < |la| ensures la[x] == lb[x - i + j] {
      assert la[x] == la[i..][x - i] == lb[j..][x - i];
    }
  }

  lemma LineOnce(m: Chains, c: nat, x: nat, y: nat)
    requires Tree(m) && c in m && x < |Line(m, c)| && y < |Line(m, c)|
    ensures Line(m, c)[x] == Line(m, c)[y] <==> x == y
  {
    hide Line, Tree;
    if Line(m, c)[x] == Line(m, c)[y] {
      Aligned(m, c, c, x, y);
    }
  }

  // ----- Simple paths -----

  ghost predicate Adjacent(m: Chains, x: nat, y: nat) {
    x in m && y in m && (m[x].parent == y || m[y].parent == x)
  }

  /** A walk from a to b along the tree that visits no chain twice. */
  ghost predicate SimplePath(m: Chains, p: seq<nat>, a: nat, b: nat) {
    && p != [] && p[0] == a && p[|p| - 1] == b
    && (forall i :: 0 <= i < |p| ==> p[i] in m)
    && (forall i :: 0 <= i < |p| - 1 ==> Adjacent(m, p[i], p[i + 1]))
    && (forall i, j :: 0 <= i < j < |p| ==> p[i] != p[j])
  }

  /** Where two lines first meet. */
  ghost predicate Meets(la: seq<nat>, lb: seq<nat>, i: nat, j: nat) {
    && i < |la| && j < |lb| && la[i] == lb[j] && |la| - i == |lb| - j
    && (i == 0 || j == 0 || la[i - 1] != lb[j - 1])
  }

  ghost function Reversed(s: seq<nat>): (r: seq<nat>) {
    seq(|s|, k requires 0 <= k < |s| => s[|s| - 1 - k])
  }

  /** Up to the meeting point and down again. */
  ghost function UpDown(la: seq<nat>, lb: seq<nat>, i: nat, j: nat): (p: seq<nat>)
    requires i < |la| && j <= |lb|
  {
    la[..i + 1] + Reversed(lb[..j])
  }

  lemma UpDownAt(la: seq<nat>, lb: seq<nat>, i: nat, j: nat, x: nat)
    requires Meets(la, lb, i, j) && x <= i + j
    ensures |UpDown(la, lb, i, j)| == i + j + 1
    ensures UpDown(la, lb, i, j)[x] == if x <= i then la[x] else lb[i + j - x]
    ensures x >= i ==> UpDown(la, lb, i, j)[x] == lb[i + j - x]
  {
  }

  lemma UpDownDistinct(m: Chains, a: nat, b: nat, i: nat, j: nat, x: nat, y: nat)
    requires Tree(m) && a in m && b in m
    requires Meets(Line(m, a), Line(m, b), i, j) && x < y <= i + j
    ensures UpDown(Line(m, a), Line(m, b), i, j)[x] != UpDown(Line(m, a), Line(m, b), i, j)[y]
  {
    hide Line, Tree, UpDown;
    var la, lb := Line(m, a), Line(m, b);
    UpDownAt(la, lb, i, j, x);
    UpDownAt(la, lb, i, j, y);
    if y <= i {
      LineOnce(m, a, x, y);
    } else if x > i {
      LineOnce(m, b, i + j - x, i + j - y);
    } else if la[x] == lb[i + j - y] {
      var z := i + j - y;
      Aligned(m, a, b, x, z);
    }
  }

  lemma LineAdjacent(m: Chains, c: nat, x: nat)
    requires Tree(m) && c in m && x + 1 < |Line(m, c)|
    ensures Adjacent(m, Line(m, c)[x], Line(m, c)[x + 1]) && Adjacent(m, Line(m, c)[x + 1], Line(m, c)[x])
  {
    hide Line, Tree;
    LineStep(m, c, x);
    LineStep(m, c, x + 1);
  }

  lemma UpDownAdjacent(m: Chains, a: nat, b: nat, i: nat, j: nat, x: nat)
    requires Tree(m) && a in m && b in m
    requires Meets(Line(m, a), Line(m, b), i, j) && x < i + j
    ensures Adjacent(m, UpDown(Line(m, a), Line(m, b), i, j)[x], UpDown(Line(m, a), Line(m, b), i, j)[x + 1])
  {
    hide Line, Tree, UpDown, Adjacent;
    UpDownAt(Line(m, a), Line(m, b), i, j, x);
    UpDownAt(Line(m, a), Line(m, b), i, j, x + 1);
    if x < i {
      LineAdjacent(m, a, x);
    } else {
      LineAdjacent(m, b, i + j - x - 1);
    }
  }

  lemma UpDownIsPath(m: Chains, a: nat, b: nat, i: nat, j: nat)
    requires Tree(m) && a in m && b in m
    requires Meets(Line(m, a), Line(m, b), i, j)
    ensures SimplePath(m, UpDown(Line(m, a), Line(m, b), i, j), a, b)
  {
    hide Line, Tree;
    var la, lb := Line(m, a), Line(m, b);
    var p := UpDown(la, lb, i, j);
    UpDownAt(la, lb, i, j, 0);
    UpDownAt(la, lb, i, j, i + j);
    hide UpDown;
    forall x | 0 <= x < |p| ensures p[x] in m {
      UpDownAt(la, lb, i, j, x);
      if x <= i { LineStep(m, a, x); } else { LineStep(m, b, i + j - x); }
    }
    forall x | 0 <= x < |p| - 1 ensures Adjacent(m, p[x], p[x + 1]) {
      UpDownAdjacent(m, a, b, i, j, x);
    }
    forall x, y | 0 <= x < y < |p| ensures p[x] != p[y] {
      UpDownDistinct(m, a, b, i, j, x, y);
    }
  }

  lemma MeetsUnique(m: Chains, a: nat, b: nat, i: nat, j: nat, i': nat, j': nat)
    requires Tree(m) && a in m && b in m
    requires Meets(Line(m, a), Line(m, b), i, j) && Meets(Line(m, a), Line(m, b), i', j')
    ensures i == i' && j == j'
  {
    hide Line, Tree;
    Aligned(m, a, b, i, j);
    Aligned(m, a, b, i', j');
  }

  // ----- Every simple path climbs and then descends -----

  lemma OnceDown(m: Chains, p: seq<nat>, a: nat, b: nat, k: nat, x: nat)
    requires SimplePath(m, p, a, b) && k <= x < |p| - 1
    requires m[p[k + 1]].parent == p[k]
    ensures m[p[x + 1]].parent == p[x]
    decreases x - k
  {
    if x > k {
      OnceDown(m, p, a, b, k, x - 1);
      assert Adjacent(m, p[x], p[x + 1]);
      assert m[p[x]].parent == p[x - 1] != p[x + 1];
    }
  }

  lemma {:induction false} UpPart(m: Chains, p: seq<nat>, a: nat, k: nat, x: nat)
    requires Tree(m) && a in m && p != [] && p[0] == a && x <= k < |p|
    requires forall i :: 0 <= i < |p| ==> p[i] in m
    requires forall i :: 0 <= i < k ==> m[p[i]].parent == p[i + 1]
    ensures x < |Line(m, a)| && Line(m, a)[x] == p[x]
    decreases x
  {
    if x > 0 {
      UpPart(m, p, a, k, x - 1);
      LineStep(m, a, x - 1);
      assert p[x] in m && m[p[x - 1]].parent == p[x];
    }
  }

  lemma {:induction false} DownPart(m: Chains, p: seq<nat>, b: nat, k: nat, x: nat)
    requires Tree(m) && b in m && p != [] && p[|p| - 1] == b && k <= x < |p|
    requires forall i :: 0 <= i < |p| ==> p[i] in m
    requires forall i :: k <= i < |p| - 1 ==> m[p[i + 1]].parent == p[i]
    ensures |p| - 1 - x < |Line(m, b)| && Line(m, b)[|p| - 1 - x] == p[x]
    decreases |p| - x
  {
    if x < |p| - 1 {
      DownPart(m, p, b, k, x + 1);
      LineStep(m, b, |p| - 2 - x);
      assert p[x] in m && m[p[x + 1]].parent == p[x];
    }
  }

  lemma Turn(m: Chains, p: seq<nat>, a: nat, b: nat) returns (k: nat)
    requires SimplePath(m, p, a, b)
    ensures k < |p|
    ensures forall i :: 0 <= i < k ==> m[p[i]].parent == p[i + 1]
    ensures forall i :: k <= i < |p| - 1 ==> m[p[i + 1]].parent == p[i]
  {
    k := 0;
    while k < |p| - 1 && m[p[k]].parent == p[k + 1]
      invariant k < |p|
      invariant forall i :: 0 <= i < k ==> m[p[i]].parent == p[i + 1]
    {
      k := k + 1;
    }
    forall x | k <= x < |p| - 1 ensures m[p[x + 1]].parent == p[x] {
      assert Adjacent(m, p[k], p[k + 1]);
      OnceDown(m, p, a, b, k, x);
    }
  }

  lemma PathParts(m: Chains, p: seq<nat>, a: nat, b: nat) returns (k: nat)
    requires Tree(m) && SimplePath(m, p, a, b)
    ensures a in m && b in m && k < |p| && k < |Line(m, a)| && |p| - 1 - k < |Line(m, b)|
    ensures forall x :: 0 <= x <= k ==> p[x] == Line(m, a)[x]
    ensures forall x :: k <= x < |p| ==> p[x] == Line(m, b)[|p| - 1 - x]
  {
    hide Line, Tree, Adjacent;
    assert p[0] in m && p[|p| - 1] in m;
    k := Turn(m, p, a, b);
    UpPart(m, p, a, k, k);
    DownPart(m, p, b, k, k);
    forall x | 0 <= x <= k ensures p[x] == Line(m, a)[x] {
      UpPart(m, p, a, k, x);
    }
    forall x | k <= x < |p| ensures p[x] == Line(m, b)[|p| - 1 - x] {
      DownPart(m, p, b, k, x);
    }
  }

  lemma PathIsUpDown(m: Chains, p: seq<nat>, a: nat, b: nat) returns (i: nat, j: nat)
    requires Tree(m) && SimplePath(m, p, a, b)
    ensures a in m && b in m
    ensures Meets(Line(m, a), Line(m, b), i, j) && p == UpDown(Line(m, a), Line(m, b), i, j)
  {
    hide Line, Tree, UpDown, Adjacent;
    i := PathParts(m, p, a, b);
    j := |p| - 1 - i;
    var la, lb := Line(m, a), Line(m, b);
    Aligned(m, a, b, i, j);
    assert i > 0 && j > 0 ==> p[i - 1] != p[i + 1];
    assert j > 0 ==> p[i + 1] == lb[j - 1];
    UpDownAt(la, lb, i, j, 0);
    forall x | 0 <= x < |p| ensures p[x] == UpDown(la, lb, i, j)[x] {
      UpDownAt(la, lb, i, j, x);
    }
  }

  /** A tree has exactly one simple path between two chains. */
  lemma PathUnique(m: Chains, p: seq<nat>, q: seq<nat>, a: nat, b: nat)
    requires Tree(m) && SimplePath(m, p, a, b) && SimplePath(m, q, a, b)
    ensures p == q
  {
    hide *;
    var i, j := PathIsUpDown(m, p, a, b);
    var i', j' := PathIsUpDown(m, q, a, b);
    MeetsUnique(m, a, b, i, j, i', j');
  }

  lemma Meeting(la: seq<nat>, lb: seq<nat>) returns (i: nat, j: nat)
    requires la != [] && lb != [] && la[|la| - 1] == lb[|lb| - 1]
    ensures Meets(la, lb, i, j)
  {
    i, j := |la| - 1, |lb| - 1;
    while i > 0 && j > 0 && la[i - 1] == lb[j - 1]
      invariant i < |la| && j < |lb| && la[i] == lb[j] && |la| - i == |lb| - j
    {
      i, j := i - 1, j - 1;
    }
  }

  lemma PathExists(m: Chains, a: nat, b: nat)
    requires Tree(m) && a in m && b in m
    ensures exists p :: SimplePath(m, p, a, b)
  {
    var i, j := Meeting(Line(m, a), Line(m, b));
    UpDownIsPath(m, a, b, i, j);
  }

  /** The path between two chains. */
  ghost function Path(m: Chains, a: nat, b: nat): (p: seq<nat>)
    requires Tree(m) && a in m && b in m
    ensures SimplePath(m, p, a, b)
  {
    PathExists(m, a, b);
    var p :| SimplePath(m, p, a, b);
    p
  }

  lemma PathVia(m: Chains, a: nat, b: nat, i: nat, j: nat)
    requires Tree(m) && a in m && b in m
    requires Meets(Line(m, a), Line(m, b), i, j)
    ensures Path(m, a, b) == UpDown(Line(m, a), Line(m, b), i, j)
  {
    hide Line, UpDown, SimplePath, Path;
    UpDownIsPath(m, a, b, i, j);
    PathUnique(m, Path(m, a, b), UpDown(Line(m, a), Line(m, b), i, j), a, b);
  }

  /** Going back takes the same way. */
  lemma PathBack(m: Chains, a: nat, b: nat)
    requires Tree(m) && a in m && b in m
    ensures Path(m, b, a) == Reversed(Path(m, a, b))
  {
    var p := Path(m, a, b);
    var q := Reversed(p);
    forall x | 0 <= x < |q| - 1 ensures Adjacent(m, q[x], q[x + 1]) {
      assert Adjacent(m, p[|p| - 2 - x], p[|p| - 1 - x]);
    }
    assert SimplePath(m, q, b, a);
    PathUnique(m, Path(m, b, a), q, b, a);
  }

  // ----- Which chains lie on the path -----

  /** Whether t is a proper ancestor of c. */
  ghost predicate Below(m: Chains, c: nat, t: nat)
    requires Tree(m)
  {
    c in m && exists x :: 1 <= x < |Line(m, c)| && Line(m, c)[x] == t
  }

  lemma UpDownHas(la: seq<nat>, lb: seq<nat>, i: nat, j: nat, t: nat)
    requires Meets(la, lb, i, j)
    ensures t in UpDown(la, lb, i, j) <==> t in la[..i + 1] || t in lb[..j]
  {
    var p := UpDown(la, lb, i, j);
    if t in la[..i + 1] {
      var x :| 0 <= x <= i && la[x] == t;
      assert p[x] == t;
    } else if t in lb[..j] {
      var y :| 0 <= y < j && lb[y] == t;
      UpDownAt(la, lb, i, j, i + j - y);
    }
  }

  /** The chains common to two lines stand at or above the meeting point. */
  lemma CommonAbove(m: Chains, a: nat, b: nat, i: nat, j: nat, x: nat, y: nat)
    requires Tree(m) && a in m && b in m
    requires Meets(Line(m, a), Line(m, b), i, j)
    requires x < |Line(m, a)| && y < |Line(m, b)| && Line(m, a)[x] == Line(m, b)[y]
    ensures x >= i && y - j == x - i
  {
    hide Line, Tree;
    Aligned(m, a, b, x, y);
  }

  lemma AboveIsCommon(m: Chains, a: nat, b: nat, i: nat, j: nat)
    requires Tree(m) && a in m && b in m
    requires Meets(Line(m, a), Line(m, b), i, j)
    ensures forall x :: i < x < |Line(m, a)| ==> Line(m, a)[x] in Line(m, b)
    ensures forall y :: j <= y < |Line(m, b)| ==> Line(m, b)[y] in Line(m, a)
  {
    hide Line, Tree;
    Aligned(m, a, b, i, j);
    Aligned(m, b, a, j, i);
  }

  /** The chains of the path, by where they stand in the two lines. */
  lemma OnPath(m: Chains, a: nat, b: nat, i: nat, j: nat, t: nat)
    requires Tree(m) && a in m && b in m
    requires Meets(Line(m, a), Line(m, b), i, j)
    ensures t in Path(m, a, b) <==>
            if t in Line(m, a) && t in Line(m, b) then t == Line(m, a)[i] else t in Line(m, a) || t in Line(m, b)
  {
    hide Line, Path, Tree, UpDown;
    var la, lb := Line(m, a), Line(m, b);
    PathVia(m, a, b, i, j);
    UpDownHas(la, lb, i, j, t);
    AboveIsCommon(m, a, b, i, j);
    if t in la && t in lb {
      var x :| 0 <= x < |la| && la[x] == t;
      var y :| 0 <= y < |lb| && lb[y] == t;
      CommonAbove(m, a, b, i, j, x, y);
      LineOnce(m, a, x, i);
      forall z | 0 <= z < j ensures lb[z] != t { LineOnce(m, b, y, z); }
      forall z | 0 <= z < i ensures la[z] != t { LineOnce(m, a, x, z); }
    }
  }

  lemma NotBelowItself(m: Chains, c: nat)
    requires Tree(m) && c in m
    ensures !Below(m, c, c)
  {
    forall x | 1 <= x < |Line(m, c)| ensures Line(m, c)[x] != c {
      LineOnce(m, c, 0, x);
    }
  }

  method Decendant(m: Chains, t: nat, cid: nat) returns (r: bool)
    requires Tree(m) && t in m
    ensures r <==> Below(m, cid, t)
  {
    if cid !in m {
      return false;
    }
    if t == cid {
      NotBelowItself(m, cid);
      return false;
    }
    var d := m[cid];
    ghost var line := Line(m, cid);
    ghost var k := 0;
    hide Line, Tree;
    while d.parent != t && d.parent != 0
      invariant k < |line| && line[k] in m && d == m[line[k]]
      invariant forall x :: 1 <= x <= k ==> line[x] != t
      decreases |line| - k
    {
      LineStep(m, cid, k);
      d := m[d.parent];
      k := k + 1;
    }
    LineStep(m, cid, k);
    assert d.parent == t ==> line[k + 1] == t;
    return d.parent == t;
  }

  /** The child of t that c descends from. */
  method ChildToward(m: Chains, c: nat, t: nat) returns (p: nat, ghost x: nat)
    requires Tree(m) && t in m && Below(m, c, t)
    ensures 1 <= x < |Line(m, c)| && Line(m, c)[x] == t && Line(m, c)[x - 1] == p
  {
    ghost var line := Line(m, c);
    ghost var y :| 1 <= y < |line| && line[y] == t;
    p := c;
    x := 1;
    assert line[0] == c;
    hide Line, Tree;
    LineStep(m, c, 0);
    while m[p].parent != t
      invariant 1 <= x <= y && line[x - 1] == p && p in m
      invariant m[p].parent == line[x]
      decreases y - x
    {
      p := m[p].parent;
      LineStep(m, c, x);
      x := x + 1;
    }
  }

  /** Two chains below t meet at t exactly when they descend from different children of it. */
  lemma MeetAt(m: Chains, a: nat, b: nat, x: nat, y: nat, i: nat, j: nat)
    requires Tree(m) && a in m && b in m
    requires 1 <= x < |Line(m, a)| && 1 <= y < |Line(m, b)| && Line(m, a)[x] == Line(m, b)[y]
    requires Meets(Line(m, a), Line(m, b), i, j)
    ensures Line(m, a)[x] == Line(m, a)[i] <==> Line(m, a)[x - 1] != Line(m, b)[y - 1]
  {
    hide Line, Tree;
    var la, lb := Line(m, a), Line(m, b);
    CommonAbove(m, a, b, i, j, x, y);
    LineOnce(m, a, x, i);
    if x > i {
      Aligned(m, a, b, i, j);
      assert la[x - 1] == lb[x - 1 - i + j];
    }
  }

  lemma LineIs(m: Chains, c: nat, t: nat)
    requires Tree(m) && c in m
    ensures t in Line(m, c) <==> t == c || Below(m, c, t)
  {
    var line := Line(m, c);
    assert line[0] == c;
    if t in line && t != c {
      var x :| 0 <= x < |line| && line[x] == t;
      assert 1 <= x;
    }
  }

  lemma EndsAreOnPath(m: Chains, a: nat, b: nat)
    requires Tree(m) && a in m && b in m
    ensures a in Path(m, a, b) && b in Path(m, a, b)
  {
    var p := Path(m, a, b);
    assert p[0] == a && p[|p| - 1] == b;
  }

  /** Between two known chains the answer is exactly whether the chain is on the path between them. */
  method PassThru(m: Chains, tid: nat, src: nat, dest: nat) returns (r: bool)
    requires Tree(m)
    ensures r <==> Passes(m, tid, src, dest)
    ensures tid in m && src in m && dest in m ==> (r <==> tid in Path(m, src, dest))
    ensures tid !in m ==> !r
    ensures tid in m && !(src in m && dest in m) ==>
              (r <==> tid == src || tid == dest || Below(m, src, tid) || Below(m, dest, tid))
  {
    if tid !in m {
      return false;
    }
    if tid == src || tid == dest {
      if src in m && dest in m {
        EndsAreOnPath(m, src, dest);
      }
      return true;
    }
    hide Path;
    var sd := Decendant(m, tid, src);
    var dd := Decendant(m, tid, dest);
    ghost var i, j := 0, 0;
    if src in m && dest in m {
      i, j := Meeting(Line(m, src), Line(m, dest));
      hide Line, Below;
      OnPath(m, src, dest, i, j, tid);
      LineIs(m, src, tid);
      LineIs(m, dest, tid);
    }
    hide Line, Below;
    if sd != dd {
      return true;
    }
    if !sd {
      return false;
    }
    assert src in m && dest in m by {
      KnownBelow(m, src, tid);
      KnownBelow(m, dest, tid);
    }
    ghost var x, y;
    var p, q;
    p, x := ChildToward(m, src, tid);
    q, y := ChildToward(m, dest, tid);
    MeetAt(m, src, dest, x, y, i, j);
    return p != q;
  }

  lemma KnownBelow(m: Chains, c: nat, t: nat)
    requires Tree(m) && Below(m, c, t)
    ensures c in m
  {
  }

  /** The test for any three chain numbers, known or not. */
  ghost predicate Passes(m: Chains, tid: nat, src: nat, dest: nat)
    requires Tree(m)
  {
    tid in m &&
    if src in m && dest in m then tid in Path(m, src, dest)
    else tid == src || tid == dest || Below(m, src, tid) || Below(m, dest, tid)
  }

  // ----- Fees -----

  /** The script paying the miner of a chain: the opcode in byte 21, the chain in the three bytes after it. */
  function FeeScript(chainId: nat): (s: seq<nat>)
    ensures |s| == 25 && forall i :: 0 <= i < 25 ==> s[i] < 256
  {
    [0, 1, 0, 0, 0, 0, 0, 0, 0, 0, 0, 0, 0, 0, 0, 0, 0, 0, 0, 0, 0,
     OP_PAYMINER, chainId % 256, chainId / 256 % 256, chainId / 256 / 256 % 256]
  }

  /** The chain named in bytes 22 to 24 of a script. */
  function ChainOf(s: seq<nat>): nat
    requires |s| >= 25
  {
    (s[21] + 256 * s[22] + 65536 * s[23] + 16777216 * s[24]) / 256
  }

  /** A chain read back from its fee script is the chain modulo 2^24, hence itself exactly below 2^24. */
  lemma FeeScriptRoundTrip(chainId: nat)
    ensures ChainOf(FeeScript(chainId)) == chainId % 0x1000000
    ensures ChainOf(FeeScript(chainId)) == chainId <==> chainId < 0x1000000
  {
    var q := chainId / 256;
    var r := q / 256;
    var b0, b1, b2, b3 := chainId % 256, q % 256, r % 256, r / 256;
    var s := FeeScript(chainId);
    assert s[21] == OP_PAYMINER && s[22] == b0 && s[23] == b1 && s[24] == b2;
    hide FeeScript;
    var low := b0 + 256 * b1 + 65536 * b2;
    assert ChainOf(s) == low by {
      assert s[21] + 256 * s[22] + 65536 * s[23] + 16777216 * s[24] == OP_PAYMINER + 256 * low;
    }
    hide ChainOf;
    Remainder(chainId, low, b3);
  }

  /** A fee script byte by byte. */
  lemma FeeScriptBytes(chainId: nat, i: nat)
    requires i < 25
    ensures |FeeScript(chainId)| == 25
    ensures FeeScript(chainId)[i] ==
            if i == 1 then 1 else if i == 21 then 0x44 else if i == 22 then chainId % 256
            else if i == 23 then chainId / 256 % 256 else if i == 24 then chainId / 256 / 256 % 256 else 0
  {
  }

  lemma Remainder(n: nat, low: nat, high: nat)
    requires n == low + 0x1000000 * high && low < 0x1000000
    ensures n % 0x1000000 == low && (n == low <==> n < 0x1000000)
  {
  }

  /** The chains of a path that take fees. */
  ghost function Payable(m: Chains, p: seq<nat>): (r: seq<nat>)
    requires forall i :: 0 <= i < |p| ==> p[i] in m
  {
    if p == [] then []
    else var r := Payable(m, p[..|p| - 1]); if m[p[|p| - 1]].legacy then r else r + [p[|p| - 1]]
  }

  method LineToRoot(m: Chains, c: nat) returns (line: seq<nat>)
    requires Tree(m) && c in m
    ensures line == Line(m, c)
  {
    line := [c];
    var d := m[c];
    ghost var full := Line(m, c);
    assert full[..1] == [c];
    hide Line, Tree;
    while d.parent != 0
      invariant 1 <= |line| <= |full| && line == full[..|line|]
      invariant full[|line| - 1] in m && d == m[full[|line| - 1]]
      decreases |full| - |line|
    {
      LineStep(m, c, |line| - 1);
      line := line + [d.parent];
      d := m[d.parent];
    }
    LineStep(m, c, |line| - 1);
  }

  /** Cuts the two lines where they meet: src keeps the meeting point, dest does not. */
  method CutAtMeeting(la: seq<nat>, lb: seq<nat>) returns (srctoroot: seq<nat>, desttoroot: seq<nat>)
    requires la != [] && lb != [] && la[|la| - 1] == lb[|lb| - 1]
    ensures srctoroot != [] && Meets(la, lb, |srctoroot| - 1, |desttoroot|)
    ensures srctoroot == la[..|srctoroot|] && desttoroot == lb[..|desttoroot|]
  {
    srctoroot, desttoroot := la, lb;
    var trm := false;
    var i, j := |srctoroot|, |desttoroot|;
    while i > 0 && j > 0
      invariant 0 <= i <= |la| && 0 <= j <= |lb| && |la| - i == |lb| - j
      invariant |srctoroot| <= |la| && srctoroot == la[..|srctoroot|]
      invariant |desttoroot| <= |lb| && desttoroot == lb[..|desttoroot|]
      invariant !trm ==> i == |la| == |srctoroot| && j == |lb| == |desttoroot|
      invariant trm ==> i == |srctoroot| - 1 && j == |desttoroot| - 1 && la[i] == lb[j]
      decreases i
    {
      var nt := srctoroot[i - 1] == desttoroot[j - 1];
      if trm && nt {
        srctoroot := srctoroot[..|srctoroot| - 1];
        desttoroot := desttoroot[..|desttoroot| - 1];
      }
      if trm && !nt {
        break;
      }
      trm := nt;
      i := i - 1;
      j := j - 1;
    }
    if trm {
      desttoroot := desttoroot[..|desttoroot| - 1];
    }
  }

  /** The path itself, put together from the two lines. */
  method JoinLines(m: Chains, t: nat, dest: nat) returns (path: seq<nat>)
    requires Tree(m) && t in m && dest in m
    ensures path == Path(m, t, dest)
  {
    hide Line, Path, Tree, Meets;
    path := LineToRoot(m, t);
    var desttoroot := LineToRoot(m, dest);
    path, desttoroot := CutAtMeeting(path, desttoroot);
    ghost var up := path;
    PathVia(m, t, dest, |path| - 1, |desttoroot|);
    var k := |desttoroot| - 1;
    while k >= 0
      invariant -1 <= k < |desttoroot|
      invariant path == up + Reversed(desttoroot)[..|desttoroot| - 1 - k]
    {
      path := path + [desttoroot[k]];
      k := k - 1;
    }
  }

  /** The fee scripts and amounts for a transfer from t to dest: one for each chain of the path that takes
      fees, in the order of the path; none if dest is unknown. */
  method CtxFees(m: Chains, t: nat, dest: nat) returns (path: seq<seq<nat>>, fees: seq<int>)
    requires Tree(m) && t in m
    ensures |path| == |fees|
    ensures dest !in m ==> path == []
    ensures dest in m ==> |path| == |Payable(m, Path(m, t, dest))|
    ensures dest in m ==> forall k :: 0 <= k < |path| ==> path[k] == FeeScript(Payable(m, Path(m, t, dest))[k])
    ensures forall k :: 0 <= k < |fees| ==> fees[k] == FEE_PER_CHAIN
  {
    hide FeeScript, Tree;
    path, fees := [], [];
    if dest !in m {
      return;
    }
    var p := JoinLines(m, t, dest);
    for n := 0 to |p|
      invariant |path| == |fees| == |Payable(m, p[..n])|
      invariant forall k :: 0 <= k < |path| ==> path[k] == FeeScript(Payable(m, p[..n])[k])
      invariant forall k :: 0 <= k < |fees| ==> fees[k] == FEE_PER_CHAIN
    {
      assert p[..n + 1][..n] == p[..n];
      if m[p[n]].legacy {
        continue;
      }
      path, fees := path + [FeeScript(p[n])], fees + [FEE_PER_CHAIN];
    }
    assert p[..|p|] == p;
  }

  /** The chains charged come in the order of the path, and each is charged or not by itself. */
  lemma {:induction false} PayableInOrder(m: Chains, p: seq<nat>, q: seq<nat>)
    requires forall i :: 0 <= i < |p| ==> p[i] in m
    requires forall i :: 0 <= i < |q| ==> q[i] in m
    ensures Payable(m, p + q) == Payable(m, p) + Payable(m, q)
    ensures |p| == 1 ==> Payable(m, p) == if m[p[0]].legacy then [] else p
  {
    if |p| == 1 {
      assert p[..0] == [];
    }
    if q == [] {
      assert p + q == p;
    } else {
      var n := |q| - 1;
      PayableInOrder(m, p, q[..n]);
      assert (p + q)[..|p + q| - 1] == p + q[..n];
    }
  }

  /** A chain pays or is skipped once: the chains charged are the path's chains that are not legacy, each once. */
  lemma {:induction false} PayableExactly(m: Chains, p: seq<nat>, c: nat)
    requires forall i :: 0 <= i < |p| ==> p[i] in m
    requires forall i, j :: 0 <= i < j < |p| ==> p[i] != p[j]
    ensures multiset(Payable(m, p))[c] == if c in p && !m[c].legacy then 1 else 0
  {
    if p != [] {
      var n := |p| - 1;
      PayableExactly(m, p[..n], c);
      assert p == p[..n] + [p[n]];
      assert c == p[n] ==> c !in p[..n];
    }
  }

  // ----- Changing the map of chains -----

  lemma AddedRanks(m: Chains, d: Descriptor, rank: nat -> nat) returns (rank': nat -> nat)
    requires Ranked(m, rank) && d.parent != d.chainId
    requires forall c :: c in m ==> m[c].parent != d.chainId
    ensures Ranked(m[d.chainId := d], rank')
  {
    rank' := (c: nat) => if c == d.chainId then rank(d.parent) + 1 else rank(c);
  }

  lemma UnknownParent(m: Chains, c: nat)
    requires Tree(m) && c in m && m[c].parent != 0
    ensures m[c].parent in m && m[c].parent != c
  {
    assert Ranked(m, Ranking(m));
  }

  lemma NoChildren(m: Chains, id: nat)
    requires Tree(m) && id !in m && id != 0
    ensures forall c :: c in m ==> m[c].parent != id
  {
  }

  lemma AddedIsWired(m: Chains, d: Descriptor)
    requires Wired(m) && d.chainId != 0 && (d.parent == 0 <==> d.chainId == ROOT)
    requires d.parent == 0 || d.parent in m
    ensures Wired(m[d.chainId := d])
  {
  }

  lemma NoZero(m: Chains)
    requires Tree(m)
    ensures 0 !in m
  {
    forall c | c in m ensures c != 0 {
      assert m[c].chainId == c;
    }
  }

  lemma AddedIsTree(m: Chains, d: Descriptor)
    requires Tree(m) && d.chainId !in m && (d.parent == 0 <==> d.chainId == ROOT)
    ensures Tree(m[d.chainId := d]) <==> d.chainId != 0 && (d.parent == 0 || d.parent in m)
  {
    hide Wired, Ranked;
    if d.chainId == 0 {
      if Tree(m[d.chainId := d]) {
        NoZero(m[d.chainId := d]);
      }
    } else if d.parent == 0 || d.parent in m {
      NoChildren(m, d.chainId);
      AddedIsWired(m, d);
      var rank := AddedRanks(m, d, Ranking(m));
    } else if Tree(m[d.chainId := d]) {
      UnknownParent(m[d.chainId := d], d.chainId);
    }
  }

  lemma RemovedIsWired(m: Chains, c: nat)
    requires Wired(m) && c in m && c != 0
    ensures Wired(m - {c}) <==> forall x :: x in m && x != c ==> m[x].parent != c
  {
    var m' := m - {c};
    if Wired(m') {
      forall x | x in m && x != c ensures m[x].parent != c {
        assert m'[x] == m[x];
      }
    }
  }

  lemma RemovedIsTree(m: Chains, c: nat)
    requires Tree(m) && c in m && c != 0
    ensures Tree(m - {c}) <==> forall x :: x in m && x != c ==> m[x].parent != c
  {
    hide Wired;
    RemovedIsWired(m, c);
    assert Ranked(m - {c}, Ranking(m));
  }

  /** The map that holds the root only. */
  function RootOnly(): Chains { map[ROOT := Descriptor(ROOT, 0, false)] }

  lemma RootIsTree()
    ensures Tree(RootOnly())
  {
    assert Ranked(RootOnly(), (c: nat) => c);
  }

  /** Chain 2 with the unknown parent 7, and chain 0 under the root, are added and leave no tree. */
  lemma AddExamples()
    ensures Tree(RootOnly())
    ensures !Tree(RootOnly()[2 := Descriptor(2, 7, false)])
    ensures !Tree(RootOnly()[0 := Descriptor(0, ROOT, false)])
  {
    RootIsTree();
    AddedIsTree(RootOnly(), Descriptor(2, 7, false));
    AddedIsTree(RootOnly(), Descriptor(0, ROOT, false));
  }

  /** Chain 2 is removed from under its child 3. */
  lemma RemoveExample()
    ensures var m := RootOnly()[2 := Descriptor(2, ROOT, false)][3 := Descriptor(3, 2, false)]; Tree(m) && !Tree(m - {2})
  {
    var m2 := RootOnly()[2 := Descriptor(2, ROOT, false)];
    var m := m2[3 := Descriptor(3, 2, false)];
    assert m[3].parent == 2;
    hide Tree;
    RootIsTree();
    AddedIsTree(RootOnly(), Descriptor(2, ROOT, false));
    AddedIsTree(m2, Descriptor(3, 2, false));
    RemovedIsTree(m, 2);
  }

  class FOCMap {
    var chains: Chains

    constructor (m: Chains)
      ensures chains == m
    {
      chains := m;
    }

    /** Adds a chain that is new and clashes with no known one. A tree stays one exactly when the added chain
        does not go by 0 and its parent is known. */
    method AddChain(d: Descriptor, clashes: (Descriptor, Descriptor) -> bool) returns (ok: bool)
      requires Tree(chains)
      modifies this
      ensures ok <==> (d.parent == 0 <==> d.chainId == ROOT) && d.chainId !in old(chains) &&
                      forall c :: c in old(chains) ==> !clashes(old(chains)[c], d)
      ensures chains == if ok then old(chains)[d.chainId := d] else old(chains)
      ensures Tree(chains) <==> !ok || (d.chainId != 0 && (d.parent == 0 || d.parent in old(chains)))
    {
      if d.chainId != ROOT && d.parent == 0 {
        return false;
      }
      if d.chainId == ROOT && d.parent != 0 {
        return false;
      }
      if d.chainId in chains {
        return false;
      }
      if c :| c in chains && clashes(chains[c], d) {
        return false;
      }
      AddedIsTree(chains, d);
      chains := chains[d.chainId := d];
      return true;
    }

    /** Removes a chain other than the root. A tree stays one exactly when the chain has no children. */
    method RemoveChain(c: nat)
      requires Tree(chains)
      modifies this
      ensures chains == if c == ROOT then old(chains) else old(chains) - {c}
      ensures Tree(chains) <==> c == ROOT || c !in old(chains) ||
                                forall x :: x in old(chains) && x != c ==> old(chains)[x].parent != c
    {
      if c !in chains {
        assert chains - {c} == chains;
        return;
      }
      if c == ROOT {
        return;
      }
      assert chains[c].chainId == c != 0;
      RemovedIsTree(chains, c);
      chains := chains - {c};
    }
  }
}

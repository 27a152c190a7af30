/** Rearranging sequences and adding up over them. */
module Sequences {

  lemma Cancel<T>(m: multiset<T>, n: multiset<T>, x: T)
    requires m + multiset{x} == n + multiset{x}
    ensures m == n
  {
    assert m == (m + multiset{x}) - multiset{x};
    assert n == (n + multiset{x}) - multiset{x};
  }

  lemma MultisetSplit<T>(a: seq<T>, x: T, b: seq<T>)
    ensures multiset(a + [x] + b) == multiset(a + b) + multiset{x}
  {
    assert multiset(a + [x] + b) == multiset(a) + multiset([x]) + multiset(b);
    assert multiset(a + b) == multiset(a) + multiset(b);
  }

  lemma SplitAt<T>(r: seq<T>, k: nat)
    requires k < |r|
    ensures r == r[..k] + ([r[k]] + r[k + 1..])
    ensures multiset(r) == multiset(r[..k] + r[k + 1..]) + multiset{r[k]}
  {
    assert r == r[..k] + [r[k]] + r[k + 1..];
    MultisetSplit(r[..k], r[k], r[k + 1..]);
  }

  lemma FindIn<T>(r: seq<T>, x: T) returns (k: nat)
    requires x in multiset(r)
    ensures k < |r| && r[k] == x
  {
    k :| k < |r| && r[k] == x;
  }

  /** Where the last element of a sequence stands in a rearrangement of it. */
  lemma LastElsewhere<T>(s: seq<T>, r: seq<T>) returns (a: seq<T>, b: seq<T>)
    requires multiset(s) == multiset(r) && s != []
    ensures r == a + ([s[|s| - 1]] + b)
    ensures multiset(s[..|s| - 1]) == multiset(a + b)
  {
    var n := |s| - 1;
    SplitAt(s, n);
    assert s[..n] + s[n + 1..] == s[..n];
    var k := FindIn(r, s[n]);
    SplitAt(r, k);
    a, b := r[..k], r[k + 1..];
    Cancel(multiset(s[..n]), multiset(a + b), s[n]);
  }

  ghost function Sum<T>(s: seq<T>, f: T -> int): int {
    if s == [] then 0 else Sum(s[..|s| - 1], f) + f(s[|s| - 1])
  }

  lemma {:induction false} SumConcat<T>(s: seq<T>, t: seq<T>, f: T -> int)
    ensures Sum(s + t, f) == Sum(s, f) + Sum(t, f)
  {
    if t == [] {
      assert s + t == s;
    } else {
      SumConcat(s, t[..|t| - 1], f);
      assert (s + t)[..|s + t| - 1] == s + t[..|t| - 1];
    }
  }

  lemma SumOne<T>(x: T, f: T -> int)
    ensures Sum([x], f) == f(x)
  {
    assert [x][..0] == [];
  }

  /** A sum does not depend on the order. */
  lemma {:induction false} SumIsPermutable<T>(s: seq<T>, r: seq<T>, f: T -> int)
    requires multiset(s) == multiset(r)
    ensures Sum(s, f) == Sum(r, f)
    decreases |s|
  {
    if s == [] {
      assert |multiset(r)| == 0;
    } else {
      var a, b := LastElsewhere(s, r);
      var x := s[|s| - 1];
      SumIsPermutable(s[..|s| - 1], a + b, f);
      SumConcat(a, [x] + b, f);
      SumConcat([x], b, f);
      SumConcat(a, b, f);
      SumOne(x, f);
    }
  }

  lemma SameElements<T>(s: seq<T>, r: seq<T>)
    requires multiset(s) == multiset(r)
    ensures forall x :: x in s <==> x in r
  {
    forall x ensures x in s <==> x in r {
      assert x in s <==> x in multiset(s);
      assert x in r <==> x in multiset(r);
    }
  }
}

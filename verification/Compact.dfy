/** The compact form of difficulty targets: a base-256 floating point number in 32 bits with
    an eight-bit exponent, a sign bit and a 23-bit mantissa. */
module Compact {

  const TWO_15 := 0x8000
  const TWO_23 := 0x80_0000
  const TWO_24 := 0x100_0000
  const TWO_32 := 0x1_0000_0000

  type uint32 = x: int | 0 <= x < 0x1_0000_0000

  /** 256 to the k. */
  function P(k: nat): (p: nat)
    ensures p > 0
  {
    if k == 0 then 1 else 256 * P(k - 1)
  }

  function Abs(n: int): nat { if n < 0 then -n else n }

  function MantissaOf(c: uint32): nat { c % TWO_23 }

  predicate NegativeBit(c: uint32) { c / TWO_23 % 2 == 1 }

  function ExponentOf(c: uint32): nat { c / TWO_24 }

  /** The magnitude of a mantissa and exponent. */
  function Magnitude(m: nat, e: nat): int {
    if e <= 3 then m / P(3 - e) else m * P(e - 3)
  }

  function CompactToBig(c: uint32): int {
    var a: int := Magnitude(MantissaOf(c), ExponentOf(c));
    if NegativeBit(c) then -a else a
  }

  /** The length of the big-endian byte string of n. */
  function ByteLen(n: nat): nat {
    if n == 0 then 0 else 1 + ByteLen(n / 256)
  }

  /** The three leading bytes as the code takes them: shifted left, or shifted right with the
      arithmetic shift, which rounds down, before the magnitude is taken. */
  function LeadingBytes(n: int): nat {
    var len := ByteLen(Abs(n));
    if len <= 3 then Abs(n) * P(3 - len) else Abs(n / P(len - 3))
  }

  /** Bitwise or of a multiple of 2^24 with a number up to 2^24. */
  function OrHigh(x: uint32, m: nat): uint32
    requires x % TWO_24 == 0 && m <= TWO_24
  {
    if m < TWO_24 then x + m
    else if x / TWO_24 % 2 == 1 then x else x + TWO_24
  }

  function OrSign(c: uint32): uint32 {
    if NegativeBit(c) then c else c + TWO_23
  }

  /** The mantissa and exponent before packing. */
  function Normal(n: int): (nat, nat) {
    var m, len := LeadingBytes(n), ByteLen(Abs(n));
    if TWO_23 <= m < TWO_24 then (m / 256, len + 1) else (m, len)
  }

  function BigToCompact(n: int): uint32 {
    if n == 0 then 0
    else
      PackingFits(n);
      var (m, e) := Normal(n);
      var c := OrHigh(e * TWO_24 % TWO_32, m);
      if n < 0 then OrSign(c) else c
  }

  function CalcWork(bits: uint32): nat {
    var d := CompactToBig(bits);
    if d <= 0 then 0 else P(32) / (d + 1)
  }

  // --------------------------------------------------------- lemmas: powers

  lemma {:induction false} PAdd(a: nat, b: nat)
    ensures P(a + b) == P(a) * P(b)
  {
    if a > 0 {
      PAdd(a - 1, b);
      assert P(a) * P(b) == 256 * (P(a - 1) * P(b));
    }
  }

  lemma PMono(a: nat, b: nat)
    requires a <= b
    ensures P(a) <= P(b)
  {
    PAdd(a, b - a);
    assert P(a) * P(b - a) >= P(a);
  }

  lemma {:induction false} ByteLenBounds(n: nat)
    requires n > 0
    ensures ByteLen(n) > 0 && P(ByteLen(n) - 1) <= n < P(ByteLen(n))
  {
    if n / 256 > 0 {
      ByteLenBounds(n / 256);
    }
  }

  /** The length is determined by the bounds. */
  lemma ByteLenIs(n: nat, len: nat)
    requires len > 0 && P(len - 1) <= n < P(len)
    ensures ByteLen(n) == len
  {
    ByteLenBounds(n);
    if ByteLen(n) < len {
      PMono(ByteLen(n), len - 1);
    } else if ByteLen(n) > len {
      PMono(len, ByteLen(n) - 1);
    }
  }

  lemma PValues()
    ensures P(0) == 1 && P(1) == 256 && P(2) == 65536 && P(3) == TWO_24
  {
    assert P(1) == 256 * P(0);
    assert P(2) == 256 * P(1);
    assert P(3) == 256 * P(2);
  }

  lemma MulMono(a: int, b: int, d: nat)
    requires a <= b
    ensures a * d <= b * d
  {
  }

  lemma MulStep(a: int, d: int)
    ensures (a + 1) * d == a * d + d
  {
  }

  lemma MulMonoLeft(d: nat, a: int, b: int)
    requires a <= b
    ensures d * a <= d * b
  {
  }

  lemma DivAtMost(m: nat, d: nat)
    requires d > 0
    ensures 0 <= m / d <= m
  {
    DivBracket(m, d);
    MulMonoLeft(m / d, 1, d);
  }

  lemma MulAssoc(a: int, b: int, c: int)
    ensures a * b * c == a * (b * c)
  {
  }

  lemma DivBounds(n: nat, d: nat, lo: nat, hi: nat)
    requires d > 0 && lo * d <= n < hi * d
    ensures lo <= n / d < hi
  {
    var q := n / d;
    assert n == q * d + n % d;
    if q < lo {
      MulMono(q + 1, lo, d);
    }
    if q >= hi {
      MulMono(hi, q, d);
    }
  }

  /** The leading bytes of a nonnegative number fill three bytes. */
  lemma LeadingOfPositive(n: nat)
    requires n > 0
    ensures 65536 <= LeadingBytes(n) < TWO_24
  {
    var len := ByteLen(n);
    ByteLenBounds(n);
    PValues();
    if len <= 3 {
      PAdd(len - 1, 3 - len);
      PAdd(len, 3 - len);
      var s := P(3 - len);
      assert P(len - 1) * s <= n * s < P(len) * s;
    } else {
      PAdd(2, len - 3);
      PAdd(3, len - 3);
      DivBounds(n, P(len - 3), 65536, TWO_24);
    }
  }

  /** Rounding the other way can carry, up to 2^24 inclusive. */
  lemma LeadingBound(n: int)
    requires n != 0
    ensures 65536 <= LeadingBytes(n) <= TWO_24
  {
    if n > 0 {
      LeadingOfPositive(n);
    } else {
      LeadingOfPositive(-n);
      var len := ByteLen(-n);
      if len > 3 {
        FloorOfNegative(-n, P(len - 3));
      }
    }
  }

  /** Floor division of a negative number rounds the magnitude up. */
  lemma FloorOfNegative(a: int, d: int)
    requires a >= 0 && d > 0
    ensures Abs(-a / d) == if a % d == 0 then a / d else a / d + 1
  {
    var q: int, r: int := a / d, a % d;
    assert a == q * d + r;
    if r == 0 {
      DivIs(-a, d, -q, 0);
    } else {
      DivIs(-a, d, -q - 1, d - r);
    }
  }

  lemma DivIs(n: int, d: int, q: int, r: int)
    requires d > 0 && n == q * d + r && 0 <= r < d
    ensures n / d == q && n % d == r
  {
    var q', r' := n / d, n % d;
    assert n == q' * d + r' && 0 <= r' < d;
    if q' < q {
      MulMono(q' + 1, q, d);
    } else if q' > q {
      MulMono(q + 1, q', d);
    }
  }

  // ------------------------------------------------- lemmas: the normal form

  /** m and e describe n: n lies in the unit interval of m at exponent e, or is scaled to m exactly. */
  ghost predicate Bracket(n: int, m: int, e: nat) {
    if e >= 3 then m * P(e - 3) <= n < (m + 1) * P(e - 3) else n * P(3 - e) == m
  }

  lemma DivBracket(n: nat, d: nat)
    requires d > 0
    ensures n / d >= 0 && n / d * d <= n < (n / d + 1) * d
  {
    assert n == n / d * d + n % d;
  }

  lemma LeadingOfShort(n: nat)
    requires ByteLen(n) <= 3
    ensures LeadingBytes(n) == n * P(3 - ByteLen(n))
  {
    hide P, ByteLen;
  }

  lemma LeadingOfLong(n: nat)
    requires ByteLen(n) > 3
    ensures LeadingBytes(n) == n / P(ByteLen(n) - 3)
  {
    hide P, ByteLen;
    DivBracket(n, P(ByteLen(n) - 3));
  }

  lemma LeadingBracket(n: nat)
    requires n > 0
    ensures Bracket(n, LeadingBytes(n), ByteLen(n))
  {
    PValues();
    hide P, ByteLen, LeadingBytes;
    if ByteLen(n) > 3 {
      LeadingOfLong(n);
      DivBracket(n, P(ByteLen(n) - 3));
    } else {
      LeadingOfShort(n);
    }
  }

  /** Giving up the lowest byte of the mantissa. */
  lemma BracketShift(n: nat, m: nat, e: nat)
    requires e >= 1 && Bracket(n, m, e)
    ensures Bracket(n, m / 256, e + 1)
  {
    hide Magnitude;
    PValues();
    var q, r := m / 256, m % 256;
    assert m == 256 * q + r;
    if e >= 3 {
      var u := P(e - 3);
      assert P(e + 1 - 3) == 256 * u;
      hide P;
      MulMono(256 * q, m, u);
      MulMono(m + 1, 256 * (q + 1), u);
      MulAssoc(q, 256, u);
      MulAssoc(q + 1, 256, u);
    } else if e == 2 {
      assert m == n * 256;
    } else {
      assert m == n * 65536;
    }
  }

  /** The normal form of a positive number: a mantissa with its leading bits in place that
      brackets the number. */
  lemma NormalForm(n: nat)
    requires n > 0
    ensures var (m, e) := Normal(n); TWO_15 <= m < TWO_23 && e >= 1 && Bracket(n, m, e)
  {
    LeadingOfPositive(n);
    LeadingBracket(n);
    ByteLenBounds(n);
    var m := LeadingBytes(n);
    if m >= TWO_23 {
      BracketShift(n, m, ByteLen(n));
    }
  }

  lemma Unpack(e: nat, m: nat)
    requires e < 256 && m < TWO_23
    ensures e * TWO_24 + m < TWO_32 - TWO_23
    ensures var c := e * TWO_24 + m; MantissaOf(c) == m && ExponentOf(c) == e && !NegativeBit(c)
    ensures var c := e * TWO_24 + TWO_23 + m; MantissaOf(c) == m && ExponentOf(c) == e && NegativeBit(c)
  {
  }

  /** The eight high bits are the exponent, the next one the sign and the rest the mantissa; the exponent counts the
      bytes of the number, of which the mantissa holds the leading three. */
  lemma CompactMeans(e: nat, m: nat)
    requires e < 256 && m < 0x80_0000
    ensures var a := if e >= 3 then m * P(e - 3) else m / P(3 - e);
            && CompactToBig(e * 0x100_0000 + m) == a
            && CompactToBig(e * 0x100_0000 + 0x80_0000 + m) == -a
  {
    Unpack(e, m);
    PValues();
  }

  lemma WrapExponent(e: nat)
    ensures e * TWO_24 % TWO_32 == e % 256 * TWO_24
  {
    var q, r := e / 256, e % 256;
    assert e * TWO_24 == q * TWO_32 + r * TWO_24;
    DivIs(e * TWO_24, TWO_32, q, r * TWO_24);
  }

  /** The exponent is shifted out of the way of the mantissa. */
  lemma PackingFits(n: int)
    requires n != 0
    ensures var (m, e) := Normal(n);
            m <= TWO_24 && 0 <= e * TWO_24 % TWO_32 < TWO_32 && e * TWO_24 % TWO_32 % TWO_24 == 0
  {
    LeadingBound(n);
    hide LeadingBytes, ByteLen;
    var e := Normal(n).1;
    WrapExponent(e);
    DivIs(e % 256 * TWO_24, TWO_24, e % 256, 0);
  }

  /** A positive number is packed as its normal form, the exponent cut to eight bits. */
  lemma Packed(n: nat)
    requires n > 0
    ensures var (m, e) := Normal(n);
            && BigToCompact(n) == e % 256 * TWO_24 + m
            && CompactToBig(BigToCompact(n)) == Magnitude(m, e % 256)
  {
    NormalForm(n);
    var (m, e) := Normal(n);
    WrapExponent(e);
    Unpack(e % 256, m);
  }

  // ------------------------------------------------------ rounding a target

  /** The numbers that the eight-bit exponent can hold: those below 2^23 * 256^252. */
  function Limit(): nat { TWO_23 * Unit() }

  /** The unit of the largest exponent. */
  function Unit(): (u: nat)
    ensures u > 0
  {
    P(252)
  }

  lemma Top() returns (t: nat)
    ensures t == 252 && Unit() == P(t)
  {
    t := 252;
  }

  lemma FitsIff(n: nat)
    requires n > 0
    ensures Normal(n).1 <= 255 <==> n < Limit()
  {
    hide Normal;
    NormalForm(n);
    var (m, e) := Normal(n);
    if e <= 255 {
      BelowLimit(n, m, e);
    } else {
      AboveLimit(n, m, e);
    }
  }

  lemma BelowLimit(n: nat, m: nat, e: nat)
    requires m < TWO_23 && e <= 255 && Bracket(n, m, e)
    ensures n < Limit()
  {
    hide P, Unit;
    var t := Top();
    if e >= 3 {
      PMono(e - 3, t);
      MulMono(m + 1, TWO_23, P(e - 3));
      MulMono(P(e - 3), P(t), TWO_23);
    } else {
      MulMono(1, P(3 - e), n);
      MulMono(1, P(t), TWO_23);
    }
  }

  lemma AboveLimit(n: nat, m: nat, e: nat)
    requires m >= TWO_15 && e >= 256 && Bracket(n, m, e)
    ensures n >= Limit()
  {
    hide Unit;
    var t := Top();
    assert P(t + 1) == 256 * P(t);
    hide P;
    PMono(t + 1, e - 3);
    MulMono(TWO_15, m, P(e - 3));
    MulMonoLeft(TWO_15, P(t + 1), P(e - 3));
  }

  lemma MagnitudeUnder(n: nat, m: nat, e: nat)
    requires Bracket(n, m, e)
    ensures Magnitude(m, e) <= n
    ensures e >= 3 ==> Magnitude(m, e) == m * P(e - 3)
    ensures e < 3 ==> Magnitude(m, e) == n
  {
    PValues();
    if e < 3 {
      DivIs(m, P(3 - e), n, 0);
    }
  }

  /** The value a compact round trip gives. */
  function Rounded(n: nat): int { CompactToBig(BigToCompact(n)) }

  lemma RoundedIs(n: nat)
    requires 0 < n < Limit()
    ensures var (m, e) := Normal(n);
            Rounded(n) == Magnitude(m, e) && TWO_15 <= m < TWO_23 && 1 <= e <= 255 && Bracket(n, m, e)
  {
    hide P, Normal, Bracket, Magnitude, Limit, CompactToBig, BigToCompact;
    NormalForm(n);
    FitsIff(n);
    Packed(n);
  }

  lemma MagnitudeNonNegative(m: nat, e: nat)
    ensures Magnitude(m, e) >= 0
  {
    hide P;
    if e <= 3 {
      DivAtMost(m, P(3 - e));
    } else {
      MulMonoLeft(m, 0, P(e - 3));
    }
  }

  /** Rounding never exceeds the number, and stays positive as long as the exponent fits. */
  lemma RoundedBelow(n: nat)
    ensures 0 <= Rounded(n) <= n && (0 < n < Limit() ==> Rounded(n) > 0)
  {
    if n == 0 {
      PValues();
      assert Rounded(0) == 0 / P(3);
    } else if n < Limit() {
      hide Limit;
      RoundedIs(n);
      var (m, e) := Normal(n);
      MagnitudeUnder(n, m, e);
      if e >= 3 {
        MulMono(1, m, P(e - 3));
      }
    } else {
      hide P, Normal, Limit, Magnitude, CompactToBig, BigToCompact;
      Overflowed(n);
      Packed(n);
      MagnitudeNonNegative(Normal(n).0, Normal(n).1 % 256);
    }
  }

  /** A compact with a smaller exponent than a normal form is smaller. */
  lemma SmallerExponent(m: nat, e: nat, m': nat, e': nat)
    requires TWO_15 <= m && m' < TWO_23 && e' < e && e >= 3
    ensures Magnitude(m', e') < m * P(e - 3)
  {
    PValues();
    if e' <= 3 {
      assert m' / P(3 - e') <= m';
      if e == 3 {
        assert P(3 - e') >= 256 by { PMono(1, 3 - e'); }
        assert Magnitude(m', e') < TWO_15 by {
          assert TWO_15 * P(3 - e') >= TWO_23;
          DivBounds(m', P(3 - e'), 0, TWO_15);
        }
      } else {
        PMono(1, e - 3);
        assert TWO_15 * 256 <= TWO_15 * P(e - 3);
      }
      MulMono(TWO_15, m, P(e - 3));
      assert TWO_15 <= TWO_15 * P(e - 3);
    } else {
      var u := P(e' - 3);
      PMono(e' - 2, e - 3);
      assert P(e' - 2) == 256 * u;
      assert m' * u < TWO_23 * u;
      assert TWO_23 * u == TWO_15 * P(e' - 2) <= TWO_15 * P(e - 3);
      MulMono(TWO_15, m, P(e - 3));
    }
  }

  /** A compact with an exponent at least as large as a normal form is a multiple of its unit. */
  lemma LargerExponent(e: nat, m': nat, e': nat) returns (k: nat)
    requires 3 <= e <= e'
    ensures Magnitude(m', e') == k * P(e - 3)
  {
    PValues();
    PAdd(e' - e, e - 3);
    k := m' * P(e' - e);
    assert m' * (P(e' - e) * P(e - 3)) == k * P(e - 3);
  }

  /** No nonnegative compact lies strictly between the rounded value and the target: rounding
      finds the best lower approximation there is. */
  lemma RoundedIsBest(n: nat, c: uint32)
    requires n < Limit() && !NegativeBit(c) && CompactToBig(c) <= n
    ensures CompactToBig(c) <= Rounded(n)
  {
    hide P, Normal, Magnitude, Limit, Rounded, ExponentOf;
    RoundedBelow(n);
    if n > 0 {
      RoundedIs(n);
      var (m, e) := Normal(n);
      MagnitudeUnder(n, m, e);
      if e >= 3 {
        var m', e' := MantissaOf(c), ExponentOf(c);
        if e' < e {
          SmallerExponent(m, e, m', e');
        } else {
          var k := LargerExponent(e, m', e');
          if k > m {
            MulMono(m + 1, k, P(e - 3));
          }
          MulMono(k, m, P(e - 3));
        }
      }
    }
  }

  /** Numbers below 2^23 are represented exactly. */
  lemma RoundedExact(n: nat)
    requires n < TWO_23
    ensures Rounded(n) == n
  {
    PValues();
    hide P, Rounded, Unit;
    assert TWO_23 <= Limit();
    if n == 0 {
      RoundedBelow(0);
    } else {
      RoundedIs(n);
      ByteLenBounds(n);
      PValues();
      var (m, e) := Normal(n);
      MagnitudeUnder(n, m, e);
      if ByteLen(n) > 3 {
        PMono(3, ByteLen(n) - 1);
      } else if ByteLen(n) == 3 {
        assert LeadingBytes(n) == n;
      }
    }
  }

  /** The relative error of rounding is below 2^-15 exactly for the numbers that fit. */
  lemma RoundingError(n: nat)
    requires n > 0
    ensures (n - Rounded(n)) * TWO_15 < n <==> n < Limit()
  {
    hide P, Normal, Magnitude, Limit, Rounded;
    if n < Limit() {
      RoundedIs(n);
      var (m, e) := Normal(n);
      MagnitudeUnder(n, m, e);
      if e >= 3 {
        MulMono(TWO_15, m, P(e - 3));
        assert n - Rounded(n) < P(e - 3);
      }
    } else {
      Overflowed(n);
    }
  }

  lemma MagnitudeAtMost(m: nat, e: nat)
    ensures Magnitude(m, e) <= m * P(e)
  {
    if e <= 3 {
      hide P;
      DivAtMost(m, P(3 - e));
      MulMonoLeft(m, 1, P(e));
    } else {
      PMono(e - 3, e);
      hide P;
      MulMonoLeft(m, P(e - 3), P(e));
    }
  }

  lemma Quadrupled(m: nat, a: nat, b: nat, c: nat)
    requires b >= 4 && a * b <= c
    ensures 4 * (m * a) <= m * c
  {
    MulMonoLeft(a, 4, b);
    MulMonoLeft(m, a * 4, c);
    MulAssoc(m, a, 4);
  }

  lemma HugeFactor(m: nat, w: nat, e: nat)
    requires e >= w + 256
    ensures 4 * (m * P(w)) <= m * P(e - 3)
  {
    PValues();
    hide P;
    var t := 253;
    PMono(w + t, e - 3);
    PAdd(w, t);
    PMono(1, t);
    Quadrupled(m, P(w), P(t), P(e - 3));
  }

  /** Past the limit the exponent wraps and the result is smaller by a huge factor. */
  lemma Overflowed(n: nat)
    requires n >= Limit() && n > 0
    ensures 2 * Rounded(n) <= n
  {
    hide P, Normal, Limit, Magnitude, CompactToBig, BigToCompact;
    NormalForm(n);
    FitsIff(n);
    Packed(n);
    var (m, e) := Normal(n);
    MagnitudeAtMost(m, e % 256);
    HugeFactor(m, e % 256, e);
  }


  // ------------------------------------------------------------------- order

  /** Normal forms are ordered like the numbers they bracket: by exponent, then by mantissa. */
  lemma BracketOrder(n: nat, m: nat, e: nat, n': nat, m': nat, e': nat)
    requires TWO_15 <= m < TWO_23 && e >= 1 && Bracket(n, m, e)
    requires TWO_15 <= m' < TWO_23 && e' >= 1 && Bracket(n', m', e')
    requires n <= n'
    ensures e < e' || (e == e' && m <= m')
  {
    if e > e' {
      BracketSeparates(n, m, e, n', m', e');
    } else if e == e' {
      hide P;
      if e >= 3 {
        if m' < m {
          MulMono(m' + 1, m, P(e - 3));
        }
      } else {
        MulMono(n, n', P(3 - e));
      }
    }
  }

  lemma BracketSeparates(n: nat, m: nat, e: nat, n': nat, m': nat, e': nat)
    requires TWO_15 <= m < TWO_23 && Bracket(n, m, e)
    requires TWO_15 <= m' < TWO_23 && e' >= 1 && Bracket(n', m', e')
    requires e > e'
    ensures n > n'
  {
    PValues();
    if e < 3 {
      assert e == 2 && e' == 1;
    } else if e' < 3 {
      PMono(1, 3 - e');
      hide P;
      MulMonoLeft(n', 256, P(3 - e'));
      MulMono(TWO_15, m, P(e - 3));
      MulMonoLeft(TWO_15, 1, P(e - 3));
    } else {
      PMono(e' - 2, e - 3);
      assert P(e' - 2) == 256 * P(e' - 3);
      hide P;
      MulMono(m' + 1, TWO_23, P(e' - 3));
      MulMono(TWO_15, m, P(e - 3));
      MulMonoLeft(TWO_15, P(e' - 2), P(e - 3));
    }
  }

  lemma NormalUnique(n: nat, m: nat, e: nat)
    requires n > 0 && TWO_15 <= m < TWO_23 && e >= 1 && Bracket(n, m, e)
    ensures Normal(n) == (m, e)
  {
    hide Normal, Bracket;
    NormalForm(n);
    var (m', e') := Normal(n);
    BracketOrder(n, m, e, n, m', e');
    BracketOrder(n, m', e', n, m, e);
  }

  /** Packing is monotone: a larger target never gets a smaller compact, compared as integers. */
  lemma PackingMonotone(n: nat, n': nat)
    requires n <= n' < Limit()
    ensures BigToCompact(n) <= BigToCompact(n')
  {
    hide Normal, Bracket, Limit, CompactToBig, BigToCompact, Magnitude;
    if n == 0 {
      ZeroPacks();
    } else {
      RoundedIs(n);
      RoundedIs(n');
      Packed(n);
      Packed(n');
      var (m, e) := Normal(n);
      var (m', e') := Normal(n');
      BracketOrder(n, m, e, n', m', e');
    }
  }

  lemma LimitIsNormal()
    ensures Limit() > 0 && Normal(Limit()) == (TWO_15, 256)
  {
    hide Normal, Unit;
    var t := Top();
    assert P(t + 1) == 256 * P(t);
    hide P;
    var n := Limit();
    assert t + 1 == 256 - 3;
    MulStep(TWO_15, P(t + 1));
    NormalUnique(n, TWO_15, 256);
  }

  /** The first number that does not fit is packed below every positive one that does. */
  lemma PackingDrops(n: nat)
    requires 0 < n < Limit()
    ensures BigToCompact(Limit()) < BigToCompact(n)
  {
    hide Normal, Bracket, Limit, CompactToBig, Magnitude;
    LimitIsNormal();
    Packed(Limit());
    RoundedIs(n);
    Packed(n);
    hide BigToCompact;
  }

  /** Packing is monotone on the numbers below a bound exactly when all of them fit. */
  lemma PackingMonotoneIff(b: nat)
    ensures (forall n: nat, n': nat :: n <= n' < b ==> BigToCompact(n) <= BigToCompact(n')) <==> b <= Limit()
  {
    hide BigToCompact, Unit;
    if b <= Limit() {
      forall n: nat, n': nat | n <= n' < b ensures BigToCompact(n) <= BigToCompact(n') {
        PackingMonotone(n, n');
      }
    } else {
      PackingDrops(1);
      assert 1 <= Limit() < b;
    }
  }

  // ------------------------------------------------------------- round trips

  /** The compacts that are the packed form of some number. */
  predicate Canonical(c: uint32) {
    var m, e := MantissaOf(c), ExponentOf(c);
    m >= TWO_15 && e >= 1 && (e < 3 ==> m % P(3 - e) == 0)
  }

  function Pack(negative: bool, e: nat, m: nat): int {
    e * TWO_24 + (if negative then TWO_23 else 0) + m
  }

  lemma PackOf(c: uint32)
    ensures c == Pack(NegativeBit(c), ExponentOf(c), MantissaOf(c))
    ensures ExponentOf(c) < 256 && MantissaOf(c) < TWO_23
  {
  }

  /** A negative number whose dropped bytes are zero is treated like its magnitude. */
  lemma NormalOfNegative(a: int)
    requires a > 0 && (ByteLen(a) > 3 ==> a % P(ByteLen(a) - 3) == 0)
    ensures Normal(-a) == Normal(a)
  {
    hide P, ByteLen;
    var len := ByteLen(a);
    if len > 3 {
      FloorOfNegative(a, P(len - 3));
      DivBracket(a, P(len - 3));
    }
  }

  lemma PackedSigned(a: int)
    requires 0 < a < Limit() && (ByteLen(a) > 3 ==> a % P(ByteLen(a) - 3) == 0)
    ensures var (m, e) := Normal(a);
            BigToCompact(a) == Pack(false, e, m) && BigToCompact(-a) == Pack(true, e, m)
  {
    hide P, Limit, ByteLen, CompactToBig;
    RoundedIs(a);
    Packed(a);
    NormalOfNegative(a);
    var (m, e) := Normal(a);
    WrapExponent(e);
    Unpack(e, m);
    hide Normal, LeadingBytes;
  }

  lemma MultipleOf(m: nat, a: nat, b: nat)
    requires a >= b
    ensures m * P(a) % P(b) == 0
  {
    PAdd(a - b, b);
    hide P;
    MulAssoc(m, P(a - b), P(b));
    DivIs(m * P(a), P(b), m * P(a - b), 0);
  }

  /** The magnitude of any compact fits, and its low bytes are zero. */
  lemma MagnitudeFits(m: nat, e: nat)
    requires m < TWO_23 && e < 256
    ensures var a := Magnitude(m, e);
            0 <= a < Limit() && (a > 0 && ByteLen(a) > 3 ==> a % P(ByteLen(a) - 3) == 0)
  {
    hide Unit;
    if e <= 3 {
      ShortMagnitude(m, e);
    } else {
      MagnitudeBound(m, e);
      LongMagnitude(m, e);
    }
  }

  lemma ShortMagnitude(m: nat, e: nat)
    requires m < TWO_23 && e <= 3
    ensures 0 <= Magnitude(m, e) < Limit() && (Magnitude(m, e) > 0 ==> ByteLen(Magnitude(m, e)) <= 3)
  {
    var a := Magnitude(m, e);
    PValues();
    hide Unit, P;
    DivAtMost(m, P(3 - e));
    MulMonoLeft(TWO_23, 1, Unit());
    if a > 0 {
      ByteLenBounds(a);
      if ByteLen(a) > 3 {
        PMono(3, ByteLen(a) - 1);
      }
    }
  }

  lemma LongMagnitude(m: nat, e: nat)
    requires 3 < e && 0 <= m * P(e - 3) < P(e)
    ensures var a := m * P(e - 3); a > 0 && ByteLen(a) > 3 ==> a % P(ByteLen(a) - 3) == 0
  {
    hide P;
    var a := m * P(e - 3);
    if a > 0 && ByteLen(a) > 3 {
      ByteLenBounds(a);
      if ByteLen(a) > e {
        PMono(e, ByteLen(a) - 1);
      }
      MultipleOf(m, e - 3, ByteLen(a) - 3);
    }
  }

  lemma MagnitudeBound(m: nat, e: nat)
    requires m < TWO_23 && 3 < e < 256
    ensures 0 <= m * P(e - 3) < Limit() && m * P(e - 3) < P(e)
  {
    PValues();
    hide P, Unit;
    var t := Top();
    PMono(e - 3, t);
    PAdd(3, e - 3);
    BelowProduct(m, P(e - 3), P(t), P(e));
  }

  lemma BelowProduct(m: nat, u: nat, v: nat, w: nat)
    requires m < TWO_23 && 0 < u <= v && w == TWO_24 * u
    ensures 0 <= m * u < TWO_23 * v && m * u < w
  {
    MulStep(m, u);
    MulMono(m + 1, TWO_23, u);
    MulMonoLeft(TWO_23, u, v);
  }

  lemma CanonicalBracket(m: nat, e: nat)
    requires m >= TWO_15 && e >= 1 && (e < 3 ==> m % P(3 - e) == 0)
    ensures Magnitude(m, e) > 0 && Bracket(Magnitude(m, e), m, e)
  {
    PValues();
    if e >= 3 {
      hide P;
      MulMonoLeft(m, 1, P(e - 3));
    } else if e == 2 {
      assert m == m / 256 * 256;
    } else {
      assert m == m / 65536 * 65536;
    }
  }

  /** Unpacking and packing again gives the same 32 bits exactly for zero and the canonical
      compacts, of either sign. */
  lemma UnpackPackIff(c: uint32)
    ensures BigToCompact(CompactToBig(c)) == c <==> c == 0 || Canonical(c)
  {
    hide P, Normal, Bracket, Magnitude, Limit, ByteLen, BigToCompact;
    var m, e := MantissaOf(c), ExponentOf(c);
    var a := Magnitude(m, e);
    PackOf(c);
    MagnitudeFits(m, e);
    ZeroPacks();
    if a == 0 {
      if Canonical(c) {
        CanonicalBracket(m, e);
      }
    } else {
      PackedSigned(a);
      RoundedIs(a);
      var (m', e') := Normal(a);
      if Canonical(c) {
        CanonicalBracket(m, e);
        NormalUnique(a, m, e);
      } else if BigToCompact(CompactToBig(c)) == c {
        PackInjective(NegativeBit(c), e', m', e, m);
        NormalIsCanonical(a, m, e);
      }
    }
  }

  lemma ZeroPacks()
    ensures BigToCompact(0) == 0 && MantissaOf(0) == 0 && CompactToBig(0) == 0
  {
    PValues();
  }

  lemma PackInjective(s: bool, e: nat, m: nat, e': nat, m': nat)
    requires m < TWO_23 && m' < TWO_23 && Pack(s, e, m) == Pack(s, e', m')
    ensures e == e' && m == m'
  {
  }

  lemma NormalIsCanonical(n: nat, m: nat, e: nat)
    requires Bracket(n, m, e) && e >= 1
    ensures e < 3 ==> m % P(3 - e) == 0
  {
    hide P;
    if e < 3 {
      DivIs(m, P(3 - e), n, 0);
    }
  }

  // -------------------------------------------------------------------- work

  /** The work of a target. */
  function Work(t: nat): nat {
    DivAtMost(P(32), t + 1);
    P(32) / (t + 1)
  }

  /** The work of a block is the integer quotient of 2^256 by the target plus one; targets
      that are not positive carry no work. */
  lemma WorkBounds(bits: uint32)
    ensures var d := CompactToBig(bits);
            var w := CalcWork(bits);
            if d <= 0 then w == 0 else w * (d + 1) <= P(32) < (w + 1) * (d + 1)
  {
    hide P;
    var d := CompactToBig(bits);
    if d > 0 {
      DivBracket(P(32), d + 1);
    }
  }

  /** Easier targets carry no more work. */
  lemma WorkAntitone(t: nat, t': nat)
    requires t <= t'
    ensures Work(t') <= Work(t)
  {
    hide P;
    DivBracket(P(32), t + 1);
    DivBracket(P(32), t' + 1);
    var w, w' := P(32) / (t + 1), P(32) / (t' + 1);
    if w' > w {
      MulMono(w + 1, w', t' + 1);
      MulMonoLeft(w + 1, t + 1, t' + 1);
    }
  }

  /** A target that does not fit is above 2^256. */
  lemma NoWork(t: nat)
    requires t >= Limit()
    ensures Work(t) == 0
  {
    hide Unit;
    var top := Top();
    hide P;
    PMono(32, top);
    MulMono(1, TWO_23, P(top));
    DivBounds(P(32), t + 1, 0, 1);
  }

  /** Rounding a target to compact form never lowers its work. */
  lemma WorkOfRounded(t: nat)
    requires t > 0
    ensures CalcWork(BigToCompact(t)) >= Work(t)
  {
    hide P, Limit, CompactToBig, BigToCompact, Work;
    if t < Limit() {
      RoundedBelow(t);
      WorkAntitone(Rounded(t), t);
      WorkIs(Rounded(t));
    } else {
      NoWork(t);
      WorkBounds(BigToCompact(t));
    }
  }

  lemma WorkIs(t: nat)
    ensures Work(t) == P(32) / (t + 1)
  {
    hide P;
  }

  // --------------------------------------------------- rounding negative numbers

  /** The three leading bytes are all ones and something is dropped: rounding the magnitude up
      carries into a fourth byte. */
  predicate Carries(a: nat) {
    ByteLen(a) > 3 && a > 0xFF_FFFF * P(ByteLen(a) - 3)
  }

  lemma LeadingOfNegative(a: int)
    requires a > 0 && ByteLen(a) > 3
    ensures var d := P(ByteLen(a) - 3);
            LeadingBytes(-a) == if a % d == 0 then a / d else a / d + 1
  {
    hide P, ByteLen;
    FloorOfNegative(a, P(ByteLen(a) - 3));
  }

  lemma CarriedLeading(a: int)
    requires a > 0 && Carries(a)
    ensures LeadingBytes(-a) == TWO_24
  {
    var len := ByteLen(a);
    LeadingOfNegative(a);
    ByteLenBounds(a);
    PValues();
    PAdd(3, len - 3);
    hide P, ByteLen, LeadingBytes;
    var d := P(len - 3);
    DivBounds(a, d, 0xFF_FFFF, TWO_24);
    assert a == a / d * d + a % d;
  }

  /** The exponent after a carry sets its lowest bit. */
  function Odd(w: nat): nat { if w % 2 == 1 then w else w + 1 }

  lemma OrCarry(w: nat)
    requires w < 256
    ensures Odd(w) < 256 && OrHigh(w * TWO_24, TWO_24) == Pack(false, Odd(w), 0)
  {
    assert w * TWO_24 / TWO_24 == w;
  }

  lemma CarriedPacks(a: int)
    requires a > 0 && Carries(a)
    ensures BigToCompact(-a) == Pack(true, Odd(ByteLen(a) % 256), 0)
  {
    var len := ByteLen(a);
    CarriedLeading(a);
    assert Normal(-a) == (TWO_24, len) by { hide P, ByteLen, LeadingBytes; }
    hide P, ByteLen, LeadingBytes, Normal, Carries, OrHigh, NegativeBit, Odd;
    WrapExponent(len);
    OrCarry(len % 256);
    Unpack(Odd(len % 256), 0);
  }

  /** The carry sets a bit of the exponent and leaves a zero mantissa: the number becomes zero. */
  lemma CarriedIsZero(a: int)
    requires a > 0 && Carries(a)
    ensures CompactToBig(BigToCompact(-a)) == 0
  {
    hide P, ByteLen, Carries, BigToCompact, NegativeBit, ExponentOf, MantissaOf, Magnitude, Odd;
    var e := Odd(ByteLen(a) % 256);
    CarriedPacks(a);
    OrCarry(ByteLen(a) % 256);
    Unpack(e, 0);
    ZeroMagnitude(e);
  }

  lemma ZeroMagnitude(e: nat)
    ensures Magnitude(0, e) == 0
  {
    hide P;
    if e <= 3 {
      DivAtMost(0, P(3 - e));
    }
  }

  /** For instance -0xFFFFFF01 becomes zero, although it has the size of an ordinary target. */
  lemma CarryExample()
    ensures CompactToBig(BigToCompact(-0xFFFF_FF01)) == 0
  {
    PValues();
    assert P(4) == 256 * P(3);
    ByteLenIs(0xFFFF_FF01, 4);
    CarriedIsZero(0xFFFF_FF01);
  }

  /** A mantissa one unit above a, or that mantissa without its lowest byte, is close to a. */
  lemma RoundedUpClose(a: nat, q: nat, d: nat)
    requires d > 0 && q >= 65536 && q * d < a < (q + 1) * d
    ensures Abs((q + 1) * d - a) * TWO_15 < a
    ensures q >= TWO_23 - 1 ==> Abs((q + 1) / 256 * (256 * d) - a) * TWO_15 < a
  {
    MulStep(q, d);
    MulMono(65536, q, d);
    if q >= TWO_23 - 1 {
      var m := (q + 1) / 256;
      MulAssoc(m, 256, d);
      MulMono(m * 256, q + 1, d);
      MulMono(q + 1 - 255, m * 256, d);
      MulMono(TWO_23 - 1, q, d);
      assert (q + 1 - 255) * d == (q + 1) * d - 255 * d;
    }
  }

  lemma PackedNegative(a: int, m: nat, e: nat)
    requires a > 0 && m < TWO_23 && Normal(-a) == (m, e)
    ensures BigToCompact(-a) == Pack(true, e % 256, m)
  {
    hide P, Normal, LeadingBytes, ByteLen, CompactToBig;
    WrapExponent(e);
    Unpack(e % 256, m);
    hide NegativeBit;
  }

  lemma UnpackedNegative(a: int, m: nat, e: nat)
    requires a > 0 && m < TWO_23 && Normal(-a) == (m, e)
    ensures CompactToBig(BigToCompact(-a)) == -Magnitude(m, e % 256)
    ensures 3 < e < 256 ==> CompactToBig(BigToCompact(-a)) == -(m * P(e - 3))
  {
    hide P, Normal, BigToCompact;
    PackedNegative(a, m, e);
    Unpack(e % 256, m);
    hide NegativeBit, ExponentOf, MantissaOf;
  }

  /** The largest magnitude that cannot be rounded past the largest exponent. */
  function NegativeLimit(): nat { (TWO_23 - 1) * Unit() }

  lemma QuotientFacts(a: int, q: int)
    requires 0 < a && ByteLen(a) > 3 && a % P(ByteLen(a) - 3) != 0 && !Carries(a) && q == a / P(ByteLen(a) - 3)
    ensures var d := P(ByteLen(a) - 3); 65536 <= q < 0xFF_FFFF && q * d < a < (q + 1) * d
  {
    var len := ByteLen(a);
    PValues();
    ByteLenBounds(a);
    hide P, ByteLen;
    PAdd(2, len - 3);
    PAdd(3, len - 3);
    var d := P(len - 3);
    DivBounds(a, d, 65536, TWO_24);
    DivBracket(a, d);
    NotMultiple(a, d, q);
  }

  lemma RoundedUpError(a: int)
    requires 0 < a <= NegativeLimit() && ByteLen(a) > 3 && a % P(ByteLen(a) - 3) != 0 && !Carries(a)
    ensures Abs(CompactToBig(BigToCompact(-a)) + a) * TWO_15 < a
  {
    PValues();
    hide P, ByteLen, LeadingBytes, Carries, CompactToBig, BigToCompact, NegativeLimit, Unit;
    var len := ByteLen(a);
    var d := P(len - 3);
    var q := a / d;
    QuotientFacts(a, q);
    LeadingOfNegative(a);
    UpperLength(a, q);
    RoundedUpClose(a, q, d);
    if q + 1 < TWO_23 {
      UnpackedNegative(a, q + 1, len);
    } else {
      PAdd(1, len - 3);
      UnpackedNegative(a, (q + 1) / 256, len + 1);
    }
  }

  lemma NotMultiple(a: int, d: int, q: int)
    requires d > 0 && q == a / d && a % d != 0
    ensures a > q * d
    ensures a <= 0xFF_FFFF * d ==> q < 0xFF_FFFF
  {
    assert a == q * d + a % d;
    if q >= 0xFF_FFFF {
      MulMono(0xFF_FFFF, q, d);
    }
  }

  lemma UpperLength(a: int, q: int)
    requires 0 < a <= NegativeLimit() && ByteLen(a) > 3 && q == a / P(ByteLen(a) - 3)
    ensures ByteLen(a) <= 255 && (ByteLen(a) == 255 && a % P(ByteLen(a) - 3) != 0 ==> q + 1 < TWO_23)
  {
    hide ByteLen, P, Unit;
    LengthAtMost(a);
    var d := P(ByteLen(a) - 3);
    if ByteLen(a) == 255 && a % d != 0 {
      var t := Top();
      assert d == Unit();
      assert a == q * d + a % d;
      if q >= TWO_23 - 1 {
        MulMono(TWO_23 - 1, q, d);
      }
    }
  }

  lemma LengthAtMost(a: int)
    requires 0 < a <= NegativeLimit()
    ensures ByteLen(a) <= 255
  {
    PValues();
    hide P, ByteLen, Unit;
    ByteLenBounds(a);
    var len := ByteLen(a);
    if len > 255 {
      var t := Top();
      PMono(t + 3, len - 1);
      PAdd(3, t);
      MulMono(TWO_23 - 1, TWO_24, P(t));
    }
  }

  /** The leading bytes of a negative number are its magnitude rounded up. */
  lemma LeadingAbove(a: int, len: nat)
    requires a > 0 && !Carries(a) && len == ByteLen(a) > 3
    ensures var d := P(len - 3); var l := LeadingBytes(-a); 65536 <= l < TWO_24 && (l - 1) * d < a <= l * d
  {
    LeadingOfNegative(a);
    var d := P(len - 3);
    var q := a / d;
    if a % d != 0 {
      QuotientFacts(a, q);
    } else {
      LeadingOfPositive(a);
      LeadingOfLong(a);
      hide P, ByteLen, LeadingBytes, Carries;
      assert a == q * d;
      MulStep(q - 1, d);
    }
  }

  lemma LongAboveLimit(a: int)
    requires a > NegativeLimit()
    ensures ByteLen(a) >= 255
  {
    PValues();
    hide P, ByteLen, Unit;
    ByteLenBounds(a);
    var len := ByteLen(a);
    if len < 255 {
      var t := Top();
      PMono(len, t + 2);
      PAdd(2, t);
      MulMono(65536, TWO_23 - 1, P(t));
    }
  }

  /** Above the limit the exponent of a negative number does not fit. */
  lemma NormalAboveLimit(a: int)
    requires a > NegativeLimit() && !Carries(a)
    ensures var (m, e) := Normal(-a); 2 <= m < TWO_23 && e >= 256 && (m - 1) * P(e - 3) < a
  {
    hide ByteLen, Unit, LeadingBytes, Carries;
    LongAboveLimit(a);
    var len := ByteLen(a);
    LeadingAbove(a, len);
    var d, l := P(len - 3), LeadingBytes(-a);
    assert P(len + 1 - 3) == 256 * d;
    hide P;
    var t := Top();
    if l < TWO_23 {
      if len == 255 {
        MulMono(l, TWO_23 - 1, d);
      }
    } else {
      MulAssoc(l / 256 - 1, 256, d);
      MulMono((l / 256 - 1) * 256, l - 1, d);
    }
  }

  /** So it wraps, and at least half of the number is lost. */
  lemma NegativeOverflow(a: int)
    requires a > NegativeLimit() && !Carries(a)
    ensures 2 * Abs(CompactToBig(BigToCompact(-a))) <= a
  {
    hide P, Normal, NegativeLimit, Carries, Magnitude, CompactToBig, BigToCompact;
    NormalAboveLimit(a);
    var (m, e) := Normal(-a);
    var w := e % 256;
    UnpackedNegative(a, m, e);
    MagnitudeNonNegative(m, w);
    MagnitudeAtMost(m, w);
    HugeFactor(m, w, e);
    MulStep(m - 1, P(e - 3));
    MulMono(1, m - 1, P(e - 3));
  }

  /** A negative number keeps a relative error below 2^-15 exactly when rounding its magnitude
      up neither carries nor goes past the largest exponent. */
  lemma NegativeRounding(a: int)
    requires a > 0
    ensures Abs(CompactToBig(BigToCompact(-a)) + a) * TWO_15 < a <==> !Carries(a) && a <= NegativeLimit()
  {
    hide P, ByteLen, Carries, NegativeLimit, CompactToBig, BigToCompact;
    var len := ByteLen(a);
    if Carries(a) {
      CarriedIsZero(a);
    } else if a > NegativeLimit() {
      NegativeOverflow(a);
    } else if len > 3 && a % P(len - 3) != 0 {
      RoundedUpError(a);
    } else {
      ExactNegative(a);
    }
  }

  lemma BetweenLength(a: int, t: nat)
    requires NegativeLimit() < a < Limit() && t == 252 && Unit() == P(t)
    ensures ByteLen(a) == t + 3
  {
    hide P, Unit, ByteLen;
    PValues();
    PAdd(2, t);
    PAdd(3, t);
    MulMono(65536, TWO_23 - 1, P(t));
    MulMono(TWO_23, TWO_24, P(t));
    ByteLenIs(a, t + 3);
  }

  lemma BetweenLeading(a: int, t: nat)
    requires NegativeLimit() < a < Limit() && Unit() == P(t) && ByteLen(a) == t + 3 && t > 0
    ensures !Carries(a) && LeadingBytes(-a) == TWO_23
  {
    hide P, Unit, ByteLen, LeadingBytes;
    MulMono(TWO_23, 0xFF_FFFF, P(t));
    LeadingAbove(a, t + 3);
    var l := LeadingBytes(-a);
    if l < TWO_23 {
      MulMono(l, TWO_23 - 1, P(t));
    } else if l > TWO_23 {
      MulMono(TWO_23, l - 1, P(t));
    }
  }

  /** Between the two limits a negative number becomes zero without any carry. */
  lemma WrappedIsZero(a: int)
    requires NegativeLimit() < a < Limit()
    ensures !Carries(a) && CompactToBig(BigToCompact(-a)) == 0
  {
    hide P, Unit, Limit, NegativeLimit, ByteLen, LeadingBytes, Normal, Carries, Magnitude, CompactToBig, BigToCompact;
    var t := Top();
    BetweenLength(a, t);
    BetweenLeading(a, t);
    LimitsPositive();
    NormalOfLeading(a);
    UnpackedNegative(a, TWO_15, 256);
    SmallMagnitude();
  }

  lemma LimitsPositive()
    ensures 0 < NegativeLimit() && NegativeLimit() + 1 < Limit()
  {
    var t := Top();
    hide Unit;
    PMono(1, t);
    PValues();
    hide P;
    MulMono(1, TWO_23 - 1, P(t));
    MulStep(TWO_23 - 1, P(t));
  }

  lemma NormalOfLeading(a: int)
    requires a > 0 && LeadingBytes(-a) == TWO_23 && ByteLen(a) == 255
    ensures Normal(-a) == (TWO_15, 256)
  {
    hide LeadingBytes, ByteLen;
  }

  lemma SmallMagnitude()
    ensures Magnitude(TWO_15, 0) == 0
  {
    PValues();
  }

  lemma ExactNegative(a: int)
    requires 0 < a <= NegativeLimit() && (ByteLen(a) > 3 ==> a % P(ByteLen(a) - 3) == 0)
    ensures Abs(CompactToBig(BigToCompact(-a)) + a) * TWO_15 < a
  {
    hide P, ByteLen, Normal, Bracket, Magnitude, Unit;
    MulStep(TWO_23 - 1, Unit());
    PackedSigned(a);
    RoundedIs(a);
    RoundingError(a);
    RoundedBelow(a);
    var (m, e) := Normal(a);
    Unpack(e, m);
    hide BigToCompact;
  }

  // --------------------------------------------- when rounding finds the best form

  lemma LargestMagnitude(m: nat, e: nat)
    requires m < TWO_23 && e < 256
    ensures Magnitude(m, e) <= NegativeLimit()
  {
    hide P, Unit;
    var t := Top();
    if e <= 3 {
      DivAtMost(m, P(3 - e));
      MulMonoLeft(m, 1, P(t));
    } else {
      PMono(e - 3, t);
      MulMonoLeft(m, P(e - 3), P(t));
    }
    MulMono(m, TWO_23 - 1, P(t));
  }

  /** The largest number in compact form. */
  lemma LargestCompact()
    ensures var c: uint32 := 255 * TWO_24 + TWO_23 - 1; !NegativeBit(c) && CompactToBig(c) == NegativeLimit()
  {
    hide P, Unit;
    var t := Top();
    Unpack(255, TWO_23 - 1);
    hide NegativeBit, ExponentOf, MantissaOf;
    assert Magnitude(TWO_23 - 1, t + 3) == (TWO_23 - 1) * P(t);
  }

  lemma CompactsBelow(c: uint32)
    requires !NegativeBit(c)
    ensures CompactToBig(c) <= NegativeLimit()
  {
    PackOf(c);
    hide Magnitude, NegativeLimit, ExponentOf, MantissaOf;
    LargestMagnitude(MantissaOf(c), ExponentOf(c));
  }

  ghost predicate IsBest(n: nat, v: int) {
    forall c: uint32 :: !NegativeBit(c) && CompactToBig(c) <= n ==> CompactToBig(c) <= v
  }

  /** The normal form has the largest mantissa, and its exponent ends in the largest byte. */
  predicate WrapsToLargest(n: nat) {
    Normal(n).0 == TWO_23 - 1 && Normal(n).1 % 256 == 255
  }

  lemma LargestOnly(m: nat, e: nat)
    requires m < TWO_23 && e < 256
    ensures Magnitude(m, e) == NegativeLimit() <==> m == TWO_23 - 1 && e == 255
  {
    hide P, Unit;
    var t := Top();
    PValues();
    PMono(1, t);
    if e <= 3 {
      DivAtMost(m, P(3 - e));
      MulMonoLeft(TWO_23 - 1, 256, P(t));
    } else if e < 255 {
      PMono(e - 3, t - 1);
      PAdd(1, t - 1);
      MulMonoLeft(m, P(e - 3), P(t - 1));
      MulMono(m, TWO_23 - 1, P(t - 1));
      MulMonoLeft(TWO_23 - 1, 2 * P(t - 1), P(t));
      MulMono(1, TWO_23 - 1, P(t - 1));
    } else {
      assert e - 3 == t;
      if m < TWO_23 - 1 {
        MulMono(m + 1, TWO_23 - 1, P(t));
        MulStep(m, P(t));
      }
    }
  }

  lemma LargestIff(n: nat)
    requires n > 0
    ensures Rounded(n) == NegativeLimit() <==> WrapsToLargest(n)
  {
    hide P, Normal, NegativeLimit, Magnitude, CompactToBig, BigToCompact, Bracket;
    NormalForm(n);
    Packed(n);
    LargestOnly(Normal(n).0, Normal(n).1 % 256);
  }

  /** Rounding finds the best lower approximation exactly when the exponent fits, or wraps around to the largest number
      there is. */
  lemma RoundedIsBestIff(n: nat)
    ensures IsBest(n, Rounded(n)) <==> n < Limit() || WrapsToLargest(n)
  {
    hide NegativeBit, CompactToBig, Limit, NegativeLimit, Rounded, WrapsToLargest;
    if n < Limit() {
      forall c: uint32 | !NegativeBit(c) && CompactToBig(c) <= n ensures CompactToBig(c) <= Rounded(n) {
        RoundedIsBest(n, c);
      }
    } else {
      LimitsPositive();
      LargestIff(n);
      RoundedAtMost(n);
      LargestCompact();
      forall c: uint32 | !NegativeBit(c) ensures CompactToBig(c) <= NegativeLimit() {
        CompactsBelow(c);
      }
    }
  }

  lemma RoundedAtMost(n: nat)
    requires n > 0
    ensures Rounded(n) <= NegativeLimit()
  {
    hide P, Normal, NegativeLimit, Magnitude, CompactToBig, BigToCompact, Bracket;
    NormalForm(n);
    Packed(n);
    LargestMagnitude(Normal(n).0, Normal(n).1 % 256);
  }

  /** The first number that does not fit is not rounded to the best form. */
  lemma LimitIsNotBest()
    ensures !IsBest(Limit(), Rounded(Limit()))
  {
    hide Limit, Rounded, IsBest, Normal;
    LimitIsNormal();
    RoundedIsBestIff(Limit());
  }

  // ------------------------------------------------------------- hash values

  newtype byte = x: int | 0 <= x < 256

  /** The number a little-endian byte string denotes. */
  function LittleEndian(s: seq<byte>): nat {
    if s == [] then 0 else s[0] as nat + 256 * LittleEndian(s[1..])
  }

  /** The number a big-endian byte string denotes. */
  function BigEndian(s: seq<byte>): nat {
    if s == [] then 0 else 256 * BigEndian(s[..|s| - 1]) + s[|s| - 1] as nat
  }

  function Reversed(s: seq<byte>): (r: seq<byte>)
    ensures |r| == |s|
  {
    seq(|s|, i requires 0 <= i < |s| => s[|s| - 1 - i])
  }

  lemma {:induction false} ReversedValue(s: seq<byte>)
    ensures BigEndian(Reversed(s)) == LittleEndian(s)
  {
    if s != [] {
      ReversedValue(s[1..]);
      var r := Reversed(s);
      assert r[..|r| - 1] == Reversed(s[1..]);
    }
  }

  lemma {:induction false} LittleEndianBound(s: seq<byte>)
    ensures LittleEndian(s) < P(|s|)
  {
    if s != [] {
      LittleEndianBound(s[1..]);
    }
  }

  /** Reading a hash as a number: the bytes are reversed in place and read big-endian. The
      result is the little-endian value of the hash, below 2^256 for a 32-byte one. */
  method HashToBig(hash: seq<byte>) returns (n: nat)
    ensures n == LittleEndian(hash) && n < P(|hash|)
  {
    var blen := |hash|;
    var buf := new byte[blen](i requires 0 <= i < blen => hash[i]);
    for i := 0 to blen / 2
      invariant forall k :: 0 <= k < i ==> buf[k] == hash[blen - 1 - k] && buf[blen - 1 - k] == hash[k]
      invariant forall k :: i <= k < blen - i ==> buf[k] == hash[k]
    {
      buf[i], buf[blen - 1 - i] := buf[blen - 1 - i], buf[i];
    }
    assert buf[..] == Reversed(hash);
    ReversedValue(hash);
    LittleEndianBound(hash);
    n := BigEndian(buf[..]);
  }
}

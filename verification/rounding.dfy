/** Binary floating point with `p` significant bits and an unbounded exponent, rounded to the nearest
    value and to even on a tie (section 4.3.1 of IEEE 754-2008). */
module Rounding {
  function Pow2(e: int): (r: real)
    ensures r > 0.0
    decreases if e < 0 then -e else e
  {
    if e == 0 then 1.0 else if e > 0 then 2.0 * Pow2(e - 1) else Pow2(e + 1) / 2.0
  }

  function IntPow2(k: nat): (r: int)
    ensures r >= 1
  {
    if k == 0 then 1 else 2 * IntPow2(k - 1)
  }

  function Abs(x: real): real { if x < 0.0 then -x else x }

  /** Rounding toward zero, as the conversion to an integer does. */
  function Trunc(x: real): int { if x < 0.0 then -(-x).Floor else x.Floor }

  lemma Pow2Step(e: int)
    ensures Pow2(e + 1) == 2.0 * Pow2(e)
  {
  }

  lemma {:induction false} Pow2Add(e: int, k: nat)
    ensures Pow2(e + k) == Pow2(e) * IntPow2(k) as real
  {
    if k > 0 {
      Pow2Add(e, k - 1);
      Pow2Step(e + k - 1);
    }
  }

  lemma {:induction false} IntPow2Sum(a: nat, b: nat)
    ensures IntPow2(a + b) == IntPow2(a) * IntPow2(b)
  {
    if a > 0 {
      IntPow2Sum(a - 1, b);
      assert IntPow2(a + b) == 2 * (IntPow2(a - 1) * IntPow2(b));
    }
  }

  /** The powers of two met in double precision and around the smallest amounts. */
  lemma IntPow2Values()
    ensures IntPow2(52) == 4_503_599_627_370_496 && IntPow2(53) == 9_007_199_254_740_992
    ensures IntPow2(64) == 18_446_744_073_709_551_616 && IntPow2(65) == 36_893_488_147_419_103_232
    ensures IntPow2(72) == 4_722_366_482_869_645_213_696
    ensures IntPow2(112) == 5_192_296_858_534_827_628_530_496_329_220_096
  {
    FirstPowers();
    hide IntPow2;
    IntPow2Product(4, 16, 4, 16);
    IntPow2Product(8, 256, 8, 256);
    IntPow2Product(16, 65536, 16, 65536);
    IntPow2Product(32, 4_294_967_296, 16, 65536);
    IntPow2Product(48, 281_474_976_710_656, 4, 16);
    IntPow2Product(52, 4_503_599_627_370_496, 1, 2);
    IntPow2Product(32, 4_294_967_296, 32, 4_294_967_296);
    IntPow2Product(64, 18_446_744_073_709_551_616, 1, 2);
    IntPow2Product(64, 18_446_744_073_709_551_616, 8, 256);
    IntPow2Product(64, 18_446_744_073_709_551_616, 48, 281_474_976_710_656);
  }

  lemma FirstPowers()
    ensures IntPow2(1) == 2 && IntPow2(4) == 16
  {
    assert IntPow2(2) == 4;
  }

  lemma IntPow2Product(a: nat, x: int, b: nat, y: int)
    requires IntPow2(a) == x && IntPow2(b) == y
    ensures IntPow2(a + b) == x * y
  {
    IntPow2Sum(a, b);
  }

  lemma Pow2Neg(k: nat)
    ensures Pow2(-(k as int)) * IntPow2(k) as real == 1.0
  {
    Pow2Add(-(k as int), k);
  }

  lemma {:induction false} Pow2Mono(a: int, b: int)
    requires a <= b
    ensures Pow2(a) <= Pow2(b)
    decreases b - a
  {
    if a < b {
      Pow2Mono(a, b - 1);
      Pow2Step(b - 1);
    }
  }

  /** The binary exponent of a positive number. */
  function Exponent(x: real): int
    requires x > 0.0
    decreases x < 1.0, if x < 1.0 then (1.0 / x).Floor else x.Floor
  {
    if x >= 2.0 then Exponent(x / 2.0) + 1
    else if x < 1.0 then
      HalvingDecreases(x);
      Exponent(2.0 * x) - 1
    else 0
  }

  lemma HalvingDecreases(x: real)
    requires 0.0 < x < 1.0
    ensures 2.0 * x >= 1.0 || (1.0 / (2.0 * x)).Floor < (1.0 / x).Floor
  {
    var y := 1.0 / x;
    assert y * x == 1.0;
    assert y > 1.0 by { ReciprocalGrows(x); }
    assert 1.0 / (2.0 * x) == y / 2.0;
  }

  lemma ReciprocalGrows(x: real)
    requires 0.0 < x < 1.0
    ensures 1.0 / x > 1.0
  {
  }

  lemma {:induction false} ExponentBounds(x: real)
    requires x > 0.0
    ensures Pow2(Exponent(x)) <= x < Pow2(Exponent(x) + 1)
    decreases x < 1.0, if x < 1.0 then (1.0 / x).Floor else x.Floor
  {
    if x >= 2.0 {
      ExponentBounds(x / 2.0);
      Pow2Step(Exponent(x) - 1);
      Pow2Step(Exponent(x));
    } else if x < 1.0 {
      HalvingDecreases(x);
      ExponentBounds(2.0 * x);
      Pow2Step(Exponent(x));
      Pow2Step(Exponent(x) + 1);
    } else {
      assert Pow2(1) == 2.0 * Pow2(0);
    }
  }

  // ----- Products, kept abstract where only their laws matter -----

  function Times(a: real, b: real): real { a * b }

  lemma TimesMono(a: real, b: real, u: real)
    requires a <= b && u >= 0.0
    ensures Times(a, u) <= Times(b, u) && Times(u, a) <= Times(u, b)
  {
  }

  lemma TimesAssoc(a: real, b: real, c: real)
    ensures Times(Times(a, b), c) == Times(a, Times(b, c)) == Times(Times(a, c), b)
  {
    assert (a * b) * c == a * (b * c) == (a * c) * b;
  }

  lemma TimesHalf(a: real, u: real)
    ensures Times(2.0 * a, u) == 2.0 * Times(a, u) == Times(a, 2.0 * u)
  {
  }

  lemma DistanceScales(q: real, n: real, u: real)
    requires u > 0.0
    ensures Abs(Times(q, u) - Times(n, u)) == Times(Abs(q - n), u)
  {
    assert q * u - n * u == (q - n) * u;
  }

  // ----- The standard's definition -----

  function Scaled(m: int, e: int): real { Times(m as real, Pow2(e)) }

  ghost predicate IsFloat(p: nat, r: real) {
    exists m: int, e: int :: r == Scaled(m, e) && -IntPow2(p) <= m <= IntPow2(p)
  }

  /** `r` is representable, and no representable value is closer to `x`. */
  ghost predicate Nearest(p: nat, x: real, r: real) {
    IsFloat(p, r) && forall f | IsFloat(p, f) :: Abs(x - r) <= Abs(x - f)
  }

  // ----- The rounding itself -----

  /** The exponent of the last of `p` significant bits of `x`. */
  function UlpExponent(p: nat, x: real): int
    requires x > 0.0
  {
    Exponent(x) - p + 1
  }

  /** The nearest integer to a non-negative number, the even one on a tie. */
  function NearestInt(q: real): (m: int)
    requires q >= 0.0
    ensures q.Floor <= m <= q.Floor + 1
    ensures Abs(q - m as real) <= 0.5
  {
    var m := q.Floor;
    var f := q - m as real;
    if f < 0.5 then m else if f > 0.5 then m + 1 else if m % 2 == 0 then m else m + 1
  }

  function RoundPositive(p: nat, x: real): real
    requires x > 0.0
  {
    Scaled(NearestInt(x / Pow2(UlpExponent(p, x))), UlpExponent(p, x))
  }

  function Round(p: nat, x: real): real {
    if x == 0.0 then 0.0 else if x > 0.0 then RoundPositive(p, x) else -RoundPositive(p, -x)
  }

  lemma DivBetween(x: real, u: real, a: real, b: real)
    requires u > 0.0 && Times(a, u) <= x < Times(b, u)
    ensures a <= x / u < b && x == Times(x / u, u)
  {
    var q := x / u;
    assert q * u == x;
    if q < a { assert q * u < a * u; }
    if b <= q { TimesMono(b, q, u); }
  }

  /** The significand of `x` in units of its last bit has exactly `p` bits before the point. */
  lemma SignificandBounds(p: nat, x: real) returns (q: real)
    requires p >= 1 && x > 0.0
    ensures var u := Pow2(UlpExponent(p, x)); q == x / u && x == Times(q, u)
    ensures IntPow2(p - 1) as real <= q < IntPow2(p) as real
  {
    hide Exponent, Pow2, IntPow2;
    var e := UlpExponent(p, x);
    var u := Pow2(e);
    q := x / u;
    ExponentBounds(x);
    Pow2Add(e, p - 1);
    Pow2Add(e, p);
    DivBetween(x, u, IntPow2(p - 1) as real, IntPow2(p) as real);
  }

  /** No integer is closer to `q` than its rounding. */
  lemma NearestIntIsNearest(q: real, n: int)
    requires q >= 0.0
    ensures Abs(q - NearestInt(q) as real) <= Abs(q - n as real)
  {
    var m := q.Floor;
    if n <= m { assert n as real <= m as real; } else { assert n as real >= (m + 1) as real; }
  }

  /** On the grid of the last bit, the rounding is at least as close as any multiple of the unit. */
  lemma NoMultipleIsCloser(q: real, n: int, u: real)
    requires q >= 0.0 && u > 0.0
    ensures Abs(Times(q, u) - Times(NearestInt(q) as real, u)) <= Abs(Times(q, u) - Times(n as real, u))
  {
    hide NearestInt, Abs, Times;
    NearestIntIsNearest(q, n);
    DistanceScales(q, NearestInt(q) as real, u);
    DistanceScales(q, n as real, u);
    TimesMono(Abs(q - NearestInt(q) as real), Abs(q - n as real), u);
  }

  /** A float on the same or a coarser scale is a whole number of units. */
  lemma CoarserScale(m: int, e: int, ulp: int)
    requires e >= ulp
    ensures Scaled(m, e) == Times((m * IntPow2(e - ulp)) as real, Pow2(ulp))
  {
    var k := IntPow2(e - ulp);
    Pow2Add(ulp, e - ulp);
    hide Pow2, IntPow2;
    assert Times(m as real, k as real) == (m * k) as real;
    assert Pow2(e) == Times(Pow2(ulp), k as real);
    TimesAssoc(m as real, k as real, Pow2(ulp));
    TimesAssoc(m as real, Pow2(ulp), k as real);
  }

  /** A float on a finer scale stays below the smallest `p`-bit significand of the coarser one. */
  lemma SmallerScale(p: nat, m: int, e: int, ulp: int)
    requires p >= 1 && m <= IntPow2(p) && e < ulp
    ensures Scaled(m, e) <= Times(IntPow2(p - 1) as real, Pow2(ulp))
  {
    assert IntPow2(p) == 2 * IntPow2(p - 1);
    hide Pow2, IntPow2, Times;
    Pow2Mono(e, ulp - 1);
    Pow2Step(ulp - 1);
    var b := IntPow2(p - 1) as real;
    TimesMono(m as real, 2.0 * b, Pow2(e));
    TimesMono(Pow2(e), Pow2(ulp - 1), 2.0 * b);
    TimesHalf(b, Pow2(ulp - 1));
  }

  /** Every representable value is at least as far from `x` as the rounding of `x` is. */
  lemma NoFloatIsCloser(p: nat, x: real, m: int, e: int)
    requires p >= 1 && x > 0.0 && -IntPow2(p) <= m <= IntPow2(p)
    ensures Abs(x - RoundPositive(p, x)) <= Abs(x - Scaled(m, e))
  {
    hide Exponent, Pow2, IntPow2, NearestInt, Times;
    var ulp := UlpExponent(p, x);
    var u := Pow2(ulp);
    var q := SignificandBounds(p, x);
    if e >= ulp {
      CoarserScale(m, e, ulp);
      NoMultipleIsCloser(q, m * IntPow2(e - ulp), u);
    } else {
      NoMultipleIsCloser(q, IntPow2(p - 1), u);
      SmallerScale(p, m, e, ulp);
      TimesMono(IntPow2(p - 1) as real, q, u);
    }
  }

  lemma RoundPositiveIsNearest(p: nat, x: real)
    requires p >= 1 && x > 0.0
    ensures Nearest(p, x, RoundPositive(p, x))
  {
    hide Exponent, Pow2, IntPow2, Times;
    var q := SignificandBounds(p, x);
    var m := NearestInt(q);
    assert 0 <= m <= IntPow2(p);
    assert RoundPositive(p, x) == Scaled(m, UlpExponent(p, x));
    forall f | IsFloat(p, f) ensures Abs(x - RoundPositive(p, x)) <= Abs(x - f) {
      var n: int, e: int :| f == Scaled(n, e) && -IntPow2(p) <= n <= IntPow2(p);
      NoFloatIsCloser(p, x, n, e);
    }
  }

  lemma NegateFloat(p: nat, r: real)
    requires IsFloat(p, r)
    ensures IsFloat(p, -r)
  {
    hide IntPow2, Pow2;
    var m: int, e: int :| r == Scaled(m, e) && -IntPow2(p) <= m <= IntPow2(p);
    assert -r == Scaled(-m, e);
  }

  lemma NegateNearest(p: nat, x: real, r: real)
    requires Nearest(p, x, r)
    ensures Nearest(p, -x, -r)
  {
    NegateFloat(p, r);
    forall f | IsFloat(p, f) ensures Abs(-x - -r) <= Abs(-x - f) {
      NegateFloat(p, f);
      assert Abs(x - r) <= Abs(x - -f);
    }
  }

  /** The rounding is the standard's: representable, and nearest among all representable values. */
  lemma RoundIsNearest(p: nat, x: real)
    requires p >= 1
    ensures Nearest(p, x, Round(p, x))
  {
    if x == 0.0 {
      assert 0.0 == Scaled(0, 0);
    } else if x > 0.0 {
      RoundPositiveIsNearest(p, x);
    } else {
      RoundPositiveIsNearest(p, -x);
      NegateNearest(p, -x, Round(p, -x));
    }
  }

  /** The rounding of a positive number is within one part in `2^p`. */
  lemma RoundPositiveError(p: nat, x: real)
    requires p >= 1 && x > 0.0
    ensures Abs(x - RoundPositive(p, x)) <= Times(x, Pow2(-(p as int)))
  {
    assert IntPow2(p) == 2 * IntPow2(p - 1);
    assert Times(Pow2(-(p as int)), IntPow2(p) as real) == 1.0 by { Pow2Neg(p); }
    hide Exponent, Pow2, IntPow2, NearestInt, Times;
    var q := SignificandBounds(p, x);
    var u, tiny, b := Pow2(UlpExponent(p, x)), Pow2(-(p as int)), IntPow2(p - 1) as real;
    DistanceScales(q, NearestInt(q) as real, u);
    TimesMono(Abs(q - NearestInt(q) as real), 0.5, u);
    TimesCommute(tiny, 2.0 * b);
    TimesHalf(b, tiny);
    TimesMono(b, q, tiny);
    TimesMono(0.5, Times(q, tiny), u);
    TimesAssoc(q, tiny, u);
  }

  lemma TimesCommute(a: real, b: real)
    ensures Times(a, b) == Times(b, a)
  {
  }

  /** Any nearest value is within one part in `2^p`. */
  lemma NearestError(p: nat, x: real, r: real)
    requires p >= 1 && x >= 0.0 && Nearest(p, x, r)
    ensures Abs(x - r) <= x * Pow2(-(p as int))
  {
    hide Exponent, Pow2, IntPow2, NearestInt, RoundPositive;
    if x == 0.0 {
      assert Scaled(0, 0) == 0.0;
      assert IsFloat(p, 0.0);
      assert Abs(x - r) <= Abs(x - 0.0);
    } else {
      RoundPositiveIsNearest(p, x);
      RoundPositiveError(p, x);
      assert Abs(x - r) <= Abs(x - RoundPositive(p, x));
    }
  }

  // ----- Ties -----

  /** An equally close float lies on the grid of the last bit. */
  lemma CloseFloatsOnGrid(p: nat, x: real, f: real) returns (n: int)
    requires p >= 1 && x > 0.0 && IsFloat(p, f)
    requires Abs(x - f) == Abs(x - RoundPositive(p, x))
    ensures f == Scaled(n, UlpExponent(p, x))
  {
    hide Exponent, Pow2, IntPow2, NearestInt, Times, Scaled;
    var ulp := UlpExponent(p, x);
    var q := SignificandBounds(p, x);
    var m: int, e: int :| f == Scaled(m, e) && -IntPow2(p) <= m <= IntPow2(p);
    if e >= ulp {
      CoarserScale(m, e, ulp);
      n := m * IntPow2(e - ulp);
      AsScaled(n, ulp);
    } else {
      // Not above the smallest significand, which is no closer either.
      n := IntPow2(p - 1);
      AsScaled(n, ulp);
      AsScaled(NearestInt(q), ulp);
      NoMultipleIsCloser(q, n, Pow2(ulp));
      SmallerScale(p, m, e, ulp);
      TimesMono(n as real, q, Pow2(ulp));
    }
  }

  lemma AsScaled(n: int, e: int)
    ensures Scaled(n, e) == Times(n as real, Pow2(e))
  {
  }

  /** An integer as close to `q` as its rounding, but different, makes the rounding even. */
  lemma NearestIntTies(q: real, n: int)
    requires q >= 0.0 && n != NearestInt(q) && Abs(q - n as real) == Abs(q - NearestInt(q) as real)
    ensures NearestInt(q) % 2 == 0
  {
    var m := q.Floor;
    if n <= m { assert n as real <= m as real; } else { assert n as real >= (m + 1) as real; }
  }

  lemma SameDistance(q: real, a: int, b: int, u: real)
    requires u > 0.0
    requires Abs(Times(q, u) - Times(a as real, u)) == Abs(Times(q, u) - Times(b as real, u))
    ensures Abs(q - a as real) == Abs(q - b as real)
  {
    DistanceScales(q, a as real, u);
    DistanceScales(q, b as real, u);
    var d, e := Abs(q - a as real), Abs(q - b as real);
    assert d * u == e * u;
    assert (d - e) * u == 0.0;
  }

  lemma RoundPositiveTiesToEven(p: nat, x: real, f: real) returns (m: int)
    requires p >= 1 && x > 0.0 && IsFloat(p, f) && f != RoundPositive(p, x)
    requires Abs(x - f) == Abs(x - RoundPositive(p, x))
    ensures RoundPositive(p, x) == Scaled(m, UlpExponent(p, x)) && m % 2 == 0
  {
    hide Exponent, Pow2, IntPow2, NearestInt, Times;
    var q := SignificandBounds(p, x);
    var n := CloseFloatsOnGrid(p, x, f);
    m := NearestInt(q);
    SameDistance(q, n, m, Pow2(UlpExponent(p, x)));
    NearestIntTies(q, n);
  }

  /** The last of the `p` digits of `r`, on the grid of `x`, is even. */
  ghost predicate LastDigitEven(p: nat, x: real, r: real) {
    x != 0.0 && exists m :: r == Scaled(m, UlpExponent(p, Abs(x))) && m % 2 == 0
  }

  /** Where another representable value is exactly as close, the one taken has an even last digit. */
  lemma RoundTiesToEven(p: nat, x: real)
    requires p >= 1
    ensures forall f | IsFloat(p, f) && f != Round(p, x) && Abs(x - f) == Abs(x - Round(p, x)) ::
              LastDigitEven(p, x, Round(p, x))
  {
    hide Exponent, Pow2, IntPow2, RoundPositive;
    forall f | IsFloat(p, f) && f != Round(p, x) && Abs(x - f) == Abs(x - Round(p, x))
      ensures LastDigitEven(p, x, Round(p, x))
    {
      if x > 0.0 {
        var m := RoundPositiveTiesToEven(p, x, f);
        assert Round(p, x) == Scaled(m, UlpExponent(p, Abs(x)));
      } else {
        NegateFloat(p, f);
        var m := RoundPositiveTiesToEven(p, -x, -f);
        assert Scaled(-m, UlpExponent(p, -x)) == -Scaled(m, UlpExponent(p, -x));
        assert Round(p, x) == Scaled(-m, UlpExponent(p, Abs(x))) && -m % 2 == 0;
      }
    }
  }

  // ----- What rounding keeps -----

  /** Representable values are kept. */
  lemma RoundOfFloat(p: nat, x: real)
    requires p >= 1 && IsFloat(p, x)
    ensures Round(p, x) == x
  {
    hide Round, IsFloat;
    RoundIsNearest(p, x);
  }

  /** Rounding never crosses a representable value. */
  lemma RoundStays(p: nat, x: real, f: real)
    requires p >= 1 && IsFloat(p, f)
    ensures f <= x ==> f <= Round(p, x)
    ensures x <= f ==> Round(p, x) <= f
  {
    hide Round, IsFloat;
    RoundIsNearest(p, x);
  }

  lemma IntIsFloat(p: nat, n: int)
    requires -IntPow2(p) <= n <= IntPow2(p)
    ensures IsFloat(p, n as real)
  {
    assert Scaled(n, 0) == n as real;
  }

  /** The exponent is determined by the powers of two around the number. */
  lemma ExponentIs(x: real, k: int)
    requires x > 0.0 && Pow2(k) <= x < Pow2(k + 1)
    ensures Exponent(x) == k
  {
    hide Pow2;
    ExponentBounds(x);
    if Exponent(x) < k { Pow2Mono(Exponent(x) + 1, k); }
    if k < Exponent(x) { Pow2Mono(k + 1, Exponent(x)); }
  }

  /** Dividing by a negative power of two. */
  lemma ScaleUp(x: real, k: nat)
    ensures x / Pow2(-(k as int)) == x * IntPow2(k) as real
  {
    Pow2Neg(k);
    hide Pow2, IntPow2;
    DivAsTimes(x, Pow2(-(k as int)), IntPow2(k) as real);
  }

  lemma DivAsTimes(x: real, u: real, n: real)
    requires u > 0.0 && u * n == 1.0
    ensures x / u == x * n
  {
    assert x * n * u == x * (u * n);
  }

  lemma Unscale(x: real, y: real, u: real, n: real)
    requires u * n == 1.0 && y == x * n
    ensures Times(y, u) == x
  {
    assert y * u == x * (u * n);
  }

  lemma TimesStrict(a: real, b: real, u: real)
    requires a < b && u > 0.0
    ensures Times(a, u) < Times(b, u)
  {
  }

  lemma PowerOnScale(k: nat, p: nat)
    ensures Pow2(p - k) == Times(IntPow2(p) as real, Pow2(-(k as int)))
  {
    Pow2Add(-(k as int), p);
  }

  /** The exponent of a number that has `p` bits before the point once multiplied by 2^k. */
  lemma ExponentOnScale(p: nat, x: real, k: nat, y: real)
    requires p >= 1 && x > 0.0 && y == x * IntPow2(k) as real && IntPow2(p - 1) as real <= y < IntPow2(p) as real
    ensures Exponent(x) == p - 1 - k && x / Pow2(UlpExponent(p, x)) == y && Times(y, Pow2(-(k as int))) == x
  {
    hide Pow2, IntPow2, Times, Exponent;
    var u := Pow2(-(k as int));
    Unscale(x, y, u, IntPow2(k) as real) by { Pow2Neg(k); }
    PowerOnScale(k, p - 1);
    PowerOnScale(k, p);
    ScaleUp(x, k);
    TimesMono(IntPow2(p - 1) as real, y, u);
    TimesStrict(y, IntPow2(p) as real, u);
    ExponentIs(x, p - 1 - k);
  }

  /** A rounding worked out by hand: `m` is the integer nearest to the number times 2^k. */
  lemma RoundIs(p: nat, x: real, k: nat, y: real, m: int)
    requires p >= 1 && x > 0.0 && y == x * IntPow2(k) as real && IntPow2(p - 1) as real <= y < IntPow2(p) as real
    requires m as real - 0.5 < y < m as real + 0.5
    ensures Round(p, x) == Scaled(m, -(k as int))
  {
    ExponentOnScale(p, x, k, y);
    hide Pow2, IntPow2, Exponent, Times;
    assert NearestInt(y) == m;
  }

  /** A number whose upper neighbour on the grid is the closer one is never rounded down. */
  lemma NearestIsAbove(p: nat, x: real, r: real, k: nat, y: real, m: int)
    requires p >= 1 && x > 0.0 && y == x * IntPow2(k) as real && IntPow2(p - 1) as real <= y < IntPow2(p) as real
    requires m as real + 0.5 < y < m as real + 1.0 && Nearest(p, x, r)
    ensures r >= x
  {
    ExponentOnScale(p, x, k, y);
    SameDistanceAsRounding(p, x, r);
    var n := CloseFloatsOnGrid(p, x, r);
    var ulp := UlpExponent(p, x);
    hide Pow2, IntPow2, Exponent, Times, Nearest, Scaled;
    AsScaled(n, ulp);
    AsScaled(NearestInt(y), ulp);
    NoLower(y, n, m, Pow2(ulp));
  }

  lemma NoLower(y: real, n: int, m: int, u: real)
    requires y > 0.0 && u > 0.0 && m as real + 0.5 < y < m as real + 1.0
    requires Abs(Times(y, u) - Times(n as real, u)) == Abs(Times(y, u) - Times(NearestInt(y) as real, u))
    ensures Times(n as real, u) >= Times(y, u)
  {
    hide Times, NearestInt;
    NearestIntAbove(y, m);
    SameDistance(y, n, m + 1, u);
    CloserIsAbove(y, n, m);
    TimesMono(y, n as real, u);
  }

  lemma NearestIntAbove(y: real, m: int)
    requires y >= 0.0 && m as real + 0.5 < y < m as real + 1.0
    ensures NearestInt(y) == m + 1
  {
    assert y.Floor == m;
  }

  lemma CloserIsAbove(y: real, n: int, m: int)
    requires m as real + 0.5 < y < m as real + 1.0 && Abs(y - n as real) == Abs(y - (m + 1) as real)
    ensures n as real >= y
  {
    if n > m { assert n as real >= (m + 1) as real; }
  }

  lemma SameDistanceAsRounding(p: nat, x: real, r: real)
    requires p >= 1 && x > 0.0 && Nearest(p, x, r)
    ensures IsFloat(p, r) && Abs(x - r) == Abs(x - RoundPositive(p, x))
  {
    hide RoundPositive, IsFloat;
    RoundPositiveIsNearest(p, x);
  }

  /** A positive number is rounded to one or more exactly from half a unit below one on. */
  lemma RoundReachesOne(p: nat, x: real)
    requires p >= 1 && x > 0.0
    ensures Round(p, x) >= 1.0 <==> x >= 1.0 - Pow2(-(p as int) - 1)
  {
    var half := Pow2(-(p as int) - 1);
    assert 0.0 < half <= 0.25 by { Pow2Mono(-(p as int) - 1, -2); assert Pow2(-2) == 0.25; }
    if x >= 1.0 {
      IntIsFloat(p, 1);
      RoundStays(p, x, 1.0);
    } else if x < 0.5 {
      assert Scaled(1, -1) == 0.5;
      assert IsFloat(p, 0.5);
      RoundStays(p, x, 0.5);
    } else {
      RoundBelowOne(p, x, half);
    }
  }

  lemma RoundBelowOne(p: nat, x: real, half: real)
    requires p >= 1 && 0.5 <= x < 1.0 && half == Pow2(-(p as int) - 1)
    ensures Round(p, x) >= 1.0 <==> x >= 1.0 - half
  {
    hide Pow2, IntPow2, Exponent, NearestInt, Times, Round;
    var y := x * IntPow2(p) as real;
    BelowOneOnScale(p, x, half, y);
    RoundOnScale(p, x, y);
    var n, u := IntPow2(p), Pow2(-(p as int));
    UnitIsOne(p);
    ReachesUnits(y, n, u);
  }

  lemma UnitIsOne(p: nat)
    requires p >= 1
    ensures IntPow2(p) % 2 == 0 && Times(IntPow2(p) as real, Pow2(-(p as int))) == 1.0
  {
    assert IntPow2(p) == 2 * IntPow2(p - 1);
    Pow2Neg(p);
    AsProduct(IntPow2(p) as real, Pow2(-(p as int)));
  }

  lemma BelowOneOnScale(p: nat, x: real, half: real, y: real)
    requires p >= 1 && 0.5 <= x < 1.0 && half == Pow2(-(p as int) - 1) && y == x * IntPow2(p) as real
    ensures IntPow2(p - 1) as real <= y < IntPow2(p) as real
    ensures x >= 1.0 - half <==> y >= IntPow2(p) as real - 0.5
  {
    var u, n := Pow2(-(p as int)), IntPow2(p) as real;
    assert n == 2.0 * IntPow2(p - 1) as real;
    hide Pow2, IntPow2;
    assert u * n == 1.0 by { Pow2Neg(p); }
    assert u == 2.0 * half by { Pow2Step(-(p as int) - 1); }
    HalfToOne(x, IntPow2(p - 1) as real, n, y);
    HalfUnitBelow(x, y, n, u, half);
  }

  lemma RoundOnScale(p: nat, x: real, y: real)
    requires p >= 1 && 0.5 <= x < 1.0 && y == x * IntPow2(p) as real
    requires IntPow2(p - 1) as real <= y < IntPow2(p) as real
    ensures Round(p, x) == Times(NearestInt(y) as real, Pow2(-(p as int)))
  {
    hide Pow2, IntPow2, Exponent, NearestInt, Times;
    ExponentOnScale(p, x, p, y);
  }

  lemma ReachesUnits(y: real, n: int, u: real)
    requires 0.0 <= y < n as real && n % 2 == 0 && u > 0.0 && Times(n as real, u) == 1.0
    ensures Times(NearestInt(y) as real, u) >= 1.0 <==> y >= n as real - 0.5
  {
    hide Times;
    var m := NearestInt(y);
    if m >= n { TimesMono(n as real, m as real, u); } else { TimesStrict(m as real, n as real, u); }
  }

  lemma AsProduct(a: real, b: real)
    ensures Times(a, b) == b * a
  {
  }

  lemma HalfToOne(x: real, a: real, n: real, y: real)
    requires 0.5 <= x < 1.0 && y == x * n && n == 2.0 * a && a > 0.0
    ensures a <= y < n
  {
    assert y == (2.0 * x) * a;
  }

  lemma HalfUnitBelow(x: real, y: real, n: real, u: real, half: real)
    requires u * n == 1.0 && y == x * n && u == 2.0 * half && n >= 1.0
    ensures x >= 1.0 - half <==> y >= n - 0.5
  {
    var d := x - (1.0 - half);
    assert half * n == 0.5;
    assert d * n == y - n + 0.5;
    SignOfProduct(d, n);
  }

  lemma SignOfProduct(d: real, n: real)
    requires n > 0.0
    ensures d >= 0.0 <==> d * n >= 0.0
  {
  }
}

/** How far the amount computed from an ether value can be from the amount that was transferred. */
module WeiBound {
  import opened Numerals
  import opened Rounding
  import opened EthActivity

  lemma PowersAround(k: nat)
    requires k >= 3
    ensures IntPow2(k) == 4 * IntPow2(k - 2) && IntPow2(k) >= 8
  {
    assert IntPow2(k) == 2 * IntPow2(k - 1) && IntPow2(k - 1) == 2 * IntPow2(k - 2);
    assert IntPow2(k - 2) == 2 * IntPow2(k - 3);
  }

  /** The relative error of one rounding to `k` bits, and the powers of two around it. */
  lemma UnitAt(k: nat, t: real, m: int)
    requires k >= 3 && t == Pow2(-(k as int)) && m == IntPow2(k - 2)
    ensures 0.0 < t <= 0.125 && Times(4.0 * m as real, t) == 1.0
    ensures Pow2(1 - k) == 2.0 * t && Pow2(-2 * k) == Times(t, t)
  {
    hide Pow2, IntPow2, Times;
    PowersAround(k);
    var n := IntPow2(k) as real;
    assert t * n == 1.0 by { Pow2Neg(k); }
    AtMostEighth(t, n);
    SameProduct(n, 4.0 * m as real, t);
    Pow2Step(-(k as int));
    assert t == Pow2(-2 * k) * n by { Pow2Add(-2 * k, k); }
    Square(t, n, Pow2(-2 * k));
  }

  lemma SameProduct(n: real, m: real, t: real)
    requires n == m && t * n == 1.0
    ensures Times(m, t) == 1.0
  {
  }

  lemma Square(t: real, n: real, s: real)
    requires t * n == 1.0 && t == s * n
    ensures s == Times(t, t)
  {
    assert t * t == s * n * t == s * (t * n);
  }

  lemma AtMostEighth(t: real, n: real)
    requires t * n == 1.0 && n >= 8.0
    ensures t <= 0.125
  {
  }

  /** Two nearest-value roundings, one of the quotient and one of the product, in exact arithmetic. */
  lemma TwoRoundings(w: real, unit: real, v: real, p: real, t: real)
    requires w >= 0.0 && unit > 0.0 && t > 0.0
    requires Abs(w / unit - v) <= Times(w / unit, t)
    requires Abs(Times(v, unit) - p) <= Times(Times(v, unit), t)
    ensures var d := Times(w, t); Abs(p - w) <= 2.0 * d + Times(d, t)
  {
    var x, q := w / unit, Times(v, unit);
    assert Times(x, unit) == w;
    hide Times;
    DistanceScales(x, v, unit);
    TimesMono(Abs(x - v), Times(x, t), unit);
    TimesAssoc(x, t, unit);
    var d := Times(w, t);
    assert Abs(w - q) <= d;
    TimesMono(q, w + d, t);
    TimesSum(w, d, t);
  }

  lemma TimesSum(a: real, b: real, u: real)
    ensures Times(a + b, u) == Times(a, u) + Times(b, u)
  {
  }

  lemma NearestIsNonNegative(p: nat, x: real, v: real, t: real)
    requires p >= 53 && x >= 0.0 && Nearest(p, x, v) && t == Pow2(-53)
    ensures v >= 0.0 && Abs(x - v) <= Times(x, t)
  {
    hide Pow2, IntPow2, Nearest, Times;
    NearestError(p, x, v);
    Pow2Mono(-(p as int), -53);
    UnitAt(53, t, IntPow2(51));
    AsTimes(x, Pow2(-(p as int)));
    TimesMono(Pow2(-(p as int)), t, x);
    TimesMono(t, 1.0, x);
    AsTimes(x, 1.0);
  }

  lemma AsTimes(x: real, t: real)
    ensures x * t == Times(x, t)
  {
  }

  /** The product the code rounds, to 53 bits or more, is within the error of two roundings of `w`. */
  lemma ProductError(w: nat, unit: real, p: nat, value: real, product: real, t: real)
    requires unit > 0.0 && p >= 53 && Nearest(53, w as real / unit, value) && t == Pow2(-53)
    requires product == value * unit
    ensures var rounded, d := Round(p, product), Times(w as real, t);
            && rounded >= 0.0
            && w as real - (2.0 * d + Times(d, t)) <= rounded <= w as real + (2.0 * d + Times(d, t))
  {
    hide Pow2, IntPow2, Round, Nearest;
    var x, rounded := w as real / unit, Round(p, product);
    NearestIsNonNegative(53, x, value, t);
    assert product >= 0.0;
    RoundIsNearest(p, product);
    NearestIsNonNegative(p, product, rounded, t);
    UnitAt(53, t, IntPow2(51));
    assert Times(value, unit) == product;
    TwoRoundings(w as real, unit, value, rounded, t);
  }

  lemma WeiProductError(w: nat, value: real, t: real)
    requires Nearest(53, w as real / WEI, value) && t == Pow2(-53)
    ensures var amount, d := WeiAmount(value) as real, Times(w as real, t);
            w as real - (2.0 * d + Times(d, t)) - 1.0 < amount <= w as real + (2.0 * d + Times(d, t))
  {
    hide Pow2, IntPow2, Round, Nearest, Times;
    ProductError(w, WEI, 53, value, value * WEI, t);
  }

  lemma TokenProductError(n: nat, decimals: int, value: real, t: real)
    requires Nearest(53, n as real / TokenUnit(decimals) as real, value) && t == Pow2(-53)
    ensures var amount, d := TokenAmount(value, decimals) as real, Times(n as real, t);
            n as real - (2.0 * d + Times(d, t)) - 1.0 < amount <= n as real + (2.0 * d + Times(d, t))
  {
    hide Pow2, IntPow2, Round, Nearest, Times, TokenUnit, TokenPrecision;
    var product := value * TokenUnit(decimals) as real;
    assert TokenAmount(value, decimals) == Trunc(Round(TokenPrecision(decimals), product));
    ProductError(n, TokenUnit(decimals) as real, TokenPrecision(decimals), value, product, t);
  }

  lemma BoundValue(w: real, t: real)
    requires t == Pow2(-53)
    ensures w * (Pow2(-52) + Pow2(-106)) == 2.0 * Times(w, t) + Times(Times(w, t), t)
  {
    hide Pow2, IntPow2;
    UnitAt(53, t, IntPow2(51));
    assert w * (2.0 * t + t * t) == 2.0 * (w * t) + (w * t) * t;
  }

  /** For `w` up to a quarter of the significand range, the error stays below one. */
  lemma SmallError(w: real, t: real, m: real)
    requires 0.0 <= w <= m && 0.0 < t <= 0.125 && Times(4.0 * m, t) == 1.0
    ensures var d := Times(w, t); 2.0 * d + Times(d, t) < 1.0
  {
    assert Times(m, t) == 0.25;
    TimesMono(w, m, t);
    TimesMono(Times(w, t), 0.25, t);
    assert Times(0.25, t) == 0.25 * t;
  }

  lemma RelativeError(w: real, t: real)
    requires w >= 0.0 && 0.0 < t <= 0.125
    ensures var d := Times(w, t); 2.0 * d + Times(d, t) <= 0.3125 * w
  {
    TimesMono(t, 0.125, w);
    var d := Times(w, t);
    assert d <= 0.125 * w;
    TimesMono(t, 0.125, d);
  }

  /** If the JSON value is the nearest 53-bit value to `w` wei in ether, the computed amount differs from
      `w` by less than `w * (2^-52 + 2^-106) + 1`. Up to 2^51 wei it is `w` or `w - 1`. */
  lemma {:induction false} WeiAmountBound(w: nat, value: real)
    requires Nearest(53, w as real / WEI, value)
    ensures Abs(WeiAmount(value) as real - w as real) < w as real * (Pow2(-52) + Pow2(-106)) + 1.0
    ensures w <= IntPow2(51) ==> w - 1 <= WeiAmount(value) <= w
  {
    hide Pow2, IntPow2, Round, Nearest, Times, WeiAmount, WEI;
    var t := Pow2(-53);
    WeiProductError(w, value, t);
    BoundValue(w as real, t);
    UnitAt(53, t, IntPow2(51));
    if w <= IntPow2(51) { SmallError(w as real, t, IntPow2(51) as real); }
  }

  /** The same holds for a token amount computed from a value that is the nearest one to `n` smallest
      units, for any number of decimals. */
  lemma {:induction false} TokenAmountBound(n: nat, decimals: int, value: real)
    requires Nearest(53, n as real / TokenUnit(decimals) as real, value)
    ensures Abs(TokenAmount(value, decimals) as real - n as real) < n as real * (Pow2(-52) + Pow2(-106)) + 1.0
    ensures n <= IntPow2(51) ==> n - 1 <= TokenAmount(value, decimals) <= n
  {
    hide Pow2, IntPow2, Round, Nearest, Times, TokenAmount, TokenUnit;
    var t := Pow2(-53);
    TokenProductError(n, decimals, value, t);
    BoundValue(n as real, t);
    UnitAt(53, t, IntPow2(51));
    if n <= IntPow2(51) { SmallError(n as real, t, IntPow2(51) as real); }
  }

  lemma AmountAtLeastOne(n: nat, amount: int, t: real)
    requires n >= 2 && t == Pow2(-53)
    ensures var d := Times(n as real, t); n as real - (2.0 * d + Times(d, t)) - 1.0 < amount as real ==> amount >= 1
  {
    UnitAt(53, t, IntPow2(51));
    hide Pow2, IntPow2;
    RelativeError(n as real, t);
  }

  lemma NearestOfNothing(p: nat, value: real)
    requires Nearest(p, 0.0, value)
    ensures value == 0.0
  {
    assert Scaled(0, 0) == 0.0;
    assert IsFloat(p, 0.0);
    assert Abs(0.0 - value) <= Abs(0.0 - 0.0);
  }

  /** 10^-18 times 2^112 is 5192296858534827.62..., so every double nearest to one wei lies above it. */
  lemma OneWeiIsRoundedUp(value: real)
    requires Nearest(53, 1.0 / WEI, value)
    ensures value >= 1.0 / WEI
  {
    hide Nearest, IntPow2;
    IntPow2Values();
    var x := 1.0 / WEI;
    NearestIsAbove(53, x, value, 112, x * IntPow2(112) as real, 5_192_296_858_534_827);
  }

  /** A truncated rounding is one or more exactly when the rounding is. */
  lemma TruncReachesOne(x: real)
    requires x >= 0.0
    ensures Trunc(x) >= 1 <==> x >= 1.0
    ensures Trunc(x) >= 0
  {
  }

  lemma OneWeiIsKept(value: real)
    requires Nearest(53, 1.0 / WEI, value)
    ensures WeiAmount(value) >= 1
  {
    hide Nearest, IntPow2, Pow2, Round;
    OneWeiIsRoundedUp(value);
    assert value * WEI >= 1.0;
    IntIsFloat(53, 1);
    RoundStays(53, value * WEI, 1.0);
    TruncReachesOne(Round(53, value * WEI));
  }

  lemma WeiAmountPositive(w: nat, value: real)
    requires Nearest(53, w as real / WEI, value)
    ensures WeiAmount(value) != 0 <==> w >= 1
  {
    hide Pow2, IntPow2, Round, Nearest, Times, WEI;
    if w >= 2 {
      WeiProductError(w, value, Pow2(-53));
      AmountAtLeastOne(w, WeiAmount(value), Pow2(-53));
    } else if w == 1 {
      OneWeiIsKept(value);
    } else {
      NothingIsNothing(value);
    }
  }

  lemma NothingIsNothing(value: real)
    requires Nearest(53, 0.0 / WEI, value)
    ensures WeiAmount(value) == 0
  {
    NearestOfNothing(53, value);
  }

  /** An ether transfer is offered exactly when it moves anything: not even one wei is taken for nothing. */
  lemma RealTransfersAreOffered(cfg: ProcessorConfig, a: Activity, w: nat)
    requires KindOf(a) == Ether && a.value.Some? && Nearest(53, w as real / WEI, a.value.value)
    requires ValidBlockNumber(a.blockNum) && ParseBlockNumber(a.blockNum).Some?
    ensures Judge(cfg, a).Offered? <==> w >= 1
  {
    hide Nearest, WeiAmount;
    WeiAmountPositive(w, a.value.value);
  }

  /** The product of a token value with its unit that is still rounded up to one. */
  function LeastKept(decimals: int): real {
    1.0 - Pow2(-(TokenPrecision(decimals) as int) - 1)
  }

  lemma TokenAmountPositive(n: nat, decimals: int, value: real)
    requires Nearest(53, n as real / TokenUnit(decimals) as real, value)
    ensures TokenAmount(value, decimals) != 0 <==>
            n >= 2 || (n == 1 && value * TokenUnit(decimals) as real >= LeastKept(decimals))
  {
    hide Pow2, IntPow2, Nearest, Times, TokenAmount, TokenUnit, LeastKept;
    if n >= 2 {
      TokenProductError(n, decimals, value, Pow2(-53));
      AmountAtLeastOne(n, TokenAmount(value, decimals), Pow2(-53));
    } else if n == 0 {
      NoTokenIsNothing(decimals, value);
    } else {
      OneTokenUnit(decimals, value);
    }
  }

  lemma NoTokenIsNothing(decimals: int, value: real)
    requires Nearest(53, 0.0 / TokenUnit(decimals) as real, value)
    ensures TokenAmount(value, decimals) == 0
  {
    hide Nearest, TokenUnit, Round;
    NearestOfNothing(53, value);
    RoundOfNothing(TokenPrecision(decimals), value * TokenUnit(decimals) as real);
  }

  lemma OneTokenUnit(decimals: int, value: real)
    requires Nearest(53, 1.0 / TokenUnit(decimals) as real, value)
    ensures TokenAmount(value, decimals) != 0 <==> value * TokenUnit(decimals) as real >= LeastKept(decimals)
  {
    hide Pow2, Round, Nearest, TokenUnit, TokenPrecision, Trunc;
    var p, product := TokenPrecision(decimals), value * TokenUnit(decimals) as real;
    assert TokenAmount(value, decimals) == Trunc(Round(p, product));
    OneUnitIsPositive(TokenUnit(decimals) as real, value);
    RoundedReachesOne(p, product);
  }

  lemma RoundedReachesOne(p: nat, product: real)
    requires p >= 1 && product > 0.0
    ensures Trunc(Round(p, product)) != 0 <==> product >= 1.0 - Pow2(-(p as int) - 1)
  {
    hide Round, Pow2, IntPow2;
    RoundReachesOne(p, product);
    RoundIsNonNegative(p, product);
    TruncReachesOne(Round(p, product));
  }

  lemma PositiveProduct(a: real, b: real)
    requires a > 0.0 && b > 0.0
    ensures a * b > 0.0
  {
  }

  lemma RoundOfNothing(p: nat, x: real)
    requires x == 0.0
    ensures Trunc(Round(p, x)) == 0
  {
  }

  lemma RoundIsNonNegative(p: nat, x: real)
    requires p >= 1 && x >= 0.0
    ensures Round(p, x) >= 0.0
  {
    hide Round, IntPow2;
    IntIsFloat(p, 0);
    RoundStays(p, x, 0.0);
  }

  lemma OneUnitIsPositive(unit: real, value: real)
    requires unit > 0.0 && Nearest(53, 1.0 / unit, value)
    ensures value * unit > 0.0
  {
    hide Nearest;
    assert 1.0 / unit > 0.0;
    NearestIsPositive(1.0 / unit, value);
    PositiveProduct(value, unit);
  }

  lemma NearestIsPositive(x: real, value: real)
    requires x > 0.0 && Nearest(53, x, value)
    ensures value > 0.0
  {
    hide Pow2, IntPow2, Nearest, Times;
    var t := Pow2(-53);
    UnitAt(53, t, IntPow2(51));
    NearestIsNonNegative(53, x, value, t);
    TimesMono(t, 0.125, x);
    AsTimes(x, 0.125);
  }

  /** A token transfer whose raw value is missing is offered exactly when it moves two smallest units or
      more, or one unit whose float value times the unit still rounds to one. */
  lemma TokenTransfersOffered(cfg: ProcessorConfig, a: Activity, n: nat)
    requires KindOf(a) == Token && a.rawContract.Some? && a.rawContract.value.rawValue == "" && a.value.Some?
    requires var decimals := GetDecimals(a.rawContract.value);
             Nearest(53, n as real / TokenUnit(decimals) as real, a.value.value)
    requires ValidBlockNumber(a.blockNum) && ParseBlockNumber(a.blockNum).Some?
    ensures var decimals := GetDecimals(a.rawContract.value);
            Judge(cfg, a).Offered? <==>
            n >= 2 || (n == 1 && a.value.value * TokenUnit(decimals) as real >= LeastKept(decimals))
  {
    hide Nearest, TokenAmount, GetDecimals, TokenUnit, LeastKept;
    TokenAmountPositive(n, GetDecimals(a.rawContract.value), a.value.value);
  }

  lemma {:induction false} BitLengthBelow(n: nat, k: nat)
    requires n < IntPow2(k)
    ensures BitLength(n) <= k
  {
    if n > 0 { BitLengthBelow(n / 2, k - 1); }
  }

  lemma SixDecimals()
    ensures TokenUnit(6) == 1_000_000 && TokenPrecision(6) == 64
  {
    assert Pow10(2) == 100 && Pow10(4) == 10000 && Pow10(6) == 1_000_000;
    IntPow2Values();
    BitLengthBelow(1_000_000, 64);
  }

  /** One unit of a token with six decimals is not: the double nearest to 10^-6 is
      4722366482869645 / 2^72, and times 10^6 it stays below one even when rounded. */
  lemma OneUnitOfSixDecimals() returns (value: real)
    ensures Nearest(53, 1.0 / TokenUnit(6) as real, value) && TokenAmount(value, 6) == 0
  {
    hide Round, Nearest, Pow2, IntPow2, TokenAmount;
    IntPow2Values();
    SixDecimals();
    value := Round(53, 0.000001);
    RoundIsNearest(53, 0.000001);
    RoundIs(53, 0.000001, 72, 0.000001 * IntPow2(72) as real, 4_722_366_482_869_645);
    SixDecimalsAmount(value);
  }

  lemma SixDecimalsAmount(value: real)
    requires value == Scaled(4_722_366_482_869_645, -72)
    ensures TokenAmount(value, 6) == 0
  {
    hide Pow2, IntPow2, Round;
    IntPow2Values();
    SixDecimals();
    assert Pow2(-72) * IntPow2(72) as real == 1.0 by { Pow2Neg(72); }
    assert Pow2(-65) * IntPow2(65) as real == 1.0 by { Pow2Neg(65); }
    var x := value * 1_000_000.0;
    RoundReachesOne(64, x);
    RoundIsNonNegative(64, x);
    TruncReachesOne(Round(64, x));
  }

  // ----- The amount as it is handed over -----

  /** `printed` is a decimal numeral within the error of two roundings of `n`. */
  ghost predicate DenotesAbout(printed: string, n: nat) {
    && printed != "" && AllDigits(printed, 10)
    && Abs(Value(printed, 10) as real - n as real) < n as real * (Pow2(-52) + Pow2(-106)) + 1.0
    && (n <= IntPow2(51) ==> n - 1 <= Value(printed, 10) <= n)
  }

  lemma PrintedAmount(amount: int)
    requires amount >= 0
    ensures AllDigits(DecimalString(amount), 10) && DecimalString(amount) != "" && Value(DecimalString(amount), 10) == amount
  {
    DigitsDenote(amount, 10);
    DigitsAreDigits(amount, 10);
  }

  lemma AmountIsNatural(product: real, p: nat)
    requires p >= 1 && product >= 0.0
    ensures Trunc(Round(p, product)) >= 0
  {
    hide Round;
    RoundIsNonNegative(p, product);
    TruncReachesOne(Round(p, product));
  }

  lemma NearestToNatural(n: nat, unit: real, value: real)
    requires unit > 0.0 && Nearest(53, n as real / unit, value)
    ensures value * unit >= 0.0
  {
    hide Nearest, Pow2;
    var t := Pow2(-53);
    assert n as real / unit >= 0.0;
    NearestIsNonNegative(53, n as real / unit, value, t);
  }

  /** The Value string of an ether transfer denotes the amount transferred, within that error. */
  lemma EtherValueIsKept(cfg: ProcessorConfig, a: Activity, w: nat)
    requires ToLower(a.category) in {"external", "internal"}
    requires a.value.Some? && Nearest(53, w as real / WEI, a.value.value)
    ensures Judge(cfg, a).Offered? ==> DenotesAbout(Judge(cfg, a).activity.value, w)
  {
    hide Nearest, WeiAmount, Pow2, IntPow2, ToLower, ValidBlockNumber, ParseBlockNumber, Currency, Network, IsInternal,
      DecimalString, Value, AllDigits, WEI;
    Kinds(a);
    WeiAmountBound(w, a.value.value);
    WeiAmountIsNatural(w, a.value.value);
    PrintedAmount(WeiAmount(a.value.value));
  }

  lemma WeiAmountIsNatural(w: nat, value: real)
    requires Nearest(53, w as real / WEI, value)
    ensures WeiAmount(value) >= 0
  {
    hide Nearest, Round, Trunc;
    NearestToNatural(w, WEI, value);
    AmountIsNatural(value * WEI, 53);
  }

  lemma TokenAmountIsNatural(n: nat, decimals: int, value: real)
    requires Nearest(53, n as real / TokenUnit(decimals) as real, value)
    ensures TokenAmount(value, decimals) >= 0
  {
    hide Nearest, Round, Trunc, TokenUnit, TokenPrecision;
    var p, product := TokenPrecision(decimals), value * TokenUnit(decimals) as real;
    assert TokenAmount(value, decimals) == Trunc(Round(p, product));
    NearestToNatural(n, TokenUnit(decimals) as real, value);
    AmountIsNatural(product, p);
  }

  /** And so does that of a token transfer without a raw value. */
  lemma TokenValueIsKept(cfg: ProcessorConfig, a: Activity, n: nat)
    requires KindOf(a) == Token && a.rawContract.Some? && a.rawContract.value.rawValue == "" && a.value.Some?
    requires Nearest(53, n as real / TokenUnit(GetDecimals(a.rawContract.value)) as real, a.value.value)
    ensures Judge(cfg, a).Offered? ==> DenotesAbout(Judge(cfg, a).activity.value, n)
  {
    hide Nearest, TokenAmount, TokenUnit, GetDecimals, Pow2, IntPow2, ToLower, ValidBlockNumber, ParseBlockNumber, Currency,
      Network, IsInternal, DecimalString, Value, AllDigits;
    var decimals := GetDecimals(a.rawContract.value);
    TokenAmountBound(n, decimals, a.value.value);
    TokenAmountIsNatural(n, decimals, a.value.value);
    PrintedAmount(TokenAmount(a.value.value, decimals));
  }

  /** The unit of a token is a power of ten, and its precision is the least, from 64 bits on, that holds it. */
  lemma TokenUnitIsHeld(decimals: int)
    ensures TokenUnit(decimals) == 1 || (decimals > 0 && TokenUnit(decimals) == 10 * TokenUnit(decimals - 1))
    ensures var p := TokenPrecision(decimals);
            p >= 64 && TokenUnit(decimals) < IntPow2(p) && (p > 64 ==> TokenUnit(decimals) >= IntPow2(p - 1))
  {
    BitLengthHolds(TokenUnit(decimals));
    if TokenPrecision(decimals) == 64 { Pow2Grows(BitLength(TokenUnit(decimals)), 64); }
  }

  lemma {:induction false} BitLengthHolds(n: nat)
    requires n >= 1
    ensures BitLength(n) >= 1 && IntPow2(BitLength(n) - 1) <= n < IntPow2(BitLength(n))
  {
    if n > 1 { BitLengthHolds(n / 2); } else { assert BitLength(0) == 0; }
  }

  lemma {:induction false} Pow2Grows(a: nat, b: nat)
    requires a <= b
    ensures IntPow2(a) <= IntPow2(b)
  {
    if a < b { Pow2Grows(a, b - 1); }
  }
}

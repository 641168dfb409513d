/**
 OverageStrategy.Allows (policy.go): a float64 comparison, against the integer one it stands for.
 Rounding is round-to-nearest, ties to even, to 53 significant bits (section 4.3.1 of IEEE
 754-2019); it commutes with scaling by powers of two, so the products with 1.25 and 1.5 are
 rounded in units of a quarter and a half. No magnitude here overflows or is subnormal.
 */
module Overage {
  import opened Arithmetic

  const TWO_52: int := 0x10_0000_0000_0000
  const TWO_53: int := 0x20_0000_0000_0000

  /** The least exponent, from `e` on, at which `n` has at most 53 significant bits before the point. */
  function Exponent(n: nat, e: nat): (r: nat)
    ensures n < TWO_53 * Pow2(r)
    ensures r == e || n >= TWO_52 * Pow2(r)
    decreases n - TWO_53 * Pow2(e)
  {
    if n < TWO_53 * Pow2(e) then e else Exponent(n, e + 1)
  }

  function Unit(n: nat): (u: nat)
    ensures u >= 1
  {
    Pow2(Exponent(n, 0))
  }

  /** Which of two neighbouring multiples is nearer; of two equally near ones the even one. */
  function Nearer(quotient: nat, rest: nat, unit: nat): nat {
    if 2 * rest < unit || (2 * rest == unit && quotient % 2 == 0) then quotient else quotient + 1
  }

  /** The nearest multiple of `unit`, in units. */
  function Nearest(n: nat, unit: nat): (k: nat)
    requires unit >= 1
    ensures n / unit <= k <= n / unit + 1
  {
    Nearer(n / unit, n % unit, unit)
  }

  function RoundNat(n: nat): int {
    Nearest(n, Unit(n)) * Unit(n)
  }

  /** The nearest double to an integer, as Go's `float64(n)`. */
  function Round(n: int): int {
    if n < 0 then -RoundNat(-n) else RoundNat(n)
  }

  datatype Strategy = NoOverage | Allow125 | Allow150 | Allow200 | AlwaysAllow | Unrecognized

  /** `Allows`, as computed. */
  predicate Allows(s: Strategy, count: int, max: int) {
    match s
    case Allow125 => 4 * Round(count) <= Round(5 * Round(max))
    case Allow150 => 2 * Round(count) <= Round(3 * Round(max))
    case Allow200 => Round(count) <= Round(2 * Round(max))
    case AlwaysAllow => true
    case _ => count <= max
  }

  /** What the strategy means. */
  predicate AllowsExactly(s: Strategy, count: int, max: int) {
    match s
    case Allow125 => 4 * count <= 5 * max
    case Allow150 => 2 * count <= 3 * max
    case Allow200 => count <= 2 * max
    case AlwaysAllow => true
    case _ => count <= max
  }

  lemma SmallIsExact(n: int)
    requires -TWO_53 < n < TWO_53
    ensures Round(n) == n
  {
    var m := if n < 0 then -n else n;
    assert Exponent(m, 0) == 0;
  }

  lemma LargeStaysLarge(n: nat)
    requires n >= TWO_53
    ensures RoundNat(n) >= TWO_53
  {
    var e := Exponent(n, 0);
    var unit := Pow2(e);
    var quotient := n / unit;
    assert e >= 1 && unit >= 2;
    QuotientIsLarge(n, unit);
    Scales(unit, TWO_52, quotient);
    assert (quotient + 1) * unit == quotient * unit + unit;
  }

  lemma QuotientIsLarge(n: nat, unit: nat)
    requires unit >= 1 && n >= TWO_52 * unit
    ensures n / unit >= TWO_52
  {
    var quotient := n / unit;
    assert n < unit * quotient + unit;
    assert unit * (quotient + 1) == unit * quotient + unit;
    Scales(unit, quotient + 1, TWO_52);
  }

  /** Comparing a rounded count with a bound below 2^53 is comparing the count itself. */
  lemma RoundedCountCompares(scale: int, count: int, bound: int)
    requires 1 <= scale <= 4 && -TWO_53 < bound < TWO_53
    ensures scale * Round(count) <= bound <==> scale * count <= bound
  {
    if -TWO_53 < count < TWO_53 {
      SmallIsExact(count);
    } else {
      LargeStaysLarge(if count < 0 then -count else count);
      assert count > 0 ==> scale * count >= count && scale * Round(count) >= Round(count);
      assert count < 0 ==> scale * count <= count && scale * Round(count) <= Round(count);
    }
  }

  /** The maxima whose product with the strategy's factor needs no rounding. */
  predicate IsExactProduct(s: Strategy, max: int) {
    match s
    case Allow125 => -TWO_53 < 5 * max < TWO_53
    case Allow150 => -TWO_53 < 3 * max < TWO_53
    case Allow200 => -TWO_53 < 2 * max < TWO_53
    case _ => true
  }

  /** For every count, the float64 comparison gives the exact verdict while the product is exact. */
  lemma FloatVerdictIsExact(s: Strategy, count: int, max: int)
    requires IsExactProduct(s, max)
    ensures Allows(s, count, max) <==> AllowsExactly(s, count, max)
  {
    match s
    case Allow125 => SmallIsExact(max); SmallIsExact(5 * max); RoundedCountCompares(4, count, 5 * max);
    case Allow150 => SmallIsExact(max); SmallIsExact(3 * max); RoundedCountCompares(2, count, 3 * max);
    case Allow200 => SmallIsExact(max); SmallIsExact(2 * max); RoundedCountCompares(1, count, 2 * max);
    case _ =>
  }

  /** Every int32 is among them: the type of every limit the policy resource exposes. */
  lemma PolicyMaximaAreExact(s: Strategy, max: int)
    requires -0x8000_0000 <= max <= 0x7FFF_FFFF
    ensures IsExactProduct(s, max)
  {
  }

  function Rank(s: Strategy): nat {
    match s
    case Allow125 => 1
    case Allow150 => 2
    case Allow200 => 3
    case AlwaysAllow => 4
    case _ => 0
  }

  // ----- rounding, on every magnitude

  /** The exponent is the one whose 53 bits just hold the number. */
  lemma ExponentIs(n: nat, e: nat)
    requires n < TWO_53 * Pow2(e) && (e == 0 || n >= TWO_52 * Pow2(e))
    ensures Exponent(n, 0) == e
  {
    var r := Exponent(n, 0);
    if r < e {
      Pow2Grows(r, e);
    } else if e < r {
      Pow2Grows(e, r);
    }
  }

  lemma Division(n: nat, unit: nat)
    requires unit >= 1
    ensures n == n / unit * unit + n % unit && 0 <= n % unit < unit && n / unit >= 0
  {
  }

  lemma DivisionIs(n: nat, unit: nat, quotient: nat, rest: nat)
    requires unit >= 1 && n == quotient * unit + rest && rest < unit
    ensures n / unit == quotient && n % unit == rest
  {
    Division(n, unit);
    var q := n / unit;
    Scales(unit, q + 1, quotient);
    Scales(unit, quotient + 1, q);
    assert unit * (q + 1) == q * unit + unit && unit * (quotient + 1) == quotient * unit + unit;
  }

  /** A double is a multiple of the unit, and the quotient fits its 53 bits. */
  lemma QuotientFits(n: nat)
    ensures n / Unit(n) < TWO_53 && (Exponent(n, 0) > 0 ==> n / Unit(n) >= TWO_52)
  {
    var u := Unit(n);
    Division(n, u);
    Scales(u, TWO_53, n / u);
    if Exponent(n, 0) > 0 { QuotientIsLarge(n, u); }
  }

  lemma NearestBounds(n: nat)
    ensures Nearest(n, Unit(n)) <= TWO_53 && (Exponent(n, 0) > 0 ==> Nearest(n, Unit(n)) >= TWO_52)
  {
    QuotientFits(n);
  }

  lemma NearestDoubles(n: nat, unit: nat)
    requires unit >= 1
    ensures Nearest(2 * n, 2 * unit) == Nearest(n, unit)
  {
    Division(n, unit);
    assert n / unit * (2 * unit) == 2 * (n / unit * unit);
    DivisionIs(2 * n, 2 * unit, n / unit, 2 * (n % unit));
  }

  // Doubling doubles the unit and the remainder, and leaves the quotient alone.
  lemma RoundNatDoubles(n: nat)
    ensures RoundNat(2 * n) == 2 * RoundNat(n)
  {
    hide Nearest, Exponent;
    if n < TWO_52 {
      SmallIsExact(n);
      SmallIsExact(2 * n);
    } else {
      UnitDoubles(n);
      NearestDoubles(n, Unit(n));
      assert Nearest(n, Unit(n)) * (2 * Unit(n)) == 2 * (Nearest(n, Unit(n)) * Unit(n));
    }
  }

  lemma UnitDoubles(n: nat)
    requires n >= TWO_52
    ensures Unit(2 * n) == 2 * Unit(n)
  {
    ExponentIs(2 * n, Exponent(n, 0) + 1);
  }

  lemma RoundDoubles(n: int)
    ensures Round(2 * n) == 2 * Round(n)
  {
    RoundNatDoubles(if n < 0 then -n else n);
  }

  lemma QuotientIsMonotone(a: nat, b: nat, unit: nat)
    requires a <= b && unit >= 1
    ensures a / unit < b / unit || (a / unit == b / unit && a % unit <= b % unit)
  {
    Division(a, unit);
    Division(b, unit);
    var p, q := a / unit, b / unit;
    assert unit * (q + 1) == q * unit + unit;
    Scales(unit, q + 1, p);
  }

  lemma NearerIsMonotone(p: nat, r: nat, q: nat, t: nat, unit: nat)
    requires p < q || (p == q && r <= t)
    ensures Nearer(p, r, unit) <= Nearer(q, t, unit)
  {
  }

  lemma NearestIsMonotone(a: nat, b: nat, unit: nat)
    requires a <= b && unit >= 1
    ensures Nearest(a, unit) <= Nearest(b, unit)
  {
    QuotientIsMonotone(a, b, unit);
    NearerIsMonotone(a / unit, a % unit, b / unit, b % unit, unit);
  }

  // Numbers of different exponents: the larger unit is at least twice the smaller.
  lemma UnitsApart(a: nat, b: nat)
    requires Exponent(a, 0) < Exponent(b, 0)
    ensures RoundNat(a) <= RoundNat(b)
  {
    hide Nearest, Exponent;
    Pow2Grows(Exponent(a, 0), Exponent(b, 0));
    NearestBounds(a);
    NearestBounds(b);
    ScaledApart(Nearest(a, Unit(a)), Unit(a), Nearest(b, Unit(b)), Unit(b));
  }

  lemma ScaledApart(k: int, u: int, l: int, v: int)
    requires 0 <= k <= TWO_53 && l >= TWO_52 && u >= 1 && 2 * u <= v
    ensures k * u <= l * v
  {
    Scales(u, k, TWO_53);
    Scales(v, TWO_52, l);
  }

  lemma ExponentIsMonotone(a: nat, b: nat)
    requires a <= b
    ensures Exponent(a, 0) <= Exponent(b, 0)
  {
    var d, e := Exponent(a, 0), Exponent(b, 0);
    if e < d { Pow2Grows(e, d); }
  }

  lemma RoundNatIsMonotone(a: nat, b: nat)
    requires a <= b
    ensures RoundNat(a) <= RoundNat(b)
  {
    hide Nearest, Exponent, Pow2;
    ExponentIsMonotone(a, b);
    if Exponent(a, 0) < Exponent(b, 0) {
      UnitsApart(a, b);
    } else {
      NearestIsMonotone(a, b, Unit(b));
      Scales(Unit(b), Nearest(a, Unit(b)), Nearest(b, Unit(b)));
    }
  }

  /** A larger number never rounds to a smaller double. */
  lemma RoundIsMonotone(a: int, b: int)
    requires a <= b
    ensures Round(a) <= Round(b)
  {
    hide Nearest, Exponent;
    if a >= 0 {
      RoundNatIsMonotone(a, b);
    } else if b < 0 {
      RoundNatIsMonotone(-b, -a);
    } else {
      RoundNatIsNat(-a);
      RoundNatIsNat(b);
    }
  }

  lemma RoundNatIsNat(n: nat)
    ensures RoundNat(n) >= 0
  {
    Scales(Unit(n), 0, Nearest(n, Unit(n)));
  }

  // A multiple of a unit that has 53 significant bits is a double.
  lemma MultipleIsExact(k: nat, e: nat)
    requires k < TWO_53 && (e == 0 || k >= TWO_52)
    ensures k * Pow2(e) >= 0 && RoundNat(k * Pow2(e)) == k * Pow2(e)
  {
    var u := Pow2(e);
    Scales(u, 0, k);
    Scales(u, k + 1, TWO_53);
    Scales(u, TWO_52, k);
    assert u * (k + 1) == k * u + u;
    ExponentIs(k * u, e);
    DivisionIs(k * u, u, k, 0);
  }

  /** Every double is its own rounding. */
  lemma RoundIsIdempotent(n: nat)
    ensures RoundNat(n) >= 0 && Round(RoundNat(n)) == RoundNat(n)
  {
    hide Nearest, Exponent;
    var e, k := Exponent(n, 0), Nearest(n, Unit(n));
    NearestBounds(n);
    if k < TWO_53 {
      MultipleIsExact(k, e);
    } else {
      assert k * Pow2(e) == TWO_52 * Pow2(e + 1);
      MultipleIsExact(TWO_52, e + 1);
    }
  }

  // A double that is not written with all its bits can be.
  lemma {:induction false} DoubleIsFixed(k: nat, e: nat)
    requires k < TWO_53
    ensures k * Pow2(e) >= 0 && RoundNat(k * Pow2(e)) == k * Pow2(e)
    decreases e
  {
    if e == 0 || k >= TWO_52 {
      MultipleIsExact(k, e);
    } else {
      assert k * Pow2(e) == 2 * k * Pow2(e - 1);
      DoubleIsFixed(2 * k, e - 1);
    }
  }

  lemma NoMultipleBetween(k: int, q: int, u: int)
    requires u >= 1
    ensures k * u <= q * u || k * u >= (q + 1) * u
  {
    Scales(u, k, q);
    Scales(u, q + 1, k);
  }

  // A number strictly between two neighbouring multiples of a unit with all 53 bits has that unit too.
  lemma UnitBetween(n: nat, d: nat)
    requires n / Unit(n) * Unit(n) < d < (n / Unit(n) + 1) * Unit(n)
    ensures Unit(d) == Unit(n)
  {
    var u, q := Unit(n), n / Unit(n);
    QuotientFits(n);
    hide Exponent;
    Scales(u, q + 1, TWO_53);
    Scales(u, TWO_52, q);
    ExponentIs(d, Exponent(n, 0));
  }

  lemma NothingBetween(n: nat, d: nat)
    requires RoundNat(d) == d
    ensures d <= n / Unit(n) * Unit(n) || d >= (n / Unit(n) + 1) * Unit(n)
  {
    hide Nearest, Unit;
    var u, q := Unit(n), n / Unit(n);
    if q * u < d < (q + 1) * u {
      UnitBetween(n, d);
      NoMultipleBetween(Nearest(d, u), q, u);
    }
  }

  function Distance(x: int, y: int): nat {
    if x > y then x - y else y - x
  }

  lemma CloserEnd(n: int, lower: int, unit: int, rest: int, r: int, d: int)
    requires n == lower + rest && 0 <= rest < unit && (d <= lower || d >= lower + unit)
    requires (r == lower && 2 * rest <= unit) || (r == lower + unit && 2 * rest >= unit)
    ensures Distance(r, n) <= Distance(d, n)
  {
  }

  /** Rounding goes to a nearest double: no double `k * 2^e` is closer. */
  lemma RoundIsNearest(n: nat, k: nat, e: nat)
    requires k < TWO_53
    ensures Distance(RoundNat(n), n) <= Distance(k * Pow2(e), n)
  {
    hide Nearest, Unit, Pow2, Distance;
    var u, q, d := Unit(n), n / Unit(n), k * Pow2(e);
    DoubleIsFixed(k, e);
    NothingBetween(n, d);
    Division(n, u);
    NearestIsNearer(n, u);
    assert (q + 1) * u == q * u + u;
    CloserEnd(n, q * u, u, n % u, RoundNat(n), d);
  }

  lemma NearestIsNearer(n: nat, u: nat)
    requires u >= 1
    ensures Nearest(n, u) * u == if Nearest(n, u) == n / u then n - n % u else n - n % u + u
    ensures if Nearest(n, u) == n / u then 2 * (n % u) <= u else 2 * (n % u) >= u
  {
    Division(n, u);
    assert (n / u + 1) * u == n / u * u + u;
  }

  /** For every count and every max >= 0, each strategy permits what the stricter ones do. */
  lemma StrategiesAreNested(s: Strategy, t: Strategy, count: int, max: int)
    requires max >= 0 && Rank(s) <= Rank(t)
    ensures Allows(s, count, max) ==> Allows(t, count, max)
  {
    hide RoundNat;
    var r := Round(max);
    RoundIsIdempotent(max);
    RoundDoubles(r);
    RoundDoubles(2 * r);
    RoundDoubles(3 * r);
    RoundIsMonotone(4 * r, 5 * r);
    RoundIsMonotone(5 * r, 6 * r);
    RoundIsMonotone(3 * r, 4 * r);
    if count <= max { RoundIsMonotone(count, max); }
  }

  /**
   Twice a limit is compared without a second rounding: the verdict is the rounded count against the
   rounded double limit, so for every count and max a count within the limit is never refused.
   */
  lemma DoubleNeverRefusesWrongly(count: int, max: int)
    ensures Allows(Allow200, count, max) <==> Round(count) <= Round(2 * max)
    ensures AllowsExactly(Allow200, count, max) ==> Allows(Allow200, count, max)
  {
    hide RoundNat;
    RoundIsIdempotent(if max < 0 then -max else max);
    RoundDoubles(max);
    RoundDoubles(Round(max));
    if count <= 2 * max { RoundIsMonotone(count, 2 * max); }
  }

  /** The largest count a strategy means to allow. */
  function Limit(s: Strategy, max: int): (l: int)
    requires s != AlwaysAllow
    ensures AllowsExactly(s, l, max) && !AllowsExactly(s, l + 1, max)
  {
    match s
    case Allow125 => 5 * max / 4
    case Allow150 => 3 * max / 2
    case Allow200 => 2 * max
    case _ => max
  }

  /** A count is allowed whenever a larger one is, rounding included. */
  lemma AllowsIsDownwardClosed(s: Strategy, a: int, b: int, max: int)
    requires a <= b && Allows(s, b, max)
    ensures Allows(s, a, max)
  {
    hide Round;
    RoundIsMonotone(a, b);
  }

  ghost predicate IsRight(s: Strategy, max: int) {
    forall count :: Allows(s, count, max) <==> AllowsExactly(s, count, max)
  }

  /**
   For every max, the float64 verdict is right for all counts exactly when it is right at two of them:
   it allows the limit and refuses the count after it.
   */
  lemma FloatVerdictIsRightExactly(s: Strategy, max: int)
    requires s != AlwaysAllow
    ensures IsRight(s, max) <==> Allows(s, Limit(s, max), max) && !Allows(s, Limit(s, max) + 1, max)
  {
    hide Allows;
    var l := Limit(s, max);
    if Allows(s, l, max) && !Allows(s, l + 1, max) {
      forall count ensures Allows(s, count, max) <==> AllowsExactly(s, count, max) {
        if count <= l {
          AllowsIsDownwardClosed(s, count, l, max);
        } else if Allows(s, count, max) {
          AllowsIsDownwardClosed(s, l + 1, count, max);
        }
      }
    }
  }

  /**
   The same over roundings of the limit and of max alone. For Allow125 and Allow150 the rounded product must
   still separate the limit from the count after it.
   */
  lemma Allow125IsRightExactly(max: int)
    ensures var l := 5 * max / 4;
            IsRight(Allow125, max) <==> Round(4 * l) <= Round(5 * Round(max)) < Round(4 * l + 4)
  {
    hide Round;
    var l := Limit(Allow125, max);
    FourTimesRound(l);
    FourTimesRound(l + 1);
    FloatVerdictIsRightExactly(Allow125, max);
  }

  lemma Allow150IsRightExactly(max: int)
    ensures var l := 3 * max / 2;
            IsRight(Allow150, max) <==> Round(2 * l) <= Round(3 * Round(max)) < Round(2 * l + 2)
  {
    hide Round;
    var l := Limit(Allow150, max);
    RoundDoubles(l);
    RoundDoubles(l + 1);
    FloatVerdictIsRightExactly(Allow150, max);
  }

  /** For Allow200 the limit itself is always allowed, so only the next integer must round away from it. */
  lemma Allow200IsRightExactly(max: int)
    ensures IsRight(Allow200, max) <==> Round(2 * max) < Round(2 * max + 1)
  {
    hide Round;
    FloatVerdictIsRightExactly(Allow200, max);
    DoubleNeverRefusesWrongly(2 * max, max);
    DoubleNeverRefusesWrongly(2 * max + 1, max);
  }

  lemma FourTimesRound(n: int)
    ensures Round(4 * n) == 4 * Round(n)
  {
    hide Round;
    RoundDoubles(n);
    RoundDoubles(2 * n);
  }

  lemma RoundAtTwo53(k: nat)
    requires k < 0x10
    ensures RoundNat(TWO_53 + k) == TWO_53 + 2 * ((k + (if k % 4 == 3 then 1 else 0)) / 2)
  {
    assert Pow2(0) == 1 && Pow2(1) == 2;
    ExponentIs(TWO_53 + k, 1);
  }

  /** 5 * max is 2^53 + 3, a tie that rounds up: one count too many. It is the first max past the exact products. */
  lemma Allow125CanDiffer()
    ensures var max, count := 1_801_439_850_948_199, 2_251_799_813_685_249;
            && !IsExactProduct(Allow125, max) && IsExactProduct(Allow125, max - 1)
            && Allows(Allow125, count, max) && !AllowsExactly(Allow125, count, max)
  {
    SmallIsExact(1_801_439_850_948_199);
    SmallIsExact(2_251_799_813_685_249);
    RoundAtTwo53(3);
  }

  // The two verdicts just below and just above a limit decide the rest.
  lemma RightAt(max: int, limit: int, product: int)
    requires 0 <= max < TWO_53 && 0 <= limit < TWO_53 - 1
    requires limit == 3 * max / 2 && product == Round(3 * max) && 2 * limit <= product < 2 * (limit + 1)
    ensures IsRight(Allow150, max)
  {
    SmallIsExact(max);
    SmallIsExact(limit);
    SmallIsExact(limit + 1);
    FloatVerdictIsRightExactly(Allow150, max);
  }

  /** The first two maxima past the exact products of Allow150 still get the right verdicts. */
  lemma Allow150IsRightAtFirst()
    ensures var max := 3_002_399_751_580_331;
            && !IsExactProduct(Allow150, max) && IsExactProduct(Allow150, max - 1)
            && IsRight(Allow150, max) && IsRight(Allow150, max + 1)
  {
    var max := 3_002_399_751_580_331;
    RoundAtTwo53(1);
    RoundAtTwo53(4);
    RightAt(max, TWO_52, TWO_53);
    RightAt(max + 1, TWO_52 + 2, TWO_53 + 4);
  }

  /** The third does not: 3 * max is 2^53 + 7, a tie that rounds up, and one count too many is allowed. */
  lemma Allow150CanDiffer()
    ensures var max, count := 3_002_399_751_580_333, 4_503_599_627_370_500;
            Allows(Allow150, count, max) && !AllowsExactly(Allow150, count, max)
  {
    SmallIsExact(3_002_399_751_580_333);
    SmallIsExact(4_503_599_627_370_500);
    RoundAtTwo53(7);
  }

  /** 2^53 + 1 rounds down onto twice 2^52: one count too many, at the first max past the exact products. */
  lemma Allow200CanDiffer()
    ensures !IsExactProduct(Allow200, TWO_52) && IsExactProduct(Allow200, TWO_52 - 1)
    ensures Allows(Allow200, TWO_53 + 1, TWO_52) && !AllowsExactly(Allow200, TWO_53 + 1, TWO_52)
  {
    SmallIsExact(TWO_52);
    RoundAtTwo53(0);
    RoundAtTwo53(1);
  }

  /** The max after that is past the exact products too, and its verdicts are right. */
  lemma Allow200IsRightAgain()
    ensures !IsExactProduct(Allow200, TWO_52 + 1) && IsRight(Allow200, TWO_52 + 1)
  {
    RoundAtTwo53(2);
    RoundAtTwo53(3);
    Allow200IsRightExactly(TWO_52 + 1);
  }
}

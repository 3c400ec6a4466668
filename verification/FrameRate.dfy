/** The frame-rate arithmetic of VideoInfo: normalised fractions in 32-bit fields. */
module FrameRate {
  import opened Bits

  /** Operands of a scaled rate are brought below this limit. */
  const LIMIT: nat := 0x8000_0000

  // ----- greatest common divisors -----

  function Gcd(x: nat, y: nat): nat
    decreases y
  {
    if y == 0 then x else Gcd(y, x % y)
  }

  predicate Divides(k: nat, x: nat)
    requires k > 0
  {
    x % k == 0
  }

  lemma {:induction false} GcdDivides(x: nat, y: nat)
    requires x > 0 || y > 0
    ensures Gcd(x, y) > 0
    ensures Divides(Gcd(x, y), x) && Divides(Gcd(x, y), y)
    decreases y
  {
    if y == 0 {
      DivIs(x, x, 1);
      DivIs(0, x, 0);
    } else {
      GcdDivides(y, x % y);
      var g := Gcd(x, y);
      DivMod(x, y);
      DivMod(y, g);
      DivMod(x % y, g);
      var k := x / y * (y / g) + x % y / g;
      assert x == k * g by {
        Distribute(x / y * (y / g), x % y / g, g);
        MulAssoc(x / y, y / g, g);
      }
      DivIs(x, g, k);
    }
  }

  lemma {:induction false} GcdScales(k: nat, x: nat, y: nat)
    requires k > 0
    ensures 0 <= k * x && 0 <= k * y
    ensures Gcd(k * x, k * y) == k * Gcd(x, y)
    decreases y
  {
    MulLe(0, x, k);
    MulLe(0, y, k);
    if y == 0 {
    } else {
      MulLt(0, y, k);
      RemainderScales(k, x, y);
      GcdScales(k, y, x % y);
    }
  }

  lemma RemainderScales(k: nat, x: nat, y: nat)
    requires k > 0 && y > 0
    ensures k * y > 0
    ensures (k * x) % (k * y) == k * (x % y)
  {
    MulLt(0, y, k);
    DivMod(x, y);
    Distribute(x / y * y, x % y, k);
    MulAssoc(x / y, y, k);
    MulLt(x % y, y, k);
    MulLe(0, x % y, k);
    DivIs(k * x, k * y, x / y);
  }

  /** The recursion that the loops follow computes the greatest of the common divisors, which is a multiple
      of each of them. */
  lemma GcdIsGreatest(x: nat, y: nat)
    requires x > 0 || y > 0
    ensures var g := Gcd(x, y); g > 0 && x % g == 0 && y % g == 0
    ensures forall k: nat | k > 0 && x % k == 0 && y % k == 0 :: k <= Gcd(x, y) && Gcd(x, y) % k == 0
  {
    hide Gcd;
    GcdDivides(x, y);
    forall k: nat | k > 0 && x % k == 0 && y % k == 0
      ensures k <= Gcd(x, y) && Gcd(x, y) % k == 0
    {
      CommonDivisor(k, x, y);
    }
  }

  lemma CommonDivisor(k: nat, x: nat, y: nat)
    requires k > 0 && Divides(k, x) && Divides(k, y) && Gcd(x, y) > 0
    ensures k <= Gcd(x, y) && Divides(k, Gcd(x, y))
  {
    hide Gcd, Divides;
    ExactQuotient(x, k);
    ExactQuotient(y, k);
    GcdScales(k, x / k, y / k);
    Multiple(k, Gcd(x / k, y / k));
  }

  lemma Multiple(k: nat, g: nat)
    requires k > 0
    ensures 0 <= k * g && Divides(k, k * g)
    ensures k * g > 0 ==> k <= k * g
  {
    if g == 0 {
      DivIs(0, k, 0);
    } else {
      MulLe(1, g, k);
      DivIs(k * g, k, g);
    }
  }

  predicate LowestTerms(n: nat, d: nat) {
    Gcd(n, d) == 1
  }

  /** Lowest terms have no common divisor but one. */
  lemma LowestTermsMeaning(n: nat, d: nat)
    ensures LowestTerms(n, d) <==> forall k: nat | k > 1 :: !(n % k == 0 && d % k == 0)
  {
    hide Gcd;
    if n == 0 && d == 0 {
      assert Gcd(0, 0) == 0 by { GcdOfZero(0); }
      DivIs(0, 2, 0);
    } else {
      GcdIsGreatest(n, d);
    }
  }

  lemma GcdOfZero(x: nat)
    ensures Gcd(x, 0) == x
  {
  }

  /** Dividing both terms by their greatest common divisor keeps the ratio and leaves none. */
  lemma Normalised(x: nat, y: nat)
    requires x > 0 || y > 0
    ensures Gcd(x, y) > 0
    ensures 0 <= x / Gcd(x, y) && 0 <= y / Gcd(x, y)
    ensures x == Gcd(x, y) * (x / Gcd(x, y)) && y == Gcd(x, y) * (y / Gcd(x, y))
    ensures LowestTerms(x / Gcd(x, y), y / Gcd(x, y))
    ensures x / Gcd(x, y) * y == y / Gcd(x, y) * x
  {
    hide Gcd;
    GcdDivides(x, y);
    var g := Gcd(x, y);
    ExactQuotient(x, g);
    ExactQuotient(y, g);
    var a, b := x / g, y / g;
    GcdScales(g, a, b);
    UnitFactor(g, Gcd(a, b));
    CrossMultiply(a, b, g);
  }

  lemma ExactQuotient(x: nat, g: nat)
    requires g > 0 && Divides(g, x)
    ensures 0 <= x / g && x == g * (x / g)
  {
    DivMod(x, g);
    MulCancelNonneg(x, g);
  }

  lemma CrossMultiply(a: int, b: int, g: int)
    ensures a * (g * b) == b * (g * a)
  {
  }

  lemma UnitFactor(g: nat, k: nat)
    requires g > 0 && g * k == g
    ensures k == 1
  {
    if k >= 2 {
      MulLe(2, k, g);
    }
  }

  /** A fraction in lowest terms is determined by its ratio. */
  lemma LowestTermsUnique(a: nat, b: nat, c: nat, d: nat)
    requires b > 0 && d > 0
    requires LowestTerms(a, b) && LowestTerms(c, d)
    requires a * d == b * c
    ensures a == c && b == d
  {
    hide Gcd;
    if a == 0 || c == 0 {
      ZeroProduct(a, d);
      ZeroProduct(b, c);
      Gcd0(b);
      Gcd0(d);
    } else {
      GcdScales(a, c, d);
      GcdScales(c, a, b);
      assert a * c == c * a && a * d == c * b;
      MulCancelLe(b, d, a);
      MulCancelLe(d, b, a);
    }
  }

  lemma ZeroProduct(x: nat, y: nat)
    ensures x * y == 0 <==> x == 0 || y == 0
  {
    if x > 0 && y > 0 {
      MulLt(0, x, y);
    }
  }

  lemma Gcd0(b: nat)
    requires b > 0
    ensures Gcd(0, b) == b
  {
    DivIs(0, b, 0);
    assert Gcd(b, 0) == b;
  }

  /** The remainder loop that both mutators run. */
  method Euclid(numerator: nat, denominator: nat) returns (x: nat)
    ensures x == Gcd(numerator, denominator)
    ensures numerator > 0 || denominator > 0 ==> x > 0 && numerator % x == 0 && denominator % x == 0
    ensures numerator > 0 || denominator > 0 ==>
              forall k: nat | k > 0 && numerator % k == 0 && denominator % k == 0 :: k <= x && x % k == 0
  {
    x := numerator;
    var y: nat := denominator;
    while y != 0
      invariant Gcd(x, y) == Gcd(numerator, denominator)
      decreases y
    {
      DivMod(x, y);
      var t := x % y;
      x := y;
      y := t;
    }
    if numerator > 0 || denominator > 0 {
      GcdIsGreatest(numerator, denominator);
    }
  }

  // ----- scaling -----

  /** The number of halvings that bring both operands below 2^31. */
  function ScaleShift(n: nat, d: nat): nat
    decreases n + d
  {
    if n < LIMIT && d < LIMIT then 0 else 1 + ScaleShift(n / 2, d / 2)
  }

  /** It is the least such number. */
  lemma {:induction false} ScaleShiftLeast(n: nat, d: nat, u: nat)
    ensures n / Pow2(u) < 0x8000_0000 && d / Pow2(u) < 0x8000_0000 <==> u >= ScaleShift(n, d)
    decreases u
  {
    if u == 0 {
      DivIs(n, 1, n);
      DivIs(d, 1, d);
    } else {
      ScaleShiftLeast(n / 2, d / 2, u - 1);
      DivDiv(n, 2, Pow2(u - 1));
      DivDiv(d, 2, Pow2(u - 1));
      if n < LIMIT && d < LIMIT {
        DivMonotone(n, LIMIT - 1, Pow2(u));
        DivMonotone(d, LIMIT - 1, Pow2(u));
        SmallQuotient(LIMIT - 1, Pow2(u));
      }
    }
  }

  lemma SmallQuotient(x: nat, p: nat)
    requires p > 0
    ensures 0 <= x / p <= x
  {
    DivMod(x, p);
    MulCancelNonneg(x, p);
    MulLe(1, p, x / p);
  }

  /** Rounding x / 2^u to the nearest integer, halves upward. */
  function RoundShift(x: nat, u: nat): nat
    requires u > 0
  {
    MulCancelNonneg(x + Pow2(u - 1), Pow2(u));
    (x + Pow2(u - 1)) / Pow2(u)
  }

  lemma RoundShiftNearest(x: nat, u: nat)
    requires u > 0
    ensures x - Pow2(u - 1) < RoundShift(x, u) * Pow2(u) <= x + Pow2(u - 1)
    ensures RoundShift(x, u) == 0 <==> x < Pow2(u - 1)
    ensures x / Pow2(u) < LIMIT ==> RoundShift(x, u) <= LIMIT
  {
    Pow2Successor(u - 1);
    DivMod(x + Pow2(u - 1), Pow2(u));
    DivMod(x, Pow2(u));
    if x < Pow2(u - 1) {
      DivIs(x + Pow2(u - 1), Pow2(u), 0);
    } else {
      DivMonotone(Pow2(u), x + Pow2(u - 1), Pow2(u));
      DivIs(Pow2(u), Pow2(u), 1);
    }
    DivMonotone(x + Pow2(u - 1), x + 1 * Pow2(u), Pow2(u));
    DivAddMultiple(x, 1, Pow2(u));
  }

  /** Scaling keeps at least 30 significant bits of the larger operand, so rounding it changes it by
      less than one part in 2^30. */
  lemma LargerOperandAccurate(n: nat, d: nat, u: nat)
    requires u == ScaleShift(n, d) > 0
    ensures var larger := if n < d then d else n;
            && larger >= 0x4000_0000 * Pow2(u)
            && -(larger as int) <= 0x4000_0000 * (RoundShift(larger, u) * Pow2(u) - larger) <= larger
  {
    var larger := if n < d then d else n;
    ScaleShiftLeast(n, d, u - 1);
    DivMod(larger, Pow2(u - 1));
    DivMonotone(n, larger, Pow2(u - 1));
    DivMonotone(d, larger, Pow2(u - 1));
    MulLe(LIMIT, larger / Pow2(u - 1), Pow2(u - 1));
    Pow2Successor(u - 1);
    RoundShiftNearest(larger, u);
  }

  // ----- the fields -----

  /** Int64ShrlMod32: the shift count is taken modulo 32. */
  function ShrlMod32(x: nat, count: nat): nat {
    MulCancelNonneg(x, Pow2(count % 32));
    x / Pow2(count % 32)
  }

  /** (unsigned) Int64ShrlMod32(x + round, u). */
  function AddAndShift(x: nat, round: nat, u: nat): (r: nat)
    ensures r < B
  {
    ShrlMod32((x + round) % WORD, u) % B
  }

  /** (a, b) is the fraction n / d in lowest terms, or 0 / 1 when a term is zero. */
  predicate IsRate(a: nat, b: nat, n: nat, d: nat) {
    if n == 0 || d == 0 then a == 0 && b == 1
    else a > 0 && b > 0 && a * d == b * n && LowestTerms(a, b)
  }

  lemma RateUnique(a: nat, b: nat, a': nat, b': nat, n: nat, d: nat)
    requires IsRate(a, b, n, d) && IsRate(a', b', n, d)
    ensures a == a' && b == b'
  {
    if n > 0 && d > 0 {
      assert (a * b') * (d * n) == (b * a') * (d * n) by {
        assert (a * d) * (b' * n) == (b * n) * (a' * d);
        assert (a * d) * (b' * n) == (a * b') * (d * n);
        assert (b * n) * (a' * d) == (b * a') * (d * n);
      }
      MulLt(0, d, n);
      MulCancelLe(a * b', b * a', d * n);
      MulCancelLe(b * a', a * b', d * n);
      LowestTermsUnique(a, b, a', b');
    }
  }

  /** The two pairs stand for one rate, a pair with a zero term for the rate 0/1. */
  predicate SameRate(n: nat, d: nat, n': nat, d': nat) {
    if n == 0 || d == 0 then n' == 0 || d' == 0
    else n' > 0 && d' > 0 && n * d' == d * n'
  }

  /** What stands for one pair in lowest terms stands for another exactly if their rates are the same. */
  lemma RateTransfers(a: nat, b: nat, n: nat, d: nat, n': nat, d': nat)
    requires IsRate(a, b, n', d')
    ensures IsRate(a, b, n, d) <==> SameRate(n, d, n', d')
  {
    hide LowestTerms;
    if n > 0 && d > 0 && n' > 0 && d' > 0 {
      CrossRatios(a, b, n, d, n', d');
    }
  }

  lemma CrossRatios(a: nat, b: nat, n: nat, d: nat, n': nat, d': nat)
    requires a > 0 && b > 0 && n' > 0 && d' > 0 && a * d' == b * n'
    ensures a * d == b * n <==> n * d' == d * n'
  {
    assert (a * d) * n' == a * (d * n') && (b * n) * n' == n * (b * n') == n * (a * d') == a * (n * d');
    if n * d' == d * n' {
      MulCancelLe(a * d, b * n, n');
      MulCancelLe(b * n, a * d, n');
    } else if a * d == b * n {
      assert (n * d') * a == (d * n') * a;
      MulCancelLe(n * d', d * n', a);
      MulCancelLe(d * n', n * d', a);
    }
  }

  class VideoInfo {
    var fpsNumerator: nat
    var fpsDenominator: nat

    ghost predicate Valid()
      reads this
    {
      fpsNumerator < B && fpsDenominator < B
    }

    method SetFPS(numerator: nat, denominator: nat)
      requires numerator < B && denominator < B
      modifies this
      ensures Valid()
      ensures IsRate(fpsNumerator, fpsDenominator, numerator, denominator)
      ensures numerator == 0 || denominator == 0 ==> fpsNumerator == 0 && fpsDenominator == 1
      ensures numerator > 0 && denominator > 0 ==>
                && fpsNumerator > 0 && fpsDenominator > 0 && LowestTerms(fpsNumerator, fpsDenominator)
                && fpsNumerator * denominator == fpsDenominator * numerator
      ensures fpsNumerator <= numerator && (fpsDenominator <= denominator || fpsDenominator == 1)
    {
      if numerator == 0 || denominator == 0 {
        fpsNumerator := 0;
        fpsDenominator := 1;
      } else {
        var x := Euclid(numerator, denominator);
        Normalised(numerator, denominator);
        PositiveTerms(numerator, denominator);
        fpsNumerator := numerator / x;
        fpsDenominator := denominator / x;
      }
    }

    /** The products must not both be zero: the code divides by their greatest common divisor. The value of
        the undefined shift of 1 by 32 places is a parameter. */
    method MulDivFPS(multiplier: nat, divisor: nat, overshift: nat)
      requires Valid() && multiplier < B && divisor < B && overshift < B
      requires fpsNumerator * multiplier > 0 || fpsDenominator * divisor > 0
      modifies this
      ensures var n0, d0 := old(fpsNumerator) * multiplier, old(fpsDenominator) * divisor;
              var (n, d) := Reduced(n0, d0);
              n < 0x8000_0000 && d < 0x8000_0000 ==>
                && fpsNumerator == n && fpsDenominator == d
                && fpsNumerator * d0 == fpsDenominator * n0 && LowestTerms(fpsNumerator, fpsDenominator)
                && (n0 > 0 && d0 > 0 ==> fpsNumerator > 0 && fpsDenominator > 0)
                && (n0 == 0 ==> fpsNumerator == 0 && fpsDenominator == 1)
                && (d0 == 0 ==> fpsNumerator == 1 && fpsDenominator == 0)
      ensures var (n, d) := Reduced(old(fpsNumerator) * multiplier, old(fpsDenominator) * divisor);
              var u := ScaleShift(n, d);
              && (u == 0 <==> n < 0x8000_0000 && d < 0x8000_0000)
              && (0 < u <= 31 ==> IsRate(fpsNumerator, fpsDenominator, RoundShift(n, u), RoundShift(d, u)))
              && (u == 32 ==> IsRate(fpsNumerator, fpsDenominator, (n + LIMIT) % B, (d + LIMIT) % B))
              && (u == 32 ==>
                    (IsRate(fpsNumerator, fpsDenominator, RoundShift(n, u), RoundShift(d, u)) <==>
                     SameRate((n + LIMIT) / B, (d + LIMIT) / B, (n + LIMIT) % B, (d + LIMIT) % B)))
              && (u >= 33 ==> IsRate(fpsNumerator, fpsDenominator,
                                    (n + overshift) % WORD / 2 % B, (d + overshift) % WORD / 2 % B))
      ensures Valid()
    {
      hide Pow2, ScaleShift, RoundShift, AddAndShift, IsRate, SameRate, Reduced, LowestTerms;
      ProductFits(fpsNumerator, multiplier);
      ProductFits(fpsDenominator, divisor);
      var numerator, denominator := fpsNumerator * multiplier, fpsDenominator * divisor;
      numerator, denominator := Normalise(numerator, denominator);
      NoScaling(numerator, denominator);
      var u := CountHalvings(numerator, denominator);
      if u != 0 {
        var round := if u <= 32 then Pow2(u - 1) % B else overshift;
        Scaled(numerator, denominator, u, overshift, numerator);
        Scaled(numerator, denominator, u, overshift, denominator);
        SetFPS(AddAndShift(numerator, round, u), AddAndShift(denominator, round, u));
        if u == 32 {
          RoundedRate(fpsNumerator, fpsDenominator, numerator, denominator);
        }
      } else {
        ZeroTerm(numerator, denominator);
        fpsNumerator := numerator;
        fpsDenominator := denominator;
      }
    }
  }

  /** The only lowest terms of a ratio with a zero. */
  lemma ZeroTerm(a: nat, b: nat)
    requires LowestTerms(a, b)
    ensures (a == 0 ==> b == 1) && (b == 0 ==> a == 1)
  {
    hide Gcd;
    if a == 0 && b > 0 {
      Gcd0(b);
    }
    assert Gcd(a, 0) == a by { GcdOfZero(a); }
  }

  /** Both terms divided by their greatest common divisor: the one pair in lowest terms with their ratio. */
  function Reduced(n: nat, d: nat): (r: (nat, nat))
    requires n > 0 || d > 0
    ensures r.0 * d == r.1 * n && LowestTerms(r.0, r.1)
    ensures (r.0 == 0 <==> n == 0) && (r.1 == 0 <==> d == 0)
  {
    Normalised(n, d);
    ZeroProduct(Gcd(n, d), n / Gcd(n, d));
    ZeroProduct(Gcd(n, d), d / Gcd(n, d));
    (n / Gcd(n, d), d / Gcd(n, d))
  }

  /** The first half of MulDivFPS. */
  method Normalise(numerator: nat, denominator: nat) returns (n: nat, d: nat)
    requires numerator > 0 || denominator > 0
    ensures (n, d) == Reduced(numerator, denominator) && n <= numerator && d <= denominator
    ensures n * denominator == d * numerator && LowestTerms(n, d)
    ensures (n == 0 <==> numerator == 0) && (d == 0 <==> denominator == 0)
  {
    hide Gcd, LowestTerms;
    var x := Euclid(numerator, denominator);
    Normalised(numerator, denominator);
    SmallQuotient(numerator, x);
    SmallQuotient(denominator, x);
    n, d := numerator / x, denominator / x;
  }

  lemma NoScaling(n: nat, d: nat)
    ensures ScaleShift(n, d) == 0 <==> n < LIMIT && d < LIMIT
  {
  }

  lemma PositiveTerms(n: nat, d: nat)
    requires n > 0 && d > 0
    ensures Gcd(n, d) > 0
    ensures 0 < n / Gcd(n, d) <= n && 0 < d / Gcd(n, d) <= d
  {
    Normalised(n, d);
    SmallQuotient(n, Gcd(n, d));
    SmallQuotient(d, Gcd(n, d));
  }

  lemma ProductFits(x: nat, y: nat)
    requires x < B && y < B
    ensures 0 <= x * y < WORD
  {
    MulLe(0, x, y);
    MulLe(x, B - 1, y);
  }

  /** The scaling loop looks at both operands at once through their disjunction. */
  method CountHalvings(numerator: nat, denominator: nat) returns (u: nat)
    requires numerator < WORD && denominator < WORD
    ensures u == ScaleShift(numerator, denominator)
  {
    Pow2Of64();
    OrFits(numerator, denominator, 64);
    var temp := Or(numerator, denominator);
    u := 0;
    ghost var n, d := numerator, denominator;
    while And(temp, 0xFFFF_FFFF_8000_0000) != 0
      invariant temp == Or(n, d) < WORD
      invariant u + ScaleShift(n, d) == ScaleShift(numerator, denominator)
      decreases n + d
    {
      HighBits(n, d);
      Unfold(n, d);
      temp := ShrlMod32(temp, 1);
      n, d := n / 2, d / 2;
      u := u + 1;
    }
    HighBits(n, d);
  }

  lemma HighBits(n: nat, d: nat)
    requires Or(n, d) < WORD
    ensures And(Or(n, d), 0xFFFF_FFFF_8000_0000) == 0 <==> n < LIMIT && d < LIMIT
  {
    hide And, Or, Xor, Pow2;
    var temp := Or(n, d);
    Pow2Values();
    OrFits(n, d, 31);
    Split(temp % LIMIT, temp / LIMIT, 0, 0x1_FFFF_FFFF, 31);
    WithZero(temp % LIMIT);
    Pow2Successor(32);
    WithOnes(temp / LIMIT, 33);
  }

  /** Adding half and shifting computes the rounded operand as long as the count stays below 32. */
  lemma ScaledOperand(n: nat, d: nat, u: nat, x: nat)
    requires n < WORD && d < WORD && u == ScaleShift(n, d) > 0
    requires x == n || x == d
    ensures u <= 31 ==> ShrlMod32((x + Pow2(u - 1) % B) % WORD, u) % B == RoundShift(x, u)
  {
    hide Pow2, ScaleShift, RoundShift;
    if u <= 31 {
      Pow2Values();
      ScaleShiftLeast(n, d, u);
      RoundShiftNearest(x, u);
      Pow2Monotone(u - 1, 31);
      Pow2Monotone(u, 31);
      OperandBound(x, Pow2(u));
      NoWrap(x, Pow2(u - 1));
      NoWrap(RoundShift(x, u), 0);
      RoundShiftMeaning(x, u);
    }
  }

  /** The operands handed to SetFPS for every count. */
  lemma Scaled(n: nat, d: nat, u: nat, overshift: nat, x: nat)
    requires n < WORD && d < WORD && u == ScaleShift(n, d) > 0 && (x == n || x == d)
    ensures var r := AddAndShift(x, if u <= 32 then Pow2(u - 1) % B else overshift, u);
            && (u <= 31 ==> r == RoundShift(x, u))
            && (u == 32 ==> r == (x + LIMIT) % B)
            && (u >= 33 ==> r == (x + overshift) % WORD / 2 % B)
  {
    hide Pow2, ScaleShift, RoundShift, ShrlMod32;
    ScaledOperand(n, d, u, x);
    UnscaledOperand(n, d, u, overshift, x);
  }

  lemma RoundShiftMeaning(x: nat, u: nat)
    requires 0 < u <= 31
    ensures ShrlMod32(x + Pow2(u - 1), u) == RoundShift(x, u)
  {
  }

  lemma NoWrap(x: nat, h: nat)
    requires x < LIMIT * LIMIT && h < B
    ensures (x + h % B) % WORD == x + h
    ensures x < B ==> x % B == x
  {
  }

  lemma OperandBound(x: nat, p: nat)
    requires 0 < p <= LIMIT && x / p < LIMIT
    ensures x < LIMIT * LIMIT
  {
    DivMod(x, p);
    MulLe(x / p, LIMIT - 1, p);
    MulLe(p, LIMIT, LIMIT - 1);
  }

  /** The count stays below 32 exactly when both operands are below 2^62. */
  lemma ShiftCountFits(n: nat, d: nat)
    ensures ScaleShift(n, d) <= 31 <==> n < Pow2(62) && d < Pow2(62)
  {
    hide Pow2, ScaleShift;
    ScaleShiftLeast(n, d, 31);
    Pow2Values();
    Pow2Add(31, 31);
    DivMod(n, LIMIT);
    DivMod(d, LIMIT);
  }

  /** It never exceeds 33, and is 32 exactly when both operands are below 2^63 but not both below 2^62. */
  lemma ShiftCountRange(n: nat, d: nat)
    requires n < WORD && d < WORD
    ensures ScaleShift(n, d) <= 33
    ensures ScaleShift(n, d) <= 32 <==> n < Pow2(63) && d < Pow2(63)
  {
    hide Pow2, ScaleShift;
    Pow2Values();
    Pow2Successor(32);
    ScaleShiftLeast(n, d, 32);
    ScaleShiftLeast(n, d, 33);
    DivMod(n, B);
    DivMod(d, B);
    DivMod(n, 2 * B);
    DivMod(d, 2 * B);
  }

  /** From a count of 32 on the helper shifts by the count less 32: not at all, or by one place. */
  lemma UnscaledOperand(n: nat, d: nat, u: nat, overshift: nat, x: nat)
    requires n < WORD && d < WORD && u == ScaleShift(n, d) && (x == n || x == d)
    ensures u == 32 ==> ShrlMod32((x + Pow2(u - 1) % B) % WORD, u) % B == (x + LIMIT) % B
    ensures u >= 33 ==> ShrlMod32((x + overshift) % WORD, u) % B == (x + overshift) % WORD / 2 % B
  {
    hide Pow2, ScaleShift, ShrlMod32;
    ShiftCountRange(n, d);
    Pow2Values();
    ShiftModulo32((x + LIMIT) % WORD);
    ShiftModulo32((x + overshift) % WORD);
    if u == 32 {
      DivIs(x + LIMIT, WORD, 0);
    }
  }

  lemma ShiftModulo32(x: nat)
    ensures ShrlMod32(x, 32) == x && ShrlMod32(x, 33) == x / 2
  {
    DivIs(x, 1, x);
  }

  /** A count of 32 yields the rounded operand for those operands alone that exceed a multiple of 2^32 + 1 by
      2^31 + 1. */
  lemma UnshiftedOperand(x: nat)
    requires x < Pow2(63)
    ensures (x + LIMIT) % B == RoundShift(x, 32) <==> (x + LIMIT) % (B + 1) == 0
  {
    hide Pow2;
    Pow2Values();
    RoundShiftByWord(x);
    var a, b := (x + LIMIT) / B, (x + LIMIT) % B;
    DivMod(x + LIMIT, B);
    assert x + LIMIT == a * (B + 1) + (b - a);
    if a <= b {
      DivIs(x + LIMIT, B + 1, a);
    } else {
      DivIs(x + LIMIT, B + 1, a - 1);
    }
  }

  /** At a count of 32 the code stores the rate of the rounded operands exactly if the low words of the two
      sums, which it keeps, stand in the ratio of the high words, which it drops. */
  lemma RoundedRate(a: nat, b: nat, n: nat, d: nat)
    requires IsRate(a, b, (n + LIMIT) % B, (d + LIMIT) % B)
    ensures IsRate(a, b, RoundShift(n, 32), RoundShift(d, 32))
       <==> SameRate((n + LIMIT) / B, (d + LIMIT) / B, (n + LIMIT) % B, (d + LIMIT) % B)
  {
    hide IsRate, SameRate, RoundShift;
    RoundShiftByWord(n);
    RoundShiftByWord(d);
    RateTransfers(a, b, (n + LIMIT) / B, (d + LIMIT) / B, (n + LIMIT) % B, (d + LIMIT) % B);
  }

  lemma RoundShiftByWord(x: nat)
    ensures RoundShift(x, 32) == (x + LIMIT) / B
  {
    hide Pow2;
    Pow2Values();
  }

  /** At 2^62 over 1 the count reaches 32 and the operands go unscaled: the rounded operands mean 0/1, but
      the code stores 2147483648/2147483649. At 2^63 over 1 the count is 33. */
  lemma ShiftCountWraps()
    ensures var x := 0x4000_0000_0000_0000;
            && ScaleShift(x, 1) == 32 && ScaleShift(2 * x, 1) == 33
            && IsRate(0, 1, RoundShift(x, 32), RoundShift(1, 32))
            && IsRate(2147483648, 2147483649, (x + LIMIT) % B, (1 + LIMIT) % B)
  {
    hide Pow2, ScaleShift;
    var x := 0x4000_0000_0000_0000;
    Pow2Values();
    Pow2Add(31, 31);
    ShiftCountFits(x, 1);
    ShiftCountRange(x, 1);
    ShiftCountRange(2 * x, 1);
    RoundShiftByWord(x);
    RoundShiftByWord(1);
    Neighbours();
  }

  lemma Neighbours()
    ensures LowestTerms(2147483648, 2147483649)
  {
    assert Gcd(1, 0) == 1;
    assert Gcd(2147483648, 1) == 1;
    assert Gcd(2147483649, 2147483648) == 1;
  }
}

/** Bit counting and the wide divisions that the generators rest on. */
module LongDivision {
  import opened Bits

  // ----- bit counting -----

  method CountLeadingZeros(w: nat, val: nat) returns (result: nat)
    requires 0 < val < Pow2(w)
    ensures result == w - 1 - FloorLog2(val)
  {
    var v := val;
    result := 0;
    while And(v, Pow2(w - 1)) == 0
      invariant result < w && v < Pow2(w)
      invariant v == Shifted(val, result)
      decreases w - result
    {
      ShiftStep(w, val, result);
      v := (v * 2) % Pow2(w);
      result := result + 1;
    }
    LeadingBit(w, val, result);
  }

  function Shifted(val: nat, s: nat): (r: nat)
    ensures r >= val
  {
    MulLe(1, Pow2(s), val);
    val * Pow2(s)
  }

  lemma ShiftStep(w: nat, val: nat, s: nat)
    requires 0 < val && s < w && Shifted(val, s) < Pow2(w)
    requires And(Shifted(val, s), Pow2(w - 1)) == 0
    ensures (Shifted(val, s) * 2) % Pow2(w) == Shifted(val, s) * 2 == Shifted(val, s + 1) < Pow2(w)
    ensures s + 1 < w
  {
    TopBitClear(Shifted(val, s), w - 1);
    Double(val, Pow2(s));
    DivIs(Shifted(val, s) * 2, Pow2(w), 0);
    if s + 1 == w {
      MulLe(1, val, Pow2(w));
    }
  }

  lemma LeadingBit(w: nat, val: nat, s: nat)
    requires 0 < val && s < w && Shifted(val, s) < Pow2(w)
    requires And(Shifted(val, s), Pow2(w - 1)) != 0
    ensures FloorLog2(val) == w - 1 - s
  {
    TopBitClear(Shifted(val, s), w - 1);
    Pow2Add(w - 1 - s, s);
    Pow2Add(w - s, s);
    MulCancelLe(Pow2(w - 1 - s), val, Pow2(s));
    MulCancelLt(val, Pow2(w - s), Pow2(s));
    FloorLog2Is(val, w - 1 - s);
  }

  lemma TopBitClear(v: nat, k: nat)
    requires v < 2 * Pow2(k)
    ensures And(v, Pow2(k)) == 0 <==> v < Pow2(k)
  {
    AndBit(v, k);
    DivIs(v, Pow2(k), if v < Pow2(k) then 0 else 1);
  }

  method CountTrailingZeros32(val: nat) returns (result: nat)
    requires 0 < val < B
    ensures result < 32
    ensures val % Pow2(result) == 0 && (val / Pow2(result)) % 2 == 1
  {
    hide Pow2, Xor;
    Pow2Values();
    ghost var k, odd := LowestSetBit(val);
    XorPredecessor(odd, k);
    Pow2Successor(k);
    var v := Xor(val, val - 1) / 2;
    result := 0;
    while v != 0
      invariant result <= k
      invariant v == Pow2(k - result) - 1
    {
      Positive(k - result);
      v := v / 2;
      result := result + 1;
    }
    Positive(k - result);
    DivIs(val, Pow2(k), odd);
    if k >= 32 {
      Pow2Monotone(32, k);
      MulLe(1, odd, Pow2(k));
    }
  }

  lemma Positive(k: nat)
    ensures Pow2(k) == 1 <==> k == 0
    ensures k > 0 ==> Pow2(k) == 2 * Pow2(k - 1)
  {
  }

  lemma {:induction false} LowestSetBit(val: nat) returns (k: nat, odd: nat)
    requires val > 0
    ensures odd % 2 == 1 && val == odd * Pow2(k)
  {
    if val % 2 == 1 {
      k, odd := 0, val;
    } else {
      k, odd := LowestSetBit(val / 2);
      Double(odd, Pow2(k));
      k := k + 1;
    }
  }

  method CountTrailingZeros64(val: nat) returns (result: nat)
    requires 0 < val < WORD
    ensures result < 64
    ensures val % Pow2(result) == 0 && (val / Pow2(result)) % 2 == 1
  {
    hide And, Pow2;
    Pow2Values();
    AndMask(val, 32);
    var lo := And(val, 0xFFFF_FFFF);
    if lo != 0 {
      result := CountTrailingZeros32(lo);
      HighPartIrrelevant(val, result);
    } else {
      var r := CountTrailingZeros32(val / B);
      result := 32 + r;
      Pow2Add(32, r);
      DivDiv(val, B, Pow2(r));
      DivMod(val / B, Pow2(r));
      DivMod(val, B);
      MulAssoc(val / B / Pow2(r), Pow2(r), B);
      DivIs(val, Pow2(result), val / B / Pow2(r));
    }
  }

  lemma HighPartIrrelevant(val: nat, k: nat)
    requires k < 32
    requires (val % B) % Pow2(k) == 0 && (val % B / Pow2(k)) % 2 == 1
    ensures val % Pow2(k) == 0 && (val / Pow2(k)) % 2 == 1
  {
    DivMod(val, B);
    EvenMultiple(val / B, k);
    LowField(val % B, (val / B) * Pow2(31 - k), Pow2(k));
  }

  lemma LowField(lo: nat, c: nat, p: nat)
    requires p > 0 && lo % p == 0 && (lo / p) % 2 == 1
    ensures 0 <= (2 * c) * p
    ensures (lo + (2 * c) * p) % p == 0 && ((lo + (2 * c) * p) / p) % 2 == 1
  {
    MulLe(0, 2 * c, p);
    DivAddMultiple(lo, 2 * c, p);
    EvenIncrement(lo / p, c);
  }

  lemma EvenIncrement(x: int, c: int)
    ensures (x + 2 * c) % 2 == x % 2
  {
    DivAddMultiple(x, c, 2);
  }

  lemma EvenMultiple(h: nat, k: nat)
    requires k < 32
    ensures h * B == (2 * (h * Pow2(31 - k))) * Pow2(k)
  {
    Pow2Values();
    Pow2Add(31 - k, k);
    MulAssoc(h, Pow2(31 - k), Pow2(k));
    MulAssoc(2, h * Pow2(31 - k), Pow2(k));
  }

  // ----- 64 by 32 -----

  /** The quotient is truncated to 32 bits, so it is exact precisely when the high word is below v. */
  method Divide64By32(u1: nat, u0: nat, v: nat) returns (result: nat, r: nat)
    requires u1 < B && u0 < B && 0 < v < B
    ensures result == (u1 * B + u0) / v <==> u1 < v
    ensures u1 < v ==> r == (u1 * B + u0) % v
    ensures result == (u1 * B + u0) / v % B && r == (u1 * B + u0 - result * v) % B
  {
    Pow2Values();
    OrDisjoint(u0, u1, 32);
    TruncatedDivision(u1, u0, v);
    var n := Or(u1 * B, u0);
    result := (n / v) % B;
    r := (n - result * v) % B;
  }

  lemma TruncatedDivision(u1: nat, u0: nat, v: nat)
    requires u1 < B && u0 < B && 0 < v < B
    ensures var n := u1 * B + u0;
            var q := (n / v) % B;
            (q == n / v <==> u1 < v) && (u1 < v ==> (n - q * v) % B == n % v)
  {
    var n := u1 * B + u0;
    QuotientFits(u1, u0, v, B);
    DivMod(n, v);
    MulCancelNonneg(n, v);
  }

  /** A two-digit dividend has a one-digit quotient exactly when its high digit is below the divisor. */
  lemma QuotientFits(u1: nat, u0: nat, v: nat, b: nat)
    requires v > 0 && u0 < b
    ensures 0 <= (u1 * b + u0) / v
    ensures (u1 * b + u0) / v < b <==> u1 < v
  {
    var n := u1 * b + u0;
    var q := n / v;
    DivMod(n, v);
    MulLe(0, u1, b);
    MulCancelNonneg(n, v);
    if u1 < v {
      MulLe(u1 + 1, v, b);
      Distribute(u1, 1, b);
      MulCancelLt(q, b, v);
    } else {
      MulLe(v, u1, b);
      if q < b {
        MulLe(q + 1, b, v);
        Distribute(q, 1, v);
      }
    }
  }

  // ----- 128 by 64 -----

  /** Where the digit loop ends when the quotient does not fit one digit: it corrects once, and once more
      if the estimate is still too large and the remainder has not reached B. */
  function OverflowDigit(u: nat, vn1: nat): int
    requires vn1 > 0
  {
    u / vn1 - (if u / vn1 > B && u % vn1 + vn1 < B then 2 else 1)
  }

  /** One quotient digit of the normalised division of u * B + d by vn1 * B + vn0: the estimate
      u / vn1 never drops below the true digit, exceeds it by `corrections`, at most 2, and both
      sides of the test stay below 2^64. The caller's goto loop is the while loop here. */
  method QuotientDigit(u: nat, d: nat, vn1: nat, vn0: nat) returns (q: nat, ghost corrections: nat)
    requires u < WORD && d < B && vn0 < B
    requires B <= 2 * vn1 && vn1 < B
    ensures corrections <= 2
    ensures q + corrections == u / vn1
    ensures u < vn1 * B + vn0 ==> q == (u * B + d) / (vn1 * B + vn0)
    ensures u >= vn1 * B + vn0 ==> q == OverflowDigit(u, vn1)
    ensures corrections >= 1 ==>
              u / vn1 >= B || (u / vn1 * vn0) % WORD > (B * (u - u / vn1 * vn1) + d) % WORD
    ensures corrections == 2 ==>
              && u - (q + 1) * vn1 < B
              && (q + 1 >= B || ((q + 1) * vn0) % WORD > (B * (u - (q + 1) * vn1) + d) % WORD)
    ensures (corrections > 0 && u - q * vn1 >= B)
            || (q < B && (q * vn0) % WORD <= (B * (u - q * vn1) + d) % WORD)
  {
    ghost var v := vn1 * B + vn0;
    ghost var digit := (u * B + d) / v;
    q := u / vn1;
    corrections := 0;
    DivMod(u, vn1);
    MulCancelNonneg(u, vn1);
    var rhat := u - q * vn1;
    QuotientFits(u, d, v, B);
    EstimateBounds(u, d, vn1, vn0);
    OverflowEstimate(u, vn1);
    while q >= B || (q * vn0) % WORD > (B * rhat + d) % WORD
      invariant 0 <= rhat < B
      invariant q * vn1 + rhat == u
      invariant q + corrections == u / vn1
      invariant rhat == u % vn1 + corrections * vn1
      invariant corrections <= 1
      invariant u < v ==> digit <= q
      invariant corrections == 1 ==>
                  u / vn1 >= B || (u / vn1 * vn0) % WORD > (B * (u - u / vn1 * vn1) + d) % WORD
      decreases 2 - corrections
    {
      TooLarge(u, d, vn1, vn0, q, rhat);
      if u >= v && corrections == 1 {
        SecondCorrection(u, d, vn1, vn0, q, rhat);
      }
      q := q - 1;
      rhat := rhat + vn1;
      corrections := corrections + 1;
      if rhat >= B {
        if u < v {
          LargeRemainder(u, d, vn1, vn0, q, rhat);
        }
        return;
      }
    }
    SmallEnough(u, d, vn1, vn0, q, rhat);
  }

  lemma OverflowEstimate(u: nat, vn1: nat)
    requires vn1 > 0
    ensures u >= vn1 * B ==> u / vn1 >= B
  {
    DivMod(u, vn1);
    if u >= vn1 * B && u / vn1 < B {
      MulLe(u / vn1 + 1, B, vn1);
      Distribute(u / vn1, 1, vn1);
    }
  }

  /** With an overflowing quotient the loop does not correct an estimate of B twice. */
  lemma SecondCorrection(u: nat, d: nat, vn1: nat, vn0: nat, q: nat, rhat: nat)
    requires vn1 * B + vn0 <= u && d < B && vn0 < B && 0 < vn1 && rhat < B
    requires q + 1 == u / vn1 && rhat == u % vn1 + vn1
    requires q >= B || (q * vn0) % WORD > (B * rhat + d) % WORD
    ensures u / vn1 > B
  {
    OverflowEstimate(u, vn1);
    DivMod(u, vn1);
    if q < B {
      SmallProduct(q, vn0);
      MulLe(q, B, vn0);
    }
  }

  lemma SmallEnough(u: nat, d: nat, vn1: nat, vn0: nat, q: nat, rhat: nat)
    requires d < B && vn0 < B && 0 < vn1 && rhat < B
    requires q * vn1 + rhat == u
    requires q < B && (q * vn0) % WORD <= (B * rhat + d) % WORD
    ensures 0 < vn1 * B
    ensures q <= (u * B + d) / (vn1 * B + vn0)
  {
    SmallProduct(q, vn0);
    DigitTest(u, d, vn1, vn0, q, rhat);
  }

  lemma TooLarge(u: nat, d: nat, vn1: nat, vn0: nat, q: nat, rhat: nat)
    requires u < WORD && d < B && vn0 < B && 0 < vn1 && rhat < B
    requires q * vn1 + rhat == u
    requires q >= B || (q * vn0) % WORD > (B * rhat + d) % WORD
    ensures q > 0 && (q - 1) * vn1 + (rhat + vn1) == u
    ensures 0 < vn1 * B
    ensures u < vn1 * B + vn0 ==> q > (u * B + d) / (vn1 * B + vn0)
  {
    Distribute(q, 1, vn1);
    QuotientFits(u, d, vn1 * B + vn0, B);
    if q < B {
      SmallProduct(q, vn0);
      DigitTest(u, d, vn1, vn0, q, rhat);
    }
  }

  lemma SmallProduct(q: nat, vn0: nat)
    requires q < B && vn0 < B
    ensures 0 <= q * vn0 < WORD
  {
    MulLe(0, q, vn0);
    MulLe(q, B, vn0);
  }

  /** The first estimate is never too small, and at most B + 1. */
  lemma EstimateBounds(u: nat, d: nat, vn1: nat, vn0: nat)
    requires d < B && vn0 < B && B <= 2 * vn1
    requires vn1 > 0
    ensures (u * B + d) / (vn1 * B + vn0) <= u / vn1
    ensures u < vn1 * B + vn0 ==> u / vn1 <= B + 1
  {
    var v, q := vn1 * B + vn0, u / vn1;
    var digit := (u * B + d) / v;
    DivMod(u, vn1);
    DivMod(u * B + d, v);
    MulCancelNonneg(u * B + d, v);
    MulLe(0, digit, vn0);
    assert digit * v == digit * vn1 * B + digit * vn0 by {
      MulAssoc(digit, vn1, B);
    }
    if q < digit {
      MulLe(q + 1, digit, vn1);
      Distribute(q, 1, vn1);
    }
    if u < v && q >= B + 2 {
      MulLe(B + 2, q, vn1);
      Distribute(B, 2, vn1);
    }
  }

  /** The correction test decides whether the estimate is above the true digit. */
  lemma DigitTest(u: nat, d: nat, vn1: nat, vn0: nat, q: nat, rhat: nat)
    requires vn1 > 0 && q * vn1 + rhat == u
    ensures 0 < vn1 * B
    ensures q <= (u * B + d) / (vn1 * B + vn0) <==> q * vn0 <= B * rhat + d
  {
    var v := vn1 * B + vn0;
    var digit := (u * B + d) / v;
    DivMod(u * B + d, v);
    assert q * v == (u - rhat) * B + q * vn0 by {
      MulAssoc(q, vn1, B);
    }
    assert q * v - (u * B + d) == q * vn0 - (B * rhat + d);
    if q <= digit {
      MulLe(q, digit, v);
    } else {
      MulLe(digit + 1, q, v);
      Distribute(digit, 1, v);
    }
  }

  /** Once the running remainder reaches B the estimate cannot be too large any more. */
  lemma LargeRemainder(u: nat, d: nat, vn1: nat, vn0: nat, q: nat, rhat: nat)
    requires vn0 < B && vn1 > 0 && q <= B && rhat >= B
    requires q * vn1 + rhat == u
    ensures 0 < vn1 * B
    ensures q <= (u * B + d) / (vn1 * B + vn0)
  {
    DigitTest(u, d, vn1, vn0, q, rhat);
    MulLe(q, B, vn0);
    MulLe(0, q, vn0);
  }

  /** The dividend the routine actually divides: with a normalised divisor (v >= 2^63) the high
      word is merged with the low one by a bitwise or. */
  function EffectiveDividend(u1: nat, u0: nat, v: nat): nat {
    (if v < WORD / 2 then u1 else Or(u1, u0)) * WORD + u0
  }

  /** Shifts the divisor until its top bit is set, and the dividend with it. */
  method NormaliseOperands(u1: nat, u0: nat, v: nat) returns (s: nat, vn: nat, un64: nat, un10: nat)
    requires u1 < v < WORD && u0 < WORD
    ensures s < 64
    ensures Normalised(u1, u0, v, s, vn, un64, un10)
    ensures vn == v * Pow2(s) && WORD / 2 <= vn < WORD && un64 < WORD && un10 < WORD
    ensures v < WORD / 2 ==> un64 < vn && un64 * WORD + un10 == (u1 * WORD + u0) * Pow2(s)
    ensures v >= WORD / 2 ==> s == 0 && un64 == Or(u1, u0) && un10 == u0
  {
    hide And, Or, Pow2, FloorLog2;
    Pow2Values();
    s := CountLeadingZeros(64, v);
    if s > 0 {
      Pow2Monotone(64 - s, 63);
      Normalise(u1, u0, v, s);
      vn := (v * Pow2(s)) % WORD;
      un64 := Or((u1 * Pow2(s)) % WORD, And(u0 / Pow2(64 - s), WORD - 1));
      un10 := (u0 * Pow2(s)) % WORD;
    } else {
      OrFits(u1, u0, 64);
      assert v * Pow2(0) == v;
      vn := v;
      un64 := Or(u1, u0);
      un10 := u0;
    }
  }

  method Divide128By64(u1: nat, u0: nat, v: nat) returns (q: nat, r: nat)
    requires u1 < WORD && u0 < WORD && v < WORD
    ensures u1 >= v ==> q == r == WORD - 1
    ensures u1 < v < WORD / 2 ==> q == (u1 * WORD + u0) / v && r == (u1 * WORD + u0) % v
    ensures u1 <= Or(u1, u0) < v && v >= WORD / 2 ==>
              q == (Or(u1, u0) * WORD + u0) / v && r == (Or(u1, u0) * WORD + u0) % v
    ensures u1 < v && v >= WORD / 2 && Or(u1, u0) >= v ==> q == MergedQuotient(Or(u1, u0), u0, v)
    ensures u1 < v ==> r == (u0 - q * v) % WORD
  {
    hide And, Or, Pow2, MergedQuotient, Digit, Normalised;
    OrAtLeast(u1, u0);
    if u1 >= v {
      return WORD - 1, WORD - 1;
    }
    var s, vn, un64, un10 := NormaliseOperands(u1, u0, v);
    NormalisedRange(u1, u0, v, s, vn, un64, un10);
    LowDigit(vn);
    LowDigit(un10);
    var vn1, vn0 := vn / B, And(vn, 0xFFFF_FFFF);
    var un1, un0 := un10 / B, And(un10, 0xFFFF_FFFF);
    var q1, c1 := QuotientDigit(un64, un1, vn1, vn0);
    var un21 := (un64 * B + un1 - q1 * vn) % WORD;
    var q0, c0 := QuotientDigit(un21, un0, vn1, vn0);
    var rem: nat := (un21 * B + un0 - q0 * vn) % WORD;
    MulCancelNonneg(rem, Pow2(s));
    r := rem / Pow2(s);
    q := (q1 * B + q0) % WORD;
    DigitIs(un64, un1, vn, q1);
    DigitIs(un21, un0, vn, q0);
    Assemble(u1, u0, v, s, vn, un64, un10, q1, un21, q0);
  }

  lemma NormalisedRange(u1: nat, u0: nat, v: nat, s: nat, vn: nat, un64: nat, un10: nat)
    requires Normalised(u1, u0, v, s, vn, un64, un10)
    ensures WORD / 2 <= vn < WORD && un64 < WORD && un10 < WORD && B <= 2 * (vn / B) && vn / B < B
  {
  }

  lemma DigitIs(u: nat, d: nat, v: nat, q: int)
    requires B <= v < WORD
    requires u < v / B * B + v % B ==> q == (u * B + d) / (v / B * B + v % B)
    requires u >= v / B * B + v % B ==> q == OverflowDigit(u, v / B)
    ensures q == Digit(u, d, v)
  {
    hide OverflowDigit;
    DivMod(v, B);
  }

  /** One digit of a division whose divisor has its top bit set. */
  function Digit(u: nat, d: nat, v: nat): int
    requires v >= B
  {
    if u < v then (u * B + d) / v else OverflowDigit(u, v / B)
  }

  /** The quotient that the routine returns when the merged high word is not below the divisor. */
  function MergedQuotient(merged: nat, u0: nat, v: nat): int
    requires v >= B
  {
    var q1 := Digit(merged, u0 / B, v);
    (q1 * B + Digit((merged * B + u0 / B - q1 * v) % WORD, u0 % B, v)) % WORD
  }

  /** That quotient in one piece: the first digit overflows, and the second may. */
  lemma MergedQuotientIs(m: nat, u0: nat, v: nat)
    requires m >= v >= WORD / 2
    ensures var h := v / B;
            var q1 := m / h - (if m / h > B && m % h + h < B then 2 else 1);
            var r1 := (m * B + u0 / B - q1 * v) % WORD;
            var q0 := if r1 < v then (r1 * B + u0 % B) / v
                      else r1 / h - (if r1 / h > B && r1 % h + h < B then 2 else 1);
            MergedQuotient(m, u0, v) == (q1 * B + q0) % WORD
  {
  }

  lemma ExactRemainder(u1: nat, u0: nat, v: nat)
    requires 0 < v < WORD && u0 < WORD
    ensures var n := EffectiveDividend(u1, u0, v); n % v == (u0 - n / v * v) % WORD
  {
    hide Or;
    var n := EffectiveDividend(u1, u0, v);
    WrappedRemainder(n, v);
    DivAddMultiple(u0 - n / v * v, if v < WORD / 2 then u1 else Or(u1, u0), WORD);
  }

  /** The last remainder is the one that belongs to the returned quotient, whatever the digits are. */
  lemma MergedRemainder(merged: nat, u0: nat, v: nat, q1: int, r1: int, q0: int)
    requires r1 == (merged * B + u0 / B - q1 * v) % WORD
    ensures (r1 * B + u0 % B - q0 * v) % WORD == (u0 - (q1 * B + q0) % WORD * v) % WORD
  {
    var x, q := merged * B + u0 / B - q1 * v, q1 * B + q0;
    DivMod(x, WORD);
    DivMod(q, WORD);
    var j, k := x / WORD, q / WORD;
    Expansion(merged, u0, v, q1, q0, j);
    Distribute(k * WORD, q % WORD, v);
    assert k * WORD * v == k * v * WORD;
    DivAddMultiple(u0 - q * v, merged - j * B, WORD);
    DivAddMultiple(u0 - q * v, k * v, WORD);
  }

  lemma Expansion(merged: int, u0: int, v: int, q1: int, q0: int, j: int)
    ensures (merged * B + u0 / B - q1 * v - j * WORD) * B + u0 % B - q0 * v
         == u0 - (q1 * B + q0) * v + (merged - j * B) * WORD
  {
    Distribute(q1 * B, q0, v);
    assert q1 * B * v == q1 * v * B;
  }

  /** The state after normalisation: divisor with its top bit set, both operands scaled by 2^s. */
  ghost predicate Normalised(u1: nat, u0: nat, v: nat, s: nat, vn: nat, un64: nat, un10: nat) {
    && WORD / 2 <= vn < WORD && un64 < WORD && un10 < WORD
    && vn == v * Pow2(s)
    && (v >= WORD / 2 ==> s == 0 && un64 == Or(u1, u0) && un10 == u0)
    && (v < WORD / 2 || Or(u1, u0) < v ==>
          un64 < vn && un64 * WORD + un10 == EffectiveDividend(u1, u0, v) * Pow2(s))
  }

  /** From the two digits to the results: true division of the dividend the routine works on when its
      high word is below the divisor, and a remainder that fits the quotient in every case. */
  lemma Assemble(u1: nat, u0: nat, v: nat, s: nat, vn: nat, un64: nat, un10: nat, q1: int, un21: nat, q0: int)
    requires 0 < v < WORD && u0 < WORD && Normalised(u1, u0, v, s, vn, un64, un10)
    requires q1 == Digit(un64, un10 / B, vn)
    requires un21 == (un64 * B + un10 / B - q1 * vn) % WORD
    requires q0 == Digit(un21, un10 % B, vn)
    ensures var q, r := (q1 * B + q0) % WORD, ((un21 * B + un10 % B - q0 * vn) % WORD) / Pow2(s);
            && (v < WORD / 2 || Or(u1, u0) < v ==>
                  q == EffectiveDividend(u1, u0, v) / v && r == EffectiveDividend(u1, u0, v) % v)
            && (v >= WORD / 2 && Or(u1, u0) >= v ==> q == MergedQuotient(Or(u1, u0), u0, v))
            && r == (u0 - q * v) % WORD
  {
    hide And, Or, Pow2, EffectiveDividend, Digit, MergedQuotient, Normalised;
    NormalisedRange(u1, u0, v, s, vn, un64, un10);
    if v < WORD / 2 || Or(u1, u0) < v {
      ExactDigits(u1, u0, v, s, vn, un64, un10, q1, un21, q0);
      ExactRemainder(u1, u0, v);
    } else {
      MergedDigits(u1, u0, v, s, vn, un64, un10, q1, un21, q0);
    }
  }

  lemma DigitBelow(u: nat, d: nat, v: nat)
    requires v >= B
    ensures u < v ==> Digit(u, d, v) == (u * B + d) / v
  {
  }

  lemma NormalisedExactly(u1: nat, u0: nat, v: nat, s: nat, vn: nat, un64: nat, un10: nat)
    requires Normalised(u1, u0, v, s, vn, un64, un10) && (v < WORD / 2 || Or(u1, u0) < v)
    ensures un64 < vn && vn == v * Pow2(s) && B <= vn < WORD && un10 < WORD
    ensures un64 * WORD + un10 == EffectiveDividend(u1, u0, v) * Pow2(s)
  {
  }

  lemma MergedDigits(u1: nat, u0: nat, v: nat, s: nat, vn: nat, un64: nat, un10: nat, q1: int, un21: nat, q0: int)
    requires B <= v && Normalised(u1, u0, v, s, vn, un64, un10) && v >= WORD / 2
    requires q1 == Digit(un64, un10 / B, vn)
    requires un21 == (un64 * B + un10 / B - q1 * vn) % WORD
    requires q0 == Digit(un21, un10 % B, vn)
    ensures un10 == u0 && (q1 * B + q0) % WORD == MergedQuotient(Or(u1, u0), u0, v)
    ensures ((un21 * B + un10 % B - q0 * vn) % WORD) / Pow2(s) == (u0 - (q1 * B + q0) % WORD * v) % WORD
  {
    hide And, Or, Pow2, Digit;
    Pow2Successor(0);
    DivIs((un21 * B + un10 % B - q0 * vn) % WORD, 1, (un21 * B + un10 % B - q0 * vn) % WORD);
    MergedRemainder(un64, u0, v, q1, un21, q0);
  }

  lemma ExactDigits(u1: nat, u0: nat, v: nat, s: nat, vn: nat, un64: nat, un10: nat, q1: int, un21: nat, q0: int)
    requires v > 0 && Normalised(u1, u0, v, s, vn, un64, un10)
    requires v < WORD / 2 || Or(u1, u0) < v
    requires q1 == Digit(un64, un10 / B, vn)
    requires un21 == (un64 * B + un10 / B - q1 * vn) % WORD
    requires q0 == Digit(un21, un10 % B, vn)
    ensures (q1 * B + q0) % WORD == EffectiveDividend(u1, u0, v) / v
    ensures ((un21 * B + un10 % B - q0 * vn) % WORD) / Pow2(s) == EffectiveDividend(u1, u0, v) % v
  {
    hide Or, Pow2, And, EffectiveDividend, OverflowDigit, Digit, Normalised;
    LowDigit(un10);
    NormalisedExactly(u1, u0, v, s, vn, un64, un10);
    DigitBelow(un64, un10 / B, vn);
    DigitBelow(un21, un10 % B, vn);
    var n, p := EffectiveDividend(u1, u0, v), Pow2(s);
    TwoDigits(n * p, un64, un10 / B, un10 % B, vn, q1, un21, q0);
    ScaledDivision(n, v, p);
  }

  /** Shifting divisor and dividend left by s loses nothing and keeps the high word below the divisor. */
  lemma Normalise(u1: nat, u0: nat, v: nat, s: nat)
    requires u1 < v < WORD / 2 && u0 < WORD && 0 < s < 64
    requires Pow2(63 - s) <= v < Pow2(64 - s)
    ensures 0 <= u1 * Pow2(s) && 0 <= v * Pow2(s) && 0 <= u0 * Pow2(s) && 0 <= u0 / Pow2(64 - s)
    ensures var un64 := Or((u1 * Pow2(s)) % WORD, And(u0 / Pow2(64 - s), WORD - 1));
            Normalised(u1, u0, v, s, (v * Pow2(s)) % WORD, un64, (u0 * Pow2(s)) % WORD)
  {
    hide Pow2, And, Or;
    Pow2Values();
    var p, hi := Pow2(s), u0 / Pow2(64 - s);
    ShiftHigh(u1, v, s);
    ShiftLow(u0, s);
    AndMask(hi, 64);
    OrDisjoint(hi, u1, s);
    ScaledWords(u1, u0, p);
    WordsJoin(u1 * p, v * p, u0 * p, hi, p);
  }

  lemma WordsJoin(u1: nat, v: nat, u0: nat, hi: nat, p: nat)
    requires hi < p <= WORD && u1 + p <= v < WORD
    requires u0 == hi * WORD + u0 % WORD
    ensures u1 % WORD == u1 && v % WORD == v && hi % WORD == hi
    ensures u1 + hi < v
    ensures (u1 + hi) * WORD + u0 % WORD == u1 * WORD + u0
  {
  }

  lemma ScaledWords(u1: nat, u0: nat, p: nat)
    ensures (u1 * WORD + u0) * p == (u1 * p) * WORD + u0 * p
  {
    Distribute(u1 * WORD, u0, p);
  }

  lemma ShiftHigh(u1: nat, v: nat, s: nat)
    requires u1 < v && 0 < s < 64
    requires Pow2(63 - s) <= v < Pow2(64 - s)
    ensures WORD / 2 <= v * Pow2(s) < WORD
    ensures 0 <= u1 * Pow2(s) && u1 * Pow2(s) + Pow2(s) <= v * Pow2(s)
  {
    Pow2Values();
    Pow2Add(64 - s, s);
    Pow2Add(63 - s, s);
    MulLe(Pow2(63 - s), v, Pow2(s));
    MulLt(v, Pow2(64 - s), Pow2(s));
    MulLe(u1 + 1, v, Pow2(s));
    Distribute(u1, 1, Pow2(s));
    MulLe(0, u1, Pow2(s));
  }

  lemma ShiftLow(u0: nat, s: nat)
    requires u0 < WORD && 0 < s < 64
    ensures 0 <= u0 / Pow2(64 - s) < Pow2(s) <= WORD
    ensures 0 <= u0 * Pow2(s)
    ensures u0 * Pow2(s) == (u0 / Pow2(64 - s)) * WORD + (u0 * Pow2(s)) % WORD
  {
    Pow2Values();
    var p, c := Pow2(s), Pow2(64 - s);
    Pow2Add(s, 64 - s);
    Pow2Monotone(s, 64);
    var hi := u0 / c;
    DivMod(u0, c);
    MulCancelNonneg(u0, c);
    MulCancelLt(hi, p, c);
    Distribute(hi * c, u0 % c, p);
    MulAssoc(hi, c, p);
    MulLt(u0 % c, c, p);
    MulLe(0, u0 % c, p);
    MulLe(0, u0, p);
    DivIs(u0 * p, WORD, hi);
  }

  /** A remainder computed with wrap-around is exact. */
  lemma WrappedRemainder(x: nat, v: nat)
    requires 0 < v < WORD
    ensures (x - x / v * v) % WORD == x % v < v
    ensures x == x / v * v + x % v
  {
    DivMod(x, v);
    DivIs(x % v, WORD, 0);
  }

  lemma DigitSum(u: int, d1: int, d0: int, v: int, q1: int, r1: int, q0: int, r0: int)
    requires u * B + d1 == q1 * v + r1 && r1 * B + d0 == q0 * v + r0
    ensures u * WORD + d1 * B + d0 == (q1 * B + q0) * v + r0
  {
    Distribute(q1 * B, q0, v);
    assert q1 * B * v == q1 * v * B;
  }

  /** Two exact digits make the quotient of the whole dividend; both wrapped remainders are exact. */
  lemma TwoDigits(n: int, u: nat, d1: nat, d0: nat, v: nat, q1: int, r1: nat, q0: int)
    requires n == u * WORD + d1 * B + d0
    requires 0 < v < WORD && u < v && d1 < B && d0 < B
    requires q1 == (u * B + d1) / v
    requires r1 == (u * B + d1 - q1 * v) % WORD
    requires r1 < v ==> q0 == (r1 * B + d0) / v
    ensures r1 == (u * B + d1) % v
    ensures 0 <= q1 < B && 0 <= q0 < B
    ensures (q1 * B + q0) % WORD == q1 * B + q0 == n / v
    ensures (r1 * B + d0 - q0 * v) % WORD == n % v
  {
    QuotientFits(u, d1, v, B);
    WrappedRemainder(u * B + d1, v);
    QuotientFits(r1, d0, v, B);
    WrappedRemainder(r1 * B + d0, v);
    DigitSum(u, d1, d0, v, q1, r1, q0, (r1 * B + d0) % v);
    DivIs(n, v, q1 * B + q0);
    DivIs(q1 * B + q0, WORD, 0);
  }

  lemma ScaledDivision(n: nat, v: nat, s: nat)
    requires v > 0 && s > 0
    ensures v * s > 0
    ensures (n * s) / (v * s) == n / v
    ensures ((n * s) % (v * s)) / s == n % v
  {
    MulLt(0, v, s);
    DivMod(n, v);
    var q, r := n / v, n % v;
    Distribute(q * v, r, s);
    MulAssoc(q, v, s);
    MulLe(0, r, s);
    MulLt(r, v, s);
    DivIs(n * s, v * s, q);
    DivIs(r * s, s, r);
  }

  /** The true quotient and remainder come out exactly when the or did not change the high word. */
  lemma ExactDivision(u1: nat, u0: nat, v: nat)
    requires u1 < v < WORD && u0 < WORD
    requires v < WORD / 2 || Or(u1, u0) < v
    ensures ((if v < WORD / 2 then u1 else Or(u1, u0)) * WORD + u0) / v == (u1 * WORD + u0) / v
       <==> (v < WORD / 2 || Or(u1, u0) == u1)
    ensures Or(u1, 0) == u1
  {
    hide Or;
    WithZero(u1);
    OrAtLeast(u1, u0);
    if v >= WORD / 2 && Or(u1, u0) != u1 {
      MulLe(u1 + 1, Or(u1, u0), WORD);
      Distribute(u1, 1, WORD);
      DivAddMultiple(u1 * WORD + u0, 1, v);
      DivMonotone(u1 * WORD + u0 + v, EffectiveDividend(u1, u0, v), v);
    }
  }

  /** The merge is visible: 2^63 <= v, and dividing 1 by v returns quotient 2 instead of 0. */
  lemma NormalisedDivisorCounterexample()
    ensures var u1, u0, v := 0, 1, WORD / 2;
            u1 < v && Or(u1, u0) < v
            && (Or(u1, u0) * WORD + u0) / v == 2 && (u1 * WORD + u0) / v == 0
  {
    assert Or(0, 1) == 1;
  }

  /** An overflowing digit of a dividend between v and v + vn1. */
  lemma OverflowNearDivisor(vn1: nat, vn0: nat, k: nat)
    requires vn0 < B <= 2 * vn1 && k <= 1
    ensures 0 <= OverflowDigit((B + k) * vn1 + vn0, vn1) <= B
    ensures k == 0 ==> OverflowDigit((B + k) * vn1 + vn0, vn1) == B - 1
  {
    var f := if vn0 < vn1 then 0 else 1;
    Distribute(B + k, f, vn1);
    DivIs((B + k) * vn1 + vn0, vn1, B + k + f);
  }

  /** When the merged high word is not below the divisor the quotient is wrong for at least one dividend of
      every divisor with its top bit set: the divisor itself, divided by itself. */
  lemma MergedQuotientWrong(v: nat)
    requires WORD / 2 <= v < WORD
    ensures MergedQuotient(v, v, v) != v / v == 1
  {
    hide OverflowDigit;
    var vn1, vn0 := v / B, v % B;
    DivMod(v, B);
    DivIs(v, v, 1);
    OverflowNearDivisor(vn1, vn0, 0);
    OverflowNearDivisor(vn1, vn0, 1);
    var r1 := (v + vn1) % WORD;
    assert v * B + v / B - (B - 1) * v == v + vn1 by { Distribute(B, 1, v); }
    if v + vn1 < WORD {
      assert r1 == (B + 1) * vn1 + vn0;
    } else {
      assert r1 < v;
      QuotientFits(r1, vn0, v, B);
    }
    assert 0 <= Digit(r1, vn0, v) <= B;
  }

  /** But it is right for other dividends: 2^63 + 2^32 over 2^63. */
  lemma MergedQuotientSporadic()
    ensures var v := WORD / 2; MergedQuotient(v + B, v + B, v) == (v + B) / v == 1
  {
    var v := WORD / 2;
    assert OverflowDigit(v + B, B / 2) == B;
    assert Digit(B / 2 + 1, 0, v) == 1;
  }
}

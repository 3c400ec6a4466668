/** Signed division by an invariant integer, for 32-bit and 64-bit words in two's complement. */
module SignedDivide {
  import opened Bits
  import opened Words
  import opened MultiplyHigh
  import opened MagicNumbers
  import opened Denominators
  import LongDivision
  import U = UnsignedDivide

  function MulHi(w: Width, x: int, y: int): int {
    if w == 32 then MulHiS32(x, y) else MulHiS64(x, y)
  }

  lemma MulHiExact(w: Width, x: int, y: int)
    requires IsSigned(w, x) && IsSigned(w, y)
    ensures MulHi(w, x, y) == ShiftRight(x * y, w)
    ensures IsSigned(w, MulHi(w, x, y))
  {
    if w == 32 {
      MulHiS32Exact(x, y);
    } else {
      MulHiS64Exact(x, y);
    }
  }

  // ----- division -----

  /** s32 marks the shift path in `more`; s64 has run out of bits and uses a zero magic number. */
  predicate IsShiftPath(w: Width, denom: SignedDenominator) {
    if w == 32 then And(denom.more, S32_SHIFT_PATH) != 0 else denom.magic == 0
  }

  /** (int8_t) more >> 7: all ones for a negative divisor. */
  function SignMask(more: nat): int {
    ShiftRight(Signed(8, more), 7)
  }

  /** numer + ((numer >> (w - 1)) & ((1 << shifter) - 1)), then shifted. */
  function RoundedShift(w: Width, numer: int, shifter: nat): int {
    var tweak := Signed(w, Signed(w, Pow2(shifter)) - 1);
    ShiftRight(Signed(w, numer + SignedAnd(w, ShiftRight(numer, w - 1), tweak)), shifter)
  }

  /** (x ^ mask) - mask. */
  function ApplySign(w: Width, x: int, mask: int): int {
    Signed(w, SignedXor(w, x, mask) - mask)
  }

  /** q += (q < 0). */
  function RoundUpNegative(w: Width, q: int): (r: int)
    ensures IsSigned(w, r)
  {
    Signed(w, q + if q < 0 then 1 else 0)
  }

  function Do(w: Width, numer: int, denom: SignedDenominator): int {
    var more := denom.more;
    var shift := And(more, ShiftMask(w));
    if IsShiftPath(w, denom) then
      ApplySign(w, RoundedShift(w, numer, shift), SignMask(more))
    else
      var high := MulHi(w, denom.magic, numer);
      var q := if And(more, ADD_MARKER) != 0 then Signed(w, high + ApplySign(w, numer, SignMask(more))) else high;
      RoundUpNegative(w, ShiftRight(q, shift))
  }

  // ----- the specification of the generators -----

  function Negate(negative: bool, x: int): int {
    if negative then -x else x
  }

  /** The pair the generators must produce: a marked shift for powers of two and their negatives;
      the signed (w - 1)-bit reciprocal when it suffices; otherwise the w-bit one, which as a signed
      word is 2^w too small. */
  function Reciprocal(w: Width, d: int): SignedDenominator
    requires d != 0 && IsSigned(w, d)
  {
    var a := Abs(d);
    if IsPowerOfTwo(a) then
      SignedDenominator(0, More(FloorLog2(a), w == 32, false, d < 0))
    else
      NonPower(w, d)
  }

  function NonPower(w: Width, d: int): SignedDenominator
    requires d != 0 && IsSigned(w, d) && !IsPowerOfTwo(Abs(d))
  {
    var a := Abs(d);
    MagnitudeInRange(w, d);
    if U.OneWordSuffices(w - 1, a) then
      SignedDenominator(Negate(d < 0, U.RoundedReciprocal(w - 1, a)), FloorLog2(a) - 1)
    else
      SignedDenominator(Negate(d < 0, U.RoundedReciprocal(w, a) - Pow2(w)), More(FloorLog2(a), false, true, d < 0))
  }

  /** The magnitude of a divisor that is not a power of two has one bit to spare. */
  lemma MagnitudeInRange(w: Width, d: int)
    requires d != 0 && IsSigned(w, d)
    ensures FloorLog2(Abs(d)) < w
    ensures !IsPowerOfTwo(Abs(d)) ==>
              && IsUnsigned(w - 1, Abs(d))
              && 1 <= FloorLog2(Abs(d)) < w - 1
              && 0 < U.RoundedReciprocal(w - 1, Abs(d)) < Pow2(w - 1)
              && Pow2(w - 1) < U.RoundedReciprocal(w, Abs(d)) < Pow2(w) == 2 * Pow2(w - 1)
  {
    hide U.RoundedReciprocal, FloorLog2;
    var a := Abs(d);
    FloorLog2Below(a, w);
    if !IsPowerOfTwo(a) {
      if a == Pow2(w - 1) {
        FloorLog2Is(a, w - 1);
      }
      FloorLog2Below(a, w - 1);
      assert Pow2(0) == 1 && Pow2(1) == 2;
      U.ReciprocalInRange(w - 1, a);
    }
  }

  /** The pair field by field, in terms of the magnitude and the sign of the divisor. */
  lemma ReciprocalFields(w: Width, d: int)
    requires d != 0 && IsSigned(w, d)
    ensures var r, a := Reciprocal(w, d), if d < 0 then -d else d;
            var l, m, sign := FloorLog2(a), if d < 0 then -r.magic else r.magic, if d < 0 then 0x80 else 0;
            var excess := a - Pow2(w - 1 + l) % a;
            && (And(a, a - 1) == 0 ==> r.magic == 0 && r.more == l + (if w == 32 then 0x20 else 0) + sign)
            && (And(a, a - 1) != 0 && excess < Pow2(l) ==>
                  r.more == l - 1 && m * a == Pow2(w - 1 + l) + excess)
            && (And(a, a - 1) != 0 && excess >= Pow2(l) ==>
                  r.more == l + 0x40 + sign && Pow2(w + l) < (Pow2(w) + m) * a < Pow2(w + l) + a)
            && (r.magic == 0 <==> And(a, a - 1) == 0)
            && l < w && (And(a, a - 1) != 0 ==> 0 < l)
  {
    hide Pow2, FloorLog2, And, U.RoundedReciprocal;
    PowerOfTwoHasOneBit(Abs(d));
    MagnitudeInRange(w, d);
    if !IsPowerOfTwo(Abs(d)) {
      U.ReciprocalIsNext(w - 1, Abs(d));
      U.ReciprocalIsNext(w, Abs(d));
    }
  }

  /** The masked reads by which the division tells the cases apart; the s64 code tells the shift path by the
      zero factor. */
  lemma ReciprocalBits(w: Width, d: int)
    requires d != 0 && IsSigned(w, d)
    ensures var more, a := Reciprocal(w, d).more, if d < 0 then -d else d;
            var l, power := FloorLog2(a), And(a, a - 1) == 0;
            var long := !power && a - Pow2(w - 1 + l) % a >= Pow2(l);
            && more < 0x100
            && And(more, if w == 32 then 0x1F else 0x3F) == (if power || long then l else l - 1)
            && (w == 32 ==> (And(more, 0x20) != 0 <==> power))
            && (And(more, 0x40) != 0 <==> long)
            && (And(more, 0x80) != 0 <==> d < 0 && (power || long))
  {
    hide Pow2, FloorLog2, And, Reciprocal;
    ReciprocalFields(w, d);
    ByteBits(Reciprocal(w, d).more);
  }

  // ----- the shift path -----

  lemma RoundedShiftExact(w: Width, n: int, k: nat)
    requires IsSigned(w, n) && k < w
    ensures RoundedShift(w, n, k) == TruncatedQuotient(n, Pow2(k))
    ensures IsSigned(w, RoundedShift(w, n, k))
  {
    hide RoundedShift, Pow2;
    RoundedSum(w, n, k);
    RoundTowardZero(n, Pow2(k));
    QuotientInRange(w, if n < 0 then n + Pow2(k) - 1 else n, Pow2(k));
  }

  lemma RoundedSum(w: Width, n: int, k: nat)
    requires IsSigned(w, n) && k < w
    ensures var sum := if n < 0 then n + Pow2(k) - 1 else n;
            IsSigned(w, sum) && RoundedShift(w, n, k) == ShiftRight(sum, k)
  {
    hide Signed, Unsigned, SignedAnd, Pow2, ShiftRight;
    TweakExact(w, k);
    SignShift(w, n);
    var tweak := Signed(w, Signed(w, Pow2(k)) - 1);
    SignMasks(w, tweak);
    var masked := if n < 0 then tweak else 0;
    assert SignedAnd(w, ShiftRight(n, w - 1), tweak) == masked;
    SignedInRange(w, n + masked);
  }

  lemma TweakExact(w: Width, k: nat)
    requires k < w
    ensures Signed(w, Signed(w, Pow2(k)) - 1) == Pow2(k) - 1 < Pow2(w - 1)
    ensures Pow2(w) == 2 * Pow2(w - 1)
  {
    hide Signed, Unsigned;
    Pow2Monotone(k, w - 1);
    WrapSum(w, Pow2(k), -1);
    SignedInRange(w, Pow2(k) - 1);
  }

  lemma QuotientInRange(w: nat, x: int, p: nat)
    requires w > 0 && IsSigned(w, x) && p > 0
    ensures IsSigned(w, x / p)
  {
    assert Pow2(w) == 2 * Pow2(w - 1);
    BoundedQuotient(x, Pow2(w - 1), p);
  }

  lemma RoundedShiftInRange(w: Width, numer: int, shift: nat)
    ensures IsSigned(w, RoundedShift(w, numer, shift))
  {
    hide Signed, SignedAnd, Pow2;
    var tweak := Signed(w, Signed(w, Pow2(shift)) - 1);
    QuotientInRange(w, Signed(w, numer + SignedAnd(w, ShiftRight(numer, w - 1), tweak)), Pow2(shift));
  }

  lemma BoundedQuotient(x: int, h: int, p: nat)
    requires -h <= x < h && p > 0
    ensures -h <= x / p < h
  {
    DivMod(x, p);
    MulLe(1, p, h);
    if x / p < -h {
      MulLe(x / p, -h - 1, p);
      Distribute(-h, 1, p);
    } else if x / p >= h {
      MulLe(h, x / p, p);
    }
  }

  /** Adding p - 1 before a flooring division rounds a negative numerator toward zero. */
  lemma RoundTowardZero(n: int, p: nat)
    requires p > 0
    ensures n < 0 ==> (n + p - 1) / p == -(-n / p)
    ensures TruncatedQuotient(n, p) == (if n < 0 then n + p - 1 else n) / p
  {
    if n < 0 {
      DivMod(-n, p);
      assert -(-n / p) * p == -(-n / p * p);
      DivIs(n + p - 1, p, -(-n / p));
    }
  }

  lemma ApplySignExact(w: Width, x: int, negative: bool)
    requires IsSigned(w, x)
    ensures ApplySign(w, x, if negative then -1 else 0) == Signed(w, Negate(negative, x))
  {
    hide Signed, SignedXor;
    SignMasks(w, x);
  }

  lemma SignMaskExact(w: Width, shift: nat, bit5: bool, bit6: bool, bit7: bool)
    requires shift < w && (bit5 ==> w == 32)
    ensures SignMask(More(shift, bit5, bit6, bit7)) == if bit7 then -1 else 0
  {
    hide And;
    var more := More(shift, bit5, bit6, bit7);
    Pow2Values();
    MoreFields(w, shift, bit5, bit6, bit7);
    var value: int := if bit7 then more as int - 0x100 else more;
    SignedIs(8, more, value, if bit7 then 1 else 0);
    DivIs(value, 0x80, if bit7 then -1 else 0);
  }

  lemma TruncatedQuotientSign(n: int, d: int)
    requires d != 0
    ensures TruncatedQuotient(n, d) == Negate(d < 0, TruncatedQuotient(n, Abs(d)))
    ensures TruncatedQuotient(n, d) == TruncatedQuotient(Negate(d < 0, n), Abs(d))
  {
    hide Pow2;
    if n == 0 {
      DivIs(0, Abs(d), 0);
    }
  }

  // ----- the multiply paths -----

  /** Multiplying by the rounded-up reciprocal, flooring, and adding one to a negative result
      truncates toward zero. */
  lemma MagicTruncates(power: nat, a: nat, m: nat, e: nat, n: int)
    requires power > 0 && a > 0 && e > 0
    requires m * a == power + e && 0 <= e * Abs(n) < power
    ensures var q := (m * n) / power;
            (q < 0 <==> n < 0) && q + (if n < 0 then 1 else 0) == TruncatedQuotient(n, a)
  {
    hide Pow2;
    if n >= 0 {
      MagicQuotient(power, a, m, e, n);
      MulCancelNonneg(n, a);
    } else {
      MulLe(1, e, -n);
      assert m * n == -(m * -n);
      MagicQuotientNegative(power, a, m, e, -n);
      MulCancelNonneg(-n, a);
    }
  }

  lemma SignedErrorBound(e: nat, n: nat, eBound: nat, nBound: nat)
    requires e < eBound && n <= nBound && 0 < nBound
    ensures 0 <= e * n < eBound * nBound
  {
    MulLe(0, e, n);
    MulLe(n, nBound, e);
    MulLt(e, eBound, nBound);
  }

  lemma NegatedProduct(negative: bool, m: int, n: int)
    ensures Negate(negative, m) * n == m * Negate(negative, n)
  {
  }

  /** The signed reciprocal, floored, and rounded up when negative, gives C's quotient: its error stays
      below one part in 2^(w - 1), and the numerator's magnitude is at most 2^(w - 1). */
  lemma SmallMagic(w: Width, n: int, d: int)
    requires IsSigned(w, n) && d != 0 && IsSigned(w, d) && !IsPowerOfTwo(Abs(d))
    requires U.OneWordSuffices(w - 1, Abs(d))
    ensures var l := FloorLog2(Abs(d));
            var q := ShiftRight(U.RoundedReciprocal(w - 1, Abs(d)) * Negate(d < 0, n), w - 1 + l);
            q + (if q < 0 then 1 else 0) == TruncatedQuotient(n, d)
  {
    hide Pow2, FloorLog2, U.RoundedReciprocal, IsPowerOfTwo, TruncatedQuotient;
    MagnitudeInRange(w, d);
    var a, l := Abs(d), FloorLog2(Abs(d));
    U.ReciprocalIsNext(w - 1, a);
    Pow2Add(l, w - 1);
    var power, m := Pow2(w - 1 + l), U.RoundedReciprocal(w - 1, a);
    var e := a - power % a;
    assert e < Pow2(l);
    assert Abs(n) <= Pow2(w - 1);
    TruncatedQuotientSign(n, d);
    SignedErrorBound(e, Abs(n), Pow2(l), Pow2(w - 1));
    MagicTruncates(power, a, m, e, Negate(d < 0, n));
  }

  lemma LongMagic(w: Width, n: int, d: int)
    requires IsSigned(w, n) && d != 0 && IsSigned(w, d) && !IsPowerOfTwo(Abs(d))
    ensures var l := FloorLog2(Abs(d));
            var q := ShiftRight(U.RoundedReciprocal(w, Abs(d)) * Negate(d < 0, n), w + l);
            q + (if q < 0 then 1 else 0) == TruncatedQuotient(n, d)
  {
    hide Pow2, FloorLog2, U.RoundedReciprocal, IsPowerOfTwo, TruncatedQuotient;
    MagnitudeInRange(w, d);
    var a, l := Abs(d), FloorLog2(Abs(d));
    U.ReciprocalIsNext(w, a);
    Pow2Add(l + 1, w - 1);
    var power, m := Pow2(w + l), U.RoundedReciprocal(w, a);
    var e := a - power % a;
    assert e < Pow2(l + 1);
    assert Abs(n) <= Pow2(w - 1);
    TruncatedQuotientSign(n, d);
    SignedErrorBound(e, Abs(n), Pow2(l + 1), Pow2(w - 1));
    MagicTruncates(power, a, m, e, Negate(d < 0, n));
  }

  lemma RoundUpExact(w: Width, q: int)
    requires IsSigned(w, q)
    ensures RoundUpNegative(w, q) == q + if q < 0 then 1 else 0
  {
    SignedInRange(w, q + if q < 0 then 1 else 0);
  }

  lemma SmallPath(w: Width, n: int, d: int)
    requires IsSigned(w, n) && d != 0 && IsSigned(w, d) && !IsPowerOfTwo(Abs(d))
    requires U.OneWordSuffices(w - 1, Abs(d))
    ensures FloorLog2(Abs(d)) >= 1
    ensures var magic := Negate(d < 0, U.RoundedReciprocal(w - 1, Abs(d)));
            RoundUpNegative(w, ShiftRight(MulHi(w, magic, n), FloorLog2(Abs(d)) - 1)) == TruncatedQuotient(n, d)
  {
    hide Pow2, FloorLog2, U.RoundedReciprocal, IsPowerOfTwo, TruncatedQuotient, MulHi, U.OneWordSuffices,
         RoundUpNegative;
    MagnitudeInRange(w, d);
    var m, l := U.RoundedReciprocal(w - 1, Abs(d)), FloorLog2(Abs(d));
    SmallMagic(w, n, d);
    assert IsSigned(w, Negate(d < 0, m));
    MulHiExact(w, Negate(d < 0, m), n);
    NegatedProduct(d < 0, m, n);
    ShiftTwice(m * Negate(d < 0, n), w, l - 1);
    QuotientInRange(w, MulHi(w, Negate(d < 0, m), n), Pow2(l - 1));
    RoundUpExact(w, ShiftRight(MulHi(w, Negate(d < 0, m), n), l - 1));
  }

  /** Adding the signed numerator restores the 2^w that the magic word lost, without overflow. */
  lemma AddPath(w: Width, n: int, m: nat, negative: bool)
    requires IsSigned(w, n) && Pow2(w - 1) < m < Pow2(w)
    ensures var magic := Negate(negative, m - Pow2(w));
            var q := Signed(w, MulHi(w, magic, n) + Signed(w, Negate(negative, n)));
            IsSigned(w, magic) && IsSigned(w, q) && q == ShiftRight(m * Negate(negative, n), w)
  {
    hide MulHi, Signed, Pow2;
    var p, n' := Pow2(w), Negate(negative, n);
    var magic := Negate(negative, m - p);
    Pow2Successor(w - 1);
    MulHiExact(w, magic, n);
    NegatedProduct(negative, m - p, n);
    Distribute(m, p, n');
    DivAddMultiple((m - p) * n', n', p);
    HighInRange(m, n', Pow2(w - 1));
    WrapSum(w, n', MulHi(w, magic, n));
    SignedInRange(w, ShiftRight(m * n', w));
  }

  lemma HighInRange(m: nat, n: int, h: int)
    requires h > 0 && m < 2 * h && Abs(n) <= h
    ensures -h <= (m * n) / (2 * h) < h
  {
    SignedErrorBound(m, Abs(n), 2 * h, h);
    assert m * n == m * Abs(n) || m * n == -(m * Abs(n));
    QuotientBracket(m * n, -h, h, 2 * h);
  }

  lemma QuotientBracket(x: int, lo: int, hi: int, p: nat)
    requires p > 0 && lo * p <= x < hi * p
    ensures lo <= x / p < hi
  {
    DivMod(x, p);
    Distribute(x / p, 1, p);
    MulCancelLt(x / p, hi, p);
    MulCancelLt(lo, x / p + 1, p);
  }

  lemma LongPath(w: Width, n: int, d: int)
    requires IsSigned(w, n) && d != 0 && IsSigned(w, d) && !IsPowerOfTwo(Abs(d))
    ensures var l := FloorLog2(Abs(d));
            var magic := Negate(d < 0, U.RoundedReciprocal(w, Abs(d)) - Pow2(w));
            var q := Signed(w, MulHi(w, magic, n) + Signed(w, Negate(d < 0, n)));
            RoundUpNegative(w, ShiftRight(q, l)) == TruncatedQuotient(n, d)
  {
    hide Pow2, FloorLog2, U.RoundedReciprocal, IsPowerOfTwo, TruncatedQuotient, MulHi, Signed, IsSigned, Negate,
         RoundUpNegative;
    MagnitudeInRange(w, d);
    var m, l := U.RoundedReciprocal(w, Abs(d)), FloorLog2(Abs(d));
    LongMagic(w, n, d);
    AddPath(w, n, m, d < 0);
    var q := ShiftRight(m * Negate(d < 0, n), w);
    ShiftTwice(m * Negate(d < 0, n), w, l);
    QuotientInRange(w, q, Pow2(l));
    RoundUpExact(w, ShiftRight(q, l));
  }

  // ----- correctness -----

  lemma DoShift(w: Width, n: int, shift: nat, negative: bool)
    requires IsSigned(w, n) && shift < w
    ensures Do(w, n, SignedDenominator(0, More(shift, w == 32, false, negative)))
         == Signed(w, Negate(negative, TruncatedQuotient(n, Pow2(shift))))
  {
    hide Pow2, And, RoundedShift, ApplySign, SignMask, TruncatedQuotient, More;
    MoreFields(w, shift, w == 32, false, negative);
    SignMaskExact(w, shift, w == 32, false, negative);
    RoundedShiftExact(w, n, shift);
    ApplySignExact(w, RoundedShift(w, n, shift), negative);
  }

  lemma DoSmall(w: Width, n: int, magic: int, shift: nat)
    requires IsSigned(w, n) && magic != 0 && shift < w
    ensures Do(w, n, SignedDenominator(magic, shift)) == RoundUpNegative(w, ShiftRight(MulHi(w, magic, n), shift))
  {
    hide And, MulHi, RoundUpNegative, ShiftRight, RoundedShift, ApplySign, SignMask;
    MoreFields(w, shift, false, false, false);
  }

  lemma DoLong(w: Width, n: int, magic: int, shift: nat, negative: bool)
    requires IsSigned(w, n) && magic != 0 && shift < w
    ensures Do(w, n, SignedDenominator(magic, More(shift, false, true, negative)))
         == RoundUpNegative(w, ShiftRight(Signed(w, MulHi(w, magic, n) + Signed(w, Negate(negative, n))), shift))
  {
    hide And, MulHi, RoundUpNegative, ShiftRight, RoundedShift, ApplySign, SignMask, More, Signed;
    MoreFields(w, shift, false, true, negative);
    SignMaskExact(w, shift, false, true, negative);
    ApplySignExact(w, n, negative);
  }

  /** Dividing by the generated pair is C's division, wrapped to the word, for every numerator and
      every divisor. */
  lemma DivisionExact(w: Width, n: int, d: int)
    requires IsSigned(w, n) && d != 0 && IsSigned(w, d)
    ensures IsSigned(w, Reciprocal(w, d).magic)
    ensures Do(w, n, Reciprocal(w, d)) == Signed(w, TruncatedQuotient(n, d))
  {
    var a := Abs(d);
    MagnitudeInRange(w, d);
    if IsPowerOfTwo(a) {
      DoShift(w, n, FloorLog2(a), d < 0);
      TruncatedQuotientSign(n, d);
    } else {
      NonPowerExact(w, n, d);
    }
  }

  lemma NonPowerExact(w: Width, n: int, d: int)
    requires IsSigned(w, n) && d != 0 && IsSigned(w, d) && !IsPowerOfTwo(Abs(d))
    ensures IsSigned(w, NonPower(w, d).magic)
    ensures Do(w, n, NonPower(w, d)) == Signed(w, TruncatedQuotient(n, d))
  {
    hide Pow2, FloorLog2, IsPowerOfTwo, U.RoundedReciprocal, U.OneWordSuffices, RoundUpNegative, ShiftRight, MulHi,
         Do, TruncatedQuotient;
    var a := Abs(d);
    MagnitudeInRange(w, d);
    if U.OneWordSuffices(w - 1, a) {
      SmallPath(w, n, d);
      DoSmall(w, n, Negate(d < 0, U.RoundedReciprocal(w - 1, a)), FloorLog2(a) - 1);
    } else {
      LongPath(w, n, d);
      DoLong(w, n, Negate(d < 0, U.RoundedReciprocal(w, a) - Pow2(w)), FloorLog2(a), d < 0);
    }
    SignedInRange(w, Do(w, n, NonPower(w, d)));
  }

  /** The C routine, updating q in place: given the pair generated for a divisor, it divides by it. */
  method Divide(w: Width, numer: int, denom: SignedDenominator) returns (q: int)
    ensures q == Do(w, numer, denom)
    ensures forall d: int | IsSigned(w, numer) && d != 0 && IsSigned(w, d) && denom == Reciprocal(w, d) ::
              q == Signed(w, TruncatedQuotient(numer, d))
  {
    hide Reciprocal, TruncatedQuotient, IsSigned, MulHi, IsShiftPath, Signed, SignedAnd, SignedXor, And, ShiftRight,
         SignMask;
    var more := denom.more;
    if IsShiftPath(w, denom) {
      var shifter := And(more, ShiftMask(w));
      q := Signed(w, numer + SignedAnd(w, ShiftRight(numer, w - 1), Signed(w, Signed(w, Pow2(shifter)) - 1)));
      q := ShiftRight(q, shifter);
      var shiftMask := SignMask(more);
      q := Signed(w, SignedXor(w, q, shiftMask) - shiftMask);
    } else {
      q := MulHi(w, denom.magic, numer);
      if And(more, ADD_MARKER) != 0 {
        var sign := SignMask(more);
        q := Signed(w, q + Signed(w, SignedXor(w, numer, sign) - sign));
      }
      q := ShiftRight(q, And(more, ShiftMask(w)));
      q := Signed(w, q + if q < 0 then 1 else 0);
    }
    forall d: int | IsSigned(w, numer) && d != 0 && IsSigned(w, d) && denom == Reciprocal(w, d)
      ensures q == Signed(w, TruncatedQuotient(numer, d))
    {
      DivisionExact(w, numer, d);
    }
  }

  /** The wrapped result is the quotient itself except for the one pair that overflows. */
  lemma OverflowOnlyForMinimumOverMinusOne(w: Width, n: int, d: int)
    requires IsSigned(w, n) && d != 0 && IsSigned(w, d)
    ensures Do(w, n, Reciprocal(w, d)) == TruncatedQuotient(n, d) <==> !(n == -(Pow2(w - 1) as int) && d == -1)
  {
    hide Pow2, Do, Reciprocal, Signed;
    DivisionExact(w, n, d);
    TruncatedQuotientRange(w, n, d);
    if IsSigned(w, TruncatedQuotient(n, d)) {
      SignedInRange(w, TruncatedQuotient(n, d));
    }
  }

  lemma TruncatedQuotientRange(w: Width, n: int, d: int)
    requires IsSigned(w, n) && d != 0
    ensures IsSigned(w, TruncatedQuotient(n, d)) <==> !(n == -(Pow2(w - 1) as int) && d == -1)
  {
    assert Pow2(w) == 2 * Pow2(w - 1);
    QuotientOfMagnitudes(Abs(n), Abs(d));
  }

  lemma QuotientOfMagnitudes(n: nat, d: nat)
    requires d > 0
    ensures 0 <= n / d <= n
    ensures d == 1 ==> n / d == n
    ensures d >= 2 && n > 0 ==> n / d < n
  {
    DivMod(n, d);
    MulCancelNonneg(n, d);
    MulLe(1, d, n / d);
    if d >= 2 {
      MulLe(2, d, n / d);
    }
  }

  // ----- the generators -----

  /** The magnitude as the code computes it: negating the minimum wraps to itself, and its pattern is
      the right unsigned value. */
  function AbsWord(w: Width, d: int): nat {
    Unsigned(w, if d < 0 then Signed(w, -d) else d)
  }

  lemma AbsWordExact(w: Width, d: int)
    requires IsSigned(w, d)
    ensures AbsWord(w, d) == Abs(d) < Pow2(w)
  {
    assert Pow2(w) == 2 * Pow2(w - 1);
    SignedOfUnsigned(w, -d);
    UnsignedInRange(w, Abs(d));
  }

  /** The high word of the trial dividend 2^(w - 1 + l). */
  lemma TrialDividend(w: Width, l: nat, a: nat)
    requires 0 < l < w && Pow2(l) <= a
    ensures Pow2(l - 1) < a && Pow2(l - 1) < Pow2(w)
    ensures Pow2(l - 1) * Pow2(w) == Pow2(w - 1 + l)
  {
    Pow2Add(l - 1, w);
    Pow2Monotone(l - 1, w);
  }

  /** The choice both generators make from the trial division. */
  function MagicFromTrial(w: Width, d: int, floorLog2D: nat, m: nat, rem: nat): SignedDenominator
    requires floorLog2D > 0
  {
    var a := Abs(d);
    if a - rem < Pow2(floorLog2D) then
      SignedDenominator(SignedMagic(w, d, Unsigned(w, m + 1)), floorLog2D - 1)
    else
      SignedDenominator(SignedMagic(w, d, Unsigned(w, U.DoubledMagic(w, a, m, rem) + 1)),
                        Or(Or(floorLog2D, ADD_MARKER), if d < 0 then NEGATIVE_DIVISOR else 0))
  }

  function SignedMagic(w: Width, d: int, proposedM: nat): int {
    if d < 0 then Signed(w, -Signed(w, proposedM)) else Signed(w, proposedM)
  }

  lemma SignedMagicExact(w: Width, d: int, m: nat)
    requires 0 < m < Pow2(w) && m != Pow2(w - 1)
    ensures SignedMagic(w, d, m) == Negate(d < 0, if m < Pow2(w - 1) then m else m - Pow2(w))
  {
    hide Pow2, Signed;
    Pow2Successor(w - 1);
    var value: int := if m < Pow2(w - 1) then m else m - Pow2(w);
    CongruentSteps(w, m);
    SignedIs(w, m, value, if m < Pow2(w - 1) then 0 else 1);
    SignedInRange(w, -value);
  }

  lemma MagicFromTrialExact(w: Width, d: int, m: nat, rem: nat)
    requires d != 0 && IsSigned(w, d) && !IsPowerOfTwo(Abs(d))
    requires U.IsTrialDivision(w - 1, Abs(d), m, rem)
    ensures FloorLog2(Abs(d)) > 0
    ensures MagicFromTrial(w, d, FloorLog2(Abs(d)), m, rem) == NonPower(w, d)
  {
    hide Pow2, FloorLog2, IsPowerOfTwo, U.RoundedReciprocal, U.OneWordSuffices, U.DoubledMagic, SignedMagic, Or, More;
    var a, l := Abs(d), FloorLog2(Abs(d));
    MagnitudeInRange(w, d);
    U.OneWordReciprocal(w - 1, a, m, rem);
    OrFieldsSigned(w, l, d < 0);
    if a - rem < Pow2(l) {
      UnsignedInRange(w, m + 1);
      SignedMagicExact(w, d, m + 1);
    } else {
      DoubledMagicExact(w, a, m, rem);
      UnsignedInRange(w, U.DoubledMagic(w, a, m, rem) + 1);
      SignedMagicExact(w, d, U.DoubledMagic(w, a, m, rem) + 1);
    }
  }

  /** Unlike the unsigned case, neither the doubled magic number nor the doubled remainder wraps. */
  lemma DoubledMagicExact(w: Width, a: nat, m: nat, rem: nat)
    requires U.IsTrialDivision(w - 1, a, m, rem)
    requires a - rem >= Pow2(FloorLog2(a))
    ensures U.DoubledMagic(w, a, m, rem) + 1 == U.RoundedReciprocal(w, a)
  {
    hide Pow2, FloorLog2, IsPowerOfTwo, U.RoundedReciprocal, Unsigned;
    U.ReciprocalInRange(w - 1, a);
    U.LongReciprocal(w - 1, a, m, rem);
    assert m + m == 2 * m && rem + rem == 2 * rem;
    UnsignedInRange(w, 2 * m);
    UnsignedInRange(w, 2 * m + 1);
    UnsignedInRange(w, 2 * rem);
  }

  /** The second half of both generators. */
  method ChooseMagic(w: Width, d: int, absD: nat, floorLog2D: nat, m: nat, rem: nat)
    returns (result: SignedDenominator)
    requires floorLog2D > 0 && absD == Abs(d)
    ensures result == MagicFromTrial(w, d, floorLog2D, m, rem)
  {
    hide Pow2, Or, Unsigned, Signed;
    var more, proposedM := floorLog2D - 1, m;
    var e := absD - rem;
    if e >= Pow2(floorLog2D) {
      proposedM := Unsigned(w, proposedM + proposedM);
      var twiceRem := Unsigned(w, rem + rem);
      if twiceRem >= absD || twiceRem < rem {
        proposedM := Unsigned(w, proposedM + 1);
      }
      more := Or(Or(floorLog2D, ADD_MARKER), if d < 0 then NEGATIVE_DIVISOR else 0);
    }
    proposedM := Unsigned(w, proposedM + 1);
    var magic := if d < 0 then Signed(w, -Signed(w, proposedM)) else Signed(w, proposedM);
    result := SignedDenominator(magic, more);
  }

  method GenS32(d: int) returns (result: SignedDenominator)
    requires d != 0 && IsSigned(32, d)
    ensures result == Reciprocal(32, d)
  {
    hide Pow2, FloorLog2, NonPower, And, Or, More, IsPowerOfTwo, Signed, Unsigned;
    Pow2Of32();
    AbsWordExact(32, d);
    MagnitudeInRange(32, d);
    var absD := Unsigned(32, if d < 0 then Signed(32, -d) else d);
    PowerOfTwoHasOneBit(absD);
    if And(absD, absD - 1) == 0 {
      var zeros := LongDivision.CountTrailingZeros32(absD);
      TrailingZerosOfPower(absD, zeros);
      OrFieldsSigned(32, zeros, d < 0);
      result := SignedDenominator(0, Or(Or(zeros, if d < 0 then NEGATIVE_DIVISOR else 0), S32_SHIFT_PATH));
    } else {
      var zeros := LongDivision.CountLeadingZeros(32, absD);
      var floorLog2D := 31 - zeros;
      TrialDividend(32, floorLog2D, absD);
      var proposedM, rem := LongDivision.Divide64By32(Pow2(floorLog2D - 1), 0, absD);
      MagicFromTrialExact(32, d, proposedM, rem);
      result := ChooseMagic(32, d, absD, floorLog2D, proposedM, rem);
    }
  }

  method GenS64(d: int) returns (result: SignedDenominator)
    requires d != 0 && IsSigned(64, d)
    ensures result == Reciprocal(64, d)
  {
    hide Pow2, FloorLog2, NonPower, And, Or, More, IsPowerOfTwo, Signed, Unsigned;
    Pow2Of64();
    AbsWordExact(64, d);
    MagnitudeInRange(64, d);
    var absD := Unsigned(64, if d < 0 then Signed(64, -d) else d);
    PowerOfTwoHasOneBit(absD);
    if And(absD, absD - 1) == 0 {
      var zeros := LongDivision.CountTrailingZeros64(absD);
      TrailingZerosOfPower(absD, zeros);
      OrFieldsSigned(64, zeros, d < 0);
      result := SignedDenominator(0, Or(zeros, if d < 0 then NEGATIVE_DIVISOR else 0));
    } else {
      var zeros := LongDivision.CountLeadingZeros(64, absD);
      var floorLog2D := 63 - zeros;
      TrialDividend(64, floorLog2D, absD);
      WithZero(Pow2(floorLog2D - 1));
      var proposedM, rem := LongDivision.Divide128By64(Pow2(floorLog2D - 1), 0, absD);
      MagicFromTrialExact(64, d, proposedM, rem);
      result := ChooseMagic(64, d, absD, floorLog2D, proposedM, rem);
    }
  }
}

/** The algorithm-specialised divisions, `unswitch`, and divider equality. */
module Dividers {
  import opened Bits
  import opened Words
  import opened Denominators
  import U = UnsignedDivide
  import S = SignedDivide

  /** The general algorithm's number. */
  const GENERAL: int := -1

  /** An unsigned divider specialised to algorithm 3 or 4 aborts. */
  datatype Outcome = Quotient(q: int) | Abort

  // ----- unsigned -----

  function UnsignedAlgorithm(denom: UnsignedDenominator): int {
    if And(denom.more, UNSIGNED_SHIFT_PATH) != 0 then 0
    else if And(denom.more, ADD_MARKER) == 0 then 1
    else 2
  }

  /** perform_divide of a divider specialised to `algo`; unswitch copies the denominator as it is. */
  function UnsignedPerform(w: Width, algo: int, numer: nat, denom: UnsignedDenominator): Outcome
    requires -1 <= algo <= 4
    requires IsUnsigned(w, numer) && IsUnsigned(w, denom.magic)
  {
    match algo
    case -1 => Quotient(U.Do(w, numer, denom))
    case 0 => Quotient(U.UShr(numer, And(denom.more, ShiftMask(w))))
    case 1 => Quotient(U.UShr(U.MulHi(w, denom.magic, numer), denom.more))
    case 2 => Quotient(U.UShr(U.AddStep(w, numer, U.MulHi(w, denom.magic, numer)), And(denom.more, ShiftMask(w))))
    case _ => Abort
  }

  /** Specialising to the algorithm that the denominator reports never changes a quotient. */
  lemma UnsignedSpecialisation(w: Width, numer: nat, denom: UnsignedDenominator)
    requires IsUnsigned(w, numer) && IsUnsigned(w, denom.magic)
    ensures UnsignedPerform(w, UnsignedAlgorithm(denom), numer, denom) == UnsignedPerform(w, GENERAL, numer, denom)
  {
    hide And, U.UShr, U.AddStep, U.MulHi;
  }

  /** The reported algorithm says how the divisor was classified, so a specialised divider divides. */
  lemma UnsignedUnswitch(w: Width, n: nat, d: nat)
    requires IsUnsigned(w, n) && d > 0 && IsUnsigned(w, d)
    ensures var denom := U.Reciprocal(w, d);
            var algo := UnsignedAlgorithm(denom);
            && IsUnsigned(w, denom.magic)
            && (algo == 0 <==> IsPowerOfTwo(d))
            && (algo == 1 <==> !IsPowerOfTwo(d) && U.OneWordSuffices(w, d))
            && UnsignedPerform(w, algo, n, denom) == Quotient(n / d)
  {
    U.DivisionExact(w, n, d);
    UnsignedClass(w, d);
    UnsignedSpecialisation(w, n, U.Reciprocal(w, d));
  }

  lemma UnsignedClass(w: Width, d: nat)
    requires d > 0 && IsUnsigned(w, d)
    ensures UnsignedAlgorithm(U.Reciprocal(w, d))
         == if IsPowerOfTwo(d) then 0 else if U.OneWordSuffices(w, d) then 1 else 2
    ensures var l := FloorLog2(d);
            UnsignedAlgorithm(U.Reciprocal(w, d))
              == if And(d, d - 1) == 0 then 0 else if d - Pow2(w + l) % d < Pow2(l) then 1 else 2
  {
    hide And, More, U.OneWordSuffices, U.RoundedReciprocal, IsPowerOfTwo, FloorLog2, Pow2;
    PowerOfTwoHasOneBit(d);
    if And(d, d - 1) != 0 {
      U.OneWordSufficesExactly(w, d);
    }
    var l := FloorLog2(d);
    FloorLog2Below(d, w);
    MoreFields(w, l, false, false, true);
    PlainMore(w, l);
    MoreFields(w, l, false, true, false);
  }

  lemma PlainMore(w: Width, shift: nat)
    requires shift < w
    ensures And(shift, ShiftMask(w)) == shift
    ensures And(shift, ADD_MARKER) == 0 && And(shift, UNSIGNED_SHIFT_PATH) == 0
    ensures w == 32 ==> And(shift, S32_SHIFT_PATH) == 0
  {
    hide And;
    MoreFields(w, shift, false, false, false);
  }

  // ----- signed -----

  function SignedAlgorithm(w: Width, denom: SignedDenominator): int {
    var positiveDivisor := And(denom.more, NEGATIVE_DIVISOR) == 0;
    if S.IsShiftPath(w, denom) then (if positiveDivisor then 0 else 1)
    else if And(denom.more, ADD_MARKER) != 0 then (if positiveDivisor then 2 else 3)
    else 4
  }

  /** Algorithm 4 masks the shift in the 32-bit version only. */
  function SignedPerform(w: Width, algo: int, numer: int, denom: SignedDenominator): Outcome
    requires -1 <= algo <= 4
  {
    var shift := And(denom.more, ShiftMask(w));
    var high := S.MulHi(w, denom.magic, numer);
    match algo
    case -1 => Quotient(S.Do(w, numer, denom))
    case 0 => Quotient(S.RoundedShift(w, numer, shift))
    case 1 => Quotient(Signed(w, -S.RoundedShift(w, numer, shift)))
    case 2 => Quotient(S.RoundUpNegative(w, ShiftRight(Signed(w, high + numer), shift)))
    case 3 => Quotient(S.RoundUpNegative(w, ShiftRight(Signed(w, high - numer), shift)))
    case _ => Quotient(S.RoundUpNegative(w, ShiftRight(high, if w == 32 then shift else denom.more)))
  }

  /** The field invariant of generated denominators: `more` is a byte, and when neither the shift path
      nor the add marker is set it holds nothing but the shift. */
  predicate WellFormed(w: Width, denom: SignedDenominator) {
    && denom.more < 0x100
    && (!S.IsShiftPath(w, denom) && And(denom.more, ADD_MARKER) == 0 ==> denom.more < w)
  }

  lemma SignedSpecialisation(w: Width, numer: int, denom: SignedDenominator)
    requires IsSigned(w, numer) && WellFormed(w, denom)
    ensures SignedPerform(w, SignedAlgorithm(w, denom), numer, denom) == SignedPerform(w, GENERAL, numer, denom)
  {
    hide And, S.MulHi, S.RoundedShift, S.RoundUpNegative, Signed, S.ApplySign, S.SignMask, S.IsShiftPath, ShiftRight,
         IsSigned;
    SignMaskReadsBit7(denom.more);
    var shift := And(denom.more, ShiftMask(w));
    var negative := And(denom.more, NEGATIVE_DIVISOR) != 0;
    if S.IsShiftPath(w, denom) {
      SignedShift(w, numer, shift, negative);
    } else if And(denom.more, ADD_MARKER) != 0 {
      SignedAdd(w, numer, S.MulHi(w, denom.magic, numer), negative);
    } else {
      PlainMore(w, denom.more);
    }
  }

  /** Algorithms 0 and 1 leave or negate the shifted numerator outright. */
  lemma SignedShift(w: Width, numer: int, shift: nat, negative: bool)
    ensures var q := S.RoundedShift(w, numer, shift);
            S.ApplySign(w, q, if negative then -1 else 0) == if negative then Signed(w, -q) else q
  {
    hide Signed, S.RoundedShift, S.ApplySign, IsSigned;
    S.RoundedShiftInRange(w, numer, shift);
    S.ApplySignExact(w, S.RoundedShift(w, numer, shift), negative);
    SignedInRange(w, S.RoundedShift(w, numer, shift));
  }

  /** Algorithms 2 and 3 add or subtract the numerator outright. */
  lemma SignedAdd(w: Width, numer: int, high: int, negative: bool)
    requires IsSigned(w, numer)
    ensures Signed(w, high + S.ApplySign(w, numer, if negative then -1 else 0))
         == Signed(w, if negative then high - numer else high + numer)
  {
    hide Signed, S.ApplySign, IsSigned;
    S.ApplySignExact(w, numer, negative);
    SignedInRange(w, numer);
    WrapSum(w, S.Negate(negative, numer), high);
  }

  lemma SignMaskReadsBit7(more: nat)
    requires more < 0x100
    ensures S.SignMask(more) == if And(more, NEGATIVE_DIVISOR) != 0 then -1 else 0
  {
    hide And;
    ByteBits(more);
    Pow2Values();
    var value: int := if more >= 0x80 then more as int - 0x100 else more;
    SignedIs(8, more, value, if more >= 0x80 then 1 else 0);
    DivIs(value, 0x80, if more >= 0x80 then -1 else 0);
  }

  lemma SignedUnswitch(w: Width, n: int, d: int)
    requires IsSigned(w, n) && d != 0 && IsSigned(w, d)
    ensures var denom := S.Reciprocal(w, d);
            var algo := SignedAlgorithm(w, denom);
            && WellFormed(w, denom)
            && (algo <= 1 <==> IsPowerOfTwo(Abs(d)))
            && ((algo == 0 || algo == 2) ==> d > 0) && ((algo == 1 || algo == 3) ==> d < 0)
            && SignedPerform(w, algo, n, denom) == Quotient(Signed(w, TruncatedQuotient(n, d)))
  {
    hide S.Do, S.MulHi, And, TruncatedQuotient, Signed, IsPowerOfTwo, S.Reciprocal;
    S.DivisionExact(w, n, d);
    SignedClass(w, d);
    SignedSpecialisation(w, n, S.Reciprocal(w, d));
  }

  lemma SignedClass(w: Width, d: int)
    requires d != 0 && IsSigned(w, d)
    ensures WellFormed(w, S.Reciprocal(w, d))
    ensures SignedAlgorithm(w, S.Reciprocal(w, d))
         == if IsPowerOfTwo(Abs(d)) then (if d > 0 then 0 else 1)
            else if U.OneWordSuffices(w - 1, Abs(d)) then 4
            else if d > 0 then 2 else 3
    ensures var a := if d < 0 then -d else d;
            var l := FloorLog2(a);
            SignedAlgorithm(w, S.Reciprocal(w, d))
              == if And(a, a - 1) == 0 then (if d > 0 then 0 else 1)
                 else if a - Pow2(w - 1 + l) % a < Pow2(l) then 4
                 else if d > 0 then 2 else 3
  {
    hide Pow2, And, More, U.OneWordSuffices, U.RoundedReciprocal, IsPowerOfTwo, FloorLog2;
    var l := FloorLog2(Abs(d));
    S.MagnitudeInRange(w, d);
    MoreFields(w, l, w == 32, false, d < 0);
    MoreFields(w, l, false, true, d < 0);
    PowerOfTwoHasOneBit(Abs(d));
    if !IsPowerOfTwo(Abs(d)) {
      U.OneWordSufficesExactly(w - 1, Abs(d));
      PlainMore(w, l - 1);
    }
  }

  // ----- equality -----

  /** operator== on unsigned dividers compares magic and more, which decides equality of divisors. */
  lemma UnsignedEquality(w: Width, d: nat, e: nat)
    requires d > 0 && IsUnsigned(w, d) && e > 0 && IsUnsigned(w, e)
    ensures U.Reciprocal(w, d) == U.Reciprocal(w, e) <==> d == e
  {
    hide U.Reciprocal, U.Do;
    if U.Reciprocal(w, d) == U.Reciprocal(w, e) {
      U.DivisionExact(w, d, d);
      U.DivisionExact(w, d, e);
      U.DivisionExact(w, e, d);
      U.DivisionExact(w, e, e);
      UnitQuotients(d, e);
    }
  }

  lemma UnitQuotients(d: nat, e: nat)
    requires d > 0 && e > 0
    requires d / e == d / d && e / d == e / e
    ensures d == e
  {
    DivIs(d, d, 1);
    DivIs(e, e, 1);
    DivMod(d, e);
    DivMod(e, d);
  }

  lemma SignedEquality(w: Width, d: int, e: int)
    requires d != 0 && IsSigned(w, d) && e != 0 && IsSigned(w, e)
    ensures S.Reciprocal(w, d) == S.Reciprocal(w, e) <==> d == e
  {
    hide S.Reciprocal, S.Do, Signed, TruncatedQuotient;
    if S.Reciprocal(w, d) == S.Reciprocal(w, e) {
      S.DivisionExact(w, d, d);
      S.DivisionExact(w, d, e);
      S.DivisionExact(w, e, d);
      S.DivisionExact(w, e, e);
      WrappedUnit(w, d, d);
      WrappedUnit(w, e, e);
      WrappedUnit(w, d, e);
      WrappedUnit(w, e, d);
      SignedUnitQuotients(d, e);
    }
  }

  /** No quotient wraps to one. */
  lemma WrappedUnit(w: Width, n: int, d: int)
    requires IsSigned(w, n) && d != 0
    ensures Signed(w, TruncatedQuotient(n, d)) == 1 <==> TruncatedQuotient(n, d) == 1
  {
    hide Pow2, Signed;
    Pow2Successor(w - 1);
    Pow2Successor(w - 2);
    S.QuotientOfMagnitudes(Abs(n), Abs(d));
    var q := TruncatedQuotient(n, d);
    if IsSigned(w, q) {
      SignedInRange(w, q);
    } else {
      CongruentSteps(w, q);
      SignedIs(w, q, q - Pow2(w), 1);
    }
  }

  lemma SignedUnitQuotients(d: int, e: int)
    requires d != 0 && e != 0
    requires TruncatedQuotient(d, d) == 1 <==> TruncatedQuotient(d, e) == 1
    requires TruncatedQuotient(e, e) == 1 <==> TruncatedQuotient(e, d) == 1
    ensures d == e
  {
    DivIs(Abs(d), Abs(d), 1);
    DivIs(Abs(e), Abs(e), 1);
    S.QuotientOfMagnitudes(Abs(d), Abs(e));
    S.QuotientOfMagnitudes(Abs(e), Abs(d));
    UnitQuotients(Abs(d), Abs(e));
  }
}

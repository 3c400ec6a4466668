/** The vector divisions specialised to one algorithm, which a divider uses after `unswitch`. */
module VectorAlgorithms {
  import opened Bits
  import opened Words
  import opened Denominators
  import opened Vectors
  import Dividers
  import U = UnsignedDivide
  import S = SignedDivide

  /** A specialised unsigned vector division may abort. */
  datatype HalfOutcome = Half(q: nat) | Abort

  datatype VectorOutcome = Register(r: M128) | VectorAbort

  function AddEpi(w: Width, a: nat, b: nat): nat {
    if w == 32 then AddEpi32(a, b) else AddEpi64(a, b)
  }

  function SubEpi(w: Width, a: nat, b: nat): nat {
    if w == 32 then SubEpi32(a, b) else SubEpi64(a, b)
  }

  function SrlEpi(w: Width, a: nat, k: nat): nat {
    if w == 32 then SrlEpi32(a, k) else SrlEpi64(a, k)
  }

  /** A w-bit word repeated over the half. */
  function Set1(w: Width, x: nat): nat {
    if w == 32 then Set1Epi32(x) else x
  }

  // ----- unsigned -----

  function UnsignedHigh(w: Width, numers: nat, denom: UnsignedDenominator): nat {
    if w == 32 then MulHiU32Flat(numers, Set1(w, denom.magic)) else MulHiU64Flat(numers, denom.magic)
  }

  /** The general algorithm, -1, and the specialised ones on one half. */
  function UnsignedHalf(w: Width, algo: int, numers: nat, denom: UnsignedDenominator): HalfOutcome
    requires -1 <= algo <= 4
  {
    var shift := And(denom.more, ShiftMask(w));
    var high := UnsignedHigh(w, numers, denom);
    match algo
    case -1 => Half(if w == 32 then DoHalfU32(numers, denom) else DoHalfU64(numers, denom))
    case 0 => Half(SrlEpi(w, numers, shift))
    case 1 => Half(SrlEpi(w, high, denom.more))
    case 2 => Half(SrlEpi(w, AddEpi(w, SrlEpi(w, SubEpi(w, numers, high), 1), high), shift))
    case _ => Abort
  }

  lemma UnsignedHalfSpecialisation(w: Width, numers: nat, denom: UnsignedDenominator)
    ensures UnsignedHalf(w, Dividers.UnsignedAlgorithm(denom), numers, denom)
         == UnsignedHalf(w, Dividers.GENERAL, numers, denom)
  {
    hide And, MulHiU32Flat, MulHiU64Flat, AddEpi32, SubEpi32, SrlEpi32, AddEpi64, SubEpi64, SrlEpi64, Set1Epi32;
  }

  // ----- signed -----

  function SignedHigh(w: Width, numers: nat, denom: SignedDenominator): nat {
    var m := Unsigned(w, denom.magic);
    if w == 32 then MulHiS32Flat(numers, Set1(w, m)) else MulHiS64Flat(numers, m)
  }

  function SraEpi(w: Width, a: nat, k: nat): nat
    requires w == 64 ==> k < 64
  {
    if w == 32 then SraEpi32(a, k) else ShiftRightVector(a, k)
  }

  /** The shift toward zero. */
  function ShiftHalf(w: Width, numers: nat, shift: nat): nat
    requires shift < w
  {
    var tweak := Set1(w, Unsigned(w, Signed(w, Signed(w, Pow2(shift)) - 1)));
    var signs := if w == 32 then SraEpi32(numers, 31) else SignBits64(numers);
    SraEpi(w, AddEpi(w, numers, And(signs, tweak)), shift)
  }

  /** q >>= k, then q += (q < 0). */
  function ShiftAndRound(w: Width, q: nat, k: nat): nat
    requires w == 64 ==> k < 64
  {
    AddEpi(w, SraEpi(w, q, k), SrlEpi(w, SraEpi(w, q, k), w - 1))
  }

  /** Algorithm 4 uses the whole of `more` as its shift. */
  function SignedHalf(w: Width, algo: int, numers: nat, denom: SignedDenominator): nat
    requires -1 <= algo <= 4 && (algo == 4 && w == 64 ==> denom.more < w)
  {
    MaskedShift(w, denom.more);
    var shift := And(denom.more, ShiftMask(w));
    var high := SignedHigh(w, numers, denom);
    match algo
    case -1 => if w == 32 then DoHalfS32(numers, denom) else DoHalfS64(numers, denom)
    case 0 => ShiftHalf(w, numers, shift)
    case 1 => SubEpi(w, 0, ShiftHalf(w, numers, shift))
    case 2 => ShiftAndRound(w, AddEpi(w, high, numers), shift)
    case 3 => ShiftAndRound(w, SubEpi(w, high, numers), shift)
    case _ => ShiftAndRound(w, high, denom.more)
  }

  /** (q ^ mask) - mask on the lanes of a half. */
  function ApplySignHalf(w: Width, q: nat, mask: int): nat {
    var m := Set1Epi32(Unsigned(32, mask));
    SubEpi(w, Xor(q, m), m)
  }

  lemma LaneSign(w: nat, x: nat, mask: int)
    requires w > 0 && x < Pow2(w) && (mask == 0 || mask == -1)
    ensures Unsigned(w, Xor(x, Unsigned(w, mask)) - Unsigned(w, mask)) == if mask == 0 then x else Unsigned(w, 0 - x)
  {
    hide Pow2, Xor, And, Or, Unsigned;
    assert Pow2(w) == 2 * Pow2(w - 1) by { Pow2Successor(w - 1); }
    SignedInRange(w, mask);
    WithZero(x);
    WithOnes(x, w);
    UnsignedInRange(w, x);
  }

  /** With an all-zero mask it is the identity, with an all-one mask the negation of each lane. */
  lemma ApplySignHalfExact(w: Width, q: nat, mask: int)
    requires q < WORD && (mask == 0 || mask == -1)
    ensures ApplySignHalf(w, q, mask) == if mask == 0 then q else SubEpi(w, 0, q)
  {
    hide Pow2, And, Or, Xor, Unsigned, SubEpi32, Pack, Lo, Hi;
    Pow2Of32();
    Pow2Of64();
    if w == 32 {
      Unpack(q);
      UnsignedBelow(mask);
      SignWords(Lo(q), Hi(q), Unsigned(32, mask));
      LaneSign(32, Lo(q), mask);
      LaneSign(32, Hi(q), mask);
      ZeroWords();
      AddWords(0, 0, Lo(q), Hi(q));
    } else {
      MaskHalf(mask);
      LaneSign(64, q, mask);
    }
  }

  lemma ZeroWords()
    ensures Pack(0, 0) == 0
  {
  }

  lemma AddNegatedWords(high: nat, n: nat)
    requires high < WORD && n < WORD
    ensures AddEpi32(high, SubEpi32(0, n)) == SubEpi32(high, n)
  {
    hide Pow2, Unsigned, SubEpi32, AddEpi32, Pack, Lo, Hi, And, Xor, Or;
    Unpack(n);
    Unpack(high);
    ZeroWords();
    AddWords(0, 0, Lo(n), Hi(n));
    UnsignedBelow(0 - Lo(n));
    UnsignedBelow(0 - Hi(n));
    AddWords(Lo(high), Hi(high), Unsigned(32, 0 - Lo(n)), Unsigned(32, 0 - Hi(n)));
    AddWords(Lo(high), Hi(high), Lo(n), Hi(n));
    WrapSum(32, 0 - Lo(n), Lo(high));
    WrapSum(32, 0 - Hi(n), Hi(high));
  }

  /** Adding the negated lanes is subtracting the lanes. */
  lemma AddNegated(w: Width, high: nat, n: nat)
    requires high < WORD && n < WORD
    ensures AddEpi(w, high, SubEpi(w, 0, n)) == SubEpi(w, high, n)
  {
    hide Pow2, Unsigned, SubEpi32, AddEpi32;
    if w == 32 {
      AddNegatedWords(high, n);
    } else {
      WrapSum(64, 0 - n, high);
    }
  }

  /** The general vector algorithm by its parts. */
  lemma GeneralHalf(w: Width, numers: nat, denom: SignedDenominator)
    ensures And(denom.more, ShiftMask(w)) < w
    ensures var shift, mask := And(denom.more, ShiftMask(w)), S.SignMask(denom.more);
            var high := SignedHigh(w, numers, denom);
            SignedHalf(w, Dividers.GENERAL, numers, denom)
              == if S.IsShiftPath(w, denom) then ApplySignHalf(w, ShiftHalf(w, numers, shift), mask)
                 else if And(denom.more, ADD_MARKER) != 0
                   then ShiftAndRound(w, AddEpi(w, high, ApplySignHalf(w, numers, mask)), shift)
                 else ShiftAndRound(w, high, shift)
  {
    hide And, Xor, Pow2, Unsigned, Signed, S.SignMask, MulHiS32Flat, MulHiS64Flat, SraEpi32, SrlEpi32, AddEpi32,
         SubEpi32, ShiftRightVector, SignBits64, Set1Epi32, AddEpi64, SubEpi64, SrlEpi64;
    MaskedShift(w, denom.more);
  }

  lemma HalvesBelow(w: Width, numers: nat, denom: SignedDenominator, shift: nat)
    requires shift < w
    ensures SignedHigh(w, numers, denom) < WORD && ShiftHalf(w, numers, shift) < WORD
  {
    hide Pow2, Unsigned, Signed, And, Xor, MulHiU32Flat, MulHiU64Flat, SignBits64;
    Pow2Of32();
    Pow2Of64();
  }

  /** Specialising the vector division to the algorithm that a well-formed denominator reports changes
      nothing. */
  lemma SignedHalfSpecialisation(w: Width, numers: nat, denom: SignedDenominator)
    requires numers < WORD && Dividers.WellFormed(w, denom)
    ensures SignedHalf(w, Dividers.SignedAlgorithm(w, denom), numers, denom)
         == SignedHalf(w, Dividers.GENERAL, numers, denom)
  {
    hide And, ShiftHalf, SignedHigh, ShiftAndRound, ApplySignHalf, AddEpi, SubEpi, S.SignMask, DoHalfS32, DoHalfS64;
    Dividers.SignMaskReadsBit7(denom.more);
    GeneralHalf(w, numers, denom);
    var shift, mask := And(denom.more, ShiftMask(w)), S.SignMask(denom.more);
    var high := SignedHigh(w, numers, denom);
    HalvesBelow(w, numers, denom, shift);
    if S.IsShiftPath(w, denom) {
      ApplySignHalfExact(w, ShiftHalf(w, numers, shift), mask);
    } else if And(denom.more, ADD_MARKER) != 0 {
      ApplySignHalfExact(w, numers, mask);
      AddNegated(w, high, numers);
    } else {
      Dividers.PlainMore(w, denom.more);
    }
  }

  // ----- what every lane holds -----

  /** The vector division of a generated divisor divides every lane of a half, by the general algorithm and by the
      one that the divisor reports. */
  lemma UnsignedVectorDivides(w: Width, algo: int, numers: nat, d: nat)
    requires numers < WORD && d > 0 && IsUnsigned(w, d)
    requires algo == Dividers.GENERAL || algo == Dividers.UnsignedAlgorithm(U.Reciprocal(w, d))
    ensures var half := UnsignedHalf(w, algo, numers, U.Reciprocal(w, d));
            && half.Half?
            && (w == 32 ==> half.q % B == numers % B / d && half.q / B == numers / B / d)
            && (w == 64 ==> half.q == numers / d)
  {
    hide U.Reciprocal, U.Do, DoHalfU32, DoHalfU64, Pow2, Dividers.UnsignedAlgorithm, And, UnsignedHigh;
    UnsignedHalfSpecialisation(w, numers, U.Reciprocal(w, d));
    Pow2Of32();
    Pow2Of64();
    if w == 32 {
      LanesU32(numers, d);
    } else {
      U.DivisionExact(64, numers, d);
      HalfU64(numers, U.Reciprocal(64, d));
    }
  }

  lemma SignedVectorDivides(w: Width, algo: int, numers: nat, d: int)
    requires numers < WORD && d != 0 && IsSigned(w, d)
    requires algo == Dividers.GENERAL || algo == Dividers.SignedAlgorithm(w, S.Reciprocal(w, d))
    ensures algo == 4 ==> S.Reciprocal(w, d).more < w
    ensures var q := SignedHalf(w, algo, numers, S.Reciprocal(w, d));
            && (w == 32 ==>
                  && q % B == Unsigned(32, TruncatedQuotient(Signed(32, numers % B), d))
                  && q / B == Unsigned(32, TruncatedQuotient(Signed(32, numers / B), d)))
            && (w == 64 ==> q == Unsigned(64, TruncatedQuotient(Signed(64, numers), d)))
  {
    hide S.Reciprocal, S.Do, DoHalfS32, DoHalfS64, Pow2, And, SignedHigh, ShiftHalf, ShiftAndRound, LaneDo,
         Unsigned, Signed, TruncatedQuotient, IsSigned, AddEpi, SubEpi;
    Pow2Of64();
    Dividers.SignedClass(w, d);
    SignedHalfSpecialisation(w, numers, S.Reciprocal(w, d));
    if w == 32 {
      HalfS32Exact(numers, d);
    } else {
      S.DivisionExact(64, Signed(64, numers), d);
      ReciprocalByte(64, d);
      HalfS64(numers, S.Reciprocal(64, d));
      SignedLane(64, numers, d);
    }
  }

  function UnsignedRegister(w: Width, algo: int, numers: M128, denom: UnsignedDenominator): VectorOutcome
    requires -1 <= algo <= 4
  {
    match (UnsignedHalf(w, algo, numers.q0, denom), UnsignedHalf(w, algo, numers.q1, denom))
    case (Half(q0), Half(q1)) => Register(M128(q0, q1))
    case _ => VectorAbort
  }

  function SignedRegister(w: Width, algo: int, numers: M128, denom: SignedDenominator): M128
    requires -1 <= algo <= 4 && (algo == 4 && w == 64 ==> denom.more < w)
  {
    M128(SignedHalf(w, algo, numers.q0, denom), SignedHalf(w, algo, numers.q1, denom))
  }
}

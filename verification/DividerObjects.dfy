/** The divider objects: a generated denominator and the algorithm chosen for it. */
module DividerObjects {
  import opened Bits
  import opened Words
  import opened Denominators
  import opened Dividers
  import opened Vectors
  import V = VectorAlgorithms
  import U = UnsignedDivide
  import S = SignedDivide

  class UnsignedDivider {
    const w: Width
    const algo: int
    const denom: UnsignedDenominator
    ghost const d: nat

    ghost predicate Valid() {
      && d > 0 && IsUnsigned(w, d) && denom == U.Reciprocal(w, d)
      && -1 <= algo <= 4
    }

    constructor (w: Width, d: nat)
      requires d > 0 && IsUnsigned(w, d)
      ensures Valid() && this.w == w && this.d == d && algo == GENERAL == -1
      ensures denom == U.Reciprocal(w, d)
    {
      hide U.Reciprocal, Pow2;
      var denom: UnsignedDenominator;
      if w == 32 {
        denom := U.GenU32(d);
      } else {
        denom := U.GenU64(d);
      }
      this.w, this.d, this.denom, algo := w, d, denom, GENERAL;
    }

    /** A divider for any of the five algorithm numbers. */
    constructor Unswitch(general: UnsignedDivider, newAlgo: int)
      requires general.Valid() && 0 <= newAlgo <= 4
      ensures Valid() && w == general.w && d == general.d && denom == general.denom && algo == newAlgo
    {
      hide U.Reciprocal, Pow2;
      w, d, denom, algo := general.w, general.d, general.denom, newAlgo;
    }

    /** Dividing by the object is division if its algorithm matches, and aborts exactly for algorithms
        3 and 4. */
    method PerformDivide(n: nat) returns (q: Outcome)
      requires Valid() && IsUnsigned(w, n)
      ensures algo == -1 || algo == UnsignedAlgorithm(denom) ==> q == Quotient(n / d)
      ensures q == Abort <==> algo >= 3
    {
      hide U.Reciprocal, U.Do, Pow2;
      U.DivisionExact(w, n, d);
      UnsignedUnswitch(w, n, d);
      q := UnsignedPerform(w, algo, n, denom);
    }

    /** Every lane is divided. */
    method PerformDivideVector(numers: M128) returns (r: V.VectorOutcome)
      requires Valid() && numers.q0 < WORD && numers.q1 < WORD
      ensures algo == -1 || algo == UnsignedAlgorithm(denom) ==>
                && r.Register?
                && (w == 32 ==>
                      && r.r.q0 % B == numers.q0 % B / d && r.r.q0 / B == numers.q0 / B / d
                      && r.r.q1 % B == numers.q1 % B / d && r.r.q1 / B == numers.q1 / B / d)
                && (w == 64 ==> r.r.q0 == numers.q0 / d && r.r.q1 == numers.q1 / d)
      ensures r == V.VectorAbort <==> algo >= 3
    {
      hide U.Reciprocal, UnsignedAlgorithm, DoHalfU32, DoHalfU64, V.UnsignedHigh, And, Pow2;
      if algo == GENERAL || algo == UnsignedAlgorithm(denom) {
        V.UnsignedVectorDivides(w, algo, numers.q0, d);
        V.UnsignedVectorDivides(w, algo, numers.q1, d);
      }
      r := V.UnsignedRegister(w, algo, numers, denom);
    }

    method Equals(him: UnsignedDivider) returns (same: bool)
      requires Valid() && him.Valid() && w == him.w
      ensures same <==> d == him.d
    {
      hide U.Reciprocal, Pow2;
      UnsignedEquality(w, d, him.d);
      same := denom.magic == him.denom.magic && denom.more == him.denom.more;
    }
  }

  class SignedDivider {
    const w: Width
    const algo: int
    const denom: SignedDenominator
    ghost const d: int

    ghost predicate Valid() {
      && d != 0 && IsSigned(w, d) && denom == S.Reciprocal(w, d)
      && -1 <= algo <= 4
    }

    constructor (w: Width, d: int)
      requires d != 0 && IsSigned(w, d)
      ensures Valid() && this.w == w && this.d == d && algo == GENERAL == -1
      ensures denom == S.Reciprocal(w, d)
    {
      hide S.Reciprocal, Pow2, IsSigned;
      var denom: SignedDenominator;
      if w == 32 {
        denom := S.GenS32(d);
      } else {
        denom := S.GenS64(d);
      }
      this.w, this.d, this.denom, algo := w, d, denom, GENERAL;
    }

    constructor Unswitch(general: SignedDivider, newAlgo: int)
      requires general.Valid() && 0 <= newAlgo <= 4
      ensures Valid() && w == general.w && d == general.d && denom == general.denom && algo == newAlgo
    {
      hide S.Reciprocal, Pow2, IsSigned;
      w, d, denom, algo := general.w, general.d, general.denom, newAlgo;
    }

    /** C's quotient, for every numerator, if the algorithm matches; only the minimum over -1 does not fit
        and wraps. */
    method PerformDivide(n: int) returns (q: Outcome)
      requires Valid() && IsSigned(w, n)
      ensures algo == -1 || algo == SignedAlgorithm(w, denom) ==> q == Quotient(Signed(w, TruncatedQuotient(n, d)))
      ensures algo == -1 || algo == SignedAlgorithm(w, denom) ==>
                (!(n == -(Pow2(w - 1) as int) && d == -1) <==> q == Quotient(TruncatedQuotient(n, d)))
      ensures q != Abort
    {
      hide S.Reciprocal, S.Do, Pow2, IsSigned, TruncatedQuotient, Signed, And;
      S.DivisionExact(w, n, d);
      S.OverflowOnlyForMinimumOverMinusOne(w, n, d);
      SignedUnswitch(w, n, d);
      if algo == GENERAL {
        var result := S.Divide(w, n, denom);
        q := Quotient(result);
      } else {
        q := SignedPerform(w, algo, n, denom);
      }
    }

    /** Algorithm 4 shifts 64-bit lanes by the whole of `more`, which must then be a shift. */
    method PerformDivideVector(numers: M128) returns (r: M128)
      requires Valid() && numers.q0 < WORD && numers.q1 < WORD
      requires algo == SignedAlgorithm(w, denom) || w == 32 || algo != 4 || denom.more < w
      ensures algo == -1 || algo == SignedAlgorithm(w, denom) ==>
                && (w == 32 ==>
                      && r.q0 % B == Unsigned(32, TruncatedQuotient(Signed(32, numers.q0 % B), d))
                      && r.q0 / B == Unsigned(32, TruncatedQuotient(Signed(32, numers.q0 / B), d))
                      && r.q1 % B == Unsigned(32, TruncatedQuotient(Signed(32, numers.q1 % B), d))
                      && r.q1 / B == Unsigned(32, TruncatedQuotient(Signed(32, numers.q1 / B), d)))
                && (w == 64 ==>
                      && r.q0 == Unsigned(64, TruncatedQuotient(Signed(64, numers.q0), d))
                      && r.q1 == Unsigned(64, TruncatedQuotient(Signed(64, numers.q1), d)))
    {
      hide S.Reciprocal, IsSigned, V.SignedHalf, SignedAlgorithm, Pow2, TruncatedQuotient, Signed, Unsigned;
      if algo == GENERAL || algo == SignedAlgorithm(w, denom) {
        V.SignedVectorDivides(w, algo, numers.q0, d);
        V.SignedVectorDivides(w, algo, numers.q1, d);
      }
      r := V.SignedRegister(w, algo, numers, denom);
    }

    method Equals(him: SignedDivider) returns (same: bool)
      requires Valid() && him.Valid() && w == him.w
      ensures same <==> d == him.d
    {
      hide S.Reciprocal, Pow2, IsSigned;
      SignedEquality(w, d, him.d);
      same := denom.magic == him.denom.magic && denom.more == him.denom.more;
    }
  }
}

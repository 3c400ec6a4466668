/** Unsigned division by an invariant integer, for 32-bit and 64-bit words. */
module UnsignedDivide {
  import opened Bits
  import opened Words
  import opened MultiplyHigh
  import opened MagicNumbers
  import opened Denominators
  import LongDivision

  function MulHi(w: Width, x: nat, y: nat): nat
    requires IsUnsigned(w, x) && IsUnsigned(w, y)
  {
    Pow2Values();
    if w == 32 then MulHiU32(x, y) else MulHiU64(x, y)
  }

  lemma MulHiExact(w: Width, x: nat, y: nat)
    requires IsUnsigned(w, x) && IsUnsigned(w, y)
    ensures MulHi(w, x, y) == ShiftRight(x * y, w)
    ensures IsUnsigned(w, MulHi(w, x, y))
  {
    Pow2Values();
    if w == 32 {
      MulHiU32Exact(x, y);
    } else {
      MulHiU64Exact(x, y);
    }
  }

  // ----- division -----

  /** The add step of the general algorithm, ((numer - q) >> 1) + q in w-bit arithmetic. */
  function AddStep(w: nat, numer: nat, q: nat): nat {
    Unsigned(w, ShiftRight(Unsigned(w, numer - q), 1) + q)
  }

  function Do(w: Width, numer: nat, denom: UnsignedDenominator): nat
    requires IsUnsigned(w, numer) && IsUnsigned(w, denom.magic)
  {
    var more := denom.more;
    if And(more, UNSIGNED_SHIFT_PATH) != 0 then
      UShr(numer, And(more, ShiftMask(w)))
    else
      var q := MulHi(w, denom.magic, numer);
      if And(more, ADD_MARKER) != 0 then
        UShr(AddStep(w, numer, q), And(more, ShiftMask(w)))
      else
        UShr(q, more)
  }

  function UShr(x: nat, k: nat): nat {
    MulCancelNonneg(x, Pow2(k));
    ShiftRight(x, k)
  }

  // ----- the specification of the generators -----

  /** The reciprocal 2^(w + l) / d rounded up, where 2^l is the power of two at or below d. */
  function RoundedReciprocal(w: nat, d: nat): int
    requires d > 0
  {
    CeilDiv(Pow2(w + FloorLog2(d)), d)
  }

  /** Its excess over the exact reciprocal, scaled by d, is small enough for w-bit numerators. */
  predicate OneWordSuffices(w: nat, d: nat)
    requires d > 0
  {
    RoundedReciprocal(w, d) * d < Pow2(w + FloorLog2(d)) + Pow2(FloorLog2(d))
  }

  /** The pair the generators must produce: a marked shift for powers of two; the rounded-up
      reciprocal when it suffices; otherwise the low word of the reciprocal one bit longer. */
  function Reciprocal(w: Width, d: nat): UnsignedDenominator
    requires d > 0 && IsUnsigned(w, d)
  {
    if IsPowerOfTwo(d) then UnsignedDenominator(0, More(FloorLog2(d), false, false, true)) else NonPower(w, d)
  }

  function NonPower(w: nat, d: nat): UnsignedDenominator
    requires d > 0 && IsUnsigned(w, d) && !IsPowerOfTwo(d)
  {
    ReciprocalInRange(w, d);
    if OneWordSuffices(w, d) then
      UnsignedDenominator(RoundedReciprocal(w, d), FloorLog2(d))
    else
      UnsignedDenominator(RoundedReciprocal(w + 1, d) - Pow2(w), More(FloorLog2(d), false, true, false))
  }

  lemma ReciprocalInRange(w: nat, d: nat)
    requires d > 0 && IsUnsigned(w, d) && !IsPowerOfTwo(d)
    ensures FloorLog2(d) < w
    ensures 0 < RoundedReciprocal(w, d) < Pow2(w)
    ensures Pow2(w) < RoundedReciprocal(w + 1, d) < Pow2(w + 1) == 2 * Pow2(w)
  {
    FloorLog2Below(d, w);
    ReciprocalRange(d, FloorLog2(d), w);
    ReciprocalRange(d, FloorLog2(d), w + 1);
  }

  /** The numerators tolerate the excess of the one-word reciprocal exactly if it is below 2^l. */
  lemma OneWordSufficesExactly(w: nat, d: nat)
    requires d > 0 && IsUnsigned(w, d) && And(d, d - 1) != 0
    ensures OneWordSuffices(w, d) <==> d - Pow2(w + FloorLog2(d)) % d < Pow2(FloorLog2(d))
  {
    hide Pow2, FloorLog2, And, RoundedReciprocal;
    PowerOfTwoHasOneBit(d);
    ReciprocalIsNext(w, d);
  }

  /** The pair field by field. A power of two gets no factor; every other divisor gets the only factor whose
      excess over the reciprocal the numerators tolerate, with an implicit top bit if it is marked. */
  lemma ReciprocalFields(w: Width, d: nat)
    requires d > 0 && IsUnsigned(w, d)
    ensures var r, l := Reciprocal(w, d), FloorLog2(d);
            var excess := d - Pow2(w + l) % d;
            && (And(d, d - 1) == 0 ==> r.magic == 0 && r.more == l + 0x80)
            && (And(d, d - 1) != 0 && excess < Pow2(l) ==>
                  r.more == l && r.magic * d == Pow2(w + l) + excess)
            && (And(d, d - 1) != 0 && excess >= Pow2(l) ==>
                  && r.more == l + 0x40
                  && Pow2(w + 1 + l) < (Pow2(w) + r.magic) * d < Pow2(w + 1 + l) + d)
            && (r.magic == 0 <==> And(d, d - 1) == 0)
            && r.magic < Pow2(w) && l < w
  {
    hide Pow2, FloorLog2, And, RoundedReciprocal;
    PowerOfTwoHasOneBit(d);
    FloorLog2Below(d, w);
    if !IsPowerOfTwo(d) {
      ReciprocalInRange(w, d);
      ReciprocalIsNext(w, d);
      ReciprocalIsNext(w + 1, d);
    }
  }

  /** The masked reads by which the division tells the cases apart. */
  lemma ReciprocalBits(w: Width, d: nat)
    requires d > 0 && IsUnsigned(w, d)
    ensures var more, l := Reciprocal(w, d).more, FloorLog2(d);
            && more < 0x100 && And(more, if w == 32 then 0x1F else 0x3F) == l
            && (And(more, 0x80) != 0 <==> And(d, d - 1) == 0)
            && (And(more, 0x40) != 0 <==> And(d, d - 1) != 0 && d - Pow2(w + l) % d >= Pow2(l))
            && (w == 32 ==> And(more, 0x20) == 0)
  {
    hide Pow2, FloorLog2, And, Reciprocal;
    ReciprocalFields(w, d);
    ByteBits(Reciprocal(w, d).more);
  }

  // ----- correctness -----

  /** The implicit top bit: the add step halves numer + q without wrapping, which is the product by
      the (w + 1)-bit factor 2^w + magic shifted right by w + 1. */
  lemma AddStepExact(w: nat, numer: nat, magic: nat)
    requires IsUnsigned(w, numer) && IsUnsigned(w, magic)
    ensures var q := ShiftRight(magic * numer, w);
            && 0 <= q <= numer
            && ShiftRight(numer - q, 1) + q < Pow2(w)
            && AddStep(w, numer, q) == ShiftRight((Pow2(w) + magic) * numer, w + 1)
  {
    var q := ShiftRight(magic * numer, w);
    HighHalfBelow(Pow2(w), magic, numer);
    ImplicitBit(Pow2(w), magic, numer);
    ShiftTwice((Pow2(w) + magic) * numer, w, 1);
    HalfSum(w, numer, q);
  }

  lemma HalfSum(w: nat, numer: nat, q: nat)
    requires q <= numer < Pow2(w)
    ensures ShiftRight(numer - q, 1) + q < Pow2(w)
    ensures AddStep(w, numer, q) == ShiftRight(numer + q, 1)
  {
    assert Pow2(1) == 2;
    UnsignedInRange(w, numer - q);
    UnsignedInRange(w, (numer - q) / 2 + q);
  }

  lemma HighHalfBelow(p: nat, magic: nat, numer: nat)
    requires magic < p
    ensures 0 <= magic * numer / p <= numer
  {
    MulLe(0, magic, numer);
    MulLe(magic, p, numer);
    MulCancelNonneg(magic * numer, p);
    DivMonotone(magic * numer, numer * p, p);
    DivIs(numer * p, p, numer);
  }

  lemma ImplicitBit(p: nat, magic: nat, numer: nat)
    requires p > 0
    ensures ((p + magic) * numer) / p == numer + magic * numer / p
  {
    Distribute(p, magic, numer);
    DivAddMultiple(magic * numer, numer, p);
  }

  /** The general path with its implicit extra bit. */
  lemma GeneralPath(w: Width, n: nat, d: nat)
    requires IsUnsigned(w, n) && d > 0 && IsUnsigned(w, d) && !IsPowerOfTwo(d)
    ensures Pow2(w) < RoundedReciprocal(w + 1, d) < Pow2(w + 1)
    ensures var magic := RoundedReciprocal(w + 1, d) - Pow2(w);
            UShr(AddStep(w, n, MulHi(w, magic, n)), FloorLog2(d)) == n / d
  {
    hide Pow2, FloorLog2, MulHi, RoundedReciprocal, AddStep, IsPowerOfTwo, CeilDiv;
    ReciprocalInRange(w, d);
    var m, l := RoundedReciprocal(w + 1, d), FloorLog2(d);
    MulHiExact(w, m - Pow2(w), n);
    AddStepExact(w, n, m - Pow2(w));
    ShiftTwice(m * n, w + 1, l);
    LongMagicQuotient(w, n, d);
  }

  lemma LongMagicQuotient(w: nat, n: nat, d: nat)
    requires IsUnsigned(w, n) && d > 0 && IsUnsigned(w, d) && !IsPowerOfTwo(d)
    ensures RoundedReciprocal(w + 1, d) >= 0
    ensures ShiftRight(RoundedReciprocal(w + 1, d) * n, w + 1 + FloorLog2(d)) == n / d
  {
    var l := FloorLog2(d);
    FloorLog2Below(d, w);
    ReciprocalRange(d, l, w + 1);
    var power := Pow2(w + 1 + l);
    Pow2Add(l + 1, w);
    ErrorBound(d - power % d, n, Pow2(l + 1), Pow2(w));
    MagicQuotient(power, d, RoundedReciprocal(w + 1, d), d - power % d, n);
  }

  lemma ErrorBound(e: nat, n: nat, eBound: nat, nBound: nat)
    requires e < eBound && n < nBound
    ensures 0 <= e * n < eBound * nBound
  {
    MulLe(0, e, n);
    MulLe(e, eBound, n);
    MulLt(n, nBound, eBound);
  }

  /** The one-word path. */
  lemma SmallPath(w: Width, n: nat, d: nat)
    requires IsUnsigned(w, n) && d > 0 && IsUnsigned(w, d) && !IsPowerOfTwo(d)
    requires OneWordSuffices(w, d)
    ensures 0 < RoundedReciprocal(w, d) < Pow2(w)
    ensures UShr(MulHi(w, RoundedReciprocal(w, d), n), FloorLog2(d)) == n / d
  {
    hide Pow2, FloorLog2, MulHi, RoundedReciprocal, IsPowerOfTwo, CeilDiv;
    ReciprocalInRange(w, d);
    var m, l := RoundedReciprocal(w, d), FloorLog2(d);
    MulHiExact(w, m, n);
    ShiftTwice(m * n, w, l);
    SmallMagicQuotient(w, n, d);
  }

  lemma SmallMagicQuotient(w: nat, n: nat, d: nat)
    requires IsUnsigned(w, n) && d > 0 && IsUnsigned(w, d) && !IsPowerOfTwo(d)
    requires OneWordSuffices(w, d)
    ensures RoundedReciprocal(w, d) >= 0
    ensures ShiftRight(RoundedReciprocal(w, d) * n, w + FloorLog2(d)) == n / d
  {
    var l := FloorLog2(d);
    FloorLog2Below(d, w);
    ReciprocalRange(d, l, w);
    var power := Pow2(w + l);
    Pow2Add(l, w);
    ErrorBound(d - power % d, n, Pow2(l), Pow2(w));
    MagicQuotient(power, d, RoundedReciprocal(w, d), d - power % d, n);
  }

  /** Dividing by the generated reciprocal is division, for every numerator and every divisor. */
  lemma DivisionExact(w: Width, n: nat, d: nat)
    requires IsUnsigned(w, n) && d > 0 && IsUnsigned(w, d)
    ensures IsUnsigned(w, Reciprocal(w, d).magic)
    ensures Do(w, n, Reciprocal(w, d)) == n / d
  {
    hide Pow2, MulHi, RoundedReciprocal, AddStep, Do;
    var l := FloorLog2(d);
    FloorLog2Below(d, w);
    if IsPowerOfTwo(d) {
      DoShift(w, n, l);
    } else if OneWordSuffices(w, d) {
      SmallPath(w, n, d);
      DoSmall(w, n, RoundedReciprocal(w, d), l);
    } else {
      GeneralPath(w, n, d);
      ReciprocalInRange(w, d);
      DoGeneral(w, n, RoundedReciprocal(w + 1, d) - Pow2(w), l);
    }
  }

  lemma DoShift(w: Width, n: nat, l: nat)
    requires IsUnsigned(w, n) && l < w
    ensures Do(w, n, UnsignedDenominator(0, More(l, false, false, true))) == UShr(n, l)
  {
    MoreFields(w, l, false, false, true);
  }

  lemma DoSmall(w: Width, n: nat, magic: nat, l: nat)
    requires IsUnsigned(w, n) && IsUnsigned(w, magic) && l < w
    ensures Do(w, n, UnsignedDenominator(magic, l)) == UShr(MulHi(w, magic, n), l)
  {
    MoreFields(w, l, false, false, false);
  }

  lemma DoGeneral(w: Width, n: nat, magic: nat, l: nat)
    requires IsUnsigned(w, n) && IsUnsigned(w, magic) && l < w
    ensures Do(w, n, UnsignedDenominator(magic, More(l, false, true, false)))
         == UShr(AddStep(w, n, MulHi(w, magic, n)), l)
  {
    MoreFields(w, l, false, true, false);
  }

  // ----- the generators -----

  /** What the trial division by d tells when its one-word reciprocal is good enough. */
  lemma OneWordReciprocal(w: nat, d: nat, proposedM: nat, rem: nat)
    requires IsTrialDivision(w, d, proposedM, rem)
    ensures 0 < rem < d
    ensures d - rem < Pow2(FloorLog2(d)) <==> OneWordSuffices(w, d)
    ensures proposedM + 1 == RoundedReciprocal(w, d) < Pow2(w)
  {
    hide Pow2, FloorLog2, RoundedReciprocal, IsPowerOfTwo;
    ReciprocalInRange(w, d);
    ReciprocalIsNext(w, d);
  }

  lemma ReciprocalIsNext(w: nat, d: nat)
    requires d > 0 && IsUnsigned(w, d) && !IsPowerOfTwo(d)
    ensures var power := Pow2(w + FloorLog2(d));
            && 0 < power % d < d
            && RoundedReciprocal(w, d) == power / d + 1
            && RoundedReciprocal(w, d) * d == power + (d - power % d)
  {
    FloorLog2Below(d, w);
    ReciprocalRange(d, FloorLog2(d), w);
  }

  /** When it is not, doubling and correcting gives the low word of the longer one, and the doubled
      remainder does not wrap. */
  lemma LongReciprocal(w: nat, d: nat, proposedM: nat, rem: nat)
    requires IsTrialDivision(w, d, proposedM, rem)
    requires d - rem >= Pow2(FloorLog2(d))
    ensures Unsigned(w, rem + rem) == 2 * rem
    ensures var c := if 2 * rem >= d then 1 else 0;
            && 2 * proposedM + c + 1 == RoundedReciprocal(w + 1, d)
            && Unsigned(w, 2 * proposedM + c + 1) == RoundedReciprocal(w + 1, d) - Pow2(w)
  {
    hide Pow2, FloorLog2, RoundedReciprocal, IsPowerOfTwo, Unsigned;
    var l := FloorLog2(d);
    Pow2Successor(l);
    ReciprocalInRange(w, d);
    Pow2Monotone(l + 1, w);
    UnsignedInRange(w, rem + rem);
    DoubledQuotient(Pow2(w + l), d);
    Pow2Successor(w + l);
    ReciprocalIsNext(w + 1, d);
    LowWord(w, RoundedReciprocal(w + 1, d));
  }

  lemma LowWord(w: nat, m: nat)
    requires Pow2(w) < m < Pow2(w + 1)
    ensures Unsigned(w, m) == m - Pow2(w)
  {
    DivIs(m, Pow2(w), 1);
  }

  ghost predicate IsTrialDivision(w: nat, d: nat, proposedM: nat, rem: nat) {
    && d > 0 && IsUnsigned(w, d) && !IsPowerOfTwo(d)
    && proposedM == Pow2(w + FloorLog2(d)) / d
    && rem == Pow2(w + FloorLog2(d)) % d
  }

  /** The choice both generators make from the trial division, in w-bit arithmetic. */
  function MagicFromTrial(w: nat, d: nat, floorLog2D: nat, m: nat, rem: nat): UnsignedDenominator {
    if d - rem < Pow2(floorLog2D) then
      UnsignedDenominator(Unsigned(w, 1 + m), floorLog2D)
    else
      UnsignedDenominator(Unsigned(w, 1 + DoubledMagic(w, d, m, rem)), Or(floorLog2D, ADD_MARKER))
  }

  function DoubledMagic(w: nat, d: nat, m: nat, rem: nat): nat {
    var twiceM, twiceRem := Unsigned(w, m + m), Unsigned(w, rem + rem);
    if twiceRem >= d || twiceRem < rem then Unsigned(w, twiceM + 1) else twiceM
  }

  lemma DoubledMagicExact(w: nat, d: nat, m: nat, rem: nat)
    requires IsTrialDivision(w, d, m, rem)
    requires d - rem >= Pow2(FloorLog2(d))
    ensures Unsigned(w, 1 + DoubledMagic(w, d, m, rem)) == RoundedReciprocal(w + 1, d) - Pow2(w)
  {
    hide Pow2, FloorLog2, RoundedReciprocal, IsPowerOfTwo;
    ReciprocalInRange(w, d);
    LongReciprocal(w, d, m, rem);
    WrapTwice(w, m + m);
    hide Unsigned, IsTrialDivision;
    assert m + m == 2 * m && rem + rem == 2 * rem;
  }

  lemma MagicFromTrialExact(w: Width, d: nat, m: nat, rem: nat)
    requires IsTrialDivision(w, d, m, rem)
    ensures MagicFromTrial(w, d, FloorLog2(d), m, rem) == Reciprocal(w, d)
  {
    if d - rem < Pow2(FloorLog2(d)) {
      OneWordCase(w, d, m, rem);
    } else {
      LongCase(w, d, m, rem);
    }
  }

  lemma OneWordCase(w: nat, d: nat, m: nat, rem: nat)
    requires IsTrialDivision(w, d, m, rem) && d - rem < Pow2(FloorLog2(d))
    ensures MagicFromTrial(w, d, FloorLog2(d), m, rem) == NonPower(w, d)
  {
    hide Pow2, FloorLog2, RoundedReciprocal, IsPowerOfTwo, Unsigned;
    OneWordReciprocal(w, d, m, rem);
    UnsignedInRange(w, 1 + m);
  }

  lemma LongCase(w: Width, d: nat, m: nat, rem: nat)
    requires IsTrialDivision(w, d, m, rem) && d - rem >= Pow2(FloorLog2(d))
    ensures MagicFromTrial(w, d, FloorLog2(d), m, rem) == NonPower(w, d)
  {
    hide Pow2, FloorLog2, RoundedReciprocal, IsPowerOfTwo, Unsigned, DoubledMagic, Or;
    FloorLog2Below(d, w);
    OneWordReciprocal(w, d, m, rem);
    OrFields(w, FloorLog2(d));
    DoubledMagicExact(w, d, m, rem);
  }

  /** The second half of both generators. */
  method ChooseMagic(w: nat, d: nat, floorLog2D: nat, m: nat, rem: nat) returns (result: UnsignedDenominator)
    ensures result == MagicFromTrial(w, d, floorLog2D, m, rem)
  {
    var more, proposedM := floorLog2D, m;
    var e := d - rem;
    if e >= Pow2(floorLog2D) {
      proposedM := Unsigned(w, proposedM + proposedM);
      var twiceRem := Unsigned(w, rem + rem);
      if twiceRem >= d || twiceRem < rem {
        proposedM := Unsigned(w, proposedM + 1);
      }
      more := Or(floorLog2D, ADD_MARKER);
    }
    result := UnsignedDenominator(Unsigned(w, 1 + proposedM), more);
  }

  lemma WrapTwice(w: nat, x: int)
    requires w > 0
    ensures Unsigned(w, 1 + Unsigned(w, x)) == Unsigned(w, x + 1)
    ensures Unsigned(w, 1 + Unsigned(w, Unsigned(w, x) + 1)) == Unsigned(w, x + 2)
  {
    WrapSum(w, x, 1);
    WrapSum(w, x + 1, 1);
  }

  /** The high word of the trial dividend 2^(w + l). */
  lemma TrialDividend(w: Width, l: nat, d: nat)
    requires l < w && Pow2(l) < d
    ensures Pow2(l) < Pow2(w)
    ensures Pow2(l) * Pow2(w) == Pow2(w + l)
  {
    Pow2Add(l, w);
    Pow2Monotone(l, w);
  }

  method GenU32(d: nat) returns (result: UnsignedDenominator)
    requires d > 0 && IsUnsigned(32, d)
    ensures result == Reciprocal(32, d)
    ensures And(d, d - 1) == 0 ==> result.magic == 0 && result.more == FloorLog2(d) + 0x80
  {
    hide Pow2, FloorLog2, And, Or, More, NonPower;
    Pow2Of32();
    PowerOfTwoHasOneBit(d);
    FloorLog2Below(d, 32);
    if And(d, d - 1) == 0 {
      var zeros := LongDivision.CountTrailingZeros32(d);
      TrailingZerosOfPower(d, zeros);
      OrFields(32, zeros);
      ReciprocalFields(32, d);
      result := UnsignedDenominator(0, Or(zeros, UNSIGNED_SHIFT_PATH));
    } else {
      var zeros := LongDivision.CountLeadingZeros(32, d);
      var floorLog2D := 31 - zeros;
      TrialDividend(32, floorLog2D, d);
      var proposedM, rem := LongDivision.Divide64By32(Pow2(floorLog2D), 0, d);
      MagicFromTrialExact(32, d, proposedM, rem);
      result := ChooseMagic(32, d, floorLog2D, proposedM, rem);
    }
  }

  method GenU64(d: nat) returns (result: UnsignedDenominator)
    requires d > 0 && IsUnsigned(64, d)
    ensures result == Reciprocal(64, d)
    ensures And(d, d - 1) == 0 ==> result.magic == 0 && result.more == FloorLog2(d) + 0x80
  {
    hide Pow2, FloorLog2, And, Or, More, NonPower;
    Pow2Of64();
    PowerOfTwoHasOneBit(d);
    FloorLog2Below(d, 64);
    if And(d, d - 1) == 0 {
      var zeros := LongDivision.CountTrailingZeros64(d);
      TrailingZerosOfPower(d, zeros);
      OrFields(64, zeros);
      ReciprocalFields(64, d);
      result := UnsignedDenominator(0, Or(zeros, UNSIGNED_SHIFT_PATH));
    } else {
      var zeros := LongDivision.CountLeadingZeros(64, d);
      var floorLog2D := 63 - zeros;
      TrialDividend(64, floorLog2D, d);
      WithZero(Pow2(floorLog2D));
      var proposedM, rem := LongDivision.Divide128By64(Pow2(floorLog2D), 0, d);
      MagicFromTrialExact(64, d, proposedM, rem);
      result := ChooseMagic(64, d, floorLog2D, proposedM, rem);
    }
  }
}

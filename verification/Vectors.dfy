/** The SSE2 versions. Every intrinsic they use acts on the two 64-bit halves of a register
    independently, so the intrinsics are modelled on one half, a 64-bit word made of two 32-bit words. */
module Vectors {
  import opened Bits
  import opened Words
  import opened Denominators
  import opened MultiplyHigh
  import U = UnsignedDivide
  import S = SignedDivide

  datatype M128 = M128(q0: nat, q1: nat)

  // ----- intrinsics on one half -----

  function Lo(q: nat): nat { q % B }

  function Hi(q: nat): nat { q / B }

  function Pack(lo: nat, hi: nat): nat { lo + hi * B }

  function MulEpu32(a: nat, b: nat): nat {
    MulLe(0, Lo(a), Lo(b));
    Lo(a) * Lo(b)
  }

  function SrlEpi64(a: nat, k: nat): nat { U.UShr(a, k) }

  function AddEpi64(a: nat, b: nat): nat { Unsigned(64, a + b) }

  function SubEpi64(a: nat, b: nat): nat { Unsigned(64, a - b) }

  function SrlEpi32(a: nat, k: nat): nat { Pack(U.UShr(Lo(a), k), U.UShr(Hi(a), k)) }

  function SraEpi32(a: nat, k: nat): nat { Pack(Sra(32, Lo(a), k), Sra(32, Hi(a), k)) }

  function AddEpi32(a: nat, b: nat): nat { Pack(Unsigned(32, Lo(a) + Lo(b)), Unsigned(32, Hi(a) + Hi(b))) }

  function SubEpi32(a: nat, b: nat): nat { Pack(Unsigned(32, Lo(a) - Lo(b)), Unsigned(32, Hi(a) - Hi(b))) }

  function Set1Epi32(x: nat): nat { Pack(x, x) }

  /** _mm_shuffle_epi32(v, _MM_SHUFFLE(3, 3, 1, 1)). */
  function DuplicateHigh(a: nat): nat { Pack(Hi(a), Hi(a)) }

  /** Arithmetic right shift of a w-bit pattern. */
  function Sra(w: nat, u: nat, k: nat): nat
    requires w > 0
  {
    Unsigned(w, ShiftRight(Signed(w, u), k))
  }

  lemma PackWords(lo: nat, hi: nat)
    requires lo < B && hi < B
    ensures Lo(Pack(lo, hi)) == lo && Hi(Pack(lo, hi)) == hi && Pack(lo, hi) < WORD
  {
  }

  lemma Unpack(q: nat)
    requires q < WORD
    ensures q == Pack(Lo(q), Hi(q)) && Lo(q) == q % B && Hi(q) == q / B < B
  {
  }

  /** The bitwise intrinsics act on each word. */
  lemma BitwiseWords(a: nat, b: nat)
    requires a < WORD && b < WORD
    ensures And(a, b) == Pack(And(Lo(a), Lo(b)), And(Hi(a), Hi(b))) < WORD
    ensures Xor(a, b) == Pack(Xor(Lo(a), Lo(b)), Xor(Hi(a), Hi(b))) < WORD
    ensures Or(a, b) == Pack(Or(Lo(a), Lo(b)), Or(Hi(a), Hi(b))) < WORD
    ensures And(Lo(a), Lo(b)) < B && Or(Lo(a), Lo(b)) < B && Xor(Lo(a), Lo(b)) < B
    ensures And(Hi(a), Hi(b)) < B && Or(Hi(a), Hi(b)) < B && Xor(Hi(a), Hi(b)) < B
  {
    hide And, Or, Xor, Pow2;
    Pow2Of32();
    WithZero(0);
    Split(Lo(a), Hi(a), Lo(b), Hi(b), 32);
    Split(Hi(a), 0, Hi(b), 0, 32);
  }

  // ----- unsigned, four 32-bit lanes -----

  function MulHiU32Flat(a: nat, b: nat): nat {
    var hiProduct0 := SrlEpi64(MulEpu32(a, b), 32);
    var a1 := SrlEpi64(a, 32);
    var hiProduct1 := And(MulEpu32(a1, b), 0xFFFF_FFFF_0000_0000);
    Or(hiProduct0, hiProduct1)
  }

  function DoHalfU32(numers: nat, denom: UnsignedDenominator): nat {
    var more := denom.more;
    if And(more, UNSIGNED_SHIFT_PATH) != 0 then
      SrlEpi32(numers, And(more, ShiftMask(32)))
    else
      var q := MulHiU32Flat(numers, Set1Epi32(denom.magic));
      if And(more, ADD_MARKER) != 0 then
        var t := AddEpi32(SrlEpi32(SubEpi32(numers, q), 1), q);
        SrlEpi32(t, And(more, ShiftMask(32)))
      else
        SrlEpi32(q, more)
  }

  function DoVectorU32(numers: M128, denom: UnsignedDenominator): M128 {
    M128(DoHalfU32(numers.q0, denom), DoHalfU32(numers.q1, denom))
  }

  lemma LowProduct(a: nat, m: nat)
    requires m < B
    ensures MulEpu32(a, Set1Epi32(m)) == Lo(a) * m
    ensures a < B ==> Lo(a) == a
  {
    PackWords(m, m);
  }

  lemma HighDigit(x: nat)
    ensures SrlEpi64(x, 32) == x / B
  {
    hide Pow2;
    Pow2Of32();
  }

  /** The even and odd products, shifted and masked into place, are the two upper halves. */
  lemma MulHiU32FlatWords(a: nat, m: nat)
    requires a < WORD && m < B
    ensures MulHiU32Flat(a, Set1Epi32(m)) == Pack(MulHiU32(Lo(a), m), MulHiU32(Hi(a), m)) < WORD
  {
    hide And, Or, Pow2, MulHiU32, SrlEpi64, MulEpu32, Set1Epi32;
    Pow2Of32();
    MulHiU32Exact(Lo(a), m);
    MulHiU32Exact(Hi(a), m);
    HighDigit(a);
    LowProduct(a, m);
    LowProduct(Hi(a), m);
    HighDigit(MulEpu32(a, Set1Epi32(m)));
    HighWordMask(MulEpu32(Hi(a), Set1Epi32(m)));
    OrDisjoint(MulHiU32(Lo(a), m), MulHiU32(Hi(a), m), 32);
  }

  lemma HighWordMask(x: nat)
    requires x / B < B
    ensures And(x, 0xFFFF_FFFF_0000_0000) == x / B * B
  {
    hide And, Or, Xor, Pow2;
    BitwiseWords(x, 0xFFFF_FFFF_0000_0000);
    WithZero(Lo(x));
    Pow2Of32();
    WithOnes(Hi(x), 32);
  }

  lemma WordsBelow(lo: nat, hi: nat, k: nat)
    requires lo < B && hi < B
    ensures U.UShr(lo, k) < B && U.UShr(hi, k) < B
    ensures SrlEpi32(Pack(lo, hi), k) == Pack(U.UShr(lo, k), U.UShr(hi, k)) < WORD
  {
    hide Pow2;
    PackWords(lo, hi);
    ShiftBelow(lo, k);
    ShiftBelow(hi, k);
  }

  lemma ShiftBelow(x: nat, k: nat)
    ensures U.UShr(x, k) <= x
  {
    S.QuotientOfMagnitudes(x, Pow2(k));
  }

  /** Both 32-bit lanes of a half divide like the scalar code. */
  lemma LanesU32(numers: nat, d: nat)
    requires numers < WORD && 0 < d < B
    ensures IsUnsigned(32, d) && IsUnsigned(32, Lo(numers)) && IsUnsigned(32, Hi(numers))
    ensures var half := DoHalfU32(numers, U.Reciprocal(32, d));
            half < WORD && Lo(half) == Lo(numers) / d && Hi(half) == Hi(numers) / d
  {
    hide Pow2, U.Do, U.Reciprocal, DoHalfU32;
    Pow2Of32();
    U.DivisionExact(32, Lo(numers), d);
    U.DivisionExact(32, Hi(numers), d);
    HalfU32(numers, U.Reciprocal(32, d));
    S.QuotientOfMagnitudes(Lo(numers), d);
    S.QuotientOfMagnitudes(Hi(numers), d);
    PackWords(Lo(numers) / d, Hi(numers) / d);
  }

  lemma HalfU32(numers: nat, denom: UnsignedDenominator)
    requires numers < WORD && denom.magic < B
    ensures IsUnsigned(32, denom.magic) && IsUnsigned(32, Lo(numers)) && IsUnsigned(32, Hi(numers))
    ensures DoHalfU32(numers, denom) == Pack(U.Do(32, Lo(numers), denom), U.Do(32, Hi(numers), denom))
  {
    hide Pow2, And, MulHiU32, MulHiU32Flat, SrlEpi32, SubEpi32, AddEpi32, U.UShr, U.AddStep, Pack;
    Pow2Of32();
    var lo, hi, m := Lo(numers), Hi(numers), denom.magic;
    Unpack(numers);
    WordsBelow(lo, hi, And(denom.more, ShiftMask(32)));
    MulHiU32FlatWords(numers, m);
    MulHiU32Swap(lo, m);
    MulHiU32Swap(hi, m);
    var ql, qh := MulHiU32(m, lo), MulHiU32(m, hi);
    WordsBelow(ql, qh, denom.more);
    AddStepWords(lo, hi, ql, qh);
    WordsBelow(U.AddStep(32, lo, ql), U.AddStep(32, hi, qh), And(denom.more, ShiftMask(32)));
  }

  lemma MulHiU32Swap(x: nat, y: nat)
    requires x < B && y < B
    ensures MulHiU32(x, y) == MulHiU32(y, x) < B
  {
  }

  lemma AddStepWords(lo: nat, hi: nat, ql: nat, qh: nat)
    requires lo < B && hi < B && ql < B && qh < B
    ensures U.AddStep(32, lo, ql) < B && U.AddStep(32, hi, qh) < B
    ensures AddEpi32(SrlEpi32(SubEpi32(Pack(lo, hi), Pack(ql, qh)), 1), Pack(ql, qh))
         == Pack(U.AddStep(32, lo, ql), U.AddStep(32, hi, qh))
  {
    hide Pow2, Unsigned, Pack, Lo, Hi, U.UShr;
    Pow2Of32();
    PackWords(lo, hi);
    PackWords(ql, qh);
    var dl, dh := Unsigned(32, lo - ql), Unsigned(32, hi - qh);
    PackWords(dl, dh);
    WordsBelow(dl, dh, 1);
    PackWords(U.UShr(dl, 1), U.UShr(dh, 1));
    ShiftIsUShr(dl);
    ShiftIsUShr(dh);
  }

  lemma ShiftIsUShr(x: nat)
    ensures U.UShr(x, 1) == ShiftRight(x, 1)
  {
  }

  // ----- unsigned, two 64-bit lanes -----

  function MulHiU64Flat(x: nat, y: nat): nat {
    var mask := 0xFFFF_FFFF;
    var x0, x1 := And(x, mask), SrlEpi64(x, 32);
    var y0, y1 := And(y, mask), SrlEpi64(y, 32);
    var x0y0Hi := SrlEpi64(MulEpu32(x0, y0), 32);
    var x0y1, x1y0, x1y1 := MulEpu32(x0, y1), MulEpu32(x1, y0), MulEpu32(x1, y1);
    var temp := AddEpi64(x1y0, x0y0Hi);
    var tempLo, tempHi := And(temp, mask), SrlEpi64(temp, 32);
    AddEpi64(SrlEpi64(AddEpi64(tempLo, x0y1), 32), AddEpi64(x1y1, tempHi))
  }

  function DoHalfU64(numers: nat, denom: UnsignedDenominator): nat {
    var more := denom.more;
    if And(more, UNSIGNED_SHIFT_PATH) != 0 then
      SrlEpi64(numers, And(more, ShiftMask(64)))
    else
      var q := MulHiU64Flat(numers, denom.magic);
      if And(more, ADD_MARKER) != 0 then
        var t := AddEpi64(SrlEpi64(SubEpi64(numers, q), 1), q);
        SrlEpi64(t, And(more, ShiftMask(64)))
      else
        SrlEpi64(q, more)
  }

  function DoVectorU64(numers: M128, denom: UnsignedDenominator): M128 {
    M128(DoHalfU64(numers.q0, denom), DoHalfU64(numers.q1, denom))
  }

  lemma MulHiU64FlatExact(x: nat, y: nat)
    requires x < WORD && y < WORD
    ensures MulHiU64Flat(x, y) == (x * y) / WORD < WORD
  {
    hide And, Pow2, AddEpi64, SrlEpi64, MulEpu32;
    LowDigit(x);
    LowDigit(y);
    HighDigit(x);
    HighDigit(y);
    var x0, x1, y0, y1 := x % B, x / B, y % B, y / B;
    MulEpu32Exact(x0, y0);
    MulEpu32Exact(x0, y1);
    MulEpu32Exact(x1, y0);
    MulEpu32Exact(x1, y1);
    FlatProducts(x0, x1, y0, y1);
    SignedProduct(x, y);
  }

  lemma MulEpu32Exact(a: nat, b: nat)
    requires a < B && b < B
    ensures MulEpu32(a, b) == a * b
  {
  }

  lemma FlatProducts(x0: nat, x1: nat, y0: nat, y1: nat)
    requires x0 < B && x1 < B && y0 < B && y1 < B
    ensures 0 <= x0 * y0 && 0 <= x0 * y1 && 0 <= x1 * y0 && 0 <= x1 * y1
    ensures var temp := AddEpi64(x1 * y0, SrlEpi64(x0 * y0, 32));
            AddEpi64(SrlEpi64(AddEpi64(And(temp, 0xFFFF_FFFF), x0 * y1), 32), AddEpi64(x1 * y1, SrlEpi64(temp, 32)))
              == (x0 * y0 + (x0 * y1 + x1 * y0) * B + x1 * y1 * WORD) / WORD < WORD
  {
    HalfProductBound(x0, y0);
    HalfProductBound(x0, y1);
    HalfProductBound(x1, y0);
    HalfProductBound(x1, y1);
    FlatCarry(x0 * y0, x0 * y1, x1 * y0, x1 * y1);
  }

  lemma FlatCarry(a: nat, b: nat, c: nat, d: nat)
    requires a <= UNSIGNED_PRODUCT && b <= UNSIGNED_PRODUCT && c <= UNSIGNED_PRODUCT && d <= UNSIGNED_PRODUCT
    ensures var temp := AddEpi64(c, SrlEpi64(a, 32));
            AddEpi64(SrlEpi64(AddEpi64(And(temp, 0xFFFF_FFFF), b), 32), AddEpi64(d, SrlEpi64(temp, 32)))
              == (a + (b + c) * B + d * WORD) / WORD < WORD
  {
    hide And, Pow2, Unsigned;
    Pow2Of32();
    Pow2Of64();
    SchoolbookSum(a, b, c, d);
    var temp := c + a / B;
    UnsignedInRange(64, temp);
    LowDigit(temp);
    UnsignedInRange(64, temp % B + b);
    UnsignedInRange(64, d + temp / B);
    UnsignedInRange(64, d + temp / B + (temp % B + b) / B);
  }

  lemma HalfU64(numers: nat, denom: UnsignedDenominator)
    requires numers < WORD && denom.magic < WORD
    ensures IsUnsigned(64, numers) && IsUnsigned(64, denom.magic)
    ensures DoHalfU64(numers, denom) == U.Do(64, numers, denom)
  {
    hide Pow2, And, MulHiU64Flat, MulHiU64, Unsigned;
    Pow2Of64();
    MulHiU64FlatExact(numers, denom.magic);
    MulHiU64Exact(denom.magic, numers);
  }

  /** Every lane of the vector divisions by a generated denominator is the quotient. */
  lemma VectorU32Exact(numers: M128, d: nat)
    requires numers.q0 < WORD && numers.q1 < WORD && d > 0 && IsUnsigned(32, d)
    ensures var r := DoVectorU32(numers, U.Reciprocal(32, d));
            && r.q0 % B == numers.q0 % B / d && r.q0 / B == numers.q0 / B / d
            && r.q1 % B == numers.q1 % B / d && r.q1 / B == numers.q1 / B / d
  {
    hide Pow2, DoHalfU32, U.Reciprocal, U.Do;
    Pow2Of32();
    LanesU32(numers.q0, d);
    LanesU32(numers.q1, d);
  }

  lemma VectorU64Exact(numers: M128, d: nat)
    requires numers.q0 < WORD && numers.q1 < WORD && d > 0 && IsUnsigned(64, d)
    ensures var r := DoVectorU64(numers, U.Reciprocal(64, d));
            r.q0 == numers.q0 / d && r.q1 == numers.q1 / d
  {
    hide Pow2, DoHalfU64, U.Reciprocal, U.Do;
    Pow2Of64();
    U.DivisionExact(64, numers.q0, d);
    U.DivisionExact(64, numers.q1, d);
    HalfU64(numers.q0, U.Reciprocal(64, d));
    HalfU64(numers.q1, U.Reciprocal(64, d));
  }

  // ----- signed lanes of either width -----

  /** The sign of a lane spread over all its bits. */
  function SignBits(w: nat, u: nat): nat
    requires w > 0
  {
    if u < Pow2(w - 1) then 0 else Pow2(w) - 1
  }

  /** What the vector code computes in one lane of width w, on bit patterns: signed multiply-high is
      the unsigned one less two masked corrections, and q += (q < 0) adds the top bit. */
  function LaneMulHi(w: Width, n: nat, m: nat): nat
    requires n < Pow2(w) && m < Pow2(w)
  {
    Unsigned(w, Unsigned(w, U.MulHi(w, n, m) - And(SignBits(w, n), m)) - And(SignBits(w, m), n))
  }

  function LaneDo(w: Width, n: nat, denom: SignedDenominator): nat
    requires n < Pow2(w)
  {
    var more := denom.more;
    var shift := And(more, ShiftMask(w));
    var mask := Unsigned(w, S.SignMask(more));
    if S.IsShiftPath(w, denom) then
      var tweak := Unsigned(w, Signed(w, Signed(w, Pow2(shift)) - 1));
      var q := Sra(w, Unsigned(w, n + And(SignBits(w, n), tweak)), shift);
      Unsigned(w, Xor(q, mask) - mask)
    else
      var high := LaneMulHi(w, n, Unsigned(w, denom.magic));
      var q := if And(more, ADD_MARKER) != 0 then Unsigned(w, high + Unsigned(w, Xor(n, mask) - mask)) else high;
      var r := Sra(w, q, shift);
      Unsigned(w, r + U.UShr(r, w - 1))
  }

  lemma SignBitsExact(w: nat, u: nat, x: nat)
    requires w > 0 && u < Pow2(w) && x < Pow2(w)
    ensures SignBits(w, u) == Unsigned(w, if Signed(w, u) < 0 then -1 else 0)
    ensures And(SignBits(w, u), x) == if Signed(w, u) < 0 then x else 0
    ensures Signed(w, u) == u - (if Signed(w, u) < 0 then Pow2(w) else 0)
  {
    hide And, Xor, Or;
    assert Pow2(w) == 2 * Pow2(w - 1);
    UnsignedInRange(w, u);
    SignedInRange(w, -1);
    SignedInRange(w, 0);
    WithZero(x);
    WithOnes(x, w);
    Commute(x, Pow2(w) - 1);
  }

  /** Two's complement patterns n = sn + alpha p and m = sm + beta p, with sign bits alpha and beta. */
  lemma CorrectedProduct(p: nat, sn: int, sm: int, alpha: int, beta: int)
    requires p > 0 && 0 <= alpha <= 1 && 0 <= beta <= 1
    ensures var n, m := sn + alpha * p, sm + beta * p;
            (n * m) / p - alpha * m - beta * n == (sn * sm) / p - (alpha * beta) * p
  {
    if alpha == 0 && beta == 0 {
    } else if alpha == 0 {
      ShiftedFactor(p, sn, sm);
    } else if beta == 0 {
      ShiftedFactor(p, sm, sn);
    } else {
      ShiftedFactor(p, sn, sm);
      ShiftedFactor(p, sm + p, sn);
    }
  }

  lemma ShiftedFactor(p: nat, x: int, y: int)
    requires p > 0
    ensures (x * (y + p)) / p == (x * y) / p + x && ((y + p) * x) / p == (x * y) / p + x
  {
    Distribute(y, p, x);
    DivAddMultiple(x * y, x, p);
  }

  lemma CorrectionsCancel(w: Width, n: nat, m: nat)
    requires n < Pow2(w) && m < Pow2(w)
    ensures var sn, sm := Signed(w, n), Signed(w, m);
            var alpha, beta := if sn < 0 then 1 else 0, if sm < 0 then 1 else 0;
            && And(SignBits(w, n), m) == alpha * m && And(SignBits(w, m), n) == beta * n
            && U.MulHi(w, n, m) - alpha * m - beta * n == S.MulHi(w, sn, sm) - (alpha * beta) * Pow2(w)
  {
    hide Pow2, And, Signed, Unsigned, U.MulHi, S.MulHi, SignBits;
    var sn, sm := Signed(w, n), Signed(w, m);
    var alpha, beta := if sn < 0 then 1 else 0, if sm < 0 then 1 else 0;
    SignBitsExact(w, n, m);
    SignBitsExact(w, m, n);
    U.MulHiExact(w, n, m);
    S.MulHiExact(w, sn, sm);
    CorrectedProduct(Pow2(w), sn, sm, alpha, beta);
  }

  lemma LaneMulHiExact(w: Width, n: nat, m: nat)
    requires n < Pow2(w) && m < Pow2(w)
    ensures LaneMulHi(w, n, m) == Unsigned(w, S.MulHi(w, Signed(w, n), Signed(w, m)))
  {
    hide Pow2, And, Signed, Unsigned, U.MulHi, S.MulHi, SignBits;
    CorrectionsCancel(w, n, m);
    var alpha, beta := if Signed(w, n) < 0 then 1 else 0, if Signed(w, m) < 0 then 1 else 0;
    var high := U.MulHi(w, n, m);
    WrapSum(w, high - alpha * m, -(beta * n));
    assert alpha * beta == 0 || alpha * beta == 1;
    SameWord(w, high - alpha * m - beta * n, S.MulHi(w, Signed(w, n), Signed(w, m)), -(alpha * beta));
  }

  lemma PatternSum(w: nat, x: int, y: int)
    requires w > 0
    ensures Unsigned(w, Unsigned(w, x) + Unsigned(w, y)) == Unsigned(w, x + y)
    ensures Signed(w, Unsigned(w, x + y)) == Signed(w, x + y)
  {
    hide Pow2, Signed, Unsigned;
    WrapSum(w, x, Unsigned(w, y));
    WrapSum(w, y, x);
    SignedOfUnsigned(w, x + y);
  }

  lemma LaneApplySign(w: Width, u: nat, mask: int)
    requires u < Pow2(w)
    ensures Unsigned(w, Xor(u, Unsigned(w, mask)) - Unsigned(w, mask))
         == Unsigned(w, S.ApplySign(w, Signed(w, u), mask))
  {
    hide Pow2, Signed, Unsigned, Xor;
    UnsignedInRange(w, u);
    SignedOfUnsigned(w, u);
    var x := Xor(u, Unsigned(w, mask));
    WrapSum(w, mask, x);
    WrapSum(w, x, -mask);
    SignedOfUnsigned(w, x - mask);
    SignedOfUnsigned(w, Signed(w, x) - mask);
  }

  lemma LaneShift(w: Width, n: nat, k: nat)
    requires n < Pow2(w)
    ensures var tweak := Unsigned(w, Signed(w, Signed(w, Pow2(k)) - 1));
            Sra(w, Unsigned(w, n + And(SignBits(w, n), tweak)), k) == Unsigned(w, S.RoundedShift(w, Signed(w, n), k))
  {
    hide Pow2, Signed, Unsigned, And, SignBits, SignedAnd, ShiftRight;
    var sn, tweak := Signed(w, n), Signed(w, Signed(w, Pow2(k)) - 1);
    SignBitsExact(w, n, Unsigned(w, tweak));
    UnsignedInRange(w, n);
    SignedOfUnsigned(w, n);
    SignShift(w, sn);
    SignMasks(w, tweak);
    PatternSum(w, sn, tweak);
    PatternSum(w, sn, 0);
    UnsignedInRange(w, 0);
  }

  lemma LaneRoundUp(w: Width, r: int)
    requires IsSigned(w, r)
    ensures Unsigned(w, Unsigned(w, r) + U.UShr(Unsigned(w, r), w - 1)) == Unsigned(w, S.RoundUpNegative(w, r))
  {
    hide Signed, Unsigned, Pow2;
    var up := if r < 0 then 1 else 0;
    SignedInRange(w, r);
    Pow2Successor(w - 1);
    DivIs(Unsigned(w, r), Pow2(w - 1), up);
    WrapSum(w, r, up);
    SignedOfUnsigned(w, r + up);
  }

  /** A lane computes the pattern of the scalar quotient. */
  lemma LaneDoExact(w: Width, n: nat, denom: SignedDenominator)
    requires n < Pow2(w) && IsSigned(w, denom.magic)
    ensures LaneDo(w, n, denom) == Unsigned(w, S.Do(w, Signed(w, n), denom))
  {
    hide Pow2, Signed, Unsigned, And, Xor, SignBits, S.MulHi, S.ApplySign, S.RoundedShift, S.RoundUpNegative,
         S.SignMask, S.IsShiftPath, LaneMulHi, ShiftRight, ShiftMask, U.UShr;
    var sn, shift, mask := Signed(w, n), And(denom.more, ShiftMask(w)), S.SignMask(denom.more);
    if S.IsShiftPath(w, denom) {
      LaneShift(w, n, shift);
      var q := S.RoundedShift(w, sn, shift);
      S.RoundedShiftInRange(w, sn, shift);
      LaneApplySign(w, Unsigned(w, q), mask);
      SignedOfUnsigned(w, q);
      SignedInRange(w, q);
    } else {
      var high := S.MulHi(w, denom.magic, sn);
      SignedOfUnsigned(w, denom.magic);
      SignedInRange(w, denom.magic);
      MulHiSwap(w, denom.magic, sn);
      LaneMulHiExact(w, n, Unsigned(w, denom.magic));
      LaneApplySign(w, n, mask);
      PatternSum(w, high, S.ApplySign(w, sn, mask));
      SignedOfUnsigned(w, high);
      var q := if And(denom.more, ADD_MARKER) != 0 then Signed(w, high + S.ApplySign(w, sn, mask)) else high;
      SignedInRange(w, high);
      ShiftSigned(w, q, shift);
      LaneRoundUp(w, ShiftRight(q, shift));
    }
  }

  lemma ShiftSigned(w: Width, q: int, k: nat)
    requires IsSigned(w, q)
    ensures IsSigned(w, ShiftRight(q, k))
  {
    hide Pow2, IsSigned;
    S.QuotientInRange(w, q, Pow2(k));
  }

  lemma MulHiSwap(w: Width, x: int, y: int)
    requires IsSigned(w, x) && IsSigned(w, y)
    ensures S.MulHi(w, x, y) == S.MulHi(w, y, x)
    ensures IsSigned(w, S.MulHi(w, x, y))
  {
    hide Pow2, S.MulHi, ShiftRight;
    S.MulHiExact(w, x, y);
    S.MulHiExact(w, y, x);
    assert x * y == y * x;
  }

  // ----- signed, two 64-bit lanes -----

  function SignBits64(v: nat): nat { SraEpi32(DuplicateHigh(v), 31) }

  /** There is no 64-bit arithmetic shift: shift logically, then (x ^ m) - m with the moved sign bit. */
  function ShiftRightVector(v: nat, amt: nat): nat
    requires amt < 64
  {
    var b := 64 - amt;
    var m := Pow2(b - 1);
    SubEpi64(Xor(SrlEpi64(v, amt), m), m)
  }

  function MulHiS64Flat(x: nat, y: nat): nat {
    var p := SubEpi64(MulHiU64Flat(x, y), And(SignBits64(x), y));
    SubEpi64(p, And(SignBits64(y), x))
  }

  function DoHalfS64(numers: nat, denom: SignedDenominator): nat {
    var more := denom.more;
    MaskedShift(64, more);
    var shift := And(more, ShiftMask(64));
    var mask := Set1Epi32(Unsigned(32, S.SignMask(more)));
    if denom.magic == 0 then
      var tweak := Unsigned(64, Signed(64, Signed(64, Pow2(shift)) - 1));
      var q := ShiftRightVector(AddEpi64(numers, And(SignBits64(numers), tweak)), shift);
      SubEpi64(Xor(q, mask), mask)
    else
      var high := MulHiS64Flat(numers, Unsigned(64, denom.magic));
      var q := if And(more, ADD_MARKER) != 0 then AddEpi64(high, SubEpi64(Xor(numers, mask), mask)) else high;
      var r := ShiftRightVector(q, shift);
      AddEpi64(r, SrlEpi64(r, 63))
  }

  function DoVectorS64(numers: M128, denom: SignedDenominator): M128 {
    M128(DoHalfS64(numers.q0, denom), DoHalfS64(numers.q1, denom))
  }

  lemma MaskedShift(w: Width, more: nat)
    ensures And(more, ShiftMask(w)) < w
  {
    hide And;
    ByteBits(more);
  }

  /** An arithmetic shift by 31 spreads the sign of a word. */
  lemma SraIsSignBits(u: nat)
    requires u < B
    ensures Sra(32, u, 31) == SignBits(32, u) < B
  {
    hide And, Pow2;
    Pow2Of32();
    SignBitsExact(32, u, 0);
    SignShift(32, Signed(32, u));
  }

  lemma SignBits64Exact(v: nat)
    requires v < WORD
    ensures SignBits64(v) == SignBits(64, v)
  {
    hide Sra, Pow2, SraEpi32;
    Pow2Values();
    SraIsSignBits(Hi(v));
    SraWords(Hi(v), Hi(v), 31);
  }

  lemma SraWords(lo: nat, hi: nat, k: nat)
    requires lo < B && hi < B
    ensures Sra(32, lo, k) < B && Sra(32, hi, k) < B
    ensures SraEpi32(Pack(lo, hi), k) == Pack(Sra(32, lo, k), Sra(32, hi, k)) < WORD
  {
    hide Pow2;
    Pow2Of32();
    PackWords(lo, hi);
  }

  /** The xor-subtract trick is the arithmetic shift, for every shift from 0 to 63. */
  lemma ShiftRightVectorExact(v: nat, amt: nat)
    requires v < WORD && amt < 64
    ensures ShiftRightVector(v, amt) == Sra(64, v, amt)
  {
    hide Unsigned, Signed, Xor, Pow2;
    SignedTop(v);
    TopBitOfShifted(v, amt);
    MulCancelNonneg(v, Pow2(amt));
    XorBit(v / Pow2(amt), 63 - amt);
    ShiftedWord(v, amt);
  }

  /** Dropping 2^64 before the shift drops 2^(64 - amt) after it. */
  lemma ShiftedWord(v: nat, amt: nat)
    requires amt < 64
    ensures (v - WORD) / Pow2(amt) == v / Pow2(amt) - Pow2(63 - amt) - Pow2(63 - amt)
  {
    hide Pow2;
    Pow2Of64();
    Pow2Successor(63 - amt);
    Pow2Add(64 - amt, amt);
    var k: int := Pow2(64 - amt);
    assert (-k) * Pow2(amt) + WORD == 0;
    DivAddMultiple(v, -k, Pow2(amt));
  }

  lemma SignedTop(v: nat)
    requires v < WORD
    ensures Signed(64, v) == if v < WORD / 2 then v else v - WORD
  {
    hide Pow2;
    Pow2Values();
    UnsignedInRange(64, v);
  }

  /** After a logical shift the sign bit is bit 63 - amt. */
  lemma TopBitOfShifted(v: nat, amt: nat)
    requires v < WORD && amt < 64
    ensures (v / Pow2(amt) / Pow2(63 - amt)) % 2 == if v < WORD / 2 then 0 else 1
  {
    hide Pow2;
    Pow2Values();
    Pow2Add(amt, 63 - amt);
    DivDiv(v, Pow2(amt), Pow2(63 - amt));
  }

  lemma MaskHalf(mask: int)
    requires mask == 0 || mask == -1
    ensures Set1Epi32(Unsigned(32, mask)) == Unsigned(64, mask)
  {
    hide Pow2;
    Pow2Values();
    DivIs(mask, B, mask);
    DivIs(mask, WORD, mask);
  }

  lemma HalfS64(numers: nat, denom: SignedDenominator)
    requires numers < Pow2(64) && IsSigned(64, denom.magic) && denom.more < 0x100
    ensures DoHalfS64(numers, denom) == LaneDo(64, numers, denom)
  {
    hide Pow2, And, Xor, Signed, Unsigned, SignBits, SignBits64, MulHiU64Flat, U.MulHi, S.SignMask, Set1Epi32,
         ShiftRightVector, Sra;
    Pow2Of64();
    var shift := And(denom.more, ShiftMask(64));
    MaskedShift(64, denom.more);
    SignMaskValues(denom.more);
    MaskHalf(S.SignMask(denom.more));
    SignBits64Exact(numers);
    var m := Unsigned(64, denom.magic);
    SignBits64Exact(m);
    MulHiU64FlatExact(numers, m);
    U.MulHiExact(64, numers, m);
    forall v: nat | v < WORD
      ensures ShiftRightVector(v, shift) == Sra(64, v, shift)
    {
      ShiftRightVectorExact(v, shift);
    }
  }

  lemma SignMaskValues(more: nat)
    requires more < 0x100
    ensures S.SignMask(more) == 0 || S.SignMask(more) == -1
  {
    hide Signed;
    Pow2Values();
    SignShift(8, Signed(8, more));
  }

  // ----- signed, four 32-bit lanes -----

  function MulHiS32Flat(a: nat, b: nat): nat {
    var p := SubEpi32(MulHiU32Flat(a, b), And(SraEpi32(a, 31), b));
    SubEpi32(p, And(SraEpi32(b, 31), a))
  }

  function DoHalfS32(numers: nat, denom: SignedDenominator): nat {
    var more := denom.more;
    var shift := And(more, ShiftMask(32));
    var mask := Set1Epi32(Unsigned(32, S.SignMask(more)));
    if And(more, S32_SHIFT_PATH) != 0 then
      var tweak := Set1Epi32(Unsigned(32, Signed(32, Signed(32, Pow2(shift)) - 1)));
      var q := SraEpi32(AddEpi32(numers, And(SraEpi32(numers, 31), tweak)), shift);
      SubEpi32(Xor(q, mask), mask)
    else
      var high := MulHiS32Flat(numers, Set1Epi32(Unsigned(32, denom.magic)));
      var q := if And(more, ADD_MARKER) != 0 then AddEpi32(high, SubEpi32(Xor(numers, mask), mask)) else high;
      var r := SraEpi32(q, shift);
      AddEpi32(r, SrlEpi32(r, 31))
  }

  function DoVectorS32(numers: M128, denom: SignedDenominator): M128 {
    M128(DoHalfS32(numers.q0, denom), DoHalfS32(numers.q1, denom))
  }

  lemma AddWords(a: nat, b: nat, c: nat, d: nat)
    requires a < B && b < B && c < B && d < B
    ensures AddEpi32(Pack(a, b), Pack(c, d)) == Pack(Unsigned(32, a + c), Unsigned(32, b + d))
    ensures SubEpi32(Pack(a, b), Pack(c, d)) == Pack(Unsigned(32, a - c), Unsigned(32, b - d))
    ensures And(Pack(a, b), Pack(c, d)) == Pack(And(a, c), And(b, d)) && And(a, c) < B && And(b, d) < B
    ensures Xor(Pack(a, b), Pack(c, d)) == Pack(Xor(a, c), Xor(b, d)) && Xor(a, c) < B && Xor(b, d) < B
  {
    hide And, Or, Xor, Unsigned;
    PackWords(a, b);
    PackWords(c, d);
    BitwiseWords(Pack(a, b), Pack(c, d));
  }

  lemma UnsignedBelow(x: int)
    ensures Unsigned(32, x) < B
  {
    hide Unsigned, Pow2;
    Pow2Of32();
  }

  lemma MulHiS32FlatWords(lo: nat, hi: nat, m: nat)
    requires lo < B && hi < B && m < B
    ensures IsUnsigned(32, lo) && IsUnsigned(32, hi) && IsUnsigned(32, m)
    ensures MulHiS32Flat(Pack(lo, hi), Set1Epi32(m)) == Pack(LaneMulHi(32, lo, m), LaneMulHi(32, hi, m))
  {
    hide Pow2, And, Unsigned, SignBits, Sra, MulHiU32, MulHiU32Flat, SraEpi32, SubEpi32, Pack, Lo, Hi;
    Pow2Of32();
    PackWords(lo, hi);
    MulHiU32FlatWords(Pack(lo, hi), m);
    MulHiU32Swap(lo, m);
    MulHiU32Swap(hi, m);
    SraWords(lo, hi, 31);
    SraWords(m, m, 31);
    SraIsSignBits(lo);
    SraIsSignBits(hi);
    SraIsSignBits(m);
    var pl: int, ph: int := MulHiU32(lo, m), MulHiU32(hi, m);
    AddWords(SignBits(32, lo), SignBits(32, hi), m, m);
    AddWords(SignBits(32, m), SignBits(32, m), lo, hi);
    var tl, th := And(SignBits(32, lo), m), And(SignBits(32, hi), m);
    AddWords(pl, ph, tl, th);
    UnsignedBelow(pl - tl);
    UnsignedBelow(ph - th);
    AddWords(Unsigned(32, pl - tl), Unsigned(32, ph - th), And(SignBits(32, m), lo), And(SignBits(32, m), hi));
  }

  /** q += (q < 0) after an arithmetic shift, on both words. */
  lemma ShiftAndRoundWords(lo: nat, hi: nat, k: nat)
    requires lo < B && hi < B
    ensures var r := SraEpi32(Pack(lo, hi), k);
            var rl, rh := Sra(32, lo, k), Sra(32, hi, k);
            AddEpi32(r, SrlEpi32(r, 31)) == Pack(Unsigned(32, rl + U.UShr(rl, 31)), Unsigned(32, rh + U.UShr(rh, 31)))
  {
    hide Pow2, And, Or, Xor, Unsigned, Sra, SraEpi32, SrlEpi32, AddEpi32, Pack, U.UShr;
    SraWords(lo, hi, k);
    var rl, rh := Sra(32, lo, k), Sra(32, hi, k);
    WordsBelow(rl, rh, 31);
    AddWords(rl, rh, U.UShr(rl, 31), U.UShr(rh, 31));
  }

  /** (x ^ mask) - mask on both words. */
  lemma SignWords(lo: nat, hi: nat, mask: nat)
    requires lo < B && hi < B && mask < B
    ensures SubEpi32(Xor(Pack(lo, hi), Set1Epi32(mask)), Set1Epi32(mask))
         == Pack(Unsigned(32, Xor(lo, mask) - mask), Unsigned(32, Xor(hi, mask) - mask))
  {
    hide And, Or, Xor, Unsigned, SubEpi32, Pack;
    AddWords(lo, hi, mask, mask);
    AddWords(Xor(lo, mask), Xor(hi, mask), mask, mask);
  }

  lemma ShiftPathWords(lo: nat, hi: nat, tweak: nat, k: nat)
    requires lo < B && hi < B && tweak < B
    ensures var ql := Sra(32, Unsigned(32, lo + And(SignBits(32, lo), tweak)), k);
            var qh := Sra(32, Unsigned(32, hi + And(SignBits(32, hi), tweak)), k);
            && ql < B && qh < B
            && SraEpi32(AddEpi32(Pack(lo, hi), And(SraEpi32(Pack(lo, hi), 31), Set1Epi32(tweak))), k) == Pack(ql, qh)
  {
    hide Pow2, And, Or, Xor, Unsigned, SignBits, Sra, SraEpi32, AddEpi32, Pack;
    SraWords(lo, hi, 31);
    SraIsSignBits(lo);
    SraIsSignBits(hi);
    AddWords(SignBits(32, lo), SignBits(32, hi), tweak, tweak);
    var tl, th := And(SignBits(32, lo), tweak), And(SignBits(32, hi), tweak);
    AddWords(lo, hi, tl, th);
    UnsignedBelow(lo + tl);
    UnsignedBelow(hi + th);
    SraWords(Unsigned(32, lo + tl), Unsigned(32, hi + th), k);
  }

  lemma HalfS32(numers: nat, denom: SignedDenominator)
    requires numers < WORD
    ensures IsUnsigned(32, Lo(numers)) && IsUnsigned(32, Hi(numers))
    ensures DoHalfS32(numers, denom) == Pack(LaneDo(32, Lo(numers), denom), LaneDo(32, Hi(numers), denom))
  {
    hide Pow2, And, Or, Xor, Signed, Unsigned, SignBits, Sra, SraEpi32, AddEpi32, SubEpi32, SrlEpi32, Pack, Lo, Hi,
         MulHiS32Flat, LaneMulHi, S.SignMask, Set1Epi32, U.UShr;
    Pow2Of32();
    Unpack(numers);
    var lo, hi, shift := Lo(numers), Hi(numers), And(denom.more, ShiftMask(32));
    var mask := Unsigned(32, S.SignMask(denom.more));
    var tweak, m := Unsigned(32, Signed(32, Signed(32, Pow2(shift)) - 1)), Unsigned(32, denom.magic);
    ShiftPathWords(lo, hi, tweak, shift);
    SignWords(Sra(32, Unsigned(32, lo + And(SignBits(32, lo), tweak)), shift),
              Sra(32, Unsigned(32, hi + And(SignBits(32, hi), tweak)), shift), mask);
    MulHiS32FlatWords(lo, hi, m);
    SignWords(lo, hi, mask);
    var hl, hh := LaneMulHi(32, lo, m), LaneMulHi(32, hi, m);
    var al, ah := Unsigned(32, Xor(lo, mask) - mask), Unsigned(32, Xor(hi, mask) - mask);
    LaneMulHiBelow(lo, m);
    LaneMulHiBelow(hi, m);
    AddWords(hl, hh, al, ah);
    ShiftAndRoundWords(hl, hh, shift);
    ShiftAndRoundWords(Unsigned(32, hl + al), Unsigned(32, hh + ah), shift);
  }

  lemma LaneMulHiBelow(n: nat, m: nat)
    requires n < Pow2(32) && m < Pow2(32)
    ensures LaneMulHi(32, n, m) < B
  {
    hide Pow2, Unsigned, And, SignBits, U.MulHi;
    Pow2Of32();
  }

  // ----- correctness of the signed vectors -----

  /** Each lane holds the pattern of C's quotient of the lane's signed value. */
  lemma SignedLane(w: Width, n: nat, d: int)
    requires n < Pow2(w) && d != 0 && IsSigned(w, d)
    ensures LaneDo(w, n, S.Reciprocal(w, d)) == Unsigned(w, TruncatedQuotient(Signed(w, n), d))
  {
    hide Pow2, Signed, Unsigned, S.Do, S.Reciprocal, LaneDo, TruncatedQuotient;
    var q := TruncatedQuotient(Signed(w, n), d);
    S.DivisionExact(w, Signed(w, n), d);
    LaneDoExact(w, n, S.Reciprocal(w, d));
    SignedOfUnsigned(w, q);
  }

  lemma VectorS64Exact(numers: M128, d: int)
    requires IsUnsigned(64, numers.q0) && IsUnsigned(64, numers.q1) && d != 0 && IsSigned(64, d)
    ensures var r := DoVectorS64(numers, S.Reciprocal(64, d));
            && r.q0 == Unsigned(64, TruncatedQuotient(Signed(64, numers.q0), d))
            && r.q1 == Unsigned(64, TruncatedQuotient(Signed(64, numers.q1), d))
  {
    hide Pow2, Signed, Unsigned, S.Do, S.Reciprocal, DoHalfS64, LaneDo, TruncatedQuotient;
    S.DivisionExact(64, Signed(64, numers.q0), d);
    ReciprocalByte(64, d);
    HalfS64(numers.q0, S.Reciprocal(64, d));
    HalfS64(numers.q1, S.Reciprocal(64, d));
    SignedLane(64, numers.q0, d);
    SignedLane(64, numers.q1, d);
  }

  lemma ReciprocalByte(w: Width, d: int)
    requires d != 0 && IsSigned(w, d)
    ensures S.Reciprocal(w, d).more < 0x100
  {
    hide Pow2, FloorLog2, IsPowerOfTwo, U.RoundedReciprocal, U.OneWordSuffices;
    S.MagnitudeInRange(w, d);
  }

  lemma VectorS32Exact(numers: M128, d: int)
    requires numers.q0 < WORD && numers.q1 < WORD && d != 0 && IsSigned(32, d)
    ensures var r := DoVectorS32(numers, S.Reciprocal(32, d));
            && r.q0 % B == Unsigned(32, TruncatedQuotient(Signed(32, numers.q0 % B), d))
            && r.q0 / B == Unsigned(32, TruncatedQuotient(Signed(32, numers.q0 / B), d))
            && r.q1 % B == Unsigned(32, TruncatedQuotient(Signed(32, numers.q1 % B), d))
            && r.q1 / B == Unsigned(32, TruncatedQuotient(Signed(32, numers.q1 / B), d))
  {
    hide DoHalfS32, Pow2, S.Reciprocal, Signed, Unsigned, TruncatedQuotient;
    HalfS32Exact(numers.q0, d);
    HalfS32Exact(numers.q1, d);
  }

  lemma HalfS32Exact(numers: nat, d: int)
    requires numers < WORD && d != 0 && IsSigned(32, d)
    ensures var half := DoHalfS32(numers, S.Reciprocal(32, d));
            && Lo(half) == Unsigned(32, TruncatedQuotient(Signed(32, Lo(numers)), d))
            && Hi(half) == Unsigned(32, TruncatedQuotient(Signed(32, Hi(numers)), d))
  {
    hide DoHalfS32, Pow2, S.Reciprocal, Signed, Unsigned, TruncatedQuotient, Lo, Hi, LaneDo, Pack;
    HalfS32(numers, S.Reciprocal(32, d));
    SignedLane(32, Lo(numers), d);
    SignedLane(32, Hi(numers), d);
    UnsignedBelow(TruncatedQuotient(Signed(32, Lo(numers)), d));
    UnsignedBelow(TruncatedQuotient(Signed(32, Hi(numers)), d));
    PackWords(LaneDo(32, Lo(numers), S.Reciprocal(32, d)), LaneDo(32, Hi(numers), S.Reciprocal(32, d)));
  }
}

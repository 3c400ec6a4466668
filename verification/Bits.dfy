/** Powers of two, floor division, and the C bitwise operators on natural numbers. */
module Bits {

  /** The moduli of 32-bit and 64-bit arithmetic. */
  const B: nat := 0x1_0000_0000
  const WORD: nat := 0x1_0000_0000_0000_0000

  function Pow2(k: nat): (p: nat)
    ensures p > 0
  {
    if k == 0 then 1 else 2 * Pow2(k - 1)
  }

  lemma {:induction false} Pow2Add(a: nat, b: nat)
    ensures Pow2(a + b) == Pow2(a) * Pow2(b)
  {
    if a == 0 {
    } else {
      Pow2Add(a - 1, b);
      MulAssoc(2, Pow2(a - 1), Pow2(b));
    }
  }

  lemma {:induction false} Pow2Monotone(a: nat, b: nat)
    requires a <= b
    ensures Pow2(a) <= Pow2(b)
    ensures a < b ==> Pow2(a) < Pow2(b)
    decreases b
  {
    if a == b {
    } else {
      Pow2Monotone(a, b - 1);
    }
  }

  lemma Pow2Successor(k: nat)
    ensures Pow2(0) == 1 && Pow2(k + 1) == 2 * Pow2(k)
  {
  }

  lemma Pow2Values()
    ensures Pow2(0) == 1 && Pow2(1) == 2
    ensures Pow2(5) == 0x20 && Pow2(6) == 0x40 && Pow2(7) == 0x80 && Pow2(8) == 0x100
    ensures Pow2(31) == 0x8000_0000 && Pow2(32) == B
    ensures Pow2(63) == 0x8000_0000_0000_0000 && Pow2(64) == WORD
  {
    hide Pow2;
    Pow2Successor(0);
    Pow2Add(1, 1);
    Pow2Add(2, 2);
    Pow2Add(1, 4);
    Pow2Successor(5);
    Pow2Successor(6);
    Pow2Add(4, 4);
    Pow2Add(8, 8);
    Pow2Add(16, 16);
    Pow2Add(32, 32);
    Pow2Successor(31);
    Pow2Successor(63);
  }

  lemma Pow2Of32()
    ensures Pow2(32) == B
  {
    Pow2Values();
  }

  lemma Pow2Of64()
    ensures Pow2(64) == WORD
  {
    Pow2Values();
  }

  /** Two powers of two with a number between them in the same binade are equal. */
  lemma BinadeUnique(d: nat, a: nat, b: nat)
    requires Pow2(a) <= d < Pow2(a + 1)
    requires Pow2(b) <= d < Pow2(b + 1)
    ensures a == b
  {
    if a < b {
      Pow2Monotone(a + 1, b);
    } else if b < a {
      Pow2Monotone(b + 1, a);
    }
  }

  // ----- multiplication and floor division -----

  lemma MulAssoc(x: int, y: int, z: int)
    ensures x * (y * z) == (x * y) * z
  {
  }

  lemma MulLe(x: int, y: int, z: int)
    requires x <= y && 0 <= z
    ensures x * z <= y * z
  {
  }

  lemma MulLt(x: int, y: int, z: int)
    requires x < y && 0 < z
    ensures x * z < y * z
  {
  }

  lemma MulCancelLt(x: int, y: int, z: int)
    requires x * z < y * z && 0 < z
    ensures x < y
  {
    if y <= x {
      MulLe(y, x, z);
    }
  }

  lemma MulCancelLe(x: int, y: int, z: int)
    requires x * z <= y * z && 0 < z
    ensures x <= y
  {
    if y < x {
      MulLt(y, x, z);
    }
  }

  lemma Distribute(x: int, y: int, z: int)
    ensures (x + y) * z == x * z + y * z
    ensures (x - y) * z == x * z - y * z
  {
  }

  lemma DivMod(x: int, d: int)
    requires d > 0
    ensures x == (x / d) * d + x % d
    ensures 0 <= x % d < d
  {
  }

  /** The quotient is the only multiplier that brackets the dividend. */
  lemma DivIs(x: int, d: int, q: int)
    requires d > 0
    requires q * d <= x < q * d + d
    ensures x / d == q
    ensures x % d == x - q * d
  {
    DivMod(x, d);
    var p := x / d;
    if p < q {
      MulLe(p + 1, q, d);
      Distribute(p, 1, d);
    } else if q < p {
      MulLe(q + 1, p, d);
      Distribute(q, 1, d);
    }
  }

  lemma DivDiv(x: int, a: int, b: int)
    requires a > 0 && b > 0
    ensures a * b > 0
    ensures (x / a) / b == x / (a * b)
  {
    MulLt(0, a, b);
    var y := x / a;
    var q := y / b;
    DivMod(x, a);
    DivMod(y, b);
    assert x == (q * b + y % b) * a + x % a;
    Distribute(q * b, y % b, a);
    assert (q * b) * a == q * (a * b) by { MulAssoc(q, b, a); }
    MulLe(0, y % b, a);
    MulLe(y % b, b - 1, a);
    Distribute(b, 1, a);
    DivIs(x, a * b, q);
  }

  lemma DivMonotone(x: int, y: int, d: int)
    requires d > 0 && x <= y
    ensures x / d <= y / d
  {
    DivMod(x, d);
    DivMod(y, d);
    if y / d < x / d {
      MulLe(y / d + 1, x / d, d);
      Distribute(y / d, 1, d);
    }
  }

  lemma DivAddMultiple(x: int, k: int, d: int)
    requires d > 0
    ensures (x + k * d) / d == x / d + k
    ensures (x + k * d) % d == x % d
  {
    DivMod(x, d);
    Distribute(x / d, k, d);
    DivIs(x + k * d, d, x / d + k);
  }

  // ----- bitwise operators -----

  function And(x: nat, y: nat): nat
    decreases x + y
  {
    if x == 0 && y == 0 then 0
    else 2 * And(x / 2, y / 2) + (if x % 2 == 1 && y % 2 == 1 then 1 else 0)
  }

  function Or(x: nat, y: nat): nat
    decreases x + y
  {
    if x == 0 && y == 0 then 0
    else 2 * Or(x / 2, y / 2) + (if x % 2 == 1 || y % 2 == 1 then 1 else 0)
  }

  function Xor(x: nat, y: nat): nat
    decreases x + y
  {
    if x == 0 && y == 0 then 0
    else 2 * Xor(x / 2, y / 2) + (if x % 2 != y % 2 then 1 else 0)
  }

  lemma {:induction false} Commute(x: nat, y: nat)
    ensures And(x, y) == And(y, x) && Or(x, y) == Or(y, x) && Xor(x, y) == Xor(y, x)
    decreases x + y
  {
    if x == 0 && y == 0 {
    } else {
      Commute(x / 2, y / 2);
    }
  }

  lemma {:induction false} WithZero(x: nat)
    ensures And(x, 0) == 0 && Or(x, 0) == x && Xor(x, 0) == x
    ensures And(0, x) == 0 && Or(0, x) == x && Xor(0, x) == x
  {
    if x == 0 {
    } else {
      WithZero(x / 2);
    }
  }

  /** A number with the given low k bits and the given rest. */
  function Join(lo: nat, hi: nat, k: nat): nat {
    MulLe(0, hi, Pow2(k));
    lo + hi * Pow2(k)
  }

  lemma JoinHalf(lo: nat, hi: nat, k: nat)
    requires k > 0
    ensures Join(lo, hi, k) / 2 == Join(lo / 2, hi, k - 1)
    ensures Join(lo, hi, k) % 2 == lo % 2
  {
    Double(hi, Pow2(k - 1));
  }

  lemma {:induction false} SplitJoin(xl: nat, xh: nat, yl: nat, yh: nat, k: nat)
    requires xl < Pow2(k) && yl < Pow2(k)
    ensures And(Join(xl, xh, k), Join(yl, yh, k)) == Join(And(xl, yl), And(xh, yh), k)
    ensures Or(Join(xl, xh, k), Join(yl, yh, k)) == Join(Or(xl, yl), Or(xh, yh), k)
    ensures Xor(Join(xl, xh, k), Join(yl, yh, k)) == Join(Xor(xl, yl), Xor(xh, yh), k)
    ensures And(xl, yl) < Pow2(k) && Or(xl, yl) < Pow2(k) && Xor(xl, yl) < Pow2(k)
    decreases k
  {
    if k == 0 {
      WithZero(0);
    } else {
      hide Join;
      SplitJoin(xl / 2, xh, yl / 2, yh, k - 1);
      JoinHalf(xl, xh, k);
      JoinHalf(yl, yh, k);
      Unfold(Join(xl, xh, k), Join(yl, yh, k));
      Unfold(xl, yl);
      JoinHalf(And(xl, yl), And(xh, yh), k);
      JoinHalf(Or(xl, yl), Or(xh, yh), k);
      JoinHalf(Xor(xl, yl), Xor(xh, yh), k);
    }
  }

  /** Operators act on the low k bits and on the rest separately. */
  lemma Split(xl: nat, xh: nat, yl: nat, yh: nat, k: nat)
    requires xl < Pow2(k) && yl < Pow2(k)
    ensures 0 <= xh * Pow2(k) && 0 <= yh * Pow2(k)
    ensures And(xl + xh * Pow2(k), yl + yh * Pow2(k)) == And(xl, yl) + And(xh, yh) * Pow2(k)
    ensures Or(xl + xh * Pow2(k), yl + yh * Pow2(k)) == Or(xl, yl) + Or(xh, yh) * Pow2(k)
    ensures Xor(xl + xh * Pow2(k), yl + yh * Pow2(k)) == Xor(xl, yl) + Xor(xh, yh) * Pow2(k)
    ensures And(xl, yl) < Pow2(k) && Or(xl, yl) < Pow2(k) && Xor(xl, yl) < Pow2(k)
  {
    hide And, Or, Xor, Pow2;
    MulLe(0, xh, Pow2(k));
    MulLe(0, yh, Pow2(k));
    SplitJoin(xl, xh, yl, yh, k);
  }

  lemma Double(x: int, p: int)
    ensures x * (2 * p) == 2 * (x * p)
  {
  }

  /** The defining equations, also at zero. */
  lemma {:induction false} Unfold(x: nat, y: nat)
    ensures And(x, y) == 2 * And(x / 2, y / 2) + (if x % 2 == 1 && y % 2 == 1 then 1 else 0)
    ensures Or(x, y) == 2 * Or(x / 2, y / 2) + (if x % 2 == 1 || y % 2 == 1 then 1 else 0)
    ensures Xor(x, y) == 2 * Xor(x / 2, y / 2) + (if x % 2 != y % 2 then 1 else 0)
  {
  }

  lemma {:induction false} WithOnes(x: nat, k: nat)
    requires x < Pow2(k)
    ensures And(x, Pow2(k) - 1) == x && Or(x, Pow2(k) - 1) == Pow2(k) - 1
    ensures Xor(x, Pow2(k) - 1) == Pow2(k) - 1 - x
    decreases k
  {
    if k == 0 {
    } else {
      WithOnes(x / 2, k - 1);
      assert (Pow2(k) - 1) / 2 == Pow2(k - 1) - 1 && (Pow2(k) - 1) % 2 == 1;
    }
  }

  /** A mask of k ones takes the remainder modulo 2^k. */
  lemma AndMask(x: nat, k: nat)
    ensures And(x, Pow2(k) - 1) == x % Pow2(k)
  {
    hide And, Or, Xor, Pow2;
    var p := Pow2(k);
    DivMod(x, p);
    MulCancelNonneg(x, p);
    Split(x % p, x / p, p - 1, 0, k);
    WithOnes(x % p, k);
    WithZero(x / p);
  }

  /** The low and the high half of a word. */
  lemma LowDigit(x: nat)
    ensures And(x, 0xFFFF_FFFF) == x % B
    ensures x == x % B + x / B * B
    ensures x < WORD ==> x / B < B
  {
    hide And, Pow2;
    Pow2Of32();
    AndMask(x, 32);
    DivMod(x, B);
  }

  lemma MulCancelNonneg(x: nat, p: int)
    requires p > 0
    ensures x / p >= 0
  {
    DivMonotone(0, x, p);
    DivIs(0, p, 0);
  }

  /** A one-bit mask reads that bit. */
  lemma AndBit(x: nat, k: nat)
    ensures And(x, Pow2(k)) == ((x / Pow2(k)) % 2) * Pow2(k)
  {
    hide And, Or, Xor, Pow2;
    var p := Pow2(k);
    DivMod(x, p);
    MulCancelNonneg(x, p);
    Split(x % p, x / p, 0, 1, k);
    WithZero(x % p);
    WithZero(x / p / 2);
    Unfold(x / p, 1);
  }

  /** Flipping one bit adds or subtracts its weight. */
  lemma XorBit(x: nat, k: nat)
    ensures Xor(x, Pow2(k)) == if (x / Pow2(k)) % 2 == 1 then x - Pow2(k) else x + Pow2(k)
  {
    hide And, Or, Xor, Pow2;
    var p := Pow2(k);
    DivMod(x, p);
    MulCancelNonneg(x, p);
    Split(x % p, x / p, 0, 1, k);
    WithZero(x % p);
    WithZero(x / p / 2);
    Unfold(x / p, 1);
    var h := x / p;
    assert Xor(h, 1) == if h % 2 == 1 then h - 1 else h + 1;
    Distribute(h, 1, p);
  }

  /** Combining fields that do not overlap is addition. */
  lemma OrDisjoint(lo: nat, hi: nat, k: nat)
    requires lo < Pow2(k)
    ensures 0 <= hi * Pow2(k)
    ensures Or(lo, hi * Pow2(k)) == lo + hi * Pow2(k)
    ensures Or(hi * Pow2(k), lo) == lo + hi * Pow2(k)
  {
    hide And, Or, Xor, Pow2;
    Split(lo, 0, 0, hi, k);
    WithZero(lo);
    WithZero(hi);
    Commute(lo, hi * Pow2(k));
  }

  /** A disjunction fits in k bits exactly when both operands do, and never loses a bit. */
  lemma {:induction false} OrFits(x: nat, y: nat, k: nat)
    ensures Or(x, y) < Pow2(k) <==> x < Pow2(k) && y < Pow2(k)
    decreases k
  {
    OrAtLeast(x, y);
    if k == 0 {
    } else {
      OrFits(x / 2, y / 2, k - 1);
    }
  }

  lemma {:induction false} OrAtLeast(x: nat, y: nat)
    ensures Or(x, y) >= x && Or(x, y) >= y
    decreases x + y
  {
    if x == 0 && y == 0 {
    } else {
      OrAtLeast(x / 2, y / 2);
    }
  }

  /** For d > 0 the test (d & (d - 1)) == 0 holds exactly for powers of two. */
  lemma {:induction false} PowerOfTwoTest(d: nat, k: nat)
    requires Pow2(k) <= d < Pow2(k + 1)
    ensures And(d, d - 1) == 0 <==> d == Pow2(k)
    decreases k
  {
    if k == 0 {
      assert And(1, 0) == 0;
    } else {
      PowerOfTwoTest(d / 2, k - 1);
      if d % 2 == 0 {
        assert (d - 1) / 2 == d / 2 - 1 && (d - 1) % 2 == 1;
      } else {
        assert (d - 1) / 2 == d / 2 && (d - 1) % 2 == 0;
        AndSelf(d / 2);
      }
    }
  }

  lemma {:induction false} AndSelf(x: nat)
    ensures And(x, x) == x
  {
    if x == 0 {
    } else {
      AndSelf(x / 2);
    }
  }

  /** x ^ (x - 1) is the block of ones up to and including the lowest set bit. */
  lemma {:induction false} XorPredecessor(odd: nat, k: nat)
    requires odd % 2 == 1
    ensures odd * Pow2(k) >= 1
    ensures Xor(odd * Pow2(k), odd * Pow2(k) - 1) == Pow2(k + 1) - 1
    decreases k
  {
    MulLe(1, odd, Pow2(k));
    var x := odd * Pow2(k);
    if k == 0 {
      assert (x - 1) / 2 == x / 2;
      XorSelf(x / 2);
    } else {
      Double(odd, Pow2(k - 1));
      XorPredecessor(odd, k - 1);
      var h := odd * Pow2(k - 1);
      assert x / 2 == h && (x - 1) / 2 == h - 1 && x % 2 == 0 && (x - 1) % 2 == 1;
    }
  }

  lemma {:induction false} XorSelf(x: nat)
    ensures Xor(x, x) == 0
  {
    if x == 0 {
    } else {
      XorSelf(x / 2);
    }
  }

  // ----- binary logarithm -----

  function FloorLog2(d: nat): (l: nat)
    requires d > 0
    ensures Pow2(l) <= d < Pow2(l + 1)
  {
    if d == 1 then 0 else 1 + FloorLog2(d / 2)
  }

  predicate IsPowerOfTwo(d: nat)
    requires d > 0
  {
    d == Pow2(FloorLog2(d))
  }

  lemma FloorLog2Below(d: nat, w: nat)
    requires 0 < d < Pow2(w)
    ensures FloorLog2(d) < w
  {
    if w <= FloorLog2(d) {
      Pow2Monotone(w, FloorLog2(d));
    }
  }

  lemma FloorLog2Is(d: nat, l: nat)
    requires Pow2(l) <= d < Pow2(l + 1)
    ensures FloorLog2(d) == l
  {
    BinadeUnique(d, FloorLog2(d), l);
  }

  lemma PowerOfTwoHasOneBit(d: nat)
    requires d > 0
    ensures And(d, d - 1) == 0 <==> IsPowerOfTwo(d)
  {
    PowerOfTwoTest(d, FloorLog2(d));
  }

  lemma EvenRatio(x: nat, p: nat, h: nat)
    requires p > 0 && x == (2 * h) * p
    ensures (x / p) % 2 == 0
  {
    DivIs(x, p, 2 * h);
  }

  /** Dividing one power of two by another leaves an even number unless they are equal. */
  lemma EvenQuotient(l: nat, c: nat)
    requires c != l
    ensures (Pow2(l) / Pow2(c)) % 2 == 0
  {
    hide Pow2;
    if c < l {
      Pow2Add(l - c, c);
      Pow2Successor(l - c - 1);
      EvenRatio(Pow2(l), Pow2(c), Pow2(l - c - 1));
    } else {
      Pow2Monotone(l, c);
      DivIs(Pow2(l), Pow2(c), 0);
    }
  }

  /** In a power of two the lowest set bit is the only one. */
  lemma TrailingZerosOfPower(d: nat, c: nat)
    requires d > 0 && IsPowerOfTwo(d)
    requires d % Pow2(c) == 0 && (d / Pow2(c)) % 2 == 1
    ensures c == FloorLog2(d)
  {
    hide Pow2, FloorLog2;
    if c != FloorLog2(d) {
      EvenQuotient(FloorLog2(d), c);
    }
  }
}

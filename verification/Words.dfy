/** Machine words: unsigned and two's complement arithmetic of w bits, and C's truncating division. */
module Words {
  import opened Bits

  predicate IsUnsigned(w: nat, x: int) {
    0 <= x < Pow2(w)
  }

  predicate IsSigned(w: nat, x: int)
    requires w > 0
  {
    0 <= x + Pow2(w - 1) < Pow2(w)
  }

  /** The w-bit pattern of x; unsigned arithmetic reduces every result with it. */
  function Unsigned(w: nat, x: int): (u: nat)
    ensures IsUnsigned(w, u)
  {
    DivMod(x, Pow2(w));
    x % Pow2(w)
  }

  /** The two's complement value of the w-bit pattern of x; signed arithmetic wraps with it. */
  function Signed(w: nat, x: int): (s: int)
    requires w > 0
    ensures IsSigned(w, s)
  {
    var u := Unsigned(w, x);
    if u < Pow2(w - 1) then u else u - Pow2(w)
  }

  function SignedAnd(w: nat, x: int, y: int): int
    requires w > 0
  {
    Signed(w, And(Unsigned(w, x), Unsigned(w, y)))
  }

  function SignedXor(w: nat, x: int, y: int): int
    requires w > 0
  {
    Signed(w, Xor(Unsigned(w, x), Unsigned(w, y)))
  }

  /** x >> k: logical on unsigned values, arithmetic (rounding down) on signed ones. */
  function ShiftRight(x: int, k: nat): int {
    x / Pow2(k)
  }

  function Abs(x: int): nat {
    if x < 0 then -x else x
  }

  /** The C quotient: rounded toward zero. */
  function TruncatedQuotient(n: int, d: int): int
    requires d != 0
  {
    if (n < 0) == (d < 0) then Abs(n) / Abs(d) else -(Abs(n) / Abs(d))
  }

  /** The machine's words. */
  lemma WordRanges(x: int)
    ensures IsUnsigned(32, x) <==> 0 <= x <= 0xFFFF_FFFF
    ensures IsUnsigned(64, x) <==> 0 <= x <= 0xFFFF_FFFF_FFFF_FFFF
    ensures IsSigned(32, x) <==> -0x8000_0000 <= x <= 0x7FFF_FFFF
    ensures IsSigned(64, x) <==> -0x8000_0000_0000_0000 <= x <= 0x7FFF_FFFF_FFFF_FFFF
  {
    hide Pow2;
    Pow2Values();
  }

  /** Wrapping keeps the residue. */
  lemma WordResidues(w: nat, x: int)
    requires w > 0
    ensures 0 <= Unsigned(w, x) < Pow2(w) && (x - Unsigned(w, x)) % Pow2(w) == 0
    ensures -(Pow2(w - 1) as int) <= Signed(w, x) < Pow2(w - 1) && (x - Signed(w, x)) % Pow2(w) == 0
  {
    var p, q := Pow2(w), x / Pow2(w);
    DivMod(x, p);
    Distribute(q, 1, p);
    DivIs(x - Unsigned(w, x), p, q);
    DivIs(x - Signed(w, x), p, if Signed(w, x) == Unsigned(w, x) then q else q + 1);
  }

  lemma ShiftRightFloors(x: int, k: nat)
    ensures ShiftRight(x, k) * Pow2(k) <= x < (ShiftRight(x, k) + 1) * Pow2(k)
  {
    DivMod(x, Pow2(k));
    Distribute(x / Pow2(k), 1, Pow2(k));
  }

  /** What the C standard asks of a quotient: the remainder is smaller than the divisor and has the sign of
      the numerator. */
  lemma TruncatedQuotientMeaning(n: int, d: int)
    requires d != 0
    ensures var r, a := n - TruncatedQuotient(n, d) * d, if d < 0 then -d else d;
            (n >= 0 ==> 0 <= r < a) && (n <= 0 ==> -a < r <= 0)
  {
    hide Pow2;
    DivMod(Abs(n), Abs(d));
    Negations(Abs(n) / Abs(d), d);
  }

  lemma Negations(x: int, y: int)
    ensures -x * y == -(x * y) && x * -y == -(x * y)
  {
  }

  lemma UnsignedInRange(w: nat, x: int)
    requires IsUnsigned(w, x)
    ensures Unsigned(w, x) == x
  {
    DivIs(x, Pow2(w), 0);
  }

  /** x and y differ by k times the modulus. */
  ghost predicate Congruent(w: nat, x: int, y: int, k: int) {
    x == y + k * Pow2(w)
  }

  lemma CongruentSteps(w: nat, x: int)
    ensures Congruent(w, x, x, 0)
    ensures Congruent(w, x + Pow2(w), x, 1) && Congruent(w, x - Pow2(w), x, -1)
  {
  }

  lemma SameWord(w: nat, x: int, y: int, k: int)
    requires w > 0 && Congruent(w, x, y, k)
    ensures Unsigned(w, x) == Unsigned(w, y) && Signed(w, x) == Signed(w, y)
  {
    DivAddMultiple(y, k, Pow2(w));
  }

  /** Patterns determine values, and values in range are their own. */
  lemma SignedIs(w: nat, x: int, y: int, k: int)
    requires w > 0 && IsSigned(w, y)
    requires Congruent(w, x, y, k)
    ensures Signed(w, x) == y
    ensures Unsigned(w, x) == if y < 0 then y + Pow2(w) else y
  {
    hide Pow2, Unsigned;
    SameWord(w, x, y, k);
    CongruentSteps(w, y);
    if y < 0 {
      SameWord(w, y + Pow2(w), y, 1);
      UnsignedInRange(w, y + Pow2(w));
    } else {
      UnsignedInRange(w, y);
    }
  }

  lemma SignedInRange(w: nat, x: int)
    requires w > 0 && IsSigned(w, x)
    ensures Signed(w, x) == x
    ensures Unsigned(w, x) == if x < 0 then x + Pow2(w) else x
  {
    CongruentSteps(w, x);
    SignedIs(w, x, x, 0);
  }

  lemma SignedOfUnsigned(w: nat, x: int)
    requires w > 0
    ensures Signed(w, Unsigned(w, x)) == Signed(w, x)
    ensures Unsigned(w, Signed(w, x)) == Unsigned(w, x)
  {
    UnsignedInRange(w, Unsigned(w, x));
    SignedInRange(w, Signed(w, x));
  }

  lemma WordDiffers(w: nat, x: int) returns (k: int)
    requires w > 0
    ensures Congruent(w, x, Unsigned(w, x), k)
    ensures Congruent(w, x, Signed(w, x), k) || Congruent(w, x, Signed(w, x), k + 1)
  {
    DivMod(x, Pow2(w));
    k := x / Pow2(w);
    Distribute(k, 1, Pow2(w));
  }

  lemma CongruentShift(w: nat, x: int, y: int, z: int, k: int)
    requires Congruent(w, x, y, k)
    ensures Congruent(w, x + z, y + z, k) && Congruent(w, z - y, z - x, k)
  {
  }

  /** Wrapping an operand of a sum or difference first makes no difference. */
  lemma WrapSum(w: nat, x: int, y: int)
    requires w > 0
    ensures Signed(w, Signed(w, x) + y) == Signed(w, x + y)
    ensures Unsigned(w, Unsigned(w, x) + y) == Unsigned(w, x + y)
    ensures Signed(w, y - Signed(w, x)) == Signed(w, y - x)
    ensures Unsigned(w, y - Unsigned(w, x)) == Unsigned(w, y - x)
  {
    var k := WordDiffers(w, x);
    CongruentShift(w, x, Unsigned(w, x), y, k);
    SameWord(w, x + y, Unsigned(w, x) + y, k);
    SameWord(w, y - Unsigned(w, x), y - x, k);
    var j := if Congruent(w, x, Signed(w, x), k) then k else k + 1;
    CongruentShift(w, x, Signed(w, x), y, j);
    SameWord(w, x + y, Signed(w, x) + y, j);
    SameWord(w, y - Signed(w, x), y - x, j);
  }

  /** The masks 0 and -1 that the code uses as a sign select nothing or everything, and keep or
      complement. */
  lemma SignMasks(w: nat, x: int)
    requires w > 0 && IsSigned(w, x)
    ensures SignedAnd(w, 0, x) == 0 && SignedAnd(w, -1, x) == x
    ensures SignedXor(w, x, 0) == x && SignedXor(w, x, -1) == -1 - x
  {
    hide Pow2, And, Xor, Or, Unsigned, IsUnsigned;
    SignedInRange(w, x);
    SignedInRange(w, 0);
    SignedInRange(w, -1);
    SignedInRange(w, -1 - x);
    var u := Unsigned(w, x);
    WithZero(u);
    WithOnes(u, w);
    Commute(u, Pow2(w) - 1);
    SignedOfUnsigned(w, x);
    SignedOfUnsigned(w, -1 - x);
  }

  /** Shifting right by the full width less one spreads the sign bit. */
  lemma SignShift(w: nat, x: int)
    requires w > 0 && IsSigned(w, x)
    ensures ShiftRight(x, w - 1) == if x < 0 then -1 else 0
  {
    DivIs(x, Pow2(w - 1), if x < 0 then -1 else 0);
  }

  lemma ShiftTwice(x: int, a: nat, b: nat)
    ensures ShiftRight(ShiftRight(x, a), b) == ShiftRight(x, a + b)
  {
    Pow2Add(a, b);
    DivDiv(x, Pow2(a), Pow2(b));
  }
}

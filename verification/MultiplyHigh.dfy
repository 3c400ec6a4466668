/** The upper halves of double-width products, built from half-width multiplications. */
module MultiplyHigh {
  import opened Bits
  import opened Words

  // Bounds on the products of two unsigned, one unsigned and one signed, and two signed halves.
  const UNSIGNED_PRODUCT := 0xFFFF_FFFE_0000_0001
  const MIXED_MIN: int := -0x7FFF_FFFF_8000_0000
  const MIXED_MAX := 0x7FFF_FFFE_8000_0001
  const SIGNED_PRODUCT := 0x4000_0000_0000_0000

  function MulHiU32(x: nat, y: nat): nat
  {
    ((x * y) % WORD / B) % B
  }

  /** All sums and products wrap at 64 bits. */
  function MulHiU64(x: nat, y: nat): nat
    requires x < WORD && y < WORD
  {
    var mask := 0xFFFF_FFFF;
    var x0, x1 := And(x, mask), x / B;
    var y0, y1 := And(y, mask), y / B;
    var x0y0Hi := MulHiU32(x0, y0);
    CarryU64(x0y0Hi, (x0 * y1) % WORD, (x1 * y0) % WORD, (x1 * y1) % WORD)
  }

  /** Adds the partial products into the upper word. */
  function CarryU64(x0y0Hi: nat, x0y1: nat, x1y0: nat, x1y1: nat): nat {
    var temp := (x1y0 + x0y0Hi) % WORD;
    var tempLo, tempHi := And(temp, 0xFFFF_FFFF), temp / B;
    ((x1y1 + tempHi) % WORD + (tempLo + x0y1) % WORD / B) % WORD
  }

  function MulHiS32(x: int, y: int): int {
    Signed(32, ShiftRight(Signed(64, x * y), 32))
  }

  /** Signed arithmetic wraps at 64 bits, and the shifts are arithmetic. */
  function MulHiS64(x: int, y: int): int
  {
    var mask := 0xFFFF_FFFF;
    var x0, y0 := And(Unsigned(64, x), mask), And(Unsigned(64, y), mask);
    var x1, y1 := Signed(32, ShiftRight(x, 32)), Signed(32, ShiftRight(y, 32));
    var x0y0Hi := MulHiU32(x0, y0);
    CarryS64(x0y0Hi, Signed(64, x0 * y1), Signed(64, x1 * y0), Signed(64, x1 * y1))
  }

  function CarryS64(x0y0Hi: nat, x0y1: int, x1y0: int, x1y1: int): int {
    var t := Signed(64, x1y0 + x0y0Hi);
    var w1 := Signed(64, x0y1 + And(Unsigned(64, t), 0xFFFF_FFFF));
    Signed(64, Signed(64, x1y1 + ShiftRight(t, 32)) + ShiftRight(w1, 32))
  }

  // ----- unsigned -----

  lemma HalfProductBound(x: nat, y: nat)
    requires x < B && y < B
    ensures 0 <= x * y <= UNSIGNED_PRODUCT
  {
    MulLe(0, x, y);
    MulLe(x, B - 1, y);
  }

  lemma MulHiU32Exact(x: nat, y: nat)
    requires x < B && y < B
    ensures MulHiU32(x, y) == (x * y) / B < B
  {
    hide Pow2;
    HalfProductBound(x, y);
    HighHalf(x * y);
  }

  lemma HighHalf(p: nat)
    requires p <= UNSIGNED_PRODUCT
    ensures (p % WORD / B) % B == p / B < B
  {
  }

  /** The schoolbook sum is exact: no intermediate result reaches 2^64. */
  lemma MulHiU64Exact(x: nat, y: nat)
    requires x < WORD && y < WORD
    ensures MulHiU64(x, y) == (x * y) / WORD < WORD
  {
    LowDigit(x);
    LowDigit(y);
    var x0, x1, y0, y1 := x % B, x / B, y % B, y / B;
    HalfProductBound(x0, y0);
    HalfProductBound(x0, y1);
    HalfProductBound(x1, y0);
    HalfProductBound(x1, y1);
    MulHiU32Exact(x0, y0);
    Fits(x0 * y1);
    Fits(x1 * y0);
    Fits(x1 * y1);
    CarryU64Exact(x0 * y0, x0 * y1, x1 * y0, x1 * y1);
    ProductOfHalves(x0, x1, y0, y1);
    assert x * y == (x0 + x1 * B) * (y0 + y1 * B);
  }

  lemma Fits(x: int)
    requires 0 <= x < WORD
    ensures x % WORD == x
  {
  }

  lemma CarryU64Exact(a: nat, b: nat, c: nat, d: nat)
    requires a <= UNSIGNED_PRODUCT && b <= UNSIGNED_PRODUCT
    requires c <= UNSIGNED_PRODUCT && d <= UNSIGNED_PRODUCT
    ensures CarryU64(a / B, b, c, d) == (a + (b + c) * B + d * WORD) / WORD < WORD
  {
    hide And, Pow2;
    SchoolbookSum(a, b, c, d);
    var temp := c + a / B;
    Fits(temp);
    LowDigit(temp);
    Fits(temp % B + b);
    Fits(d + temp / B);
    Fits(d + temp / B + (temp % B + b) / B);
  }

  lemma ProductOfHalves(x0: int, x1: int, y0: int, y1: int)
    ensures (x0 + x1 * B) * (y0 + y1 * B) == x0 * y0 + (x0 * y1 + x1 * y0) * B + x1 * y1 * WORD
  {
    Distribute(x0, x1 * B, y0 + y1 * B);
    assert (x1 * B) * (y0 + y1 * B) == x1 * (y0 + y1 * B) * B;
  }

  /** a = x0y0, b = x0y1, c = x1y0, d = x1y1. */
  lemma SchoolbookSum(a: nat, b: nat, c: nat, d: nat)
    requires a <= UNSIGNED_PRODUCT && b <= UNSIGNED_PRODUCT
    requires c <= UNSIGNED_PRODUCT && d <= UNSIGNED_PRODUCT
    ensures c + a / B < WORD
    ensures (c + a / B) % B + b < WORD
    ensures d + (c + a / B) / B + ((c + a / B) % B + b) / B == (a + (b + c) * B + d * WORD) / WORD < WORD
  {
  }

  // ----- signed -----

  lemma MulHiS32Exact(x: int, y: int)
    requires IsSigned(32, x) && IsSigned(32, y)
    ensures MulHiS32(x, y) == ShiftRight(x * y, 32)
    ensures IsSigned(32, MulHiS32(x, y))
  {
    Pow2Values();
    SignedProductBound(x, y, 0x8000_0000);
    SignedInRange(64, x * y);
    SignedInRange(32, ShiftRight(x * y, 32));
  }

  lemma SignedProductBound(x: int, y: int, h: nat)
    requires Abs(x) <= h && Abs(y) <= h
    ensures Abs(x * y) <= h * h
  {
    MulLe(Abs(x), h, Abs(y));
    MulLe(Abs(y), h, h);
    assert Abs(x) * Abs(y) == x * y || Abs(x) * Abs(y) == -(x * y);
    MulLe(0, Abs(x), Abs(y));
  }

  /** The signed schoolbook sum is the floor of the product over 2^64, with no signed overflow. */
  lemma MulHiS64Exact(x: int, y: int)
    requires IsSigned(64, x) && IsSigned(64, y)
    ensures MulHiS64(x, y) == ShiftRight(x * y, 64)
    ensures IsSigned(64, MulHiS64(x, y))
  {
    SignedHalves(x);
    SignedHalves(y);
    var x0, x1, y0, y1 := x % B, x / B, y % B, y / B;
    PartialProducts(x0, x1, y0, y1);
    MulHiU32Exact(x0, y0);
    CarryS64Exact(x0 * y0, x0 * y1, x1 * y0, x1 * y1);
    SignedProduct(x, y);
  }

  lemma SignedProduct(x: int, y: int)
    ensures var x0, x1, y0, y1 := x % B, x / B, y % B, y / B;
            x0 * y0 + (x0 * y1 + x1 * y0) * B + x1 * y1 * WORD == x * y
    ensures ShiftRight(x * y, 64) == x * y / WORD
  {
    Pow2Values();
    ProductOfHalves(x % B, x / B, y % B, y / B);
    assert x * y == (x % B + x / B * B) * (y % B + y / B * B);
  }

  lemma PartialProducts(x0: nat, x1: int, y0: nat, y1: int)
    requires x0 < B && y0 < B && -0x8000_0000 <= x1 < 0x8000_0000 && -0x8000_0000 <= y1 < 0x8000_0000
    ensures 0 <= x0 * y0 <= UNSIGNED_PRODUCT
    ensures MIXED_MIN <= x0 * y1 <= MIXED_MAX
    ensures MIXED_MIN <= x1 * y0 <= MIXED_MAX
    ensures Abs(x1 * y1) <= SIGNED_PRODUCT
    ensures Signed(64, x0 * y1) == x0 * y1 && Signed(64, x1 * y0) == x1 * y0 && Signed(64, x1 * y1) == x1 * y1
  {
    HalfProductBound(x0, y0);
    MixedProductBound(x0, y1);
    MixedProductBound(y0, x1);
    SignedProductBound(x1, y1, 0x8000_0000);
    FitsSigned(x0 * y1);
    FitsSigned(x1 * y0);
    FitsSigned(x1 * y1);
  }

  lemma FitsSigned(x: int)
    requires MIXED_MIN <= x <= -MIXED_MIN
    ensures Signed(64, x) == x
  {
    Pow2Values();
    SignedInRange(64, x);
  }

  lemma CarryS64Exact(a: nat, b: int, c: int, d: int)
    requires a <= UNSIGNED_PRODUCT
    requires MIXED_MIN <= b <= MIXED_MAX
    requires MIXED_MIN <= c <= MIXED_MAX
    requires Abs(d) <= SIGNED_PRODUCT
    ensures CarryS64(a / B, b, c, d) == (a + (b + c) * B + d * WORD) / WORD
    ensures IsSigned(64, CarryS64(a / B, b, c, d))
  {
    hide And, Pow2, Unsigned, Signed;
    Pow2Values();
    SignedSchoolbookSum(a, b, c, d);
    var t := c + a / B;
    SignedInRange(64, t);
    LowHalfSigned(t);
    SignedInRange(64, b + t % B);
    SignedInRange(64, d + t / B);
    SignedInRange(64, d + t / B + (b + t % B) / B);
  }

  lemma MixedProductBound(x: nat, y: int)
    requires x < B && -0x8000_0000 <= y < 0x8000_0000
    ensures MIXED_MIN <= x * y <= MIXED_MAX
  {
    if y >= 0 {
      MulLe(0, x, y);
      MulLe(x, B - 1, y);
    } else {
      MulLe(0, x, -y);
      MulLe(x, B - 1, -y);
    }
  }

  lemma LowHalfSigned(x: int)
    requires IsSigned(64, x)
    ensures And(Unsigned(64, x), 0xFFFF_FFFF) == x % B
  {
    hide And, Pow2, Unsigned;
    Pow2Values();
    SignedInRange(64, x);
    LowDigit(Unsigned(64, x));
  }

  lemma SignedHalves(x: int)
    requires IsSigned(64, x)
    ensures And(Unsigned(64, x), 0xFFFF_FFFF) == x % B
    ensures x == x % B + x / B * B && -0x8000_0000 <= x / B < 0x8000_0000
    ensures Signed(32, ShiftRight(x, 32)) == x / B
  {
    LowHalfSigned(x);
    Pow2Values();
    SignedInRange(32, x / B);
  }

  /** a = x0y0, b = x0y1, c = x1y0, d = x1y1. */
  lemma SignedSchoolbookSum(a: nat, b: int, c: int, d: int)
    requires a <= UNSIGNED_PRODUCT
    requires MIXED_MIN <= b <= MIXED_MAX
    requires MIXED_MIN <= c <= MIXED_MAX
    requires Abs(d) <= SIGNED_PRODUCT
    ensures var t := c + a / B;
            && -(WORD / 2) <= t < WORD / 2
            && -(WORD / 2) <= b + t % B < WORD / 2
            && -(WORD / 2) <= d + t / B < WORD / 2
            && d + t / B + (b + t % B) / B == (a + (b + c) * B + d * WORD) / WORD
            && -(WORD / 2) <= d + t / B + (b + t % B) / B < WORD / 2
  {
  }
}

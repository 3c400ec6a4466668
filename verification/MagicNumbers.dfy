/** Why multiplying by a rounded-up reciprocal divides exactly: the theory behind the generators,
    for an arbitrary word width and an arbitrary divisor. */
module MagicNumbers {
  import opened Bits

  function CeilDiv(x: nat, d: nat): int
    requires d > 0
  {
    (x + d - 1) / d
  }

  /** If m = (power + e) / d exactly and e * n < power, the scaled product has the quotient n / d. */
  lemma MagicQuotient(power: nat, d: nat, m: nat, e: nat, n: nat)
    requires power > 0 && d > 0
    requires m * d == power + e
    requires 0 <= e * n < power
    ensures (m * n) / power == n / d
  {
    var q, r := n / d, n % d;
    ProductExpansion(power, d, m, e, n);
    MulLe(r + 1, d, power);
    Distribute(r, 1, power);
    MulLe(0, r, power);
    MulAssoc(q, power, d);
    Distribute(q, 1, power);
    MulCancelLe(q * power, m * n, d);
    MulCancelLt(m * n, (q + 1) * power, d);
    DivIs(m * n, power, q);
  }

  lemma ProductExpansion(power: nat, d: nat, m: nat, e: nat, n: nat)
    requires power > 0 && d > 0
    requires m * d == power + e
    ensures (m * n) * d == (n / d * power) * d + n % d * power + e * n
    ensures ((n / d + 1) * power) * d == (n / d * power) * d + d * power
    ensures 0 <= n % d < d && 0 <= n / d
  {
    DivMod(n, d);
    MulCancelNonneg(n, d);
    assert (m * n) * d == (m * d) * n;
    Distribute(power, e, n);
    Distribute(n / d * d, n % d, power);
    assert (n / d * d) * power == (n / d * power) * d;
    Distribute(n / d, 1, power);
    Distribute(n / d * power, power, d);
  }

  /** For a negative numerator -n the floor of the scaled product is one below the truncated quotient. */
  lemma MagicQuotientNegative(power: nat, d: nat, m: nat, e: nat, n: nat)
    requires power > 0 && d > 0 && n > 0
    requires m * d == power + e
    requires 0 < e * n < power
    ensures (-(m * n)) / power == -(n / d) - 1
  {
    var q, r := n / d, n % d;
    ProductExpansion(power, d, m, e, n);
    MulLe(r + 1, d, power);
    Distribute(r, 1, power);
    MulLe(0, r, power);
    Distribute(q, 1, power);
    MulCancelLt(q * power, m * n, d);
    MulCancelLt(m * n, (q + 1) * power, d);
    assert (-q - 1) * power == -((q + 1) * power);
    DivIs(-(m * n), power, -q - 1);
  }

  /** No number strictly between two consecutive powers of two divides a power of two. */
  lemma {:induction false} NotADivisor(d: nat, l: nat, p: nat)
    requires Pow2(l) < d < Pow2(l + 1)
    ensures Pow2(p) % d > 0
    decreases p
  {
    DivMod(Pow2(p), d);
    if Pow2(p) % d == 0 {
      NoFactor(d, l, Pow2(p) / d, p);
    }
  }

  lemma {:induction false} NoFactor(d: nat, l: nat, q: int, p: nat)
    requires Pow2(l) < d < Pow2(l + 1)
    ensures q * d != Pow2(p)
    decreases p
  {
    hide Pow2;
    Pow2Successor(l);
    if q * d == Pow2(p) {
      if p == 0 {
        Pow2Successor(0);
        NoUnitFactor(q, d);
      } else if d % 2 == 0 {
        Pow2Successor(p - 1);
        EvenFactor(q, d / 2);
        HalfInBinade(d, l);
        NoFactor(d / 2, l - 1, q, p - 1);
      } else if q % 2 == 0 {
        Pow2Successor(p - 1);
        EvenFactor(d, q / 2);
        NoFactor(d, l, q / 2, p - 1);
      } else {
        Pow2Successor(p - 1);
        OddProduct(q, d);
      }
    }
  }

  lemma HalfInBinade(d: nat, l: nat)
    requires Pow2(l) < d < Pow2(l + 1) && d % 2 == 0
    ensures l > 0 && Pow2(l - 1) < d / 2 < Pow2(l)
  {
  }

  lemma NoUnitFactor(q: int, d: nat)
    requires d > 1
    ensures q * d != 1
  {
    if q <= 0 {
      MulLe(q, 0, d);
    } else {
      MulLe(1, q, d);
    }
  }

  lemma EvenFactor(x: int, h: int)
    ensures x * (2 * h) == 2 * (x * h) == (2 * h) * x
  {
  }

  lemma OddProduct(x: int, y: int)
    requires x % 2 == 1 && y % 2 == 1
    ensures (x * y) % 2 == 1
  {
    var h, k := x / 2, y / 2;
    assert x == 2 * h + 1 && y == 2 * k + 1;
    OddExpansion(h, k);
    DivIs(x * y, 2, 2 * (h * k) + h + k);
  }

  lemma OddExpansion(h: int, k: int)
    ensures (2 * h + 1) * (2 * k + 1) == 2 * (2 * (h * k) + h + k) + 1
  {
  }

  lemma CeilOfNonDivisor(x: nat, d: nat)
    requires d > 0 && x % d > 0
    ensures CeilDiv(x, d) == x / d + 1
    ensures CeilDiv(x, d) * d == x + (d - x % d)
  {
    DivMod(x, d);
    Distribute(x / d, 1, d);
    DivIs(x + d - 1, d, x / d + 1);
  }

  /** Doubling a quotient and correcting it by the doubled remainder. */
  lemma DoubledQuotient(x: nat, d: nat)
    requires d > 0
    ensures (2 * x) / d == 2 * (x / d) + (if 2 * (x % d) >= d then 1 else 0)
    ensures (2 * x) % d == 2 * (x % d) - (if 2 * (x % d) >= d then d else 0)
  {
    DivMod(x, d);
    var c := if 2 * (x % d) >= d then 1 else 0;
    assert (2 * (x / d) + c) * d == 2 * (x / d * d) + c * d;
    DivIs(2 * x, d, 2 * (x / d) + c);
  }

  /** The reciprocal of a divisor in the binade of 2^l, scaled by 2^(k + l), lies strictly inside a
      binade, whichever way it is rounded. */
  lemma ReciprocalRange(d: nat, l: nat, k: nat)
    requires Pow2(l) < d < Pow2(l + 1) && l < k
    ensures Pow2(k - 1) < CeilDiv(Pow2(k + l), d) < Pow2(k)
    ensures CeilDiv(Pow2(k + l), d) * d == Pow2(k + l) + (d - Pow2(k + l) % d)
    ensures CeilDiv(Pow2(k + l), d) == Pow2(k + l) / d + 1
    ensures 0 < Pow2(k + l) % d < d
  {
    hide Pow2, CeilDiv;
    var x := Pow2(k + l);
    NotADivisor(d, l, k + l);
    CeilOfNonDivisor(x, d);
    DivMod(x, d);
    Pow2Add(k, l);
    Pow2Add(l + 1, k - 1);
    Pow2Successor(l);
    Pow2Monotone(l + 1, k);
    MulLt(d, Pow2(l + 1), Pow2(k - 1));
    QuotientAbove(x, d, Pow2(k - 1));
    QuotientBelow(x, d, Pow2(l), Pow2(k));
  }

  lemma QuotientAbove(x: nat, d: nat, a: nat)
    requires d > 0 && d * a <= x
    ensures a <= x / d
  {
    DivMod(x, d);
    MulCancelLt(a, x / d + 1, d);
  }

  lemma QuotientBelow(x: nat, d: nat, p: nat, a: nat)
    requires p < d && p + 1 < a && x == a * p
    ensures x / d < a - 1
  {
    DivMod(x, d);
    MulLe(p + 1, d, a - 1);
    Distribute(p, 1, a - 1);
    Distribute(a, 1, p);
    MulCancelLt(x / d, a - 1, d);
  }
}

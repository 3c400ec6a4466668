/** The precomputed divisors: a magic factor and a `more` byte whose bit fields select the path. */
module Denominators {
  import opened Bits

  /** The code exists for 32-bit and for 64-bit words. */
  type Width = w: nat | w == 32 || w == 64 witness 32

  const ADD_MARKER: nat := 0x40
  const UNSIGNED_SHIFT_PATH: nat := 0x80
  const S32_SHIFT_PATH: nat := 0x20
  const NEGATIVE_DIVISOR: nat := 0x80

  function ShiftMask(w: Width): nat {
    if w == 32 then 0x1F else 0x3F
  }

  datatype UnsignedDenominator = UnsignedDenominator(magic: nat, more: nat)

  datatype SignedDenominator = SignedDenominator(magic: int, more: nat)

  /** The `more` byte as a sum of fields that do not collide: a shift, the three marker bits. */
  function More(shift: nat, bit5: bool, bit6: bool, bit7: bool): nat {
    shift + (if bit5 then 0x20 else 0) + (if bit6 then 0x40 else 0) + (if bit7 then 0x80 else 0)
  }

  /** Every masked read of `more` returns its own field. The shift may use bit 5 in the 64-bit types. */
  lemma MoreFields(w: Width, shift: nat, bit5: bool, bit6: bool, bit7: bool)
    requires shift < w && (bit5 ==> w == 32)
    ensures var more := More(shift, bit5, bit6, bit7);
            && more < 0x100
            && And(more, ShiftMask(w)) == shift
            && (w == 32 ==> (And(more, S32_SHIFT_PATH) != 0 <==> bit5))
            && (And(more, ADD_MARKER) != 0 <==> bit6)
            && (And(more, UNSIGNED_SHIFT_PATH) != 0 <==> bit7)
            && more / 0x80 == if bit7 then 1 else 0
  {
    hide And, Pow2;
    ByteBits(More(shift, bit5, bit6, bit7));
  }

  lemma ByteBits(more: nat)
    ensures And(more, 0x1F) == more % 0x20 && And(more, 0x3F) == more % 0x40
    ensures And(more, 0x20) != 0 <==> (more / 0x20) % 2 == 1
    ensures And(more, 0x40) != 0 <==> (more / 0x40) % 2 == 1
    ensures And(more, 0x80) != 0 <==> (more / 0x80) % 2 == 1
  {
    hide And, Pow2;
    Pow2Values();
    AndMask(more, 5);
    AndMask(more, 6);
    AndBit(more, 5);
    AndBit(more, 6);
    AndBit(more, 7);
  }

  /** The byte assembled by the unsigned generators with bitwise ors. */
  lemma OrFields(w: Width, shift: nat)
    requires shift < w
    ensures Or(shift, ADD_MARKER) == More(shift, false, true, false)
    ensures Or(shift, UNSIGNED_SHIFT_PATH) == More(shift, false, false, true)
  {
    hide Pow2, Or;
    Pow2Values();
    OrDisjoint(shift, 1, 6);
    OrDisjoint(shift, 1, 7);
  }

  /** The byte assembled by the signed generators. */
  lemma OrFieldsSigned(w: Width, shift: nat, negative: bool)
    requires shift < w
    ensures var sign := if negative then NEGATIVE_DIVISOR else 0;
            && Or(shift, sign) == More(shift, false, false, negative)
            && Or(Or(shift, ADD_MARKER), sign) == More(shift, false, true, negative)
            && (w == 32 ==> Or(Or(shift, sign), S32_SHIFT_PATH) == More(shift, true, false, negative))
  {
    hide Pow2, Or;
    Pow2Values();
    OrFields(w, shift);
    WithZero(shift);
    WithZero(shift + 0x40);
    OrDisjoint(shift, 1, 7);
    OrDisjoint(shift + 0x40, 1, 7);
    if w == 32 {
      OrDisjoint(shift, 1, 5);
      OrDisjoint(shift, 5, 5);
      OrBit5(shift);
    }
  }

  lemma OrBit5(shift: nat)
    requires shift < 0x20
    ensures Or(shift + 0x80, 0x20) == shift + 0xA0
  {
    hide Pow2;
    Pow2Values();
    Split(shift, 4, 0, 1, 5);
    WithZero(shift);
    assert Or(4, 1) == 5;
  }
}

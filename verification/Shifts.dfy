/** Shifts of 64-bit words, and the bits they keep. */
module Shifts {
  type Word = bv64

  const ONES: Word := 0xFFFF_FFFF_FFFF_FFFF

  function Shl(a: Word, b: Word): Word {
    if b < 64 then a << b else 0
  }

  function Shr(a: Word, b: Word): Word {
    if b < 64 then a >> b else 0
  }

  function And(a: Word, b: Word): Word { a & b }

  lemma LeftLost(a: Word, c: Word)
    requires c < 64 && Shl(a, c) == 0
    ensures And(a, Shr(ONES, c)) == 0
  {
  }

  lemma LeftKept(a: Word, c: Word)
    requires c < 64 && And(a, Shr(ONES, c)) == 0
    ensures Shl(a, c) == 0
  {
  }

  /** A left shift loses everything exactly when none of the bits it keeps is set. */
  lemma LeftShiftIsZeroExactly(a: Word, c: Word)
    requires c < 64
    ensures Shl(a, c) == 0 <==> And(a, Shr(ONES, c)) == 0
  {
    hide Shl, Shr, And;
    if Shl(a, c) == 0 {
      LeftLost(a, c);
    }
    if And(a, Shr(ONES, c)) == 0 {
      LeftKept(a, c);
    }
  }

  lemma RightLost(a: Word, c: Word)
    requires c < 64 && Shr(a, c) == 0
    ensures And(a, Shl(ONES, c)) == 0
  {
  }

  lemma RightKept(a: Word, c: Word)
    requires c < 64 && And(a, Shl(ONES, c)) == 0
    ensures Shr(a, c) == 0
  {
  }

  /** A right shift loses everything exactly when none of the bits it keeps is set. */
  lemma RightShiftIsZeroExactly(a: Word, c: Word)
    requires c < 64
    ensures Shr(a, c) == 0 <==> And(a, Shl(ONES, c)) == 0
  {
    hide Shl, Shr, And;
    if Shr(a, c) == 0 {
      RightLost(a, c);
    }
    if And(a, Shl(ONES, c)) == 0 {
      RightKept(a, c);
    }
  }

  lemma MaskedCount(b: Word)
    ensures And(b, 63) < 64
  {
  }
}

/** Arithmetic of unsigned 64-bit words, and its laws that the simplification rules rest on. */
module Words {
  import opened Shifts

  function Add(a: Word, b: Word): Word { a + b }

  function Sub(a: Word, b: Word): Word { a - b }

  function Mul(a: Word, b: Word): Word { a * b }

  function Div(a: Word, b: Word): Word
    requires b != 0
  {
    a / b
  }

  function Or(a: Word, b: Word): Word { a | b }

  function Xor(a: Word, b: Word): Word { a ^ b }

  function Neg(a: Word): Word { 0 - a }

  function Not(a: Word): Word { !a }

  // ---------------------------------------------------------------- what the operations are

  lemma AddIs(a: Word, b: Word)
    ensures Add(a, b) == a + b
  {
  }

  lemma SubIs(a: Word, b: Word)
    ensures Sub(a, b) == a - b
  {
  }

  lemma MulIs(a: Word, b: Word)
    ensures Mul(a, b) == a * b
  {
  }

  lemma AndIs(a: Word, b: Word)
    ensures And(a, b) == a & b
  {
  }

  lemma OrIs(a: Word, b: Word)
    ensures Or(a, b) == a | b
  {
  }

  lemma XorIs(a: Word, b: Word)
    ensures Xor(a, b) == a ^ b
  {
  }

  lemma DivIs(a: Word, b: Word)
    requires b != 0
    ensures Div(a, b) == a / b
  {
  }

  lemma NegIs(a: Word)
    ensures Neg(a) == 0 - a
  {
  }

  lemma NotIs(a: Word)
    ensures Not(a) == !a
  {
  }

  /** Shifts take their count as it is; from 64 on nothing is left. */
  lemma ShlIs(a: Word, b: Word)
    ensures Shl(a, b) == if b < 64 then a << b else 0
  {
  }

  lemma ShrIs(a: Word, b: Word)
    ensures Shr(a, b) == if b < 64 then a >> b else 0
  {
  }

  // ---------------------------------------------------------------- algebra

  lemma AddLaws(a: Word, b: Word)
    ensures Add(a, b) == Add(b, a) && Add(a, 0) == a && Add(0, a) == a
  {
  }

  lemma MulLaws(a: Word)
    ensures Mul(a, 1) == a && Mul(1, a) == a && Mul(a, 0) == 0
  {
  }

  lemma SelfLaws(a: Word)
    ensures Xor(a, a) == 0 && Sub(a, a) == 0
  {
  }

  lemma NegationByComplement(a: Word)
    ensures Add(Not(a), 1) == Neg(a)
  {
  }
}

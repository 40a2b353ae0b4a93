/** What the simplifier does to an expression whose parts are simplified, rule by rule and with nothing
    left open: which constants fold and to what, which identities apply on which side, and that
    everything else stays as it is. */
module Folding {
  import opened Text
  import opened Shifts
  import opened Words
  import opened Exprs
  import opened Normals

  lemma OperatorTable(a: Word, b: Word, op: string)
    ensures EvalOp("+", a, b) == Some(Add(a, b)) && EvalOp("-", a, b) == Some(Sub(a, b))
    ensures EvalOp("*", a, b) == Some(Mul(a, b)) && EvalOp("/", a, 0) == None
    ensures b != 0 ==> EvalOp("/", a, b) == Some(Div(a, b))
    ensures EvalOp("&", a, b) == Some(And(a, b)) && EvalOp("|", a, b) == Some(Or(a, b))
    ensures EvalOp("^", a, b) == Some(Xor(a, b))
    ensures EvalOp("<<", a, b) == Some(Shl(a, b)) && EvalOp(">>", a, b) == Some(Shr(a, b))
    ensures op !in {"+", "-", "*", "/", "&", "|", "^", "<<", ">>"} ==> EvalOp(op, a, b) == None
  {
    hide Add, Sub, Mul, Div, And, Or, Xor, Shl, Shr;
  }

  /** What the operators compute on 64-bit words: sums, differences and bits. */
  lemma SumsMean(a: Word, b: Word)
    ensures EvalOp("+", a, b) == Some(a + b) && EvalOp("-", a, b) == Some(a - b)
    ensures EvalOp("&", a, b) == Some(a & b) && EvalOp("|", a, b) == Some(a | b) && EvalOp("^", a, b) == Some(a ^ b)
  {
    OperatorTable(a, b, "+");
    AddIs(a, b);
    SubIs(a, b);
    AndIs(a, b);
    OrIs(a, b);
    XorIs(a, b);
    hide *;
  }

  lemma ProductsMean(a: Word, b: Word)
    ensures EvalOp("*", a, b) == Some(a * b)
  {
    OperatorTable(a, b, "*");
    MulIs(a, b);
    hide *;
  }

  /** Quotients are unsigned; there is none by zero. */
  lemma QuotientsMean(a: Word, b: Word)
    requires b != 0
    ensures EvalOp("/", a, b) == Some(a / b) && EvalOp("/", a, 0) == None
  {
    OperatorTable(a, b, "/");
    DivIs(a, b);
    hide *;
  }

  /** Shifts take their count as it is; from 64 on nothing is left. */
  lemma ShiftsMean(a: Word, b: Word)
    ensures EvalOp("<<", a, b) == Some(if b < 64 then a << b else 0)
    ensures EvalOp(">>", a, b) == Some(if b < 64 then a >> b else 0)
  {
    OperatorTable(a, b, "<<");
    ShlIs(a, b);
    ShrIs(a, b);
    hide *;
  }

  /** Two constants fold to what the operator computes, where it computes something: not for a division
      by zero, and not for an operator other than these nine. */
  lemma ConstantsFold(op: string, a: Word, b: Word)
    ensures var computes := op in {"+", "-", "*", "&", "|", "^", "<<", ">>"} || (op == "/" && b != 0);
            && (computes <==> EvalOp(op, a, b).Some?)
            && Normal(Op(op, Const(a), Const(b))) ==
               if computes then Const(EvalOp(op, a, b).value) else Op(op, Const(a), Const(b))
  {
    OperatorTable(a, b, op);
    RootOfOp(op, Const(a), Const(b));
    NormalOfConstant(a);
    NormalOfConstant(b);
    hide EvalOp, Normal, Add, Sub, Mul, Div, And, Or, Xor, Shl, Shr;
  }

  lemma RootOfOp(op: string, l: Expr, r: Expr)
    ensures Normal(Op(op, l, r)) == Root(op, Normal(l), Normal(r))
  {
  }

  /** A sum: the constant goes to the right, and goes away when it is zero. */
  lemma SumsNormalize(l: Expr, r: Expr)
    ensures var n, x, y := Normal(Op("+", l, r)), Normal(l), Normal(r);
            if x == Missing || y == Missing then n == Op("+", x, y)
            else if x.Const? && y.Const? then n.Const? && EvalOp("+", x.c, y.c) == Some(n.c)
            else if x.Const? then n == if x.c == 0 then y else Op("+", y, x)
            else if y.Const? then n == if y.c == 0 then x else Op("+", x, y)
            else n == Op("+", x, y)
  {
    RootOfOp("+", l, r);
    hide Normal, EvalOp;
    var x, y := Normal(l), Normal(r);
    if x.Const? && y.Const? {
      SumsMean(x.c, y.c);
    }
  }

  /** A product: a factor of one goes away on either side; a zero absorbs from the right alone. */
  lemma ProductsNormalize(l: Expr, r: Expr)
    ensures var n, x, y := Normal(Op("*", l, r)), Normal(l), Normal(r);
            if x == Missing || y == Missing then n == Op("*", x, y)
            else if x.Const? && y.Const? then n.Const? && EvalOp("*", x.c, y.c) == Some(n.c)
            else if y == Const(1) then n == x
            else if x == Const(1) then n == y
            else if y == Const(0) then n == Const(0)
            else n == Op("*", x, y)
  {
    RootOfOp("*", l, r);
    hide Normal, EvalOp;
    var x, y := Normal(l), Normal(r);
    if x.Const? && y.Const? {
      ConstantsFold("*", x.c, y.c);
    }
  }

  /** Any other operator: two constants fold, a register cancels against itself under `-` and `^`, and
      everything else stays as it is. */
  lemma OthersStay(op: string, l: Expr, r: Expr)
    requires op != "+" && op != "*"
    ensures var n, x, y := Normal(Op(op, l, r)), Normal(l), Normal(r);
            if x.Const? && y.Const? then n == Normal(Op(op, x, y))
            else if (op == "-" || op == "^") && x.Reg? && y == x then n == Const(0)
            else n == Op(op, x, y)
  {
    var x, y := Normal(l), Normal(r);
    RootOfOp(op, l, r);
    RootOfOp(op, x, y);
    if x.Const? && y.Const? {
      NormalOfConstant(x.c);
      NormalOfConstant(y.c);
    }
    hide Normal, EvalOp;
  }

  /** A sign in front of a constant is computed; any other unary expression stays. */
  lemma SignsNormalize(op: string, x: Expr)
    ensures var n, y := Normal(Unary(op, x)), Normal(x);
            if y.Const? && op == "-" then n == Const(0 - y.c)
            else if y.Const? && op == "^" then n == Const(!y.c)
            else n == Unary(op, y)
  {
    var y := Normal(x);
    if y.Const? {
      NegationByComplement(y.c);
      NegIs(y.c);
      NotIs(y.c);
    }
    hide Add, Not, Neg;
  }

  /** Leaves stay, and so does an operation without arguments. */
  lemma LeavesStay(c: Word, name: string, head: Head)
    ensures Normal(Const(c)) == Const(c) && Normal(Reg(name)) == Reg(name)
    ensures Normal(Missing) == Missing && Normal(Unknown) == Unknown
    ensures Normal(Apply(head, [])) == Apply(head, [])
  {
  }

  /** What a sign computes; there is none but these two. */
  lemma SignsMean(op: string, a: Word)
    ensures EvalUnary("-", a) == Some(0 - a) && EvalUnary("^", a) == Some(!a)
    ensures EvalUnary(op, a).Some? <==> op == "-" || op == "^"
  {
    NegIs(a);
    NotIs(a);
    hide Neg, Not;
  }
}

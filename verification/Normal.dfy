/** The simplifier as a function on expressions, and rewriting that keeps both the meaning and the
    normal form. */
module Normals {
  import opened Text
  import opened Shifts
  import opened Words
  import opened Exprs

  // ---------------------------------------------------------------- the normal form

  /** The rules at the root of a binary expression, in the order in which they are tried. */
  function Root(op: string, l: Expr, r: Expr): Expr {
    if l.Missing? || r.Missing? then Op(op, l, r)
    else if l.Const? && r.Const? && EvalOp(op, l.c, r.c).Some? then Const(EvalOp(op, l.c, r.c).value)
    else if (op == "^" || op == "-") && l.Reg? && r.Reg? && l.name == r.name then Const(0)
    else if op == "+" then if l.Const? then RootSum(r, l) else RootSum(l, r)
    else if op == "*" then RootProduct(l, r)
    else Op(op, l, r)
  }

  function RootSum(l: Expr, r: Expr): Expr {
    if l == Const(0) then r else if r == Const(0) then l else Op("+", l, r)
  }

  function RootProduct(l: Expr, r: Expr): Expr {
    if r == Const(1) then l
    else if l == Const(1) then r
    else if r == Const(0) then Const(0)
    else Op("*", l, r)
  }

  function RootUnary(op: string, x: Expr): Expr {
    if x.Const? && op == "-" then Const(Add(Not(x.c), 1))
    else if x.Const? && op == "^" then Const(Not(x.c))
    else Unary(op, x)
  }

  /** An expression simplified everywhere, inside arguments as well. */
  function Normal(e: Expr): Expr {
    match e
    case Op(op, l, r) => Root(op, Normal(l), Normal(r))
    case Unary(op, x) => RootUnary(op, Normal(x))
    case Apply(head, args) => Apply(head, NormalAll(args))
    case _ => e
  }

  function NormalAll(es: seq<Expr>): seq<Expr> {
    if es == [] then [] else [Normal(es[0])] + NormalAll(es[1..])
  }

  lemma {:induction false} NormalEach(es: seq<Expr>)
    ensures |NormalAll(es)| == |es|
    ensures forall i {:trigger NormalAll(es)[i]} {:trigger es[i]} :: 0 <= i < |es| ==> NormalAll(es)[i] == Normal(es[i])
  {
    if es != [] {
      NormalEach(es[1..]);
    }
  }

  /** Only a missing expression has a missing normal form. */
  lemma NormalMissing(e: Expr)
    ensures Normal(e).Missing? <==> e.Missing?
  {
    hide EvalOp;
  }

  // ---------------------------------------------------------------- rewriting

  /** `f` means at least what `e` means, and has the same normal form. */
  ghost predicate Rewrites(e: Expr, f: Expr) {
    Refines(e, f) && Normal(e) == Normal(f)
  }

  ghost predicate AllRewrite(es: seq<Expr>, fs: seq<Expr>) {
    |es| == |fs| && forall i {:trigger es[i]} {:trigger fs[i]} :: 0 <= i < |es| ==> Rewrites(es[i], fs[i])
  }

  lemma RewritesTransitive(e: Expr, f: Expr, g: Expr)
    requires Rewrites(e, f) && Rewrites(f, g)
    ensures Rewrites(e, g)
  {
    RefinesTransitive(e, f, g);
    hide Refines;
  }

  lemma RewritesSelf(e: Expr)
    ensures Rewrites(e, e)
  {
    RefinesSelf(e);
  }

  lemma AllRewriteSelf(es: seq<Expr>)
    ensures AllRewrite(es, es)
  {
    hide Rewrites;
    forall i | 0 <= i < |es|
      ensures Rewrites(es[i], es[i])
    {
      RewritesSelf(es[i]);
    }
  }

  lemma AllRewriteTransitive(es: seq<Expr>, fs: seq<Expr>, gs: seq<Expr>)
    requires AllRewrite(es, fs) && AllRewrite(fs, gs)
    ensures AllRewrite(es, gs)
  {
    hide Rewrites;
    forall i | 0 <= i < |es|
      ensures Rewrites(es[i], gs[i])
    {
      assert Rewrites(es[i], fs[i]) && Rewrites(fs[i], gs[i]);
      RewritesTransitive(es[i], fs[i], gs[i]);
    }
  }

  lemma AllRewriteRefines(es: seq<Expr>, fs: seq<Expr>)
    requires AllRewrite(es, fs)
    ensures AllRefine(es, fs) && NormalAll(es) == NormalAll(fs)
  {
    hide Refines;
    NormalEach(es);
    NormalEach(fs);
    forall i | 0 <= i < |es|
      ensures Refines(es[i], fs[i]) && NormalAll(es)[i] == NormalAll(fs)[i]
    {
      assert Rewrites(es[i], fs[i]);
    }
  }

  lemma OpRewrites(op: string, l: Expr, r: Expr, l': Expr, r': Expr)
    requires Rewrites(l, l') && Rewrites(r, r')
    ensures Rewrites(Op(op, l, r), Op(op, l', r'))
  {
    OpCongruence(op, l, r, l', r');
    hide Refines, Root;
  }

  lemma UnaryRewrites(op: string, x: Expr, x': Expr)
    requires Rewrites(x, x')
    ensures Rewrites(Unary(op, x), Unary(op, x'))
  {
    UnaryCongruence(op, x, x');
    hide Refines, RootUnary;
  }

  lemma ApplyRewrites(head: Head, es: seq<Expr>, fs: seq<Expr>)
    requires AllRewrite(es, fs)
    ensures Rewrites(Apply(head, es), Apply(head, fs))
  {
    AllRewriteRefines(es, fs);
    ApplyCongruence(head, es, fs);
    hide Refines, AllRefine, AllRewrite;
  }

  // ---------------------------------------------------------------- the rules keep the normal form

  lemma FoldingNormal(op: string, a: Word, b: Word, c: Word)
    requires EvalOp(op, a, b) == Some(c)
    ensures Normal(Op(op, Const(a), Const(b))) == Normal(Const(c))
  {
    hide EvalOp;
  }

  lemma SelfRuleNormal(op: string, name: string)
    requires op == "^" || op == "-"
    ensures Normal(Op(op, Reg(name), Reg(name))) == Normal(Const(0))
  {
  }

  lemma SumRuleNormal(e: Expr)
    requires !e.Missing?
    ensures Normal(Op("+", Const(0), e)) == Normal(e) && Normal(Op("+", e, Const(0))) == Normal(e)
  {
    NormalMissing(e);
    var n := Normal(e);
    if n.Const? {
      AddLaws(n.c, 0);
    }
    hide Add, Sub, Mul, Div, And, Or, Xor, Shl, Shr;
    assert Normal(Const(0)) == Const(0);
  }

  lemma ProductRuleNormal(e: Expr)
    requires !e.Missing?
    ensures Normal(Op("*", Const(1), e)) == Normal(e) && Normal(Op("*", e, Const(1))) == Normal(e)
    ensures Normal(Op("*", e, Const(0))) == Const(0)
  {
    NormalMissing(e);
    assert Normal(Const(0)) == Const(0) && Normal(Const(1)) == Const(1);
    RootByOne(Normal(e));
    RootByZero(Normal(e));
    hide Root;
  }

  lemma RootByOne(n: Expr)
    requires !n.Missing?
    ensures Root("*", Const(1), n) == n && Root("*", n, Const(1)) == n
  {
    if n.Const? {
      MulLaws(n.c);
    }
    hide Add, Sub, Mul, Div, And, Or, Xor, Shl, Shr;
  }

  lemma RootByZero(n: Expr)
    requires !n.Missing?
    ensures Root("*", n, Const(0)) == Const(0)
  {
    if n.Const? {
      MulLaws(n.c);
    }
    hide Add, Sub, Mul, Div, And, Or, Xor, Shl, Shr;
  }

  lemma SwapNormal(c: Word, e: Expr)
    requires !e.Missing?
    ensures Normal(Op("+", Const(c), e)) == Normal(Op("+", e, Const(c)))
  {
    NormalMissing(e);
    var n := Normal(e);
    if n.Const? {
      AddLaws(n.c, c);
    }
    hide Add, Sub, Mul, Div, And, Or, Xor, Shl, Shr;
    assert Normal(Const(c)) == Const(c);
  }

  lemma NormalOfConstant(c: Word)
    ensures Normal(Const(c)) == Const(c)
  {
  }

  lemma NegatedRegisterIsNormal(name: string)
    ensures Normal(Unary("-", Reg(name))) == Unary("-", Reg(name))
  {
    hide Add, Sub, Mul, Div, And, Or, Xor, Shl, Shr, Not, EvalOp, Root;
  }

  lemma UnaryRuleNormal(op: string, c: Word)
    ensures op == "-" ==> Normal(Unary(op, Const(c))) == Const(Add(Not(c), 1))
    ensures op == "^" ==> Normal(Unary(op, Const(c))) == Const(Not(c))
  {
    hide Add, Not;
  }

  // ---------------------------------------------------------------- simple expressions are normal

  /** Simplifying what is simple changes arguments only. */
  lemma {:induction false} NormalOfSimple(e: Expr)
    requires Simple(e)
    ensures Skeleton(Normal(e)) == Skeleton(e)
  {
    hide EvalOp;
    match e
    case Op(op, l, r) =>
      NormalOfSimple(l);
      NormalOfSimple(r);
      NormalMissing(l);
      NormalMissing(r);
      RootOfIrreducible(op, l, r, Normal(l), Normal(r));
    case Unary(op, x) =>
      NormalOfSimple(x);
      assert Skeleton(Normal(x)).Const? <==> x.Const?;
    case _ =>
  }

  lemma RootOfIrreducible(op: string, l: Expr, r: Expr, l': Expr, r': Expr)
    requires !Reducible(op, l, r) && Skeleton(l') == Skeleton(l) && Skeleton(r') == Skeleton(r)
    ensures Root(op, l', r') == Op(op, l', r')
  {
    hide EvalOp;
    assert l.Const? ==> l' == l;
    assert r.Const? ==> r' == r;
  }

  /** No argument anywhere, as in everything the analyzer builds. */
  predicate Bare(e: Expr) {
    match e
    case Op(_, l, r) => Bare(l) && Bare(r)
    case Unary(_, x) => Bare(x)
    case Apply(_, args) => args == []
    case _ => true
  }

  lemma {:induction false} BareSkeleton(e: Expr)
    requires Bare(e)
    ensures Skeleton(e) == e
  {
    match e
    case Op(_, l, r) =>
      BareSkeleton(l);
      BareSkeleton(r);
    case Unary(_, x) =>
      BareSkeleton(x);
    case _ =>
  }

  lemma {:induction false} BareNormal(e: Expr)
    requires Bare(e)
    ensures Bare(Normal(e))
  {
    hide EvalOp;
    match e
    case Op(_, l, r) =>
      BareNormal(l);
      BareNormal(r);
    case Unary(_, x) =>
      BareNormal(x);
    case _ =>
  }

  /** A simple expression whose normal form has no arguments has none itself. */
  lemma {:induction false} BareWhenNormal(e: Expr)
    requires Simple(e) && Bare(Normal(e))
    ensures Bare(e)
  {
    hide EvalOp;
    match e
    case Op(op, l, r) =>
      NormalOfSimple(l);
      NormalOfSimple(r);
      RootOfIrreducible(op, l, r, Normal(l), Normal(r));
      BareWhenNormal(l);
      BareWhenNormal(r);
    case Unary(op, x) =>
      NormalOfSimple(x);
      BareWhenNormal(x);
    case Apply(_, args) =>
      NormalEach(args);
    case _ =>
  }

  /** What a rewriting to a simple expression arrives at: the normal form, up to arguments, and exactly
      when there are none. */
  lemma SimpleIsNormal(e: Expr, f: Expr)
    requires Rewrites(e, f) && Simple(f)
    ensures Skeleton(f) == Skeleton(Normal(e))
    ensures Bare(e) ==> f == Normal(e)
  {
    NormalOfSimple(f);
    hide Refines, Normal, Skeleton, Simple;
    if Bare(e) {
      BareNormal(e);
      BareWhenNormal(f);
      BareSkeleton(f);
      BareSkeleton(Normal(e));
    }
  }

  lemma RootIsNormal(op: string, l: Expr, r: Expr)
    requires Normal(l) == l && Normal(r) == r
    ensures Normal(Root(op, l, r)) == Root(op, l, r)
  {
    hide Add, Sub, Mul, Div, And, Or, Xor, Shl, Shr, Reducible, Simple;
  }

  lemma RootIsSimple(op: string, l: Expr, r: Expr)
    requires Simple(l) && Simple(r)
    ensures Simple(Root(op, l, r))
  {
    hide Add, Sub, Mul, Div, And, Or, Xor, Shl, Shr, Normal;
  }

  /** A normal form is simple, and simplifying it again changes nothing. */
  lemma {:induction false} NormalIsStable(e: Expr)
    ensures Simple(Normal(e)) && Normal(Normal(e)) == Normal(e)
  {
    hide EvalOp;
    match e
    case Op(op, l, r) =>
      NormalIsStable(l);
      NormalIsStable(r);
      hide Root;
      RootIsNormal(op, Normal(l), Normal(r));
      RootIsSimple(op, Normal(l), Normal(r));
    case Unary(op, x) =>
      NormalIsStable(x);
    case Apply(_, args) =>
      AllNormalAreStable(args);
    case _ =>
  }

  lemma {:induction false} AllNormalAreStable(es: seq<Expr>)
    ensures NormalAll(NormalAll(es)) == NormalAll(es)
  {
    if es != [] {
      NormalIsStable(es[0]);
      AllNormalAreStable(es[1..]);
      assert NormalAll(es)[1..] == NormalAll(es[1..]);
    }
  }
}

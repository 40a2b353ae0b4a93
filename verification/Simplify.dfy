/** Simplification of value nodes: constant folding and identities, with children rewired in place
    while other nodes, registers and statements still share them. */
module Simplify {
  import opened Text
  import opened Operands
  import opened Shifts
  import opened Words
  import opened Exprs
  import opened Normals
  import opened Values

  method ConstValue(c: Word) returns (r: Value)
    ensures fresh(r) && r.kind == KConst && r.constant == c && r.rank == 0
    ensures r.left == null && r.right == null && r.args == []
  {
    r := new Value.Make(KConst, c, "", "", null, null, "", [], EMPTY, 0);
  }

  method EvalConstBinOp(op: string, a: Word, b: Word) returns (r: Value?)
    ensures r == null <==> EvalOp(op, a, b).None?
    ensures r != null ==> fresh(r) && r.kind == KConst && Some(r.constant) == EvalOp(op, a, b)
    ensures r != null ==> r.rank == 0 && r.left == null && r.right == null && r.args == []
  {
    hide Add, Sub, Mul, Div, And, Or, Xor, Shl, Shr;
    r := null;
    if op == "+" {
      r := ConstValue(Add(a, b));
    } else if op == "-" {
      r := ConstValue(Sub(a, b));
    } else if op == "*" {
      r := ConstValue(Mul(a, b));
    } else if op == "/" {
      if b != 0 {
        r := ConstValue(Div(a, b));
      }
    } else if op == "&" {
      r := ConstValue(And(a, b));
    } else if op == "|" {
      r := ConstValue(Or(a, b));
    } else if op == "^" {
      r := ConstValue(Xor(a, b));
    } else if op == "<<" {
      r := ConstValue(Shl(a, b));
    } else if op == ">>" {
      r := ConstValue(Shr(a, b));
    }
  }

  /** The state after simplifying: the nodes have grown by fresh ones, nothing lost meaning, and
      nodes that rank above `rank` were not touched. */
  ghost predicate Simplified(h: Heap, h': Heap, rank: int)
    requires Closed(h)
  {
    && Closed(h') && Preserves(h, h') && KeepsSimple(h, h')
    && (forall x: Value {:trigger x in h'} :: x in h && x.rank > rank ==> x in h' && h'[x] == h[x])
  }

  ghost function Rank(v: Value?): int {
    if v == null then -1 else v.rank
  }

  /** `r` stands for at least what `v` stands for, and hangs no deeper. */
  ghost predicate Replaces(h: Heap, v: Value?, r: Value?)
    requires Closed(h)
  {
    && (v != null ==> v in h) && (r != null ==> r in h)
    && (v == null <==> r == null)
    && Rank(r) <= Rank(v)
    && Rewrites(Tree(h, v), Tree(h, r))
  }

  /** No rule is left to apply to the result, and only a value with work left was replaced. */
  ghost predicate Finished(h: Heap, v: Value?, r: Value?)
    requires Closed(h) && (v != null ==> v in h) && (r != null ==> r in h)
  {
    Simple(Tree(h, r)) && (r == v || !Simple(Tree(h, v)))
  }

  // ---------------------------------------------------------------- rules on expressions

  /** One rewriting step at the root of a binary node whose children are already simplified. */
  predicate OpRule(op: string, l: Expr, r: Expr, result: Expr) {
    && !l.Missing? && !r.Missing?
    && (|| (l.Const? && r.Const? && result.Const? && EvalOp(op, l.c, r.c) == Some(result.c))
        || ((op == "^" || op == "-") && l.Reg? && r.Reg? && l.name == r.name && result == Const(0))
        || (op == "+" && l == Const(0) && result == r)
        || (op == "+" && r == Const(0) && result == l)
        || (op == "*" && r == Const(1) && result == l)
        || (op == "*" && l == Const(1) && result == r)
        || (op == "*" && r == Const(0) && result == Const(0)))
  }

  lemma FoldingRefines(op: string, a: Word, b: Word, c: Word)
    requires EvalOp(op, a, b) == Some(c)
    ensures Refines(Op(op, Const(a), Const(b)), Const(c))
  {
    hide EvalOp;
    forall env
      ensures Eval(Op(op, Const(a), Const(b)), env) == Some(c)
    {
      assert Eval(Const(a), env) == Some(a) && Eval(Const(b), env) == Some(b);
    }
  }

  lemma SelfRuleRefines(op: string, e: Expr)
    requires op == "^" || op == "-"
    ensures Refines(Op(op, e, e), Const(0))
  {
    hide Add, Sub, Mul, Div, And, Or, Xor, Shl, Shr;
    forall env
      ensures SameWhereDefined(Eval(Op(op, e, e), env), Eval(Const(0), env))
    {
      if Eval(e, env).Some? {
        SelfLaws(Eval(e, env).value);
      }
    }
  }

  lemma SumRuleRefines(e: Expr)
    ensures Refines(Op("+", Const(0), e), e) && Refines(Op("+", e, Const(0)), e)
  {
    hide Add, Sub, Mul, Div, And, Or, Xor, Shl, Shr;
    forall env
      ensures Eval(Op("+", Const(0), e), env) == Eval(e, env) == Eval(Op("+", e, Const(0)), env)
    {
      assert Eval(Const(0), env) == Some(0);
      if Eval(e, env).Some? {
        AddLaws(Eval(e, env).value, 0);
      }
    }
  }

  lemma ProductRuleRefines(e: Expr)
    ensures Refines(Op("*", Const(1), e), e) && Refines(Op("*", e, Const(1)), e)
            && Refines(Op("*", e, Const(0)), Const(0))
  {
    hide Add, Sub, Mul, Div, And, Or, Xor, Shl, Shr;
    forall env
      ensures Eval(Op("*", Const(1), e), env) == Eval(e, env) == Eval(Op("*", e, Const(1)), env)
      ensures SameWhereDefined(Eval(Op("*", e, Const(0)), env), Some(0))
    {
      assert Eval(Const(0), env) == Some(0) && Eval(Const(1), env) == Some(1);
      if Eval(e, env).Some? {
        MulLaws(Eval(e, env).value);
      }
    }
  }

  lemma OpRuleRefines(op: string, l: Expr, r: Expr, result: Expr)
    requires OpRule(op, l, r, result)
    ensures Refines(Op(op, l, r), result)
  {
    hide EvalOp, Eval, Refines;
    if l.Const? && r.Const? && result.Const? && EvalOp(op, l.c, r.c) == Some(result.c) {
      FoldingRefines(op, l.c, r.c, result.c);
    } else if op == "+" {
      SumRuleRefines(if l == Const(0) && result == r then r else l);
    } else if op == "*" {
      ProductRuleRefines(if l == Const(1) && result == r then r else l);
    } else {
      SelfRuleRefines(op, l);
    }
  }

  lemma OpRuleNormal(op: string, l: Expr, r: Expr, result: Expr)
    requires OpRule(op, l, r, result)
    ensures Normal(Op(op, l, r)) == Normal(result)
  {
    hide EvalOp, Normal;
    if l.Const? && r.Const? && result.Const? && EvalOp(op, l.c, r.c) == Some(result.c) {
      FoldingNormal(op, l.c, r.c, result.c);
    } else if op == "+" {
      SumRuleNormal(if l == Const(0) && result == r then r else l);
    } else if op == "*" {
      ProductRuleNormal(if l == Const(1) && result == r then r else l);
      assert Normal(Const(0)) == Const(0) by {
        NormalOfConstant(0);
      }
    } else {
      SelfRuleNormal(op, l.name);
    }
  }

  lemma SwapRefines(l: Expr, r: Expr)
    ensures Refines(Op("+", l, r), Op("+", r, l))
  {
    hide Add, Sub, Mul, Div, And, Or, Xor, Shl, Shr;
    forall env
      ensures SameWhereDefined(Eval(Op("+", l, r), env), Eval(Op("+", r, l), env))
    {
      var a, b := Eval(l, env), Eval(r, env);
      if a.Some? && b.Some? {
        AddLaws(a.value, b.value);
      }
    }
  }

  lemma RootRefines(op: string, l: Expr, r: Expr)
    ensures Refines(Op(op, l, r), Root(op, l, r))
  {
    hide EvalOp, Refines;
    RefinesSelf(Op(op, l, r));
    if op == "+" && l.Const? {
      SwapRefines(l, r);
      if OpRule(op, r, l, Root(op, l, r)) {
        OpRuleRefines(op, r, l, Root(op, l, r));
        RefinesTransitive(Op(op, l, r), Op(op, r, l), Root(op, l, r));
      }
    }
    if OpRule(op, l, r, Root(op, l, r)) {
      OpRuleRefines(op, l, r, Root(op, l, r));
    }
  }

  /** The normal form means at least what the expression means. */
  lemma {:induction false} NormalRefines(e: Expr)
    ensures Refines(e, Normal(e))
  {
    hide Refines, Root, EvalOp, Add, Not;
    match e {
      case Op(op, l, r) =>
        NormalRefines(l);
        NormalRefines(r);
        OpCongruence(op, l, r, Normal(l), Normal(r));
        RootRefines(op, Normal(l), Normal(r));
        RefinesTransitive(e, Op(op, Normal(l), Normal(r)), Normal(e));
      case Unary(op, x) =>
        NormalRefines(x);
        UnaryCongruence(op, x, Normal(x));
        RefinesSelf(Unary(op, Normal(x)));
        if Normal(x).Const? {
          UnaryRuleRefines(op, Normal(x).c);
        }
        RefinesTransitive(e, Unary(op, Normal(x)), Normal(e));
      case Apply(head, args) =>
        AllNormalRefine(args);
        ApplyCongruence(head, args, NormalAll(args));
      case _ =>
        RefinesSelf(e);
    }
  }

  lemma {:induction false} AllNormalRefine(es: seq<Expr>)
    ensures AllRefine(es, NormalAll(es))
  {
    hide Refines;
    if es != [] {
      NormalRefines(es[0]);
      AllNormalRefine(es[1..]);
      forall i | 0 < i < |es|
        ensures Refines(es[i], NormalAll(es)[i])
      {
        assert Refines(es[1..][i - 1], NormalAll(es[1..])[i - 1]);
      }
    }
  }

  lemma UnaryRuleRefines(op: string, c: Word)
    ensures op == "-" ==> Refines(Unary(op, Const(c)), Const(Add(Not(c), 1)))
    ensures op == "^" ==> Refines(Unary(op, Const(c)), Const(Not(c)))
  {
    NegationByComplement(c);
    hide Add, Neg, Not;
    forall env
      ensures Eval(Unary(op, Const(c)), env) == EvalUnary(op, c)
    {
      assert Eval(Const(c), env) == Some(c);
    }
  }

  // ---------------------------------------------------------------- heap steps

  /** A fresh node without children can be added. */
  lemma AddLeaf(h: Heap, n: Value)
    requires Closed(h) && n !in h && n.args == []
    ensures Closed(h[n := Links(null, null)])
    ensures Preserves(h, h[n := Links(null, null)]) && KeepsSimple(h, h[n := Links(null, null)])
    ensures forall x: Value {:trigger Tree(h, x)} :: x in h ==> Tree(h[n := Links(null, null)], x) == Tree(h, x)
  {
    AddNode(h, n, Links(null, null));
  }

  /** Rewiring a child to its replacement. */
  lemma RewireChild(h: Heap, v: Value, links: Links)
    requires Closed(h) && v in h && (v.kind == KOp || v.kind == KUnary)
    requires Replaces(h, h[v].left, links.left) && Replaces(h, h[v].right, links.right)
    requires links.left == h[v].left || !Simple(Tree(h, h[v].left))
    requires links.right == h[v].right || (v.kind == KOp && !Simple(Tree(h, h[v].right)))
    ensures Closed(h[v := links]) && Preserves(h, h[v := links]) && KeepsSimple(h, h[v := links])
    ensures Tree(h[v := links], links.left) == Tree(h, links.left)
    ensures Tree(h[v := links], links.right) == Tree(h, links.right)
  {
    assert NodeClosed(h, v);
    var h' := h[v := links];
    RewireCloses(h, v, links);
    TreeLocal(h, h', v.rank, links.left);
    TreeLocal(h, h', v.rank, links.right);
    assert NodeClosed(h', v);
    if v.kind == KOp {
      OpRewrites(v.op, Tree(h, h[v].left), Tree(h, h[v].right), Tree(h', links.left), Tree(h', links.right));
    } else {
      UnaryRewrites(v.op, Tree(h, h[v].left), Tree(h', links.left));
    }
    RewirePreserves(h, v, links);
    RewireKeepsSimple(h, v, links);
  }

  /** Swapping the children of a sum. */
  lemma RewireSwap(h: Heap, v: Value)
    requires Closed(h) && v in h && v.kind == KOp && v.op == "+" && !Simple(Tree(h, v))
    requires h[v].left != null && h[v].left.kind == KConst && h[v].right != null
    ensures var links := Links(h[v].right, h[v].left);
            && Closed(h[v := links]) && Preserves(h, h[v := links]) && KeepsSimple(h, h[v := links])
            && (h[v].left != null ==> h[v].left in h) && (h[v].right != null ==> h[v].right in h)
            && Tree(h[v := links], h[v].left) == Tree(h, h[v].left)
            && Tree(h[v := links], h[v].right) == Tree(h, h[v].right)
  {
    assert NodeClosed(h, v);
    var links := Links(h[v].right, h[v].left);
    var h' := h[v := links];
    RewireCloses(h, v, links);
    TreeLocal(h, h', v.rank, h[v].left);
    TreeLocal(h, h', v.rank, h[v].right);
    assert NodeClosed(h', v);
    SwapRefines(Tree(h, h[v].left), Tree(h, h[v].right));
    SwapNormal(h[v].left.constant, Tree(h, h[v].right));
    RewirePreserves(h, v, links);
    RewireKeepsSimple(h, v, links);
  }

  /** A node of the old heap whose rank allows it, that means what a rule produces. */
  lemma RuleReplaces(h: Heap, v: Value, r: Value)
    requires Closed(h) && v in h && v.kind == KOp && r in h && r.rank <= v.rank
    requires Below(h, h[v].left, v.rank) && Below(h, h[v].right, v.rank)
    requires OpRule(v.op, Tree(h, h[v].left), Tree(h, h[v].right), Tree(h, r))
    ensures Replaces(h, v, r)
  {
    OpRuleRefines(v.op, Tree(h, h[v].left), Tree(h, h[v].right), Tree(h, r));
    OpRuleNormal(v.op, Tree(h, h[v].left), Tree(h, h[v].right), Tree(h, r));
  }

  // ---------------------------------------------------------------- the simplifier

  ghost predicate ClosedSet(nodes: set<Value>)
    reads nodes
  {
    Closed(Snap(nodes))
  }

  lemma ComposeSimplified(h: Heap, h1: Heap, h2: Heap, low: int, rank: int)
    requires Closed(h) && Simplified(h, h1, low) && Simplified(h1, h2, rank) && low <= rank
    ensures Simplified(h, h2, rank)
  {
    PreservesTransitive(h, h1, h2);
    KeepsSimpleTransitive(h, h1, h2);
    forall x: Value | x in h && x.rank > rank
      ensures x in h2 && h2[x] == h[x]
    {
      assert x in h1 && h1[x] == h[x];
    }
  }

  /** A fresh constant that a rule produces. */
  lemma ConstantReplaces(h: Heap, v: Value, n: Value)
    requires Closed(h) && v in h && v.kind == KOp
    requires Below(h, h[v].left, v.rank) && Below(h, h[v].right, v.rank)
    requires n !in h && n.kind == KConst && n.args == [] && n.rank == 0
    requires OpRule(v.op, Tree(h, h[v].left), Tree(h, h[v].right), Const(n.constant))
    ensures var h' := h[n := Links(null, null)];
            Simplified(h, h', v.rank) && Replaces(h', v, n)
  {
    AddLeaf(h, n);
    var h' := h[n := Links(null, null)];
    assert h'[v] == h[v];
    hide OpRule;
    RuleReplaces(h', v, n);
  }

  /** A child that a rule produces. */
  lemma ChildReplaces(h: Heap, v: Value, c: Value)
    requires Closed(h) && v in h && v.kind == KOp && (c == h[v].left || c == h[v].right)
    requires Below(h, h[v].left, v.rank) && Below(h, h[v].right, v.rank)
    requires OpRule(v.op, Tree(h, h[v].left), Tree(h, h[v].right), Tree(h, c))
    ensures Replaces(h, v, c)
  {
    hide OpRule;
    RuleReplaces(h, v, c);
  }

  lemma NothingSimplified(h: Heap, v: Value, rank: int)
    requires Closed(h) && v in h
    ensures Simplified(h, h, rank) && Replaces(h, v, v)
  {
  }

  /** The children of a binary node, as expressions. */
  lemma ChildTrees(h: Heap, v: Value)
    requires Closed(h) && v in h
    ensures Below(h, h[v].left, v.rank) && Below(h, h[v].right, v.rank)
    ensures h[v].left != null ==> ConstOrReg(h[v].left, Tree(h, h[v].left))
    ensures h[v].right != null ==> ConstOrReg(h[v].right, Tree(h, h[v].right))
  {
    assert NodeClosed(h, v);
  }

  predicate ConstOrReg(x: Value, e: Expr) {
    && !e.Missing?
    && (e.Const? <==> x.kind == KConst) && (x.kind == KConst ==> e == Const(x.constant))
    && (e.Reg? <==> x.kind == KReg) && (x.kind == KReg ==> e == Reg(x.reg))
  }

  /** Both children of a binary node are there and simple. */
  ghost predicate SimpleChildren(h: Heap, v: Value)
    requires Closed(h) && v in h
  {
    assert NodeClosed(h, v);
    && v.kind == KOp && h[v].left != null && h[v].right != null
    && Simple(Tree(h, h[v].left)) && Simple(Tree(h, h[v].right))
  }

  /** A node that no rule fits is simple. */
  lemma NoRuleFits(h: Heap, v: Value)
    requires Closed(h) && v in h && SimpleChildren(h, v)
    requires Below(h, h[v].left, v.rank) && Below(h, h[v].right, v.rank)
    ensures Finished(h, v, v) <==> !Reducible(v.op, Tree(h, h[v].left), Tree(h, h[v].right))
  {
    hide Reducible;
  }

  /** A simple expression that a fitting rule produced. */
  lemma RuleFinishes(h: Heap, v: Value, r: Value)
    requires Closed(h) && v in h && SimpleChildren(h, v) && r in h
    requires Below(h, h[v].left, v.rank) && Below(h, h[v].right, v.rank)
    requires Reducible(v.op, Tree(h, h[v].left), Tree(h, h[v].right))
    requires r == h[v].left || r == h[v].right || r.kind == KConst
    ensures Finished(h, v, r)
  {
    hide Reducible;
  }

  /** The rules for a sum: a constant goes to the right, a zero disappears. */
  method ApplySumRules(v: Value, ghost nodes: set<Value>) returns (r: Value)
    requires ClosedSet(nodes) && v in nodes && SimpleChildren(Snap(nodes), v) && v.op == "+"
    modifies v
    ensures Simplified(old(Snap(nodes)), Snap(nodes), v.rank)
    ensures Replaces(Snap(nodes), v, r)
    ensures old(v.left.kind == KConst && v.right.kind == KConst) || Finished(Snap(nodes), v, r)
  {
    ghost var h0 := Snap(nodes);
    ChildTrees(h0, v);
    NothingSimplified(h0, v, v.rank);
    if v.left.kind == KConst {
      RewireSwap(h0, v);
      v.left, v.right := v.right, v.left;
      assert Snap(nodes) == h0[v := Links(h0[v].right, h0[v].left)];
    }
    ghost var h := Snap(nodes);
    ChildTrees(h, v);
    assert SimpleChildren(h, v);
    NoRuleFits(h, v);
    hide Closed, Preserves, Rewrites, KeepsSimple, Finished, SimpleChildren, Simplified, EvalOp;
    if v.left.kind == KConst && v.left.constant == 0 {
      ChildReplaces(h, v, v.right);
      RuleFinishes(h, v, v.right);
      return v.right;
    }
    if v.right.kind == KConst && v.right.constant == 0 {
      ChildReplaces(h, v, v.left);
      RuleFinishes(h, v, v.left);
      return v.left;
    }
    NothingSimplified(h, v, v.rank);
    return v;
  }

  /** Replace a node by the constant zero that a rule produces. */
  method ReplaceByZero(v: Value, ghost nodes: set<Value>) returns (r: Value, ghost nodes': set<Value>)
    requires ClosedSet(nodes) && v in nodes && SimpleChildren(Snap(nodes), v)
    requires Below(Snap(nodes), v.left, v.rank) && Below(Snap(nodes), v.right, v.rank)
    requires Reducible(v.op, Tree(Snap(nodes), v.left), Tree(Snap(nodes), v.right))
    requires OpRule(v.op, Tree(Snap(nodes), v.left), Tree(Snap(nodes), v.right), Const(0))
    ensures nodes <= nodes' && fresh(nodes' - nodes)
    ensures Simplified(old(Snap(nodes)), Snap(nodes'), v.rank)
    ensures Replaces(Snap(nodes'), v, r) && Finished(Snap(nodes'), v, r)
  {
    assert v.kind == KOp;
    hide Reducible, OpRule, Simplified, Replaces, Finished, SimpleChildren, Simple, Eval;
    ghost var h := Snap(nodes);
    r := ConstValue(0);
    ConstantReplaces(h, v, r);
    ConstantFinishes(h, v, r);
    nodes' := nodes + {r};
    assert Snap(nodes') == h[r := Links(null, null)];
  }

  lemma ConstantFinishes(h: Heap, v: Value, n: Value)
    requires Closed(h) && v in h && SimpleChildren(h, v)
    requires Below(h, h[v].left, v.rank) && Below(h, h[v].right, v.rank)
    requires n !in h && n.kind == KConst && n.args == [] && n.rank == 0
    requires Reducible(v.op, Tree(h, h[v].left), Tree(h, h[v].right))
    ensures var h' := h[n := Links(null, null)];
            Closed(h') && Finished(h', v, n)
  {
    AddLeaf(h, n);
    hide Reducible;
    var h' := h[n := Links(null, null)];
    assert h'[v] == h[v];
    RuleFinishes(h', v, n);
  }

  /** Fold a node over two constants; null when the operation has no value. */
  method FoldConstants(v: Value, ghost nodes: set<Value>) returns (r: Value?, ghost nodes': set<Value>)
    requires ClosedSet(nodes) && v in nodes && SimpleChildren(Snap(nodes), v)
    requires v.left.kind == KConst && v.right.kind == KConst
    ensures nodes <= nodes' && fresh(nodes' - nodes)
    ensures r == null <==> EvalOp(v.op, v.left.constant, v.right.constant).None?
    ensures r == null ==> nodes' == nodes
    ensures r != null ==>
              && Simplified(old(Snap(nodes)), Snap(nodes'), v.rank)
              && Replaces(Snap(nodes'), v, r) && Finished(Snap(nodes'), v, r)
  {
    nodes' := nodes;
    ghost var h := Snap(nodes);
    ChildTrees(h, v);
    hide EvalOp;
    r := EvalConstBinOp(v.op, v.left.constant, v.right.constant);
    if r != null {
      ConstantReplaces(h, v, r);
      ConstantFinishes(h, v, r);
      nodes' := nodes + {r};
      assert Snap(nodes') == h[r := Links(null, null)];
    }
  }

  /** The rules for a product. */
  method ApplyProductRules(v: Value, ghost nodes: set<Value>) returns (r: Value, ghost nodes': set<Value>)
    requires ClosedSet(nodes) && v in nodes && SimpleChildren(Snap(nodes), v) && v.op == "*"
    requires !(v.left.kind == KConst && v.right.kind == KConst)
    ensures nodes <= nodes' && fresh(nodes' - nodes)
    ensures Simplified(old(Snap(nodes)), Snap(nodes'), v.rank)
    ensures Replaces(Snap(nodes'), v, r) && Finished(Snap(nodes'), v, r)
  {
    nodes' := nodes;
    ghost var h := Snap(nodes);
    assert v.left != null && v.right != null;
    ChildTrees(h, v);
    hide Closed, Preserves, Rewrites, KeepsSimple, Finished, SimpleChildren, Simplified;
    NothingSimplified(h, v, v.rank);
    NoRuleFits(h, v);
    if v.right.kind == KConst && v.right.constant == 1 {
      ChildReplaces(h, v, v.left);
      RuleFinishes(h, v, v.left);
      return v.left, nodes;
    }
    if v.left.kind == KConst && v.left.constant == 1 {
      ChildReplaces(h, v, v.right);
      RuleFinishes(h, v, v.right);
      return v.right, nodes;
    }
    if v.right.kind == KConst && v.right.constant == 0 {
      r, nodes' := ReplaceByZero(v, nodes);
      return r, nodes';
    }
    return v, nodes;
  }

  /** The root rules, tried in order on a binary node whose children are simplified. */
  method ApplyRules(v: Value, ghost nodes: set<Value>) returns (r: Value, ghost nodes': set<Value>)
    requires ClosedSet(nodes) && v in nodes && SimpleChildren(Snap(nodes), v)
    modifies v
    ensures nodes <= nodes' && fresh(nodes' - nodes)
    ensures Simplified(old(Snap(nodes)), Snap(nodes'), v.rank)
    ensures Replaces(Snap(nodes'), v, r) && Finished(Snap(nodes'), v, r)
  {
    nodes' := nodes;
    ghost var h := Snap(nodes);
    assert v.left != null && v.right != null && v.kind == KOp;
    ChildTrees(h, v);
    NothingSimplified(h, v, v.rank);
    NoRuleFits(h, v);
    hide Closed, Preserves, Rewrites, KeepsSimple, EvalOp, Simplified, Replaces, NodeClosed, Finished, SimpleChildren;
    if v.left.kind == KConst && v.right.kind == KConst {
      var folded: Value?;
      folded, nodes' := FoldConstants(v, nodes);
      if folded != null {
        return folded, nodes';
      }
    }
    if v.op == "^" && v.left.kind == KReg && v.right.kind == KReg && v.left.reg == v.right.reg {
      r, nodes' := ReplaceByZero(v, nodes);
      return r, nodes';
    }
    if v.op == "-" && v.left.kind == KReg && v.right.kind == KReg && v.left.reg == v.right.reg {
      r, nodes' := ReplaceByZero(v, nodes);
      return r, nodes';
    }
    if v.op == "+" {
      r := ApplySumRules(v, nodes);
      return r, nodes;
    }
    if v.op == "*" {
      r, nodes' := ApplyProductRules(v, nodes);
      return r, nodes';
    }
    return v, nodes;
  }

  /** In `h'` node `r` stands for the normal form of what `v` stood for in `h`, up to arguments, and
      exactly when there are none. */
  ghost predicate Computes(h: Heap, h': Heap, v: Value?, r: Value?)
    requires Closed(h) && Closed(h') && (v != null ==> v in h) && (r != null ==> r in h')
  {
    && Skeleton(Tree(h', r)) == Skeleton(Normal(Tree(h, v)))
    && (Bare(Tree(h, v)) ==> Tree(h', r) == Normal(Tree(h, v)))
  }

  lemma ResultIsNormal(h: Heap, h': Heap, v: Value?, r: Value?, rank: int)
    requires Closed(h) && (v != null ==> v in h)
    requires Simplified(h, h', rank) && Replaces(h', v, r) && Finished(h', v, r)
    ensures Computes(h, h', v, r)
  {
    hide Rewrites, KeepsSimple;
    if v == null {
      SimpleIsNormal(Missing, Missing) by {
        RewritesSelf(Missing);
      }
    } else {
      assert v in h' && Rewrites(Tree(h, v), Tree(h', v));
      RewritesTransitive(Tree(h, v), Tree(h', v), Tree(h', r));
      hide Preserves;
      SimpleIsNormal(Tree(h, v), Tree(h', r));
    }
  }

  /** Simplify a value: children first, in place, then the rules at the root. Every node of the
      closed set keeps its meaning and its normal form, the result stands for the normal form of the
      value, no rule is left to apply to it, and what was simple already is left alone. */
  method SimplifyValue(v: Value?, ghost nodes: set<Value>) returns (r: Value?, ghost nodes': set<Value>)
    requires ClosedSet(nodes) && (v != null ==> v in nodes)
    modifies nodes
    ensures nodes <= nodes' && fresh(nodes' - nodes)
    ensures Simplified(old(Snap(nodes)), Snap(nodes'), Rank(v))
    ensures Replaces(Snap(nodes'), v, r) && Finished(Snap(nodes'), v, r)
    ensures Computes(old(Snap(nodes)), Snap(nodes'), v, r)
    decreases Rank(v), 2
  {
    nodes' := nodes;
    ghost var h := Snap(nodes);
    r := v;
    hide Computes;
    if v == null {
      NothingHappened(h, -1);
      ResultIsNormal(h, h, null, null, -1);
      return;
    }
    ChildTrees(h, v);
    match v.kind {
      case KOp =>
        r, nodes' := SimplifyBinary(v, nodes);
      case KUnary =>
        ghost var n1 := SimplifyLeft(v, nodes);
        hide Simplified, Preserves, KeepsSimple, Rewrites;
        r, nodes' := ApplyUnaryRules(v, n1);
        ComposeSimplified(h, Snap(n1), Snap(nodes'), v.rank, v.rank);
      case _ =>
        NothingSimplified(h, v, v.rank);
    }
    ResultIsNormal(h, Snap(nodes'), v, r, v.rank);
  }

  method SimplifyBinary(v: Value, ghost nodes: set<Value>) returns (r: Value, ghost nodes': set<Value>)
    requires ClosedSet(nodes) && v in nodes && v.kind == KOp
    modifies nodes
    ensures nodes <= nodes' && fresh(nodes' - nodes)
    ensures Simplified(old(Snap(nodes)), Snap(nodes'), v.rank)
    ensures Replaces(Snap(nodes'), v, r) && Finished(Snap(nodes'), v, r)
    decreases v.rank, 1
  {
    hide Preserves, KeepsSimple, Rewrites, NamesShrink, Eval, Simple;
    ghost var h := Snap(nodes);
    ghost var n1 := SimplifyLeft(v, nodes);
    ghost var h1 := Snap(n1);
    ghost var n2 := SimplifyRight(v, n1);
    ghost var h2 := Snap(n2);
    ComposeSimplified(h, h1, h2, v.rank, v.rank);
    hide Simplified, Preserves, KeepsSimple, Rewrites;
    if v.left != null && v.right != null {
      r, nodes' := ApplyRules(v, n2);
      ComposeSimplified(h, h2, Snap(nodes'), v.rank, v.rank);
      return r, nodes';
    }
    HalfEmptyIsFinished(h2, v);
    return v, n2;
  }

  lemma HalfEmptyIsFinished(h: Heap, v: Value)
    requires Closed(h) && v in h && v.kind == KOp && (h[v].left == null || h[v].right == null)
    requires Below(h, h[v].left, v.rank) && Below(h, h[v].right, v.rank)
    requires Simple(Tree(h, h[v].left)) && Simple(Tree(h, h[v].right))
    ensures Replaces(h, v, v) && Finished(h, v, v)
  {
    NothingSimplified(h, v, v.rank);
    hide EvalOp;
  }

  /** The rules for a negation or complement of a constant. */
  method ApplyUnaryRules(v: Value, ghost nodes: set<Value>) returns (r: Value, ghost nodes': set<Value>)
    requires ClosedSet(nodes) && v in nodes && v.kind == KUnary
    requires Below(Snap(nodes), v.left, v.rank) && Simple(Tree(Snap(nodes), v.left))
    ensures nodes <= nodes' && fresh(nodes' - nodes)
    ensures Simplified(old(Snap(nodes)), Snap(nodes'), v.rank)
    ensures Replaces(Snap(nodes'), v, r) && Finished(Snap(nodes'), v, r)
  {
    ghost var h := Snap(nodes);
    ChildTrees(h, v);
    NothingSimplified(h, v, v.rank);
    if v.left != null && v.left.kind == KConst {
      if v.op == "-" {
        r, nodes' := ReplaceUnary(v, Add(Not(v.left.constant), 1), nodes);
        return r, nodes';
      }
      if v.op == "^" {
        r, nodes' := ReplaceUnary(v, Not(v.left.constant), nodes);
        return r, nodes';
      }
    }
    return v, nodes;
  }

  lemma NothingHappened(h: Heap, rank: int)
    requires Closed(h)
    ensures Simplified(h, h, rank) && Replaces(h, null, null)
  {
  }

  /** A unary node over a constant, replaced by the constant it stands for. */
  method ReplaceUnary(v: Value, c: Word, ghost nodes: set<Value>) returns (r: Value, ghost nodes': set<Value>)
    requires ClosedSet(nodes) && v in nodes && v.kind == KUnary
    requires v.left != null && v.left.kind == KConst
    requires (v.op == "-" && c == Add(Not(v.left.constant), 1)) || (v.op == "^" && c == Not(v.left.constant))
    ensures nodes <= nodes' && fresh(nodes' - nodes)
    ensures Simplified(old(Snap(nodes)), Snap(nodes'), v.rank)
    ensures Replaces(Snap(nodes'), v, r) && Finished(Snap(nodes'), v, r)
  {
    ghost var h := Snap(nodes);
    ChildTrees(h, v);
    r := ConstValue(c);
    AddLeaf(h, r);
    nodes' := nodes + {r};
    assert Snap(nodes') == h[r := Links(null, null)];
    UnaryRuleRefines(v.op, v.left.constant);
    UnaryRuleNormal(v.op, v.left.constant);
    assert Tree(Snap(nodes'), v) == Tree(h, v);
  }

  /** Simplify the left child in place. */
  method SimplifyLeft(v: Value, ghost nodes: set<Value>) returns (ghost nodes': set<Value>)
    requires ClosedSet(nodes) && v in nodes && (v.kind == KOp || v.kind == KUnary)
    modifies nodes
    ensures nodes <= nodes' && fresh(nodes' - nodes)
    ensures Simplified(old(Snap(nodes)), Snap(nodes'), v.rank)
    ensures v.right == old(v.right)
    ensures Below(Snap(nodes'), v.left, v.rank) && Simple(Tree(Snap(nodes'), v.left))
    decreases v.rank, 0
  {
    hide Rewrites, NamesShrink, Eval, Computes;
    ghost var h := Snap(nodes);
    ChildTrees(h, v);
    var l: Value?;
    l, nodes' := SimplifyValue(v.left, nodes);
    ghost var h1 := Snap(nodes');
    LeftRewired(h, h1, v, l);
    v.left := l;
    assert Snap(nodes') == h1[v := Links(l, v.right)];
  }

  lemma LeftRewired(h: Heap, h1: Heap, v: Value, l: Value?)
    requires Closed(h) && v in h && (v.kind == KOp || v.kind == KUnary)
    requires Simplified(h, h1, Rank(h[v].left))
    requires Replaces(h1, h[v].left, l) && Finished(h1, h[v].left, l)
    ensures v in h1 && h1[v] == h[v]
    ensures var h2 := h1[v := Links(l, h1[v].right)];
            Simplified(h, h2, v.rank) && Below(h2, l, v.rank) && Simple(Tree(h2, l))
  {
    assert NodeClosed(h, v);
    AboveUntouched(h, h1, Rank(h[v].left), v);
    ChildTrees(h1, v);
    RewritesSelf(Tree(h1, h1[v].right));
    hide Simplified, Rewrites, Preserves, KeepsSimple;
    assert Closed(h1);
    RewireChild(h1, v, Links(l, h1[v].right));
    RewiredOne(h1, v, Links(l, h1[v].right));
    ComposeSimplified(h, h1, h1[v := Links(l, h1[v].right)], Rank(h[v].left), v.rank);
  }

  /** Simplify the right child in place. */
  method SimplifyRight(v: Value, ghost nodes: set<Value>) returns (ghost nodes': set<Value>)
    requires ClosedSet(nodes) && v in nodes && v.kind == KOp
    requires Below(Snap(nodes), v.left, v.rank) && Simple(Tree(Snap(nodes), v.left))
    modifies nodes
    ensures nodes <= nodes' && fresh(nodes' - nodes)
    ensures Simplified(old(Snap(nodes)), Snap(nodes'), v.rank)
    ensures v.left == old(v.left)
    ensures Below(Snap(nodes'), v.left, v.rank) && Simple(Tree(Snap(nodes'), v.left))
    ensures Below(Snap(nodes'), v.right, v.rank) && Simple(Tree(Snap(nodes'), v.right))
    decreases v.rank, 0
  {
    hide Rewrites, NamesShrink, Eval, Computes;
    ghost var h := Snap(nodes);
    ChildTrees(h, v);
    var x: Value?;
    x, nodes' := SimplifyValue(v.right, nodes);
    ghost var h1 := Snap(nodes');
    RightRewired(h, h1, v, x);
    v.right := x;
    assert Snap(nodes') == h1[v := Links(v.left, x)];
  }

  lemma RightRewired(h: Heap, h1: Heap, v: Value, x: Value?)
    requires Closed(h) && v in h && v.kind == KOp
    requires Below(h, h[v].left, v.rank) && Simple(Tree(h, h[v].left))
    requires Simplified(h, h1, Rank(h[v].right))
    requires Replaces(h1, h[v].right, x) && Finished(h1, h[v].right, x)
    ensures v in h1 && h1[v] == h[v]
    ensures var h2 := h1[v := Links(h1[v].left, x)];
            && Simplified(h, h2, v.rank) && Below(h2, x, v.rank) && Simple(Tree(h2, x))
            && Below(h2, h1[v].left, v.rank) && Simple(Tree(h2, h1[v].left))
  {
    assert NodeClosed(h, v);
    AboveUntouched(h, h1, Rank(h[v].right), v);
    ChildTrees(h1, v);
    StaysSimple(h, h1, Rank(h[v].right), h[v].left);
    RewritesSelf(Tree(h1, h1[v].left));
    hide Simplified, Rewrites, Preserves, KeepsSimple;
    assert Closed(h1);
    RewireChild(h1, v, Links(h1[v].left, x));
    RewiredOne(h1, v, Links(h1[v].left, x));
    ComposeSimplified(h, h1, h1[v := Links(h1[v].left, x)], Rank(h[v].right), v.rank);
  }

  lemma StaysSimple(h: Heap, h': Heap, rank: int, x: Value?)
    requires Closed(h) && Simplified(h, h', rank)
    requires x != null ==> x in h
    requires Simple(Tree(h, x))
    ensures x != null ==> x in h'
    ensures Simple(Tree(h', x))
  {
    if x != null {
      assert x in h' && Skeleton(Tree(h', x)) == Skeleton(Tree(h, x));
      SimpleIsAboutSkeleton(Tree(h, x));
      SimpleIsAboutSkeleton(Tree(h', x));
    }
  }

  lemma AboveUntouched(h: Heap, h': Heap, rank: int, v: Value)
    requires Closed(h) && Simplified(h, h', rank) && v in h && v.rank > rank
    ensures v in h' && h'[v] == h[v]
  {
    assert v in h' by {
      assert Rewrites(Tree(h, v), Tree(h', v));
    }
  }

  lemma RewiredOne(h: Heap, v: Value, links: Links)
    requires Closed(h) && v in h && Closed(h[v := links]) && Preserves(h, h[v := links])
             && KeepsSimple(h, h[v := links])
    ensures Simplified(h, h[v := links], v.rank)
  {
  }
}

/** What a value node means: expression trees over 64-bit words, with loads, addresses, symbols and
    calls left uninterpreted, and the order "defined wherever the other is, with the same word". */
module Exprs {
  import opened Text
  import opened Operands
  import opened Shifts
  import opened Words

  /** The uninterpreted operations. */
  datatype Head = LoadHead(mem: MemRef) | AddrHead(mem: MemRef) | SymHead(name: string) | CallHead(func: string)

  datatype Expr =
    | Missing
    | Unknown
    | Const(c: Word)
    | Reg(name: string)
    | Op(op: string, left: Expr, right: Expr)
    | Unary(op: string, arg: Expr)
    | Apply(head: Head, args: seq<Expr>)

  /** What the names stand for, and what the uninterpreted operations do. */
  datatype Env = Env(reg: string -> Option<Word>, apply: (Head, seq<Word>) -> Word)

  /** Unsigned 64-bit arithmetic; division by zero and unknown operators have no value. */
  function EvalOp(op: string, a: Word, b: Word): Option<Word> {
    if op == "+" then Some(Add(a, b))
    else if op == "-" then Some(Sub(a, b))
    else if op == "*" then Some(Mul(a, b))
    else if op == "/" then if b != 0 then Some(Div(a, b)) else None
    else if op == "&" then Some(And(a, b))
    else if op == "|" then Some(Or(a, b))
    else if op == "^" then Some(Xor(a, b))
    else if op == "<<" then Some(Shl(a, b))
    else if op == ">>" then Some(Shr(a, b))
    else None
  }

  function EvalUnary(op: string, a: Word): Option<Word> {
    if op == "-" then Some(Neg(a))
    else if op == "^" then Some(Not(a))
    else None
  }

  function Eval(e: Expr, env: Env): Option<Word> {
    match e
    case Missing => None
    case Unknown => None
    case Const(c) => Some(c)
    case Reg(name) => env.reg(name)
    case Op(op, l, r) =>
      var a, b := Eval(l, env), Eval(r, env);
      if a.Some? && b.Some? then EvalOp(op, a.value, b.value) else None
    case Unary(op, x) =>
      var a := Eval(x, env);
      if a.Some? then EvalUnary(op, a.value) else None
    case Apply(head, args) =>
      var ws := EvalAll(args, env);
      if ws.Some? then Some(env.apply(head, ws.value)) else None
  }

  function EvalAll(es: seq<Expr>, env: Env): Option<seq<Word>> {
    if es == [] then Some([])
    else
      var first := Eval(es[0], env);
      var rest := EvalAll(es[1..], env);
      if first.Some? && rest.Some? then Some([first.value] + rest.value) else None
  }

  // ---------------------------------------------------------------- names

  /** The names an expression's value may depend on. */
  function Names(e: Expr): set<string> {
    match e
    case Reg(name) => {name}
    case Op(_, l, r) => Names(l) + Names(r)
    case Unary(_, x) => Names(x)
    case Apply(_, args) => AllNames(args)
    case _ => {}
  }

  function AllNames(es: seq<Expr>): set<string> {
    if es == [] then {} else Names(es[0]) + AllNames(es[1..])
  }

  /** The names met below an operation other than a binary one or a call. */
  function HiddenNames(e: Expr): set<string> {
    match e
    case Op(_, l, r) => HiddenNames(l) + HiddenNames(r)
    case Unary(_, x) => Names(x)
    case Apply(head, args) => if head.CallHead? then AllHiddenNames(args) else AllNames(args)
    case _ => {}
  }

  function AllHiddenNames(es: seq<Expr>): set<string> {
    if es == [] then {} else HiddenNames(es[0]) + AllHiddenNames(es[1..])
  }

  /** `f` depends on nothing that `e` does not depend on, and hides nothing that `e` does not hide. */
  predicate NamesShrink(e: Expr, f: Expr) {
    Names(f) <= Names(e) && HiddenNames(f) <= HiddenNames(e)
  }

  // ---------------------------------------------------------------- refinement

  predicate SameWhereDefined<T(==)>(a: Option<T>, b: Option<T>) {
    a.Some? ==> b == a
  }

  /** Wherever `e` has a value, `f` has the same one, and depends on no other names. */
  ghost predicate Refines(e: Expr, f: Expr) {
    && NamesShrink(e, f)
    && forall env {:trigger Eval(e, env)} {:trigger Eval(f, env)} :: SameWhereDefined(Eval(e, env), Eval(f, env))
  }

  ghost predicate AllRefine(es: seq<Expr>, fs: seq<Expr>) {
    |es| == |fs| && forall i {:trigger es[i]} {:trigger fs[i]} :: 0 <= i < |es| ==> Refines(es[i], fs[i])
  }

  lemma RefinesTransitive(e: Expr, f: Expr, g: Expr)
    requires Refines(e, f) && Refines(f, g)
    ensures Refines(e, g)
  {
    forall env
      ensures SameWhereDefined(Eval(e, env), Eval(g, env))
    {
      assert SameWhereDefined(Eval(e, env), Eval(f, env));
    }
  }

  lemma RefinesSelf(e: Expr)
    ensures Refines(e, e)
  {
  }

  lemma AllRefineSelf(es: seq<Expr>)
    ensures AllRefine(es, es)
  {
    forall i | 0 <= i < |es|
      ensures Refines(es[i], es[i])
    {
      RefinesSelf(es[i]);
    }
  }

  lemma AllRefineTransitive(es: seq<Expr>, fs: seq<Expr>, gs: seq<Expr>)
    requires AllRefine(es, fs) && AllRefine(fs, gs)
    ensures AllRefine(es, gs)
  {
    forall i | 0 <= i < |es|
      ensures Refines(es[i], gs[i])
    {
      assert Refines(es[i], fs[i]) && Refines(fs[i], gs[i]);
      RefinesTransitive(es[i], fs[i], gs[i]);
    }
  }

  lemma OpCongruence(op: string, l: Expr, r: Expr, l': Expr, r': Expr)
    requires Refines(l, l') && Refines(r, r')
    ensures Refines(Op(op, l, r), Op(op, l', r'))
  {
    forall env
      ensures SameWhereDefined(Eval(Op(op, l, r), env), Eval(Op(op, l', r'), env))
    {
      assert SameWhereDefined(Eval(l, env), Eval(l', env)) && SameWhereDefined(Eval(r, env), Eval(r', env));
    }
  }

  lemma UnaryCongruence(op: string, x: Expr, x': Expr)
    requires Refines(x, x')
    ensures Refines(Unary(op, x), Unary(op, x'))
  {
    forall env
      ensures SameWhereDefined(Eval(Unary(op, x), env), Eval(Unary(op, x'), env))
    {
      assert SameWhereDefined(Eval(x, env), Eval(x', env));
    }
  }

  lemma {:induction false} EvalAllCongruence(es: seq<Expr>, fs: seq<Expr>, env: Env)
    requires AllRefine(es, fs)
    ensures SameWhereDefined(EvalAll(es, env), EvalAll(fs, env))
    decreases |es|
  {
    if es != [] {
      assert Refines(es[0], fs[0]);
      assert SameWhereDefined(Eval(es[0], env), Eval(fs[0], env));
      forall i | 0 <= i < |es| - 1
        ensures Refines(es[1..][i], fs[1..][i])
      {
        assert Refines(es[i + 1], fs[i + 1]);
      }
      EvalAllCongruence(es[1..], fs[1..], env);
    }
  }

  lemma {:induction false} AllNamesShrink(es: seq<Expr>, fs: seq<Expr>)
    requires AllRefine(es, fs)
    ensures AllNames(fs) <= AllNames(es) && AllHiddenNames(fs) <= AllHiddenNames(es)
    decreases |es|
  {
    if es != [] {
      assert Refines(es[0], fs[0]);
      forall i | 0 <= i < |es| - 1
        ensures Refines(es[1..][i], fs[1..][i])
      {
        assert Refines(es[i + 1], fs[i + 1]);
      }
      AllNamesShrink(es[1..], fs[1..]);
    }
  }

  lemma ApplyCongruence(head: Head, es: seq<Expr>, fs: seq<Expr>)
    requires AllRefine(es, fs)
    ensures Refines(Apply(head, es), Apply(head, fs))
  {
    AllNamesShrink(es, fs);
    forall env
      ensures SameWhereDefined(Eval(Apply(head, es), env), Eval(Apply(head, fs), env))
    {
      EvalAllCongruence(es, fs, env);
    }
  }

  // ---------------------------------------------------------------- simplified expressions

  /** Some rule applies at the root of a binary expression. */
  predicate Reducible(op: string, l: Expr, r: Expr) {
    && !l.Missing? && !r.Missing?
    && (|| (l.Const? && r.Const? && EvalOp(op, l.c, r.c).Some?)
        || ((op == "^" || op == "-") && l.Reg? && r.Reg? && l.name == r.name)
        || (op == "+" && (l.Const? || r == Const(0)))
        || (op == "*" && (r == Const(1) || l == Const(1) || r == Const(0))))
  }

  predicate ReducibleUnary(op: string, x: Expr) {
    (op == "-" || op == "^") && x.Const?
  }

  /** No rule applies anywhere, looking through binary and unary nodes. */
  predicate Simple(e: Expr) {
    match e
    case Op(op, l, r) => Simple(l) && Simple(r) && !Reducible(op, l, r)
    case Unary(op, x) => Simple(x) && !ReducibleUnary(op, x)
    case _ => true
  }

  /** The part of an expression that the rules look at. */
  function Skeleton(e: Expr): Expr {
    match e
    case Op(op, l, r) => Op(op, Skeleton(l), Skeleton(r))
    case Unary(op, x) => Unary(op, Skeleton(x))
    case Apply(head, _) => Apply(head, [])
    case _ => e
  }

  lemma {:induction false} SimpleIsAboutSkeleton(e: Expr)
    ensures Simple(Skeleton(e)) <==> Simple(e)
  {
    match e
    case Op(op, l, r) =>
      SimpleIsAboutSkeleton(l);
      SimpleIsAboutSkeleton(r);
      assert Reducible(op, Skeleton(l), Skeleton(r)) <==> Reducible(op, l, r);
    case Unary(op, x) =>
      SimpleIsAboutSkeleton(x);
    case _ =>
  }
}

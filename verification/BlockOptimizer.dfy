/** The block optimizer: values simplified in place on the shared heap, then dead stores dropped. */
module BlockOptimizer {
  import opened Text
  import opened Shifts
  import opened Words
  import opened Exprs
  import opened Normals
  import opened Values
  import opened Simplify
  import opened Machine
  import opened BlockAnalysis
  import opened DeadStores

  // ---------------------------------------------------------------- uses

  /** `marked` is `used` with `names` marked as well. */
  ghost predicate Marks(used: map<string, bool>, names: set<string>, marked: map<string, bool>) {
    forall n {:trigger IsMarked(marked, n)} {:trigger n in names} ::
      IsMarked(marked, n) <==> n in names || IsMarked(used, n)
  }

  lemma {:induction false} AllUsesAppend(es: seq<Expr>, e: Expr)
    ensures AllUses(es + [e]) == AllUses(es) + Uses(e)
  {
    if es != [] {
      assert (es + [e])[1..] == es[1..] + [e];
      AllUsesAppend(es[1..], e);
    } else {
      assert [e][1..] == [] && ([] + [e]) == [e];
    }
  }

  lemma {:induction false} AllUsesMember(es: seq<Expr>, i: nat)
    requires i < |es|
    ensures Uses(es[i]) <= AllUses(es)
    decreases i
  {
    if i > 0 {
      AllUsesMember(es[1..], i - 1);
    }
  }

  lemma UsesOfNode(h: Heap, v: Value)
    requires Closed(h) && v in h
    ensures Below(h, h[v].left, v.rank) && Below(h, h[v].right, v.rank)
    ensures forall x :: x in v.args ==> x in h && x.rank < v.rank
    ensures v.kind == KReg ==> Uses(Tree(h, v)) == {v.reg}
    ensures v.kind == KOp ==> Uses(Tree(h, v)) == Uses(Tree(h, h[v].left)) + Uses(Tree(h, h[v].right))
    ensures v.kind == KCall ==> Uses(Tree(h, v)) == AllUses(Trees(h, v, v.args))
    ensures v.kind !in {KReg, KOp, KCall} ==> Uses(Tree(h, v)) == {}
  {
    assert NodeClosed(h, v);
  }

  /** Mark every name a value uses. */
  method CollectUses(v: Value?, used: map<string, bool>, ghost nodes: set<Value>) returns (marked: map<string, bool>)
    requires ClosedSet(nodes) && (v != null ==> v in nodes)
    ensures Marks(used, Uses(Tree(Snap(nodes), v)), marked)
    decreases Rank(v), 1
  {
    marked := used;
    if v == null {
      return;
    }
    UsesOfNode(Snap(nodes), v);
    hide Tree, Uses, Closed;
    match v.kind {
      case KReg =>
        marked := marked[v.reg := true];
      case KOp =>
        marked := CollectUses(v.left, marked, nodes);
        marked := CollectUses(v.right, marked, nodes);
      case KCall =>
        marked := CollectArgs(v, marked, nodes);
      case _ =>
    }
  }

  method CollectArgs(v: Value, used: map<string, bool>, ghost nodes: set<Value>) returns (marked: map<string, bool>)
    requires ClosedSet(nodes) && v in nodes && forall x :: x in v.args ==> x in nodes && x.rank < v.rank
    ensures Marks(used, AllUses(Trees(Snap(nodes), v, v.args)), marked)
    decreases v.rank, 0
  {
    ghost var h := Snap(nodes);
    ghost var es := Trees(h, v, v.args);
    marked := used;
    var i := 0;
    assert es[..0] == [] && AllUses([]) == {};
    hide Tree, Closed, Uses, AllUses, Trees, NodeClosed;
    while i < |v.args|
      invariant 0 <= i <= |v.args|
      invariant Marks(used, AllUses(es[..i]), marked)
    {
      assert es[..i + 1] == es[..i] + [es[i]] && es[i] == Tree(h, v.args[i]);
      AllUsesAppend(es[..i], es[i]);
      marked := CollectUses(v.args[i], marked, nodes);
      i := i + 1;
    }
    assert es[..i] == es;
  }

  /** Whether a value uses a name. */
  method ValueUsesVar(v: Value?, name: string, ghost nodes: set<Value>) returns (b: bool)
    requires ClosedSet(nodes) && (v != null ==> v in nodes)
    ensures b <==> name in Uses(Tree(Snap(nodes), v))
    decreases Rank(v), 1
  {
    b := false;
    if v == null {
      return;
    }
    UsesOfNode(Snap(nodes), v);
    hide Tree, Uses, Closed;
    match v.kind {
      case KReg =>
        b := v.reg == name;
      case KOp =>
        b := ValueUsesVar(v.left, name, nodes);
        if !b {
          b := ValueUsesVar(v.right, name, nodes);
        }
      case KCall =>
        b := ArgsUseVar(v, name, nodes);
      case _ =>
    }
  }

  method ArgsUseVar(v: Value, name: string, ghost nodes: set<Value>) returns (b: bool)
    requires ClosedSet(nodes) && v in nodes && forall x :: x in v.args ==> x in nodes && x.rank < v.rank
    ensures b <==> name in AllUses(Trees(Snap(nodes), v, v.args))
    decreases v.rank, 0
  {
    ghost var h := Snap(nodes);
    ghost var es := Trees(h, v, v.args);
    var i := 0;
    hide Tree, Closed, Uses;
    while i < |v.args|
      invariant 0 <= i <= |v.args|
      invariant name !in AllUses(es[..i])
    {
      assert es[..i + 1] == es[..i] + [es[i]] && es[i] == Tree(h, v.args[i]);
      AllUsesAppend(es[..i], es[i]);
      AllUsesMember(es, i);
      b := ValueUsesVar(v.args[i], name, nodes);
      if b {
        return;
      }
      i := i + 1;
    }
    assert es[..i] == es;
    b := false;
  }

  // ---------------------------------------------------------------- dead stores

  /** First pass: an assignment clears its name, and every collected value marks what it uses. */
  method MarkUses(stmts: seq<Statement>, ghost nodes: set<Value>) returns (used: map<string, bool>)
    requires ClosedSet(nodes) && KnownStmts(Snap(nodes), stmts)
    ensures forall name :: IsMarked(used, name) <==> Marked(StmtExprs(Snap(nodes), stmts), name)
  {
    ghost var ss := StmtExprs(Snap(nodes), stmts);
    used := map[];
    var i := 0;
    while i < |stmts|
      invariant 0 <= i <= |stmts|
      invariant forall name :: IsMarked(used, name) <==> Marked(ss[..i], name)
    {
      var s := stmts[i];
      assert ss[..i + 1][..i] == ss[..i] && ss[i] == StmtExpr(Snap(nodes), s);
      if s.kind == SAssign {
        used := used[s.dst := false];
      }
      if Collected(s.kind) {
        if s.value != null {
          used := CollectUses(s.value, used, nodes);
        }
      }
      i := i + 1;
    }
    assert ss[..i] == ss;
  }

  /** Second pass, backwards: an assignment asks whether its name is read before it is assigned again. */
  method SettleUses(stmts: seq<Statement>, marked: map<string, bool>, ghost nodes: set<Value>)
    returns (used: map<string, bool>)
    requires ClosedSet(nodes) && KnownStmts(Snap(nodes), stmts)
    requires forall name :: IsMarked(marked, name) <==> Marked(StmtExprs(Snap(nodes), stmts), name)
    ensures forall name :: IsMarked(used, name) <==> Settled(StmtExprs(Snap(nodes), stmts), name, 0)
  {
    ghost var ss := StmtExprs(Snap(nodes), stmts);
    used := marked;
    var i := |stmts|;
    while i > 0
      invariant 0 <= i <= |stmts|
      invariant forall name :: IsMarked(used, name) <==> Settled(ss, name, i)
    {
      i := i - 1;
      if stmts[i].kind == SAssign {
        var name := stmts[i].dst;
        ghost var before := used;
        var j := i + 1;
        while j < |stmts|
          invariant i + 1 <= j <= |stmts| && used == before
          invariant Verdict(ss, name, i + 1) == Verdict(ss, name, j)
        {
          if stmts[j].kind == SAssign && stmts[j].dst == name {
            used := used[name := false];
            break;
          }
          var found := ValueUsesVar(stmts[j].value, name, nodes);
          if found {
            used := used[name := true];
            break;
          }
          j := j + 1;
        }
      }
    }
  }

  lemma KeptBySettled(ss: seq<StmtView>, k: nat)
    requires k < |ss| && ss[k].kind == SAssign
    ensures Settled(ss, ss[k].dst, 0) <==> Kept(ss, ss[k].dst)
  {
    assert Assigns(ss[k], ss[k].dst);
    SettledIsKept(ss, ss[k].dst);
  }

  lemma SettledSurvivors(ss: seq<StmtView>, kept: string -> bool)
    requires forall name :: kept(name) <==> Settled(ss, name, 0)
    ensures Survivors(ss, kept) == Survivors(ss, KeptIn(ss))
  {
    forall k | 0 <= k < |ss| && ss[k].kind == SAssign
      ensures kept(ss[k].dst) == KeptIn(ss)(ss[k].dst)
    {
      KeptBySettled(ss, k);
    }
    SameSurvivors(ss, kept, KeptIn(ss));
  }

  lemma OneSurvivor(ss: seq<StmtView>, i: nat, kept: string -> bool)
    requires i < |ss|
    ensures Survivors(ss[..i + 1], kept) == Survivors(ss[..i], kept) + if Dropped(ss[i], kept) then [] else [ss[i]]
  {
    assert ss[..i + 1][..i] == ss[..i];
  }

  lemma ExprsAppend(h: Heap, stmts: seq<Statement>, s: Statement)
    requires Closed(h) && KnownStmts(h, stmts) && KnownStmt(h, s)
    ensures KnownStmts(h, stmts + [s]) && StmtExprs(h, stmts + [s]) == StmtExprs(h, stmts) + [StmtExpr(h, s)]
  {
  }

  /** Third pass: the assignments to unmarked names go, everything else stays, in order. */
  method DropUnmarked(stmts: seq<Statement>, used: map<string, bool>, ghost nodes: set<Value>)
    returns (result: seq<Statement>, ghost pos: seq<nat>)
    requires ClosedSet(nodes) && KnownStmts(Snap(nodes), stmts)
    ensures KnownStmts(Snap(nodes), result)
    ensures StmtExprs(Snap(nodes), result) == Survivors(StmtExprs(Snap(nodes), stmts), name => IsMarked(used, name))
    ensures IsSelection(stmts, result, pos)
    ensures forall k: nat :: k < |stmts| ==> (k in pos <==> stmts[k].kind != SAssign || IsMarked(used, stmts[k].dst))
  {
    hide Closed, Tree, IsSelection;
    ghost var h, kept := Snap(nodes), name => IsMarked(used, name);
    ghost var ss := StmtExprs(h, stmts);
    result, pos := [], [];
    var i := 0;
    assert ss[..0] == [] && StmtExprs(h, []) == [] && stmts[..0] == [];
    NothingSelected(stmts);
    while i < |stmts|
      invariant 0 <= i <= |stmts|
      invariant KnownStmts(h, result) && StmtExprs(h, result) == Survivors(ss[..i], kept)
      invariant IsSelection(stmts[..i], result, pos)
      invariant forall k: nat :: k < i ==> (k in pos <==> stmts[k].kind != SAssign || IsMarked(used, stmts[k].dst))
    {
      hide Survivors, KnownStmt, IsMarked;
      assert ss[i] == StmtExpr(h, stmts[i]) && KnownStmt(h, stmts[i]);
      OneSurvivor(ss, i, kept);
      ExprsAppend(h, result, stmts[i]);
      SelectMore(stmts[..i], stmts[i], result, pos);
      assert stmts[..i + 1] == stmts[..i] + [stmts[i]];
      if !(stmts[i].kind == SAssign && !IsMarked(used, stmts[i].dst)) {
        result := result + [stmts[i]];
        pos := pos + [i];
      }
      i := i + 1;
    }
    assert ss[..i] == ss && stmts[..i] == stmts;
  }

  /** Drop the assignments to names that are not kept; everything else stays, in order. The result is
      the statements at the positions `pos`. */
  method EliminateDeadStores(stmts: seq<Statement>, ghost nodes: set<Value>)
    returns (result: seq<Statement>, ghost pos: seq<nat>)
    requires ClosedSet(nodes) && KnownStmts(Snap(nodes), stmts)
    ensures KnownStmts(Snap(nodes), result)
    ensures IsSelection(stmts, result, pos)
    ensures var ss := StmtExprs(Snap(nodes), stmts);
            && StmtExprs(Snap(nodes), result) == Survivors(ss, KeptIn(ss))
            && forall k: nat :: k < |stmts| ==> (k in pos <==> stmts[k].kind != SAssign || Kept(ss, stmts[k].dst))
  {
    hide Closed, Tree, Kept, Settled, IsSelection, IsMarked, Survivors;
    ghost var h := Snap(nodes);
    ghost var ss := StmtExprs(h, stmts);
    var used := MarkUses(stmts, nodes);
    used := SettleUses(stmts, used, nodes);
    result, pos := DropUnmarked(stmts, used, nodes);
    SettledSurvivors(ss, name => IsMarked(used, name));
    forall k: nat | k < |stmts| && stmts[k].kind == SAssign
      ensures IsMarked(used, stmts[k].dst) <==> Kept(ss, stmts[k].dst)
    {
      assert ss[k] == StmtExpr(h, stmts[k]);
      KeptBySettled(ss, k);
    }
  }

  lemma NothingSelected(stmts: seq<Statement>)
    ensures IsSelection(stmts[..0], [], [])
  {
  }

  // ---------------------------------------------------------------- the optimizer

  /** The statements whose values are simplified. */
  predicate IsSimplified(kind: StatementKind) {
    kind == SAssign || kind == SReturn || kind == SStore || HasArguments(kind)
  }

  /** The statements whose arguments are simplified as well. */
  predicate HasArguments(kind: StatementKind) {
    kind == SCall || kind == SExpr
  }

  /** What simplifying may replace in a statement: its value unless it is a jump, and the arguments of a
      call or an expression. */
  predicate TouchesOnly(s: Statement, t: Statement) {
    && t == s.(value := t.value, args := t.args)
    && (s.kind == SIf || s.kind == SGoto ==> t == s)
    && (s.kind == SAssign || s.kind == SReturn || s.kind == SStore ==> t.args == s.args)
    && |t.args| == |s.args|
  }

  ghost predicate AllSimple(es: seq<Expr>) {
    forall i {:trigger es[i]} :: 0 <= i < |es| ==> Simple(es[i])
  }

  /** No rule is left in the value of anything but a jump, nor in the arguments of a call or an
      expression. */
  ghost predicate StmtSimple(s: StmtView) {
    && (s.kind != SIf && s.kind != SGoto ==> Simple(s.value))
    && (s.kind == SCall || s.kind == SExpr ==> AllSimple(s.args))
  }

  ghost predicate ValuesSimple(ss: seq<StmtView>) {
    forall i {:trigger ss[i]} :: 0 <= i < |ss| ==> StmtSimple(ss[i])
  }

  /** The same statement with rewritten values. */
  ghost predicate StmtRewrites(s: StmtView, t: StmtView) {
    t == s.(value := t.value, args := t.args) && Rewrites(s.value, t.value) && AllRewrite(s.args, t.args)
  }

  ghost predicate StmtsRewrite(ss: seq<StmtView>, ts: seq<StmtView>) {
    |ss| == |ts| && forall i {:trigger ss[i]} {:trigger ts[i]} :: 0 <= i < |ss| ==> StmtRewrites(ss[i], ts[i])
  }

  lemma StmtRewritesSelf(s: StmtView)
    ensures StmtRewrites(s, s)
  {
    RewritesSelf(s.value);
    AllRewriteSelf(s.args);
  }

  lemma StmtRewritesTransitive(s: StmtView, t: StmtView, u: StmtView)
    requires StmtRewrites(s, t) && StmtRewrites(t, u)
    ensures StmtRewrites(s, u)
  {
    RewritesTransitive(s.value, t.value, u.value);
    AllRewriteTransitive(s.args, t.args, u.args);
  }

  lemma RewrittenRefines(ss: seq<StmtView>, ts: seq<StmtView>)
    requires StmtsRewrite(ss, ts)
    ensures StmtsRefine(ss, ts)
  {
    hide Refines, AllRewrite, AllRefine;
    forall i | 0 <= i < |ss|
      ensures StmtRefines(ss[i], ts[i])
    {
      assert StmtRewrites(ss[i], ts[i]);
      AllRewriteRefines(ss[i].args, ts[i].args);
      AllRefineSelf(ss[i].cond);
    }
  }

  /** Meanings are kept, and so is what is simple already. */
  ghost predicate Improves(h: Heap, h': Heap) {
    Closed(h) && Closed(h') && Preserves(h, h') && KeepsSimple(h, h')
  }

  lemma ImprovesTransitive(h: Heap, h': Heap, h'': Heap)
    requires Improves(h, h') && Improves(h', h'')
    ensures Improves(h, h'')
  {
    PreservesTransitive(h, h', h'');
    KeepsSimpleTransitive(h, h', h'');
  }

  lemma ImprovesSelf(h: Heap)
    requires Closed(h)
    ensures Improves(h, h)
  {
    NothingHappened(h, -1);
  }

  lemma RewrittenAt(h: Heap, h': Heap, x: Value?)
    requires Closed(h) && Closed(h') && Preserves(h, h') && Known(h, x)
    ensures Known(h', x) && Rewrites(Tree(h, x), Tree(h', x))
  {
    if x == null {
      RewritesSelf(Missing);
    } else {
      assert x in h && Rewrites(Tree(h, x), Tree(h', x));
    }
  }

  /** A simple value stays simple and means at least what it meant. */
  lemma ImprovedAt(h: Heap, h': Heap, x: Value?)
    requires Improves(h, h') && Known(h, x)
    ensures Known(h', x) && Rewrites(Tree(h, x), Tree(h', x))
    ensures Simple(Tree(h, x)) ==> Simple(Tree(h', x))
  {
    RewrittenAt(h, h', x);
    if x != null && Simple(Tree(h, x)) {
      assert Skeleton(Tree(h', x)) == Skeleton(Tree(h, x));
      SimpleIsAboutSkeleton(Tree(h, x));
      SimpleIsAboutSkeleton(Tree(h', x));
    }
  }

  lemma AllImproved(h: Heap, h': Heap, vs: seq<Value?>)
    requires Improves(h, h') && AllKnown(h, vs)
    ensures AllKnown(h', vs) && AllRewrite(AllExprs(h, vs), AllExprs(h', vs))
    ensures AllSimple(AllExprs(h, vs)) ==> AllSimple(AllExprs(h', vs))
  {
    forall i | 0 <= i < |vs|
      ensures Known(h', vs[i]) && Rewrites(Tree(h, vs[i]), Tree(h', vs[i]))
      ensures AllSimple(AllExprs(h, vs)) ==> Simple(Tree(h', vs[i]))
    {
      ImprovedAt(h, h', vs[i]);
      assert AllSimple(AllExprs(h, vs)) ==> Simple(AllExprs(h, vs)[i]);
    }
    hide Improves, Rewrites, Simple;
  }

  lemma StmtImproved(h: Heap, h': Heap, s: Statement)
    requires Improves(h, h') && KnownStmt(h, s)
    ensures KnownStmt(h', s) && StmtRewrites(StmtExpr(h, s), StmtExpr(h', s))
    ensures StmtSimple(StmtExpr(h, s)) ==> StmtSimple(StmtExpr(h', s))
  {
    ImprovedAt(h, h', s.value);
    AllImproved(h, h', s.args);
    hide Improves, Rewrites, Simple, AllRewrite, AllSimple, AllExprs;
  }

  /** One value simplified, or left as it is. */
  method SimplifyOne(v: Value?, ghost nodes: set<Value>) returns (r: Value?, ghost nodes': set<Value>)
    requires ClosedSet(nodes) && Known(Snap(nodes), v)
    modifies nodes
    ensures nodes <= nodes' && fresh(nodes' - nodes) && Improves(old(Snap(nodes)), Snap(nodes'))
    ensures Known(Snap(nodes'), r) && Simple(Tree(Snap(nodes'), r))
    ensures Rewrites(old(Tree(Snap(nodes), v)), Tree(Snap(nodes'), r))
  {
    ghost var h := Snap(nodes);
    r, nodes' := SimplifyValue(v, nodes);
    RewrittenAt(h, Snap(nodes'), v);
    hide Rewrites, Preserves, KeepsSimple, Simple;
    RewritesTransitive(Tree(h, v), Tree(Snap(nodes'), v), Tree(Snap(nodes'), r));
  }

  /** The first `n` arguments are simplified versions, the rest are as they were. */
  ghost predicate ArgsSoFar(h: Heap, h': Heap, vs: seq<Value?>, rs: seq<Value?>, n: nat)
    requires Closed(h) && Closed(h') && AllKnown(h, vs)
  {
    && |rs| == |vs| && AllKnown(h', rs) && n <= |vs|
    && forall i {:trigger rs[i]} :: 0 <= i < |vs| ==>
         Rewrites(Tree(h, vs[i]), Tree(h', rs[i])) && if i < n then Simple(Tree(h', rs[i])) else rs[i] == vs[i]
  }

  lemma ArgsOneMore(h0: Heap, h: Heap, h': Heap, vs: seq<Value?>, rs: seq<Value?>, n: nat, r: Value?)
    requires Closed(h0) && AllKnown(h0, vs) && Closed(h) && ArgsSoFar(h0, h, vs, rs, n) && n < |vs|
    requires Improves(h, h') && Known(h', r) && Simple(Tree(h', r)) && Rewrites(Tree(h, rs[n]), Tree(h', r))
    ensures ArgsSoFar(h0, h', vs, rs[n := r], n + 1)
  {
    forall i | 0 <= i < |vs|
      ensures Known(h', rs[n := r][i]) && Rewrites(Tree(h0, vs[i]), Tree(h', rs[n := r][i]))
      ensures i <= n ==> Simple(Tree(h', rs[n := r][i]))
    {
      assert Rewrites(Tree(h0, vs[i]), Tree(h, rs[i]));
      if i == n {
        assert rs[i] == vs[i];
        RewritesTransitive(Tree(h0, vs[i]), Tree(h, vs[i]), Tree(h', r));
      } else {
        ImprovedAt(h, h', rs[i]);
        RewritesTransitive(Tree(h0, vs[i]), Tree(h, rs[i]), Tree(h', rs[i]));
      }
    }
    hide Improves, Rewrites, Simple;
  }

  /** Every argument simplified in turn, in its place. */
  method SimplifyArgs(args: seq<Value?>, ghost nodes: set<Value>) returns (rs: seq<Value?>, ghost nodes': set<Value>)
    requires ClosedSet(nodes) && AllKnown(Snap(nodes), args)
    modifies nodes
    ensures nodes <= nodes' && fresh(nodes' - nodes) && Improves(old(Snap(nodes)), Snap(nodes'))
    ensures AllKnown(Snap(nodes'), rs) && AllSimple(AllExprs(Snap(nodes'), rs))
    ensures AllRewrite(old(AllExprs(Snap(nodes), args)), AllExprs(Snap(nodes'), rs))
  {
    ghost var h0 := Snap(nodes);
    rs, nodes' := args, nodes;
    ImprovesSelf(h0);
    ArgsStart(h0, args);
    var i := 0;
    while i < |args|
      invariant 0 <= i <= |args| && nodes <= nodes' && fresh(nodes' - nodes)
      invariant Improves(h0, Snap(nodes')) && ArgsSoFar(h0, Snap(nodes'), args, rs, i)
    {
      ghost var h := Snap(nodes');
      assert Known(h, rs[i]) && rs[i] == args[i];
      var r;
      r, nodes' := SimplifyOne(rs[i], nodes');
      ImprovesTransitive(h0, h, Snap(nodes'));
      ArgsOneMore(h0, h, Snap(nodes'), args, rs, i, r);
      rs := rs[i := r];
      i := i + 1;
    }
    ArgsDone(h0, Snap(nodes'), args, rs);
  }

  lemma ArgsStart(h: Heap, vs: seq<Value?>)
    requires Closed(h) && AllKnown(h, vs)
    ensures ArgsSoFar(h, h, vs, vs, 0)
  {
    forall i | 0 <= i < |vs|
      ensures Rewrites(Tree(h, vs[i]), Tree(h, vs[i]))
    {
      RewritesSelf(Tree(h, vs[i]));
    }
    hide Rewrites;
  }

  lemma ArgsDone(h: Heap, h': Heap, vs: seq<Value?>, rs: seq<Value?>)
    requires Closed(h) && Closed(h') && AllKnown(h, vs) && ArgsSoFar(h, h', vs, rs, |vs|)
    ensures AllSimple(AllExprs(h', rs)) && AllRewrite(AllExprs(h, vs), AllExprs(h', rs))
  {
    hide Rewrites, Simple;
    forall i | 0 <= i < |vs|
      ensures Simple(AllExprs(h', rs)[i]) && Rewrites(AllExprs(h, vs)[i], AllExprs(h', rs)[i])
    {
      assert Rewrites(Tree(h, vs[i]), Tree(h', rs[i]));
    }
  }

  /** One statement: its value, and for calls and expressions its arguments. */
  method SimplifyStatement(s: Statement, ghost nodes: set<Value>) returns (t: Statement, ghost nodes': set<Value>)
    requires ClosedSet(nodes) && KnownStmt(Snap(nodes), s)
    modifies nodes
    ensures nodes <= nodes' && fresh(nodes' - nodes) && Improves(old(Snap(nodes)), Snap(nodes'))
    ensures KnownStmt(Snap(nodes'), t) && StmtSimple(StmtExpr(Snap(nodes'), t))
    ensures StmtRewrites(old(StmtExpr(Snap(nodes), s)), StmtExpr(Snap(nodes'), t)) && TouchesOnly(s, t)
  {
    ghost var h := Snap(nodes);
    t, nodes' := s, nodes;
    ImprovesSelf(h);
    StmtRewritesSelf(StmtExpr(h, s));
    if !IsSimplified(s.kind) {
      return;
    }
    if s.value != null {
      var v;
      v, nodes' := SimplifyOne(s.value, nodes);
      t := s.(value := v);
      AllImproved(h, Snap(nodes'), s.args);
    }
    ghost var h1 := Snap(nodes');
    hide Rewrites, AllRewrite, AllSimple, AllExprs, Simple;
    if HasArguments(s.kind) {
      var args;
      args, nodes' := SimplifyArgs(t.args, nodes');
      ImprovesTransitive(h, h1, Snap(nodes'));
      ImprovedAt(h1, Snap(nodes'), t.value);
      RewritesTransitive(Tree(h, s.value), Tree(h1, t.value), Tree(Snap(nodes'), t.value));
      AllRewriteTransitive(AllExprs(h, s.args), AllExprs(h1, s.args), AllExprs(Snap(nodes'), args));
      t := t.(args := args);
    }
  }

  /** One more statement simplified: the earlier ones still mean what they meant, and stay simple. */
  lemma SimplifiedOneMore(h0: Heap, h: Heap, h': Heap, before: seq<StmtView>, done: seq<Statement>, s: Statement,
                          t: Statement)
    requires Improves(h0, h) && Improves(h, h') && KnownStmt(h0, s)
    requires KnownStmts(h, done) && StmtsRewrite(before, StmtExprs(h, done)) && ValuesSimple(StmtExprs(h, done))
    requires KnownStmt(h, s) && KnownStmt(h', t) && StmtSimple(StmtExpr(h', t))
    requires StmtRewrites(StmtExpr(h, s), StmtExpr(h', t))
    ensures KnownStmts(h', done + [t])
    ensures StmtsRewrite(before + [StmtExpr(h0, s)], StmtExprs(h', done + [t]))
    ensures ValuesSimple(StmtExprs(h', done + [t]))
  {
    var ts := StmtExprs(h, done);
    forall i | 0 <= i < |done|
      ensures KnownStmt(h', done[i])
      ensures StmtRewrites(before[i], StmtExpr(h', done[i])) && StmtSimple(StmtExpr(h', done[i]))
    {
      assert ts[i] == StmtExpr(h, done[i]) && StmtRewrites(before[i], ts[i]) && StmtSimple(ts[i]);
      StmtImproved(h, h', done[i]);
      StmtRewritesTransitive(before[i], ts[i], StmtExpr(h', done[i]));
    }
    StmtImproved(h0, h, s);
    StmtRewritesTransitive(StmtExpr(h0, s), StmtExpr(h, s), StmtExpr(h', t));
    hide StmtRewrites, StmtSimple, Improves, KnownStmt;
  }

  /** Every statement simplified, in order. */
  method SimplifyAll(stmts: seq<Statement>, ghost nodes: set<Value>)
    returns (result: seq<Statement>, ghost nodes': set<Value>)
    requires ClosedSet(nodes) && KnownStmts(Snap(nodes), stmts)
    modifies nodes
    ensures nodes <= nodes' && fresh(nodes' - nodes) && Improves(old(Snap(nodes)), Snap(nodes'))
    ensures KnownStmts(Snap(nodes'), result) && ValuesSimple(StmtExprs(Snap(nodes'), result))
    ensures StmtsRewrite(old(StmtExprs(Snap(nodes), stmts)), StmtExprs(Snap(nodes'), result))
    ensures |result| == |stmts| && forall k {:trigger result[k]} :: 0 <= k < |stmts| ==>
              TouchesOnly(stmts[k], result[k])
  {
    ghost var h0 := Snap(nodes);
    ghost var ss := StmtExprs(h0, stmts);
    nodes' := nodes;
    result := [];
    ImprovesSelf(h0);
    var i := 0;
    while i < |stmts|
      invariant 0 <= i <= |stmts| == |ss|
      invariant nodes <= nodes' && fresh(nodes' - nodes)
      invariant Improves(h0, Snap(nodes')) && KnownStmts(Snap(nodes'), result)
      invariant StmtsRewrite(ss[..i], StmtExprs(Snap(nodes'), result)) && ValuesSimple(StmtExprs(Snap(nodes'), result))
      invariant |result| == i && forall k {:trigger result[k]} :: 0 <= k < i ==> TouchesOnly(stmts[k], result[k])
    {
      hide Improves, StmtsRewrite, ValuesSimple, StmtRewrites, StmtSimple, TouchesOnly;
      ghost var h := Snap(nodes');
      assert KnownStmt(h0, stmts[i]);
      StmtImproved(h0, h, stmts[i]);
      var t;
      t, nodes' := SimplifyStatement(stmts[i], nodes');
      SimplifiedOneMore(h0, h, Snap(nodes'), ss[..i], result, stmts[i], t);
      ImprovesTransitive(h0, h, Snap(nodes'));
      result := result + [t];
      assert ss[..i + 1] == ss[..i] + [StmtExpr(h0, stmts[i])];
      i := i + 1;
    }
    assert ss[..i] == ss;
  }

  // ---------------------------------------------------------------- the optimizer as a function

  /** What simplification makes of a statement. */
  function NormalStmt(s: StmtView): StmtView {
    if HasArguments(s.kind) then s.(value := Normal(s.value), args := NormalAll(s.args))
    else if IsSimplified(s.kind) then s.(value := Normal(s.value))
    else s
  }

  function NormalStmts(ss: seq<StmtView>): (ts: seq<StmtView>)
    ensures |ts| == |ss|
  {
    seq(|ss|, i requires 0 <= i < |ss| => NormalStmt(ss[i]))
  }

  /** A statement as the analyzer builds them: no call has arguments inside a value, jumps have no value,
      and only calls and expressions have arguments. */
  ghost predicate Ordinary(s: StmtView) {
    && Bare(s.value) && (forall i {:trigger s.args[i]} :: 0 <= i < |s.args| ==> Bare(s.args[i]))
    && (!IsSimplified(s.kind) ==> s.value == Missing)
    && (!HasArguments(s.kind) ==> s.args == [])
  }

  lemma SimplifiedIsNormal(s: StmtView, t: StmtView)
    requires Ordinary(s) && StmtRewrites(s, t) && StmtSimple(t)
    ensures t == NormalStmt(s)
  {
    hide Rewrites, Simple, Normal;
    if IsSimplified(s.kind) {
      SimpleIsNormal(s.value, t.value);
    } else {
      assert Normal(t.value) == Normal(Missing) by {
        MissingStays(s.value, t.value);
      }
      NormalMissing(t.value);
      NormalMissing(Missing);
    }
    NormalEach(s.args);
    forall i | 0 <= i < |s.args|
      ensures t.args[i] == NormalAll(s.args)[i]
    {
      assert Rewrites(s.args[i], t.args[i]) && Simple(t.args[i]);
      SimpleIsNormal(s.args[i], t.args[i]);
    }
  }

  lemma MissingStays(e: Expr, f: Expr)
    requires Rewrites(e, f)
    ensures Normal(f) == Normal(e)
  {
  }

  lemma AllSimplifiedAreNormal(ss: seq<StmtView>, ts: seq<StmtView>)
    requires StmtsRewrite(ss, ts) && ValuesSimple(ts)
    requires forall i {:trigger ss[i]} :: 0 <= i < |ss| ==> Ordinary(ss[i])
    ensures ts == NormalStmts(ss)
  {
    forall i | 0 <= i < |ss|
      ensures ts[i] == NormalStmts(ss)[i]
    {
      assert StmtRewrites(ss[i], ts[i]) && StmtSimple(ts[i]);
      SimplifiedIsNormal(ss[i], ts[i]);
    }
  }

  /** The names dropped are those of the simplified statements: simplifying can take away the only read
      that counts. */
  const CANCELLED := [Plain(SAssign, "x", Const(5)), Plain(SAssign, "y", Op("-", Reg("x"), Reg("x"))),
                      Plain(SReturn, "", Unary("-", Reg("x")))]

  const CLEARED := [Plain(SAssign, "x", Const(5)), Plain(SAssign, "y", Const(0)),
                    Plain(SReturn, "", Unary("-", Reg("x")))]

  lemma CancelledNormal()
    ensures NormalStmts(CANCELLED) == CLEARED
  {
    SelfRuleNormal("-", "x");
    NormalOfConstant(0);
    NormalOfConstant(5);
    NegatedRegisterIsNormal("x");
    hide Normal, EvalOp, Add, Sub, Mul, Div, And, Or, Xor, Shl, Shr;
    assert forall i | 0 <= i < 3 :: NormalStmt(CANCELLED[i]) == CLEARED[i];
  }

  lemma CancelledHasNoStaleRead()
    ensures NoStaleRead(CANCELLED, KeptIn(CANCELLED))
  {
    assert NextAssign(CANCELLED, "x", 0) == 0 && NextAssign(CANCELLED, "x", 1) == 3;
    assert Reads(CANCELLED[1], "x");
    assert Kept(CANCELLED, "x");
    forall k | 0 <= k < 3
      ensures StmtNames(CANCELLED[k]) !! Stale(CANCELLED[..k], KeptIn(CANCELLED))
    {
      assert StmtNames(CANCELLED[k]) <= {"x"};
      hide StmtNames, Kept;
    }
  }

  lemma ClearedHasStaleRead()
    ensures !NoStaleRead(CLEARED, KeptIn(CLEARED))
  {
    assert NextAssign(CLEARED, "x", 0) == 0 && NextAssign(CLEARED, "x", 1) == 3;
    assert !Kept(CLEARED, "x");
    hide Kept;
    assert CLEARED[..2][0] == CLEARED[0];
    assert "x" in Stale(CLEARED[..2], KeptIn(CLEARED)) && "x" in StmtNames(CLEARED[2]);
  }

  lemma SimplifyingLosesRead()
    ensures NoStaleRead(CANCELLED, KeptIn(CANCELLED))
    ensures !NoStaleRead(NormalStmts(CANCELLED), KeptIn(NormalStmts(CANCELLED)))
  {
    CancelledNormal();
    CancelledHasNoStaleRead();
    ClearedHasStaleRead();
    hide *;
  }

  /** The caller's statements afterwards: they share their argument lists with the simplified ones. */
  ghost function WithArgsOf(stmts: seq<Statement>, simplified: seq<Statement>): seq<Statement>
    requires |simplified| == |stmts|
  {
    seq(|stmts|, i requires 0 <= i < |stmts| => stmts[i].(args := simplified[i].args))
  }

  lemma SharedArguments(h: Heap, h': Heap, stmts: seq<Statement>, simplified: seq<Statement>)
    requires Improves(h, h') && KnownStmts(h, stmts) && KnownStmts(h', simplified)
    requires StmtsRewrite(StmtExprs(h, stmts), StmtExprs(h', simplified))
    ensures |simplified| == |stmts| && KnownStmts(h', WithArgsOf(stmts, simplified))
    ensures StmtsRewrite(StmtExprs(h, stmts), StmtExprs(h', WithArgsOf(stmts, simplified)))
  {
    var ss, ts, shared := StmtExprs(h, stmts), StmtExprs(h', simplified), WithArgsOf(stmts, simplified);
    forall i | 0 <= i < |stmts|
      ensures KnownStmt(h', shared[i]) && StmtRewrites(ss[i], StmtExpr(h', shared[i]))
    {
      assert KnownStmt(h, stmts[i]) && KnownStmt(h', simplified[i]) && StmtRewrites(ss[i], ts[i]);
      ImprovedAt(h, h', stmts[i].value);
    }
    hide StmtRewrites, KnownStmt, Improves;
  }

  lemma RewrittenBehaves(ss: seq<StmtView>, ts: seq<StmtView>)
    requires StmtsRewrite(ss, ts)
    ensures ValuesSimple(ts) && (forall i {:trigger ss[i]} :: 0 <= i < |ss| ==> Ordinary(ss[i])) ==>
              ts == NormalStmts(ss)
    ensures NoStaleRead(ts, KeptIn(ts)) ==>
              forall env :: TraceRefines(Trace(ss, env), Trace(Survivors(ts, KeptIn(ts)), env))
    ensures SingleAssignment(ss) && PlainReads(ss) ==> NoStaleRead(ts, KeptIn(ts))
  {
    RewrittenRefines(ss, ts);
    if ValuesSimple(ts) && forall i {:trigger ss[i]} :: 0 <= i < |ss| ==> Ordinary(ss[i]) {
      AllSimplifiedAreNormal(ss, ts);
    }
    hide StmtsRewrite, ValuesSimple, NoStaleRead, SingleAssignment, PlainReads, Kept, Ordinary, StmtsRefine, Trace,
      TraceRefines, Survivors, NormalStmt;
    if NoStaleRead(ts, KeptIn(ts)) {
      forall env
        ensures TraceRefines(Trace(ss, env), Trace(Survivors(ts, KeptIn(ts)), env))
      {
        OptimizedBehaves(ss, ts, KeptIn(ts), env);
      }
    }
    if SingleAssignment(ss) && PlainReads(ss) {
      RefinedStaysPlain(ss, ts);
      SingleAssignmentHasNoStaleRead(ts);
    }
  }

  lemma AllSameKind(stmts: seq<Statement>, simplified: seq<Statement>)
    requires |simplified| == |stmts|
    requires forall k {:trigger simplified[k]} :: 0 <= k < |stmts| ==> TouchesOnly(stmts[k], simplified[k])
    ensures forall k {:trigger simplified[k]} :: 0 <= k < |stmts| ==>
              simplified[k].kind == stmts[k].kind && simplified[k].dst == stmts[k].dst
  {
  }

  /** Simplify every value in place, then drop dead stores. The statements that are left are the
      survivors of a statement list that means at least what the input meant, and is its simplification
      when the statements are ordinary; every value on the heap keeps its meaning; and when no name is
      read after an assignment to it was dropped, which single assignment and plain reads ensure, the
      events are the same with at least the values they had, from every starting environment. The
      result holds the statements of `simplified` at the positions `pos`, in order: all but the dropped
      assignments. The input statements become `shared`: the same, with the arguments of their
      simplifications. */
  method OptimizeBlock(stmts: seq<Statement>, ghost nodes: set<Value>)
    returns (result: seq<Statement>, ghost nodes': set<Value>, ghost ts: seq<StmtView>, ghost shared: seq<Statement>,
             ghost simplified: seq<Statement>, ghost pos: seq<nat>)
    requires ClosedSet(nodes) && KnownStmts(Snap(nodes), stmts)
    modifies nodes
    ensures nodes <= nodes' && fresh(nodes' - nodes) && ClosedSet(nodes')
    ensures |simplified| == |stmts| && forall k {:trigger simplified[k]} :: 0 <= k < |stmts| ==>
              TouchesOnly(stmts[k], simplified[k])
    ensures KnownStmts(Snap(nodes'), simplified) && StmtExprs(Snap(nodes'), simplified) == ts
    ensures IsSelection(simplified, result, pos)
    ensures forall k: nat :: k < |stmts| ==> (k in pos <==> stmts[k].kind != SAssign || Kept(ts, stmts[k].dst))
    ensures KnownStmts(Snap(nodes'), shared)
    ensures StmtsRewrite(old(StmtExprs(Snap(nodes), stmts)), StmtExprs(Snap(nodes'), shared))
    ensures |ts| == |simplified| == |stmts| && shared == WithArgsOf(stmts, simplified)
    ensures Preserves(old(Snap(nodes)), Snap(nodes')) && KnownStmts(Snap(nodes'), result)
    ensures StmtsRewrite(old(StmtExprs(Snap(nodes), stmts)), ts) && ValuesSimple(ts)
    ensures StmtExprs(Snap(nodes'), result) == Survivors(ts, KeptIn(ts))
    ensures var ss := old(StmtExprs(Snap(nodes), stmts));
            (forall i {:trigger ss[i]} :: 0 <= i < |ss| ==> Ordinary(ss[i])) ==> ts == NormalStmts(ss)
    ensures NoStaleRead(ts, KeptIn(ts)) ==>
              forall env :: TraceRefines(Trace(old(StmtExprs(Snap(nodes), stmts)), env),
                                         Trace(StmtExprs(Snap(nodes'), result), env))
    ensures var ss := old(StmtExprs(Snap(nodes), stmts));
            SingleAssignment(ss) && PlainReads(ss) ==> NoStaleRead(ts, KeptIn(ts))
  {
    ghost var ss := StmtExprs(Snap(nodes), stmts);
    nodes' := nodes;
    if |stmts| == 0 {
      result, ts, shared, simplified, pos := stmts, [], WithArgsOf([], []), [], [];
      return;
    }
    ghost var h := Snap(nodes);
    result, nodes' := SimplifyAll(stmts, nodes);
    simplified := result;
    AllSameKind(stmts, simplified);
    SharedArguments(h, Snap(nodes'), stmts, result);
    shared := WithArgsOf(stmts, result);
    hide Rewrites, StmtsRewrite, Preserves, KeepsSimple, ValuesSimple, NoStaleRead, SingleAssignment, PlainReads,
      Kept, Ordinary, NormalStmt, StmtsRefine, TouchesOnly, Trace, TraceRefines, Survivors, IsSelection, WithArgsOf;
    ts := StmtExprs(Snap(nodes'), result);
    result, pos := EliminateDeadStores(result, nodes');
    RewrittenBehaves(ss, ts);
  }
}

/** When the table the closing pass leaves behind is the table of immediate dominators. */
module DominatorTables {
  import opened FlowGraphs
  import opened DfsTrees
  import opened Semidominators
  import opened LinkForests
  import opened SemiLoops
  import opened ClosingPasses

  /** Every discovered block except the entry has its immediate dominator in the table. */
  ghost predicate TableIsRight(g: FlowGraph, t: DfsTree, semi: seq<int>, pre: seq<int>)
    requires Prepared(g, t, semi, pre)
  {
    forall v {:trigger pre[v]} :: t.Reached(v) && v != 0 ==> IsImmediateDominator(g, Final(g, t, semi, pre, v), v)
  }

  /** The guard of the closing pass leaves the entry of `v` alone. */
  predicate Spared(semi: seq<int>, pre: seq<int>, v: int)
    requires 0 <= v < |semi| == |pre| && 0 <= semi[v] < |semi|
  {
    pre[v] == semi[semi[v]]
  }

  /** Nothing but the entry block was found to dominate anything, and the guard of the closing
      pass spares exactly the entries that name the entry block. */
  ghost predicate OnlyEntryDominates(g: FlowGraph, t: DfsTree, semi: seq<int>, pre: seq<int>)
    requires Prepared(g, t, semi, pre)
  {
    forall v {:trigger pre[v]} :: t.Reached(v) && v != 0 && g.HasVertex(semi[v]) ==>
      && (pre[v] == semi[v] ==> semi[v] == 0)
      && (Spared(semi, pre, v) <==> pre[v] == 0)
  }

  lemma EntryDominates(g: FlowGraph, v: int)
    ensures Dominates(g, 0, v)
  {
  }

  lemma OnlyEntryAboveEntry(g: FlowGraph, d: int)
    requires g.Valid() && Dominates(g, d, 0)
    ensures d == 0
  {
    assert PathBetween(g, 0, 0, [0]);
  }

  lemma EntryIsOnlyChoice(g: FlowGraph, e: int, v: int)
    requires g.Valid() && IsImmediateDominator(g, 0, v) && IsImmediateDominator(g, e, v)
    ensures e == 0
  {
    OnlyEntryAboveEntry(g, e);
  }

  /** A dominator that is not the entry is the semidominator, and the immediate dominator, of its
      tree child on the way to what it dominates. */
  lemma DominatorHasChild(g: FlowGraph, t: DfsTree, semi: seq<int>, e: int, v: int) returns (c: int)
    requires IsDfsTree(g, t) && |semi| == g.Size() && SemiExact(g, t, semi)
    requires t.Reached(v) && Dominates(g, e, v) && e != v
    ensures t.Reached(c) && c != 0 && semi[c] == e && IsImmediateDominator(g, e, c)
  {
    DominatorIsAncestor(g, t, e, v);
    SameNumberOr(g, t, e, v);
    c := ChildToward(g, t, e, v);
    ParentIsAncestor(g, t, c);
    var down := TreePath(g, t, c, v);
    TreePathIsPath(g, t, c, v);
    forall p | PathBetween(g, 0, c, p)
      ensures e in p
    {
      JoinPaths(g, p, down);
      assert e in p + down[1..];
      assert e !in down;
    }
    assert IsSemi(g, t, semi[c], c);
    SemiIsAncestor(g, t, semi[c], c);
    DominatorsAboveSemi(g, t, semi[c], e, c);
    SameNumber(g, t, semi[c], e);
    forall d | Dominates(g, d, c) && d != c
      ensures Dominates(g, d, e)
    {
      DominatorsReachSemi(g, t, semi[c], d, c);
    }
  }

  /** When no block but the entry is both semidominator and immediate dominator of another, the
      entry is everyone's immediate dominator. */
  lemma EntryIsImmediate(g: FlowGraph, t: DfsTree, semi: seq<int>, pre: seq<int>, v: int)
    requires g.Valid() && Prepared(g, t, semi, pre)
    requires t.Reached(v) && v != 0
    requires forall c {:trigger pre[c]} :: t.Reached(c) && c != 0 && pre[c] == semi[c] ==> semi[c] == 0
    ensures IsImmediateDominator(g, 0, v)
  {
    EntryDominates(g, v);
    forall e | Dominates(g, e, v) && e != v
      ensures Dominates(g, e, 0)
    {
      var c := DominatorHasChild(g, t, semi, e, v);
      PreFinalExactly(g, t, semi, pre, c);
      assert pre[c] == e;
      EntryDominates(g, 0);
    }
  }

  lemma {:induction false} FinalIsEntry(g: FlowGraph, t: DfsTree, semi: seq<int>, pre: seq<int>, v: int)
    requires g.Valid() && Prepared(g, t, semi, pre) && OnlyEntryDominates(g, t, semi, pre)
    requires t.Reached(v) && v != 0
    ensures Final(g, t, semi, pre, v) == 0
    decreases t.num[v]
  {
    PreFinalInRange(g, t, semi, pre, v);
    if pre[v] != 0 {
      FinalIsEntry(g, t, semi, pre, pre[v]);
    }
  }

  lemma RightMeansSemiIsEntry(g: FlowGraph, t: DfsTree, semi: seq<int>, pre: seq<int>, v: int)
    requires g.Valid() && Prepared(g, t, semi, pre) && TableIsRight(g, t, semi, pre)
    requires t.Reached(v) && v != 0 && pre[v] == semi[v]
    ensures semi[v] == 0
  {
    PreFinalInRange(g, t, semi, pre, v);
    PreFinalExactly(g, t, semi, pre, v);
    FinalKeepsSemiExactly(g, t, semi, pre, v);
    var f, s := Final(g, t, semi, pre, v), semi[v];
    assert IsImmediateDominator(g, f, v);
    assert Dominates(g, f, s) && Dominates(g, s, f);
    FinalBelow(g, t, semi, pre, v);
    assert t.Reached(f) by {
      DominatorIsAncestor(g, t, f, v);
    }
    DominatorIsAncestor(g, t, f, s);
    DominatorIsAncestor(g, t, s, f);
    SameNumber(g, t, f, s);
  }

  /** A right table names the entry everywhere, so the guard spares exactly the zeros. */
  lemma RightMeansGuard(g: FlowGraph, t: DfsTree, semi: seq<int>, pre: seq<int>, v: int)
    requires g.Valid() && Prepared(g, t, semi, pre) && TableIsRight(g, t, semi, pre)
    requires t.Reached(v) && v != 0 && g.HasVertex(semi[v])
    requires IsImmediateDominator(g, 0, v)
    ensures Spared(semi, pre, v) <==> pre[v] == 0
  {
    PreFinalInRange(g, t, semi, pre, v);
    assert IsImmediateDominator(g, Final(g, t, semi, pre, v), v);
    EntryIsOnlyChoice(g, Final(g, t, semi, pre, v), v);
    if pre[v] == 0 {
      assert Final(g, t, semi, pre, 0) == -1;
    }
  }

  /** A right table needs a flat dominator tree: no block but the entry dominates another. */
  lemma RightTableIsFlat(g: FlowGraph, t: DfsTree, semi: seq<int>, pre: seq<int>, d: int, v: int)
    requires g.Valid() && Prepared(g, t, semi, pre) && TableIsRight(g, t, semi, pre)
    requires t.Reached(v) && Dominates(g, d, v) && d != v
    ensures d == 0
  {
    if v == 0 {
      OnlyEntryAboveEntry(g, d);
    } else {
      forall c | t.Reached(c) && c != 0 && pre[c] == semi[c]
        ensures semi[c] == 0
      {
        RightMeansSemiIsEntry(g, t, semi, pre, c);
      }
      EntryIsImmediate(g, t, semi, pre, v);
      OnlyEntryAboveEntry(g, d);
    }
  }

  lemma PreparedInRange(g: FlowGraph, t: DfsTree, semi: seq<int>, pre: seq<int>)
    requires Prepared(g, t, semi, pre)
    ensures Sized(g, t) && |semi| == |pre| == g.Size()
  {
  }

  /** The table is right exactly when, before the closing pass, an entry that is the semidominator is
      the entry block, and the guard spares exactly the entries that are the entry block. */
  lemma TableIsRightExactly(g: FlowGraph, t: DfsTree, semi: seq<int>, pre: seq<int>)
    requires g.Valid() && Prepared(g, t, semi, pre)
    ensures TableIsRight(g, t, semi, pre) <==> OnlyEntryDominates(g, t, semi, pre)
  {
    PreparedInRange(g, t, semi, pre);
    hide IsDfsTree, SemiAbove, PreFinal, IsImmediateDominator, Spared, Final;
    if TableIsRight(g, t, semi, pre) {
      forall v | t.Reached(v) && v != 0 && pre[v] == semi[v]
        ensures semi[v] == 0
      {
        RightMeansSemiIsEntry(g, t, semi, pre, v);
      }
      forall v | t.Reached(v) && v != 0 && g.HasVertex(semi[v])
        ensures Spared(semi, pre, v) <==> pre[v] == 0
      {
        EntryIsImmediate(g, t, semi, pre, v);
        RightMeansGuard(g, t, semi, pre, v);
      }
    }
    if OnlyEntryDominates(g, t, semi, pre) {
      forall c | t.Reached(c) && c != 0 && pre[c] == semi[c]
        ensures semi[c] == 0
      {
        PreFinalInRange(g, t, semi, pre, c);
      }
      forall v | t.Reached(v) && v != 0
        ensures IsImmediateDominator(g, Final(g, t, semi, pre, v), v)
      {
        FinalIsEntry(g, t, semi, pre, v);
        EntryIsImmediate(g, t, semi, pre, v);
      }
    }
  }

  // ---------------------------------------------------------------- dominance queries

  /** Every block on the chain from `b` but the entry has its immediate dominator in the table. */
  ghost predicate RightChain(g: FlowGraph, idom: seq<int>, b: int)
    requires IdomTable(idom) && -1 <= b < |idom|
    decreases Depth(idom, b)
  {
    b <= 0 || (IsImmediateDominator(g, idom[b], b) && RightChain(g, idom, idom[b]))
  }

  /** The query answers dominance of `b` by every block. */
  ghost predicate QueryAgrees(g: FlowGraph, idom: seq<int>, b: int)
    requires IdomTable(idom) && -1 <= b < |idom|
  {
    forall a {:trigger OnIdomChain(idom, a, b)} {:trigger Dominates(g, a, b)} :: g.HasVertex(a) ==>
      (OnIdomChain(idom, a, b) <==> Dominates(g, a, b))
  }

  lemma DominatesTransitive(g: FlowGraph, a: int, x: int, b: int)
    requires Dominates(g, a, x) && Dominates(g, x, b)
    ensures Dominates(g, a, b)
  {
    forall p | PathBetween(g, 0, b, p)
      ensures a in p
    {
      var i :| 0 <= i < |p| && p[i] == x;
      SubPath(g, p, 0, i);
      assert a in p[0..i + 1];
    }
  }

  lemma {:induction false} ChainNumbers(t: DfsTree, idom: seq<int>, a: int, b: int)
    requires Descends(idom, t.num) && IdomTable(idom) && 0 <= a < |idom| && 0 <= b < |idom|
    requires OnIdomChain(idom, a, b)
    ensures t.num[a] <= t.num[b]
    decreases Depth(idom, b)
  {
    if a != b {
      ChainNumbers(t, idom, a, idom[b]);
    }
  }

  /** A table that descends in the numbers of the search, as the closing pass leaves it. */
  ghost predicate ClosedTable(g: FlowGraph, t: DfsTree, idom: seq<int>) {
    g.Valid() && IsDfsTree(g, t) && |idom| == g.Size() && Descends(idom, t.num) && IdomTable(idom) && idom[0] == -1
  }

  lemma {:induction false} RightChainAgrees(g: FlowGraph, t: DfsTree, idom: seq<int>, b: int)
    requires ClosedTable(g, t, idom) && t.Reached(b) && RightChain(g, idom, b)
    ensures QueryAgrees(g, idom, b)
    decreases Depth(idom, b)
  {
    SelfDominates(g, b);
    if b == 0 {
      forall a | Dominates(g, a, 0)
        ensures a == 0
      {
        OnlyEntryAboveEntry(g, a);
      }
    } else {
      var x := idom[b];
      if x == -1 {
        DominatorIsAncestor(g, t, x, b);
      }
      RightChainAgrees(g, t, idom, x);
      forall a | g.HasVertex(a)
        ensures OnIdomChain(idom, a, b) <==> Dominates(g, a, b)
      {
        if Dominates(g, a, x) {
          DominatesTransitive(g, a, x, b);
        }
      }
    }
  }

  /** When the query is right for `b`, the table has the immediate dominator of `b` and the query is
      right for that one. */
  lemma AgreeingStep(g: FlowGraph, t: DfsTree, idom: seq<int>, b: int)
    requires ClosedTable(g, t, idom) && t.Reached(b) && b != 0 && QueryAgrees(g, idom, b)
    ensures t.Reached(idom[b]) && IsImmediateDominator(g, idom[b], b) && QueryAgrees(g, idom, idom[b])
  {
    var x := idom[b];
    EntryDominates(g, b);
    assert g.HasVertex(0) && OnIdomChain(idom, 0, b);
    assert OnIdomChain(idom, 0, x);
    assert x >= 0 && OnIdomChain(idom, x, x) && OnIdomChain(idom, x, b);
    assert Dominates(g, x, b);
    DominatorIsAncestor(g, t, x, b);
    forall e | Dominates(g, e, b) && e != b
      ensures Dominates(g, e, x)
    {
      DominatorIsAncestor(g, t, e, b);
      ChainNumbers(t, idom, e, x);
      DominatorsNest(g, t, e, x, b);
    }
    forall a | g.HasVertex(a)
      ensures OnIdomChain(idom, a, x) <==> Dominates(g, a, x)
    {
      if Dominates(g, a, x) {
        DominatorIsAncestor(g, t, a, x);
        DominatesTransitive(g, a, x, b);
        assert OnIdomChain(idom, a, b);
      } else if OnIdomChain(idom, a, x) {
        ChainNumbers(t, idom, a, x);
      }
    }
  }

  /** The dominance query is right for `b`, whichever block is asked about, exactly when the table has
      the immediate dominator of every block on the chain from `b`. */
  lemma {:induction false} QueryIsRightExactly(g: FlowGraph, t: DfsTree, idom: seq<int>, b: int)
    requires ClosedTable(g, t, idom) && t.Reached(b)
    ensures QueryAgrees(g, idom, b) <==> RightChain(g, idom, b)
    decreases Depth(idom, b)
  {
    if RightChain(g, idom, b) {
      RightChainAgrees(g, t, idom, b);
    } else if QueryAgrees(g, idom, b) {
      AgreeingStep(g, t, idom, b);
      QueryIsRightExactly(g, t, idom, idom[b]);
    }
  }

  /** With a right table the query is dominance, for every reached block. */
  lemma {:induction false} RightTableAnswers(g: FlowGraph, t: DfsTree, semi: seq<int>, pre: seq<int>, idom: seq<int>,
                                             b: int)
    requires Prepared(g, t, semi, pre) && ClosedTable(g, t, idom) && TableIsRight(g, t, semi, pre)
    requires forall v {:trigger idom[v]} :: g.HasVertex(v) ==> idom[v] == Final(g, t, semi, pre, v)
    requires t.Reached(b)
    ensures RightChain(g, idom, b) && QueryAgrees(g, idom, b)
    decreases Depth(idom, b)
  {
    if b != 0 {
      assert pre[b] == pre[b] && idom[b] == Final(g, t, semi, pre, b);
      if idom[b] == -1 {
        DominatorIsAncestor(g, t, idom[b], b);
      }
      RightTableAnswers(g, t, semi, pre, idom, idom[b]);
    }
    RightChainAgrees(g, t, idom, b);
  }

  // ---------------------------------------------------------------- the smallest failure

  /** Three blocks in a row. */
  function Chain(): FlowGraph {
    FlowGraph([[1], [2], []], [[], [0], [1]], map[0 := 0, 1 := 1, 2 := 2])
  }

  lemma ChainEdges(u: int, v: int)
    ensures Chain().Edge(u, v) <==> (u == 0 && v == 1) || (u == 1 && v == 2)
  {
    var g := Chain();
    assert g.At(1) == 1 && g.At(2) == 2 && g.At(0) == 0;
    if u == 0 && v == 1 { assert g.At(g.succ[0][0]) == 1; }
    if u == 1 && v == 2 { assert g.At(g.succ[1][0]) == 2; }
  }

  lemma ChainIsValid()
    ensures Chain().Valid()
  {
    var g := Chain();
    forall u, v
      ensures g.Edge(u, v) <==> g.PredEdge(u, v)
    {
      ChainEdges(u, v);
      if u == 0 && v == 1 { assert g.At(g.pred[1][0]) == 0; }
      if u == 1 && v == 2 { assert g.At(g.pred[2][0]) == 1; }
    }
  }

  lemma ChainDominators()
    ensures IsImmediateDominator(Chain(), 0, 1) && IsImmediateDominator(Chain(), 1, 2)
    ensures !IsImmediateDominator(Chain(), 0, 2)
  {
    var g := Chain();
    ChainIsValid();
    ChainEdges(0, 1);
    ChainEdges(1, 2);
    EntryDominates(g, 0);
    EntryDominates(g, 1);
    assert PathBetween(g, 0, 1, [0, 1]);
    assert PathBetween(g, 0, 2, [0, 1, 2]);
    assert !Dominates(g, 1, 0) by {
      assert PathBetween(g, 0, 0, [0]);
    }
    forall p | PathBetween(g, 0, 2, p)
      ensures 1 in p
    {
      ChainEdges(p[|p| - 2], p[|p| - 2 + 1]);
      assert p[|p| - 2] == 1;
    }
    forall p | PathBetween(g, 0, 1, p)
      ensures 1 in p
    {
      assert Last(p) in p;
    }
  }

  /** On the chain, block 1 is the immediate dominator of block 2, and the table ends up with 0. */
  lemma ChainLosesDominator(t: DfsTree, semi: seq<int>, pre: seq<int>)
    requires Prepared(Chain(), t, semi, pre)
    ensures IsImmediateDominator(Chain(), 1, 2) && !IsImmediateDominator(Chain(), 0, 2)
    ensures Final(Chain(), t, semi, pre, 2) == 0
  {
    var g := Chain();
    ChainIsValid();
    ChainDominators();
    ChainEdges(0, 1);
    ChainEdges(1, 2);
    assert IsPath(g, [0, 1, 2]);
    ReachedIsClosed(g, t, [0, 1, 2]);
    assert t.Reached([0, 1, 2][1]) && t.Reached([0, 1, 2][2]);
    ParentIsAncestor(g, t, 1);
    ChainEdges(t.parent[1], 1);
    ParentIsAncestor(g, t, 2);
    ChainEdges(t.parent[2], 2);
    assert IsSemi(g, t, semi[1], 1) && IsSemi(g, t, semi[2], 2);
    SemiIsAncestor(g, t, semi[1], 1);
    SemiIsAncestor(g, t, semi[2], 2);
    SameNumber(g, t, semi[1], 0);
    DominatorsAboveSemi(g, t, semi[2], 1, 2);
    SameNumber(g, t, semi[2], 1);
    PreFinalExactly(g, t, semi, pre, 1);
    PreFinalExactly(g, t, semi, pre, 2);
  }
}

/** The closing pass over the idom table: what it stores, what it loses, and the chains that
    dominance queries walk afterwards. */
module ClosingPasses {
  import opened FlowGraphs
  import opened DfsTrees
  import opened Semidominators
  import opened SemiLoops

  /** The chain minimum is a discovered vertex numbered below `v`. */
  lemma PreFinalInRange(g: FlowGraph, t: DfsTree, semi: seq<int>, pre: seq<int>, v: int)
    requires IsDfsTree(g, t) && |semi| == g.Size() && SemiExact(g, t, semi)
    requires PreFinal(g, t, semi, pre)
    requires t.Reached(v) && v != 0
    ensures t.Reached(pre[v]) && t.num[pre[v]] < t.num[v]
    ensures t.Reached(semi[v]) && t.num[pre[v]] <= t.num[semi[v]] < t.num[v]
  {
    ParentIsAncestor(g, t, v);
    assert IsChainMin(t, semi, v, pre[v]);
    assert IsSemi(g, t, semi[v], v);
    SemiIsAncestor(g, t, semi[v], v);
    SelfAncestor(g, t, v);
  }

  /** The preconditions that every statement about the closing pass shares. */
  ghost predicate Prepared(g: FlowGraph, t: DfsTree, semi: seq<int>, pre: seq<int>) {
    && IsDfsTree(g, t) && |semi| == g.Size() && SemiExact(g, t, semi) && semi[0] == 0
    && PreFinal(g, t, semi, pre)
  }

  /** The entry of the table after the closing pass, in terms of the table before it. */
  ghost function Final(g: FlowGraph, t: DfsTree, semi: seq<int>, pre: seq<int>, v: int): int
    requires Prepared(g, t, semi, pre) && g.HasVertex(v)
    decreases t.num[v]
  {
    if v == 0 || !t.Reached(v) then -1
    else
      PreFinalInRange(g, t, semi, pre, v);
      if pre[v] == semi[semi[v]] then pre[v] else Final(g, t, semi, pre, pre[v])
  }

  /** The closing pass has treated the vertices numbered below `i`. */
  ghost predicate HalfFinal(g: FlowGraph, t: DfsTree, semi: seq<int>, pre: seq<int>, cur: seq<int>, i: int)
    requires Prepared(g, t, semi, pre)
  {
    && |cur| == g.Size()
    && forall v {:trigger cur[v]} :: g.HasVertex(v) ==>
         cur[v] == if t.num[v] < i then Final(g, t, semi, pre, v) else pre[v]
  }

  lemma FinalStep(g: FlowGraph, t: DfsTree, semi: seq<int>, pre: seq<int>, cur: seq<int>, i: int, w: int)
    requires Prepared(g, t, semi, pre) && 0 < i < t.count && |t.vertex| == g.Size() && t.count <= g.Size()
             && w == t.vertex[i]
    requires HalfFinal(g, t, semi, pre, cur, i)
    ensures g.HasVertex(w) && g.HasVertex(semi[w]) && g.HasVertex(cur[w]) && |cur| == g.Size()
    ensures HalfFinal(g, t, semi, pre, if cur[w] != semi[semi[w]] then cur[w := cur[cur[w]]] else cur, i + 1)
  {
    assert t.Reached(w) && t.num[w] == i;
    PreFinalInRange(g, t, semi, pre, w);
    var cur' := if cur[w] != semi[semi[w]] then cur[w := cur[cur[w]]] else cur;
    forall v | g.HasVertex(v)
      ensures cur'[v] == if t.num[v] < i + 1 then Final(g, t, semi, pre, v) else pre[v]
    {
      if v != w && t.num[v] == i {
        SameNumber(g, t, v, w);
      }
    }
  }

  lemma FinalStart(g: FlowGraph, t: DfsTree, semi: seq<int>, pre: seq<int>)
    requires Prepared(g, t, semi, pre)
    ensures HalfFinal(g, t, semi, pre, pre, 1)
    ensures |t.vertex| == g.Size() && t.count <= g.Size()
  {
    forall v | g.HasVertex(v) && t.num[v] == 0
      ensures v == 0
    {
      SameNumber(g, t, v, 0);
    }
  }

  lemma FinalEnd(g: FlowGraph, t: DfsTree, semi: seq<int>, pre: seq<int>, cur: seq<int>)
    requires Prepared(g, t, semi, pre)
    requires t.count >= 1 && HalfFinal(g, t, semi, pre, cur, t.count)
    ensures |cur| == g.Size() && 0 < |cur|
    ensures forall v {:trigger cur[0 := -1][v]} :: g.HasVertex(v) ==> cur[0 := -1][v] == Final(g, t, semi, pre, v)
  {
  }

  /** Every entry is -1 or a vertex with a smaller number. */
  ghost predicate Descends(idom: seq<int>, num: seq<int>) {
    && |num| == |idom|
    && forall v {:trigger idom[v]} :: 0 <= v < |idom| ==>
         idom[v] == -1 || (0 <= idom[v] < |idom| && 0 <= num[idom[v]] < num[v])
  }

  lemma {:induction false} FinalBelow(g: FlowGraph, t: DfsTree, semi: seq<int>, pre: seq<int>, v: int)
    requires Prepared(g, t, semi, pre) && g.HasVertex(v)
    ensures var f := Final(g, t, semi, pre, v);
            f == -1 || (t.Reached(f) && t.Reached(v) && t.num[f] < t.num[v])
    decreases t.num[v]
  {
    if v != 0 && t.Reached(v) {
      PreFinalInRange(g, t, semi, pre, v);
      if pre[v] != semi[semi[v]] {
        FinalBelow(g, t, semi, pre, pre[v]);
      }
    }
  }

  lemma FinalDescends(g: FlowGraph, t: DfsTree, semi: seq<int>, pre: seq<int>)
    requires Prepared(g, t, semi, pre)
    ensures forall idom {:trigger Descends(idom, t.num)} ::
              |idom| == g.Size() && (forall v :: g.HasVertex(v) ==> idom[v] == Final(g, t, semi, pre, v)) ==>
                  Descends(idom, t.num)
  {
    forall v | g.HasVertex(v)
      ensures var f := Final(g, t, semi, pre, v);
              f == -1 || (t.Reached(f) && t.Reached(v) && t.num[f] < t.num[v])
    {
      FinalBelow(g, t, semi, pre, v);
    }
  }

  // ---------------------------------------------------------------- the branch test

  /** Before the closing pass an entry is its block's semidominator exactly when that semidominator
      is the immediate dominator. */
  lemma PreFinalExactly(g: FlowGraph, t: DfsTree, semi: seq<int>, pre: seq<int>, v: int)
    requires IsDfsTree(g, t) && |semi| == g.Size() && SemiExact(g, t, semi)
    requires PreFinal(g, t, semi, pre) && t.Reached(v) && v != 0
    ensures pre[v] == semi[v] <==> IsImmediateDominator(g, semi[v], v)
  {
    PreFinalInRange(g, t, semi, pre, v);
    SemiIsImmediateDominatorExactly(g, t, semi, v);
    assert IsChainMin(t, semi, v, pre[v]);
    if NoneBypasses(t, semi, v) {
      SameNumber(g, t, pre[v], semi[v]);
    }
  }

  /** Before the closing pass an entry is never above the immediate dominator: every proper dominator
      of the block is an ancestor of it. */
  lemma PreFinalIsBelowDominators(g: FlowGraph, t: DfsTree, semi: seq<int>, pre: seq<int>, d: int, v: int)
    requires IsDfsTree(g, t) && |semi| == g.Size() && SemiExact(g, t, semi)
    requires PreFinal(g, t, semi, pre) && t.Reached(v) && v != 0
    requires Dominates(g, d, v) && d != v
    ensures t.Anc(d, pre[v])
  {
    PreFinalInRange(g, t, semi, pre, v);
    assert IsChainMin(t, semi, v, pre[v]);
    var u :| t.Anc(u, v) && t.num[u] > t.num[semi[v]] && semi[u] == pre[v];
    DominatorsAboveChain(g, t, semi, u, d, v);
  }

  /** Vertex `u` on the way from `semi[v]` down to `v` has the entry as semidominator. */
  ghost predicate Attains(t: DfsTree, semi: seq<int>, pre: seq<int>, u: int, v: int)
    requires |semi| == |t.num| == |t.last| && |pre| == |semi| && t.Reached(v) && t.Reached(semi[v])
  {
    t.Anc(u, v) && t.num[u] > t.num[semi[v]] && semi[u] == pre[v]
  }

  lemma PreFinalIsAncestor(g: FlowGraph, t: DfsTree, semi: seq<int>, pre: seq<int>, v: int) returns (u: int)
    requires Prepared(g, t, semi, pre) && t.Reached(v) && v != 0
    ensures t.Reached(semi[v]) && Attains(t, semi, pre, u, v) && u != 0
    ensures t.Anc(pre[v], u) && t.Anc(pre[v], v) && t.num[pre[v]] < t.num[u]
  {
    PreFinalInRange(g, t, semi, pre, v);
    assert IsChainMin(t, semi, v, pre[v]);
    u :| t.Anc(u, v) && t.num[u] > t.num[semi[v]] && semi[u] == pre[v];
    assert IsSemi(g, t, semi[u], u);
    SemiIsAncestor(g, t, semi[u], u);
    AncestorsAreNested(g, t, pre[v], u, v);
  }

  /** Whatever bypasses the entry of `v` bypasses the semidominator of each vertex that attains it. */
  lemma BypassAbove(g: FlowGraph, t: DfsTree, semi: seq<int>, pre: seq<int>, u: int, v: int)
    requires Prepared(g, t, semi, pre) && t.Reached(v) && v != 0
    requires t.Reached(semi[v]) && Attains(t, semi, pre, u, v) && t.Reached(pre[v])
    ensures NothingBypasses(t, semi, pre[v], v) <==> NoneBypasses(t, semi, u)
  {
    assert IsChainMin(t, semi, v, pre[v]);
    forall x | t.Anc(x, u) && t.num[x] > t.num[pre[v]]
      ensures t.Anc(x, v)
    {
      AncestorsAreNested(g, t, x, u, v);
    }
    assert forall x :: t.Anc(x, v) && t.num[x] <= t.num[semi[v]] ==> t.Anc(x, u);
  }

  /** Theorem 3 of Lengauer and Tarjan at this table: whichever branch stored it, the entry of `v` is
      the immediate dominator of `v` exactly when it dominates `v`, and that is when some vertex whose
      semidominator it is, on the way down from `semi[v]`, is not bypassed. */
  lemma PreFinalIsRightExactly(g: FlowGraph, t: DfsTree, semi: seq<int>, pre: seq<int>, v: int)
    requires Prepared(g, t, semi, pre) && t.Reached(v) && v != 0
    ensures IsImmediateDominator(g, pre[v], v) <==> Dominates(g, pre[v], v)
    ensures t.Reached(semi[v]) && forall u :: Attains(t, semi, pre, u, v) ==> t.Reached(semi[u])
    ensures IsImmediateDominator(g, pre[v], v) <==>
              exists u :: Attains(t, semi, pre, u, v) && NoneBypasses(t, semi, u)
  {
    PreFinalInRange(g, t, semi, pre, v);
    var w := PreFinalIsAncestor(g, t, semi, pre, v);
    DominatesExactly(g, t, semi, pre[v], v);
    forall u | Attains(t, semi, pre, u, v)
      ensures NothingBypasses(t, semi, pre[v], v) <==> NoneBypasses(t, semi, u)
    {
      BypassAbove(g, t, semi, pre, u, v);
    }
    hide NothingBypasses, NoneBypasses;
    forall e | Dominates(g, e, v) && e != v && Dominates(g, pre[v], v)
      ensures Dominates(g, e, pre[v])
    {
      PreFinalIsBelowDominators(g, t, semi, pre, e, v);
      DominatorsNest(g, t, e, pre[v], v);
    }
  }

  // ---------------------------------------------------------------- what survives the closing pass

  /** An entry survives the closing pass exactly when the guard spares it: what would replace it is
      always smaller. */
  lemma FinalKeepsExactly(g: FlowGraph, t: DfsTree, semi: seq<int>, pre: seq<int>, v: int)
    requires Prepared(g, t, semi, pre) && t.Reached(v) && v != 0
    ensures t.Reached(semi[v])
    ensures Final(g, t, semi, pre, v) == pre[v] <==> pre[v] == semi[semi[v]]
  {
    PreFinalInRange(g, t, semi, pre, v);
    FinalBelow(g, t, semi, pre, pre[v]);
  }

  /** For a block whose semidominator is its immediate dominator: the entry survives exactly when that
      dominator is the entry block. */
  lemma FinalKeepsSemiExactly(g: FlowGraph, t: DfsTree, semi: seq<int>, pre: seq<int>, v: int)
    requires Prepared(g, t, semi, pre) && t.Reached(v) && v != 0
    requires IsImmediateDominator(g, semi[v], v)
    ensures Final(g, t, semi, pre, v) == semi[v] <==> semi[v] == 0
  {
    PreFinalExactly(g, t, semi, pre, v);
    FinalKeepsExactly(g, t, semi, pre, v);
    if semi[v] != 0 {
      PreFinalInRange(g, t, semi, pre, semi[v]);
    }
  }

  lemma {:induction false} FinalIsAncestor(g: FlowGraph, t: DfsTree, semi: seq<int>, pre: seq<int>, v: int)
    requires Prepared(g, t, semi, pre) && t.Reached(v) && v != 0
    ensures var f := Final(g, t, semi, pre, v); f == -1 || (t.Anc(f, v) && f != v)
    decreases t.num[v]
  {
    PreFinalInRange(g, t, semi, pre, v);
    var u := PreFinalIsAncestor(g, t, semi, pre, v);
    if pre[v] != semi[semi[v]] && pre[v] != 0 {
      FinalIsAncestor(g, t, semi, pre, pre[v]);
      var f := Final(g, t, semi, pre, v);
      if f != -1 {
        AncestorsAreNested(g, t, f, pre[v], v);
      }
    }
  }

  /** The entry that is left after the closing pass dominates its block exactly when nothing bypasses
      it, and is the immediate dominator exactly when besides everything deeper is bypassed. */
  lemma FinalIsRightExactly(g: FlowGraph, t: DfsTree, semi: seq<int>, pre: seq<int>, v: int)
    requires Prepared(g, t, semi, pre) && t.Reached(v) && v != 0
    ensures var f := Final(g, t, semi, pre, v);
            && (f == -1 || (t.Anc(f, v) && f != v))
            && (Dominates(g, f, v) <==> f != -1 && NothingBypasses(t, semi, f, v))
            && (IsImmediateDominator(g, f, v) <==>
                  && f != -1 && NothingBypasses(t, semi, f, v)
                  && forall e :: t.Anc(f, e) && t.Anc(e, v) && e != f && e != v ==> !NothingBypasses(t, semi, e, v))
  {
    FinalIsAncestor(g, t, semi, pre, v);
    var f := Final(g, t, semi, pre, v);
    hide NothingBypasses, Final;
    if f == -1 {
      if Dominates(g, f, v) {
        DominatorIsAncestor(g, t, f, v);
      }
    } else {
      DominatesExactly(g, t, semi, f, v);
      ImmediateExactly(g, t, semi, f, v);
    }
  }

  // ---------------------------------------------------------------- chains

  /** Following the table from any block ends. */
  ghost predicate IdomTable(idom: seq<int>) {
    exists num: seq<int> :: Descends(idom, num)
  }

  lemma TableOfDescending(idom: seq<int>, num: seq<int>)
    requires Descends(idom, num)
    ensures IdomTable(idom)
  {
  }

  ghost function Ranking(idom: seq<int>): (num: seq<int>)
    requires IdomTable(idom)
    ensures Descends(idom, num)
  {
    var num :| Descends(idom, num);
    num
  }

  /** How far `x` is from the end of its chain, at most. */
  ghost function Depth(idom: seq<int>, x: int): nat
    requires IdomTable(idom) && -1 <= x < |idom|
  {
    if x == -1 then 0
    else if Ranking(idom)[x] < 0 then 1
    else Ranking(idom)[x] + 1
  }

  /** `a` is met on the chain from `b`. */
  ghost predicate OnIdomChain(idom: seq<int>, a: int, b: int)
    requires IdomTable(idom) && -1 <= b < |idom|
    decreases Depth(idom, b)
  {
    b == a || (b >= 0 && OnIdomChain(idom, a, idom[b]))
  }

  lemma {:induction false} ChainsCompose(idom: seq<int>, a: int, b: int, c: int)
    requires IdomTable(idom) && 0 <= b < |idom| && 0 <= c < |idom|
    requires OnIdomChain(idom, a, b) && OnIdomChain(idom, b, c)
    ensures OnIdomChain(idom, a, c)
    decreases Depth(idom, c)
  {
    if b != c {
      if idom[c] >= 0 {
        ChainsCompose(idom, a, b, idom[c]);
      }
    }
  }

  lemma {:induction false} ChainsDescend(idom: seq<int>, a: int, b: int)
    requires IdomTable(idom) && 0 <= a < |idom| && 0 <= b < |idom|
    requires OnIdomChain(idom, a, b) && a != b
    ensures Depth(idom, a) < Depth(idom, b)
    decreases Depth(idom, b)
  {
    if idom[b] != a && idom[b] >= 0 {
      ChainsDescend(idom, a, idom[b]);
    }
  }

  /** The dominance query is a partial order on the blocks. */
  lemma ChainsArePartialOrder(idom: seq<int>, a: int, b: int, c: int)
    requires IdomTable(idom) && 0 <= a < |idom| && 0 <= b < |idom| && 0 <= c < |idom|
    ensures OnIdomChain(idom, a, a)
    ensures OnIdomChain(idom, a, b) && OnIdomChain(idom, b, a) ==> a == b
    ensures OnIdomChain(idom, a, b) && OnIdomChain(idom, b, c) ==> OnIdomChain(idom, a, c)
  {
    if OnIdomChain(idom, a, b) && OnIdomChain(idom, b, a) && a != b {
      ChainsDescend(idom, a, b);
      ChainsDescend(idom, b, a);
    }
    if OnIdomChain(idom, a, b) && OnIdomChain(idom, b, c) {
      ChainsCompose(idom, a, b, c);
    }
  }
}

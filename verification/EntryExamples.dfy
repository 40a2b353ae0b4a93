/** Two small graphs and what the pass leaves in their tables: a right entry that survives the closing
    pass without being the entry block, and an entry that is deeper than the immediate dominator. */
module EntryExamples {
  import opened FlowGraphs
  import opened DfsTrees
  import opened SearchOrders
  import opened Semidominators
  import opened SemiLoops
  import opened ClosingPasses

  /** A graph whose block addresses are the block numbers. */
  function Plain(succ: seq<seq<nat>>, pred: seq<seq<nat>>): FlowGraph {
    FlowGraph(succ, pred, Identity(|succ|))
  }

  function Identity(n: nat): (m: map<nat, nat>)
    ensures forall a: nat :: (a in m <==> a < n) && (a in m ==> m[a] == a)
  {
    if n == 0 then map[] else Identity(n - 1)[n - 1 := n - 1]
  }

  /** Every edge leads to a higher number, and there is one from each block to the next. */
  ghost predicate Forward(g: FlowGraph) {
    forall u, v :: (g.Edge(u, v) ==> u < v) && (0 <= u && v == u + 1 < g.Size() ==> g.Edge(u, v))
  }

  lemma PlainEdges(succ: seq<seq<nat>>, pred: seq<seq<nat>>, u: int, v: int)
    ensures Plain(succ, pred).Edge(u, v) <==> 0 <= u < |succ| && 0 <= v < |succ| && v in succ[u]
  {
    var g := Plain(succ, pred);
    if 0 <= u < |succ| && 0 <= v < |succ| && v in succ[u] {
      var k :| 0 <= k < |succ[u]| && succ[u][k] == v;
      assert g.At(succ[u][k]) == v;
    }
  }

  /** Discovered in the order of the numbers. */
  ghost predicate InOrder(t: DfsTree, n: nat) {
    |t.num| == n && forall v {:trigger t.num[v]} :: 0 <= v < n ==> t.num[v] == v
  }

  /** The search numbers the blocks in order when each lists the next one first. */
  lemma ListedInOrder(g: FlowGraph, t: DfsTree)
    requires IsDfsTree(g, t) && InTurn(g, t) && NextFirst(g)
    ensures InOrder(t, g.Size())
  {
    forall v | 0 <= v < g.Size()
      ensures t.num[v] == v
    {
      NumberedInOrder(g, t, v);
    }
  }

  /** In a forward graph the tree is a chain, and a semidominator is the least predecessor. */
  lemma ForwardSemi(g: FlowGraph, t: DfsTree, semi: seq<int>, u: int, v: int)
    requires IsDfsTree(g, t) && SemiExact(g, t, semi) && Forward(g) && InOrder(t, g.Size())
    requires g.Edge(u, v)
    ensures g.Edge(semi[v], v) && semi[v] <= u && t.Reached(v)
  {
    assert t.num[u] == u && t.num[v] == v && u < v;
    assert IsSemi(g, t, semi[v], v);
    EdgeIsSemiPath(g, t, u, v);
    var q :| SemiPath(g, t, v, q) && q[0] == u;
    var p :| SemiPath(g, t, v, p) && p[0] == semi[v];
    assert g.Edge(p[|p| - 2], p[|p| - 2 + 1]);
    assert |p| == 2;
  }

  lemma {:induction false} ForwardAncestors(g: FlowGraph, t: DfsTree, u: int, v: int)
    requires IsDfsTree(g, t) && Forward(g) && InOrder(t, g.Size()) && 0 <= u <= v < g.Size()
    ensures t.Anc(u, v)
    decreases v - u
  {
    assert t.num[u] == u && t.num[v] == v;
    SelfAncestor(g, t, v);
    if u < v {
      ForwardAncestors(g, t, u, v - 1);
      assert g.Edge(v - 1, v);
      AncestorsAreNested(g, t, u, v - 1, v);
    }
  }

  /** When only `u` and `v` lie below the semidominator on the way to `v`, the lower semidominator of
      the two is the entry. */
  lemma EntryOfLast(g: FlowGraph, t: DfsTree, semi: seq<int>, pre: seq<int>, u: int, v: int)
    requires Prepared(g, t, semi, pre) && InOrder(t, g.Size()) && Forward(g)
    requires 0 < u && v == u + 1 < g.Size() && t.Anc(u, v) && t.num[semi[v]] == u - 1 && 0 <= semi[u] < semi[v]
    ensures pre[v] == semi[u]
  {
    assert t.num[u] == u && t.num[v] == v && t.num[semi[u]] == semi[u] && t.num[semi[v]] == semi[v];
    assert IsChainMin(t, semi, v, pre[v]);
    var w :| t.Anc(w, v) && t.num[w] > t.num[semi[v]] && semi[w] == pre[v];
    assert t.num[w] == w;
    assert t.num[pre[v]] <= t.num[semi[u]];
  }

  // ---------------------------------------------------------------- a right entry that survives

  const SPARED := Plain([[1], [2, 3], [3, 4], [4], []], [[], [0], [1], [1, 2], [2, 3]])

  lemma SparedEdges(u: int, v: int)
    ensures SPARED.Edge(u, v) <==> (u, v) in {(0, 1), (1, 2), (1, 3), (2, 3), (2, 4), (3, 4)}
  {
    PlainEdges(SPARED.succ, SPARED.pred, u, v);
  }

  lemma SparedIsForward()
    ensures Forward(SPARED)
  {
    forall u, v
      ensures (SPARED.Edge(u, v) ==> u < v) && (0 <= u && v == u + 1 < 5 ==> SPARED.Edge(u, v))
    {
      SparedEdges(u, v);
    }
  }

  lemma SparedSemi(t: DfsTree, semi: seq<int>, u: int, v: int)
    requires IsDfsTree(SPARED, t) && SemiExact(SPARED, t, semi) && InOrder(t, 5)
    requires (u, v) in {(1, 2), (1, 3), (2, 4)}
    ensures semi[v] == u
  {
    SparedIsForward();
    SparedEdges(u, v);
    ForwardSemi(SPARED, t, semi, u, v);
    hide *;
    SparedEdges(semi[v], v);
  }

  lemma SparedDominates()
    ensures Dominates(SPARED, 1, 4)
  {
    forall p | PathBetween(SPARED, 0, 4, p)
      ensures 1 in p
    {
      assert SPARED.Edge(p[0], p[0 + 1]);
      SparedEdges(p[0], p[0 + 1]);
    }
  }

  /** Block 1 is the immediate dominator of block 4 and not its semidominator; the entry is stored by
      the first branch of the bucket pass, is not the entry block, and stays. */
  lemma RightEntrySurvives(t: DfsTree, semi: seq<int>, pre: seq<int>)
    requires Prepared(SPARED, t, semi, pre) && InTurn(SPARED, t)
    ensures |semi| == |pre| == 5 && semi[4] == 2 && pre[4] == 1 && Final(SPARED, t, semi, pre, 4) == 1
    ensures IsImmediateDominator(SPARED, 1, 4)
  {
    SparedIsForward();
    ListedInOrder(SPARED, t);
    SparedSemi(t, semi, 1, 2);
    SparedSemi(t, semi, 1, 3);
    SparedSemi(t, semi, 2, 4);
    SparedDominates();
    ForwardAncestors(SPARED, t, 3, 4);
    EntryOfLast(SPARED, t, semi, pre, 3, 4);
    PreFinalIsRightExactly(SPARED, t, semi, pre, 4);
  }

  // ---------------------------------------------------------------- an entry that is too deep

  const TOO_DEEP := Plain([[1, 2], [2, 3, 4], [3], [4, 5], [5], []], [[], [0], [0, 1], [1, 2], [1, 3], [3, 4]])

  lemma TooDeepEdges(u: int, v: int)
    ensures TOO_DEEP.Edge(u, v) <==>
              (u, v) in {(0, 1), (0, 2), (1, 2), (1, 3), (1, 4), (2, 3), (3, 4), (3, 5), (4, 5)}
  {
    PlainEdges(TOO_DEEP.succ, TOO_DEEP.pred, u, v);
  }

  lemma TooDeepIsForward()
    ensures Forward(TOO_DEEP)
  {
    forall u, v
      ensures (TOO_DEEP.Edge(u, v) ==> u < v) && (0 <= u && v == u + 1 < 6 ==> TOO_DEEP.Edge(u, v))
    {
      TooDeepEdges(u, v);
    }
  }

  lemma TooDeepSemi(t: DfsTree, semi: seq<int>, u: int, v: int)
    requires IsDfsTree(TOO_DEEP, t) && SemiExact(TOO_DEEP, t, semi) && InOrder(t, 6)
    requires (u, v) in {(1, 3), (1, 4), (3, 5)}
    ensures semi[v] == u
  {
    TooDeepIsForward();
    TooDeepEdges(u, v);
    ForwardSemi(TOO_DEEP, t, semi, u, v);
    hide *;
    TooDeepEdges(semi[v], v);
  }

  lemma TooDeepIsAvoided()
    ensures !Dominates(TOO_DEEP, 1, 5)
  {
    TooDeepEdges(0, 2);
    TooDeepEdges(2, 3);
    TooDeepEdges(3, 5);
    assert PathBetween(TOO_DEEP, 0, 5, [0, 2, 3, 5]);
  }

  /** The entry of block 5 is block 1, before and after the closing pass, and block 1 does not dominate
      block 5 at all. */
  lemma DeepEntryIsNoDominator(t: DfsTree, semi: seq<int>, pre: seq<int>)
    requires Prepared(TOO_DEEP, t, semi, pre) && InTurn(TOO_DEEP, t)
    ensures |semi| == |pre| == 6 && pre[5] == 1 && Final(TOO_DEEP, t, semi, pre, 5) == 1
    ensures !Dominates(TOO_DEEP, 1, 5)
  {
    TooDeepIsForward();
    ListedInOrder(TOO_DEEP, t);
    TooDeepSemi(t, semi, 1, 3);
    TooDeepSemi(t, semi, 1, 4);
    TooDeepSemi(t, semi, 3, 5);
    TooDeepIsAvoided();
    ForwardAncestors(TOO_DEEP, t, 4, 5);
    EntryOfLast(TOO_DEEP, t, semi, pre, 4, 5);
  }
}

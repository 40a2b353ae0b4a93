/** The numbering of a depth-first search that takes successors in the order of the list is the only
    one: graph and order leave the search no choice. */
module SearchOrders {
  import opened FlowGraphs
  import opened DfsTrees

  /** Every successor of `u` has a number below `n`. */
  ghost predicate Exhausted(g: FlowGraph, t: DfsTree, u: int, n: int)
    requires Sized(g, t)
  {
    forall v {:trigger g.Edge(u, v)} :: g.Edge(u, v) ==> 0 <= t.num[v] < n
  }

  /** The vertex numbered `n` hangs below the highest-numbered vertex that still has a successor
      without a number below `n`. */
  lemma NextParent(g: FlowGraph, t: DfsTree, n: int) returns (w: int, p: int)
    requires IsDfsTree(g, t) && 0 < n < t.count
    ensures t.Reached(w) && t.num[w] == n && p == t.parent[w]
    ensures t.Reached(p) && t.num[p] < n && g.Edge(p, w)
    ensures forall u {:trigger t.num[u]} :: t.Reached(u) && t.num[p] < t.num[u] < n ==> Exhausted(g, t, u, n)
  {
    w := t.vertex[n];
    assert t.Reached(w) && t.num[w] == n;
    p := t.parent[w];
    forall u | t.Reached(u) && t.num[p] < t.num[u] < n
      ensures Exhausted(g, t, u, n)
    {
      assert t.End({}, u) == t.last[u];
      if n < t.last[u] {
        assert Within(t, {}, u, w);
      }
    }
  }

  /** Both searches have given the numbers below `n` to the same vertices. */
  ghost predicate AgreeBelow(t: DfsTree, t': DfsTree, n: int) {
    && |t.num| == |t'.num|
    && forall v {:trigger t.num[v]} {:trigger t'.num[v]} :: 0 <= v < |t.num| ==>
         (0 <= t.num[v] < n <==> 0 <= t'.num[v] < n) && (0 <= t.num[v] < n ==> t'.num[v] == t.num[v])
  }

  /** The parent of the next vertex is the same in both. */
  lemma SameParent(g: FlowGraph, t: DfsTree, t': DfsTree, n: int, w: int, p: int, w': int, p': int)
    requires Sized(g, t) && Sized(g, t') && AgreeBelow(t, t', n) && Numbered(g, t)
    requires t.Reached(p) && t.num[p] < n && g.Edge(p, w) && t.Reached(w) && t.num[w] == n
    requires forall u {:trigger t.num[u]} :: t.Reached(u) && t.num[p] < t.num[u] < n ==> Exhausted(g, t, u, n)
    requires t'.Reached(p') && t'.num[p'] < n && g.Edge(p', w') && t'.Reached(w') && t'.num[w'] == n
    requires forall u {:trigger t'.num[u]} :: t'.Reached(u) && t'.num[p'] < t'.num[u] < n ==> Exhausted(g, t', u, n)
    ensures p == p'
  {
    assert t.num[p'] == t'.num[p'] && t'.num[p] == t.num[p];
    assert !Exhausted(g, t, p', n) && !Exhausted(g, t', p, n);
    SameNumber(g, t, p, p');
  }

  /** Below one parent, the next vertex is the first listed that has no number yet. */
  lemma SameTurn(g: FlowGraph, t: DfsTree, t': DfsTree, n: int, p: int, w: int, w': int)
    requires Sized(g, t) && Sized(g, t') && AgreeBelow(t, t', n) && InTurn(g, t) && InTurn(g, t')
    requires t.Reached(w) && t.num[w] == n > 0 && t.parent[w] == p && g.HasVertex(p)
    requires t'.Reached(w') && t'.num[w'] == n && t'.parent[w'] == p
    ensures w == w'
  {
    var j :| TurnAt(g, t, t.parent[w], w, j);
    var j' :| TurnAt(g, t', t'.parent[w'], w', j');
    NoLater(g, t, t', n, p, w, w', j, j');
    NoLater(g, t', t, n, p, w', w, j', j);
  }

  lemma NoLater(g: FlowGraph, t: DfsTree, t': DfsTree, n: int, p: int, w: int, w': int, j: int, j': int)
    requires Sized(g, t) && Sized(g, t') && AgreeBelow(t, t', n) && g.HasVertex(p)
    requires t.Reached(w) && t.num[w] == n && t'.Reached(w') && t'.num[w'] == n
    requires TurnAt(g, t, p, w, j) && TurnAt(g, t', p, w', j')
    ensures j' <= j
  {
    var x := g.succ[p][j];
    assert g.At(x) == w;
  }

  /** When one search has a vertex numbered `n`, so has the other, and it is the same. */
  lemma NextAgrees(g: FlowGraph, t: DfsTree, t': DfsTree, n: int)
    requires IsDfsTree(g, t) && IsDfsTree(g, t') && InTurn(g, t) && InTurn(g, t')
    requires 0 < n < t.count && AgreeBelow(t, t', n)
    ensures AgreeBelow(t, t', n + 1)
  {
    var w, p := NextParent(g, t, n);
    NextIsReached(g, t, t', n, w, p);
    var w', p' := NextParent(g, t', n);
    SameParent(g, t, t', n, w, p, w', p');
    SameTurn(g, t, t', n, p, w, w');
    forall v | 0 <= v < |t.num|
      ensures t.num[v] == n <==> t'.num[v] == n
    {
      if t.num[v] == n {
        SameNumber(g, t, v, w);
      }
      if t'.num[v] == n {
        SameNumber(g, t', v, w');
      }
    }
    hide IsDfsTree, InTurn;
  }

  lemma NextIsReached(g: FlowGraph, t: DfsTree, t': DfsTree, n: int, w: int, p: int)
    requires IsDfsTree(g, t) && IsDfsTree(g, t') && AgreeBelow(t, t', n)
    requires t.Reached(w) && t.num[w] == n && t.Reached(p) && t.num[p] < n && g.Edge(p, w)
    ensures n < t'.count
  {
    assert t'.Reached(p) && t'.Reached(w);
    assert t'.num[w] >= n;
  }

  lemma {:induction false} AgreeUpTo(g: FlowGraph, t: DfsTree, t': DfsTree, n: int)
    requires IsDfsTree(g, t) && IsDfsTree(g, t') && InTurn(g, t) && InTurn(g, t')
    requires 0 < n <= t.count
    ensures AgreeBelow(t, t', n)
    decreases n
  {
    if n == 1 {
      forall v | 0 <= v < |t.num|
        ensures t.num[v] == 0 <==> v == 0
        ensures t'.num[v] == 0 <==> v == 0
      {
        if t.num[v] == 0 {
          SameNumber(g, t, v, 0);
        }
        if t'.num[v] == 0 {
          SameNumber(g, t', v, 0);
        }
      }
    } else {
      AgreeUpTo(g, t, t', n - 1);
      NextAgrees(g, t, t', n - 1);
    }
  }

  lemma NoMore(g: FlowGraph, t: DfsTree, t': DfsTree)
    requires IsDfsTree(g, t) && IsDfsTree(g, t') && AgreeBelow(t, t', t.count) && AgreeBelow(t', t, t'.count)
    ensures t'.count <= t.count
  {
    var next := if t.count < |t'.vertex| then t'.vertex[t.count] else 0;
  }

  /** Any two searches of one graph that take successors in the order of the list number alike. */
  lemma NumberingIsUnique(g: FlowGraph, t: DfsTree, t': DfsTree)
    requires IsDfsTree(g, t) && IsDfsTree(g, t') && InTurn(g, t) && InTurn(g, t')
    ensures t.num == t'.num && t.count == t'.count
  {
    AgreeUpTo(g, t, t', t.count);
    AgreeUpTo(g, t', t, t'.count);
    NoMore(g, t, t');
    NoMore(g, t', t);
    forall v | 0 <= v < |t.num|
      ensures t.num[v] == t'.num[v]
    {
      assert g.HasVertex(v) && -1 <= t.num[v] < t.count && -1 <= t'.num[v] < t'.count;
    }
  }

  // ---------------------------------------------------------------- graphs that list the next block first

  /** Each block but the last lists the next one first. */
  predicate NextFirst(g: FlowGraph) {
    forall v {:trigger g.succ[v]} :: 0 <= v < g.Size() - 1 ==> g.succ[v] != [] && g.At(g.succ[v][0]) == v + 1
  }

  /** Such a graph is numbered in order. */
  lemma {:induction false} NumberedInOrder(g: FlowGraph, t: DfsTree, v: int)
    requires IsDfsTree(g, t) && InTurn(g, t) && NextFirst(g) && 0 <= v < g.Size()
    ensures t.num[v] == v
    ensures forall u {:trigger t.num[u]} :: 0 <= u < g.Size() && 0 <= t.num[u] <= v ==> t.num[u] == u
    decreases v
  {
    if v == 0 {
      forall u | 0 <= u < g.Size() && t.num[u] == 0
        ensures u == 0
      {
        SameNumber(g, t, u, 0);
      }
    } else {
      NumberedInOrder(g, t, v - 1);
      assert g.At(g.succ[v - 1][0]) == v;
      assert g.Edge(v - 1, v) && t.End({}, v - 1) == t.last[v - 1];
      assert t.Reached(v) && t.num[v] >= v;
      assert v < t.count;
      var w, p := NextParent(g, t, v);
      SameNumber(g, t, p, v - 1);
      var j :| TurnAt(g, t, t.parent[w], w, j);
      assert w == v;
      forall u | 0 <= u < g.Size() && 0 <= t.num[u] <= v
        ensures t.num[u] == u
      {
        if t.num[u] == v {
          SameNumber(g, t, u, v);
        }
      }
    }
  }
}

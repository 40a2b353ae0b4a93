/** Depth-first spanning trees, described by discovery numbers and by the interval of numbers that
    each vertex's subtree occupies. */
module DfsTrees {
  import opened FlowGraphs

  /** `num[v]` is the discovery number (-1 when not discovered), `parent[v]` the tree parent,
      `last[v]` the first number after the subtree of `v`, `count` how many were discovered. */
  datatype DfsTree = DfsTree(num: seq<int>, parent: seq<int>, vertex: seq<int>, last: seq<int>, count: int) {

    predicate Reached(v: int) {
      0 <= v < |num| && num[v] >= 0
    }

    /** Where the subtree of `v` ends so far; a vertex still being visited owns everything after it. */
    function End(open: set<int>, v: int): int
      requires Reached(v) && |last| == |num|
    {
      if v in open then count else last[v]
    }

    /** `u` is an ancestor of `v` in the tree, or `v` itself. */
    predicate Anc(u: int, v: int)
      requires |last| == |num|
    {
      Reached(u) && Reached(v) && num[u] <= num[v] < last[u]
    }
  }

  ghost predicate Sized(g: FlowGraph, t: DfsTree) {
    |t.num| == |t.parent| == |t.vertex| == |t.last| == g.Size()
  }

  /** Numbers are handed out without gaps or repeats. */
  ghost predicate Numbered(g: FlowGraph, t: DfsTree) {
    && Sized(g, t)
    && 0 <= t.count <= g.Size()
    && (forall v {:trigger t.num[v]} :: g.HasVertex(v) ==> -1 <= t.num[v] < t.count)
    && (forall v {:trigger t.num[v]} :: t.Reached(v) ==> t.vertex[t.num[v]] == v)
    && (forall i {:trigger t.vertex[i]} :: 0 <= i < t.count ==> t.Reached(t.vertex[i]) && t.num[t.vertex[i]] == i)
  }

  /** Every discovered vertex owns a non-empty interval of numbers that starts at its own. */
  ghost predicate Intervals(g: FlowGraph, t: DfsTree, open: set<int>)
    requires Sized(g, t)
  {
    && (forall u :: u in open ==> t.Reached(u))
    && (forall v {:trigger t.End(open, v)} :: t.Reached(v) ==> t.num[v] < t.End(open, v) <= t.count)
  }

  /** Every discovered vertex except the first hangs below a parent that has an edge to it. */
  ghost predicate Parents(g: FlowGraph, t: DfsTree, open: set<int>)
    requires Sized(g, t)
  {
    forall v {:trigger t.parent[v]} :: t.Reached(v) && t.num[v] > 0 ==>
      var p := t.parent[v];
      t.Reached(p) && t.num[p] < t.num[v] < t.End(open, p) && g.Edge(p, v)
  }

  /** `v` was discovered inside the visit of `u`. */
  predicate Within(t: DfsTree, open: set<int>, u: int, v: int)
    requires |t.last| == |t.num|
  {
    t.Reached(u) && t.Reached(v) && t.num[u] < t.num[v] < t.End(open, u)
  }

  /** Intervals nest, a visit ends after the visits inside it, and the parent is the innermost interval around a
      vertex. */
  ghost predicate Nested(g: FlowGraph, t: DfsTree, open: set<int>)
    requires Sized(g, t) && Parents(g, t, open)
  {
    forall u, v {:trigger Within(t, open, u, v)} :: Within(t, open, u, v) ==>
      && t.num[u] <= t.num[t.parent[v]]
      && t.End(open, v) <= t.End(open, u)
      && (v in open ==> u in open)
  }

  /** A vertex whose visit is over has no edge out of the numbers handed out by then. */
  ghost predicate Explored(g: FlowGraph, t: DfsTree, open: set<int>)
    requires Sized(g, t)
  {
    forall u, v {:trigger g.Edge(u, v)} :: t.Reached(u) && u !in open && g.Edge(u, v) ==>
      t.Reached(v) && t.num[v] < t.last[u]
  }

  /** What holds while the vertices in `open` are still being visited. */
  ghost predicate Partial(g: FlowGraph, t: DfsTree, open: set<int>) {
    && Numbered(g, t)
    && Intervals(g, t, open)
    && Parents(g, t, open)
    && Nested(g, t, open)
    && Explored(g, t, open)
  }

  /** A finished traversal that started at block 0. */
  ghost predicate IsDfsTree(g: FlowGraph, t: DfsTree) {
    && Partial(g, t, {})
    && t.Reached(0) && t.num[0] == 0
  }

  /** `w` is listed at position `j` of the successors of `v`, and every block listed earlier has a
      smaller number. */
  ghost predicate TurnAt(g: FlowGraph, t: DfsTree, v: int, w: int, j: int)
    requires Sized(g, t) && g.HasVertex(v) && g.HasVertex(w)
  {
    && 0 <= j < |g.succ[v]| && g.At(g.succ[v][j]) == w
    && forall i {:trigger g.succ[v][i]} :: 0 <= i < j && g.HasVertex(g.At(g.succ[v][i])) ==>
         0 <= t.num[g.At(g.succ[v][i])] < t.num[w]
  }

  /** Successors are taken in the order of the list: every discovered vertex but the first was found
      where its parent lists it, after everything listed before it. */
  ghost predicate InTurn(g: FlowGraph, t: DfsTree)
    requires Sized(g, t)
  {
    forall w {:trigger t.parent[w]} :: t.Reached(w) && t.num[w] > 0 && g.HasVertex(t.parent[w]) ==>
      exists j {:trigger TurnAt(g, t, t.parent[w], w, j)} :: TurnAt(g, t, t.parent[w], w, j)
  }

  /** Discovering `v` from the open vertex `p` that was discovered last. */
  function Discover(t: DfsTree, v: int): DfsTree
    requires 0 <= v < |t.num| && 0 <= t.count < |t.vertex|
  {
    t.(num := t.num[v := t.count], vertex := t.vertex[t.count := v], count := t.count + 1)
  }

  function Finish(t: DfsTree, v: int): DfsTree
    requires 0 <= v < |t.last|
  {
    t.(last := t.last[v := t.count])
  }

  /** The parent of an undiscovered vertex may be set freely. */
  lemma SetParentKeeps(g: FlowGraph, t: DfsTree, open: set<int>, w: int, v: int)
    requires Partial(g, t, open) && g.HasVertex(w) && !t.Reached(w)
    ensures Partial(g, t.(parent := t.parent[w := v]), open)
  {
    var t' := t.(parent := t.parent[w := v]);
    forall u | t'.Reached(u)
      ensures t'.End(open, u) == t.End(open, u)
    {
    }
    assert Parents(g, t', open);
    forall x, y | Within(t', open, x, y)
      ensures t'.num[x] <= t'.num[t'.parent[y]] && t'.End(open, y) <= t'.End(open, x) && (y in open ==> x in open)
    {
      assert Within(t, open, x, y);
    }
  }

  function UpTo(n: nat): (s: set<int>)
    ensures |s| == n && forall v :: v in s <==> 0 <= v < n
  {
    if n == 0 then {} else UpTo(n - 1) + {n - 1}
  }

  /** The vertices not discovered yet. */
  function Unseen(t: DfsTree): set<int> {
    set v | v in UpTo(|t.num|) && t.num[v] < 0
  }

  lemma DiscoverKeeps(g: FlowGraph, t: DfsTree, open: set<int>, v: int)
    requires Partial(g, t, open)
    requires g.HasVertex(v) && !t.Reached(v) && t.count < g.Size()
    requires t.count > 0 ==>
               var p := t.parent[v];
               p in open && g.Edge(p, v) && forall u :: u in open ==> t.num[u] <= t.num[p]
    ensures Partial(g, Discover(t, v), open + {v})
  {
    var t', open' := Discover(t, v), open + {v};
    forall u | t'.Reached(u)
      ensures t'.num[u] < t'.End(open', u) <= t'.count
      ensures u != v ==> t'.End(open', u) == if u in open then t.count + 1 else t.End(open, u)
    {
      assert u != v ==> t.Reached(u) && t.num[u] < t.End(open, u);
    }
    assert Parents(g, t', open');
    forall x, y | Within(t', open', x, y)
      ensures t'.num[x] <= t'.num[t'.parent[y]] && t'.End(open', y) <= t'.End(open', x) && (y in open' ==> x in open')
    {
      assert x != v && t.Reached(x);
      assert t'.End(open', y) <= t'.count;
      assert t.End(open, x) <= t.count;
      if y != v {
        assert t.num[y] < t.count;
        assert Within(t, open, x, y);
        assert x !in open ==> t.End(open, y) <= t.last[x];
        assert t.parent[y] != v;
      }
    }
  }

  lemma FinishKeeps(g: FlowGraph, t: DfsTree, open: set<int>, v: int)
    requires Partial(g, t, open) && v in open
    requires forall u :: u in open ==> t.num[u] <= t.num[v]
    requires forall w :: g.Edge(v, w) ==> t.Reached(w)
    ensures Partial(g, Finish(t, v), open - {v})
  {
    var t', open' := Finish(t, v), open - {v};
    forall u | t.Reached(u)
      ensures t'.End(open', u) == t.End(open, u)
    {
    }
    forall x, y | Within(t', open', x, y)
      ensures t'.num[x] <= t'.num[t'.parent[y]] && t'.End(open', y) <= t'.End(open', x) && (y in open' ==> x in open')
    {
      assert Within(t, open, x, y);
    }
  }

  // ---------------------------------------------------------------- ancestors

  lemma AncestorsAreNested(g: FlowGraph, t: DfsTree, u: int, v: int, w: int)
    requires IsDfsTree(g, t) && t.Anc(u, v) && t.Anc(v, w)
    ensures t.Anc(u, w)
  {
    if t.num[u] == t.num[v] {
      SameNumber(g, t, u, v);
    } else {
      assert Within(t, {}, u, v);
      assert t.End({}, v) == t.last[v];
    }
  }

  lemma SelfAncestor(g: FlowGraph, t: DfsTree, v: int)
    requires IsDfsTree(g, t) && t.Reached(v)
    ensures t.Anc(v, v)
  {
    assert t.End({}, v) == t.last[v];
  }

  lemma SameNumber(g: FlowGraph, t: DfsTree, u: int, v: int)
    requires Numbered(g, t) && t.Reached(u) && t.Reached(v) && t.num[u] == t.num[v]
    ensures u == v
  {
  }

  lemma ParentIsAncestor(g: FlowGraph, t: DfsTree, v: int)
    requires IsDfsTree(g, t) && t.Reached(v) && v != 0
    ensures t.num[v] > 0
    ensures t.Anc(t.parent[v], v) && t.num[t.parent[v]] < t.num[v] && g.Edge(t.parent[v], v)
    ensures forall u :: t.Anc(u, v) && u != v ==> t.Anc(u, t.parent[v])
  {
    if t.num[v] == 0 {
      SameNumber(g, t, v, 0);
    }
    forall u | t.Anc(u, v) && u != v
      ensures t.Anc(u, t.parent[v])
    {
      if t.num[u] == t.num[v] {
        SameNumber(g, t, u, v);
      } else {
        assert Within(t, {}, u, v);
      }
    }
  }

  lemma RootIsAncestor(g: FlowGraph, t: DfsTree, v: int)
    requires IsDfsTree(g, t) && t.Reached(v)
    ensures t.Anc(0, v)
    decreases t.num[v]
  {
    SelfAncestor(g, t, v);
    if v != 0 {
      ParentIsAncestor(g, t, v);
      RootIsAncestor(g, t, t.parent[v]);
      AncestorsAreNested(g, t, 0, t.parent[v], v);
    }
  }

  /** The tree path from an ancestor down to `v`. */
  ghost function TreePath(g: FlowGraph, t: DfsTree, u: int, v: int): seq<int>
    requires IsDfsTree(g, t) && t.Anc(u, v)
    decreases t.num[v]
  {
    if u == v then [v]
    else
      ParentIsAncestor(g, t, v);
      TreePath(g, t, u, t.parent[v]) + [v]
  }

  /** The tree path is a path, and it visits only vertices between its ends. */
  lemma {:induction false} TreePathIsPath(g: FlowGraph, t: DfsTree, u: int, v: int)
    requires IsDfsTree(g, t) && t.Anc(u, v)
    ensures PathBetween(g, u, v, TreePath(g, t, u, v))
    ensures forall x :: x in TreePath(g, t, u, v) ==> t.Anc(u, x) && t.Anc(x, v)
    decreases t.num[v]
  {
    SelfAncestor(g, t, v);
    if u != v {
      var p := t.parent[v];
      ParentIsAncestor(g, t, v);
      TreePathIsPath(g, t, u, p);
      ExtendPath(g, TreePath(g, t, u, p), v);
      forall x | x in TreePath(g, t, u, p)
        ensures t.Anc(x, v)
      {
        AncestorsAreNested(g, t, x, p, v);
      }
    }
  }

  // ---------------------------------------------------------------- paths and numbers

  /** The number of a vertex is at least `b` all along `p`. */
  ghost predicate AllAtLeast(t: DfsTree, p: seq<int>, b: int) {
    forall i :: 0 <= i < |p| ==> t.Reached(p[i]) && t.num[p[i]] >= b
  }

  /** The key fact about depth-first search: a path that never goes below its first vertex
      stays inside that vertex's subtree. */
  lemma {:induction false} StaysInSubtree(g: FlowGraph, t: DfsTree, p: seq<int>)
    requires IsDfsTree(g, t) && IsPath(g, p)
    requires AllAtLeast(t, p, t.num[p[0]])
    requires t.Reached(p[0])
    ensures t.Anc(p[0], Last(p))
    decreases |p|
  {
    SelfAncestor(g, t, p[0]);
    if |p| > 1 {
      var q := p[..|p| - 1];
      SubPath(g, p, 0, |p| - 2);
      assert q == p[0..|p| - 2 + 1];
      StaysInSubtree(g, t, q);
      var x, y := Last(q), Last(p);
      assert x == p[|p| - 2] && g.Edge(p[|p| - 2], p[|p| - 2 + 1]);
      assert t.num[y] < t.last[x];
      if x != p[0] {
        assert Within(t, {}, p[0], x);
        assert t.End({}, x) == t.last[x];
      }
    }
  }

  /** The first position in `p[i..]` whose vertex has the least number there. */
  lemma LeastNumberAt(t: DfsTree, p: seq<int>, i: int) returns (m: int)
    requires 0 <= i < |p|
    requires forall k :: i <= k < |p| ==> t.Reached(p[k])
    ensures i <= m < |p| && t.Reached(p[m])
    ensures forall k :: i <= k < |p| ==> t.Reached(p[k]) && t.num[p[m]] <= t.num[p[k]]
    ensures forall k :: i <= k < m ==> t.Reached(p[k]) && t.num[p[m]] < t.num[p[k]]
    decreases |p| - i
  {
    m := i;
    var j := i + 1;
    while j < |p|
      invariant i <= m < j <= |p|
      invariant forall k :: i <= k < j ==> t.num[p[m]] <= t.num[p[k]]
      invariant forall k :: i <= k < m ==> t.num[p[m]] < t.num[p[k]]
    {
      if t.num[p[j]] < t.num[p[m]] {
        m := j;
      }
      j := j + 1;
    }
  }

  lemma {:induction false} ReachedIsClosed(g: FlowGraph, t: DfsTree, p: seq<int>)
    requires IsDfsTree(g, t) && IsPath(g, p) && t.Reached(p[0])
    ensures forall i :: 0 <= i < |p| ==> t.Reached(p[i])
    decreases |p|
  {
    if |p| > 1 {
      SubPath(g, p, 0, |p| - 2);
      assert p[..|p| - 1] == p[0..|p| - 2 + 1];
      ReachedIsClosed(g, t, p[..|p| - 1]);
      forall i | 0 <= i < |p|
        ensures t.Reached(p[i])
      {
        if i < |p| - 1 {
          assert p[i] == p[..|p| - 1][i];
        } else {
          assert p[|p| - 2] == p[..|p| - 1][|p| - 2];
          assert g.Edge(p[|p| - 2], p[|p| - 2 + 1]);
        }
      }
    }
  }
}

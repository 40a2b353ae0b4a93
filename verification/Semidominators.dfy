/** Semidominators of a depth-first tree, and what they say about dominators
    (Lengauer and Tarjan, TOPLAS 1979, Theorems 2 and 4). */
module Semidominators {
  import opened FlowGraphs
  import opened DfsTrees

  /** A path into `w` from a discovered vertex whose interior vertices are all numbered above `w`. */
  ghost predicate SemiPath(g: FlowGraph, t: DfsTree, w: int, p: seq<int>) {
    && IsPath(g, p)
    && |p| >= 2
    && t.Reached(p[0]) && t.Reached(w)
    && Last(p) == w
    && forall i {:trigger p[i]} :: 0 < i < |p| - 1 ==> t.Reached(p[i]) && t.num[p[i]] > t.num[w]
  }

  ghost predicate StartsSemiPath(g: FlowGraph, t: DfsTree, s: int, w: int) {
    exists p :: SemiPath(g, t, w, p) && p[0] == s
  }

  /** No path of that kind into `w` starts below number `b`. */
  ghost predicate BoundsSemiPaths(g: FlowGraph, t: DfsTree, b: int, w: int) {
    forall p :: SemiPath(g, t, w, p) ==> b <= t.num[p[0]]
  }

  /** `s` is the least-numbered vertex that starts such a path into `w`. */
  ghost predicate IsSemi(g: FlowGraph, t: DfsTree, s: int, w: int) {
    StartsSemiPath(g, t, s, w) && t.Reached(s) && BoundsSemiPaths(g, t, t.num[s], w)
  }

  /** `semi` is right for every vertex numbered above `bound`. */
  ghost predicate SemiAbove(g: FlowGraph, t: DfsTree, semi: seq<int>, bound: int)
    requires Sized(g, t)
  {
    && |semi| == g.Size()
    && forall v {:trigger semi[v]} :: t.Reached(v) && t.num[v] > bound ==> IsSemi(g, t, semi[v], v)
  }

  /** `semi[v]` is the semidominator of every discovered vertex `v` except the root. */
  ghost predicate SemiExact(g: FlowGraph, t: DfsTree, semi: seq<int>)
    requires Sized(g, t)
  {
    SemiAbove(g, t, semi, 0)
  }

  lemma EdgeIsSemiPath(g: FlowGraph, t: DfsTree, v: int, w: int)
    requires t.Reached(v) && t.Reached(w) && g.Edge(v, w)
    ensures StartsSemiPath(g, t, v, w)
  {
    var p := [v, w];
    assert SemiPath(g, t, w, p) && p[0] == v;
  }

  /** A semidominator of a vertex numbered above `w` reaches `w` through that vertex's subtree. */
  lemma InheritSemiPath(g: FlowGraph, t: DfsTree, s: int, u: int, v: int, w: int)
    requires IsDfsTree(g, t) && t.Reached(w)
    requires g.Edge(v, w) && t.Anc(u, v) && t.num[u] > t.num[w]
    requires StartsSemiPath(g, t, s, u)
    ensures StartsSemiPath(g, t, s, w)
  {
    var p :| SemiPath(g, t, u, p) && p[0] == s;
    var down := TreePath(g, t, u, v);
    TreePathIsPath(g, t, u, v);
    JoinPaths(g, p, down);
    var q := p + down[1..];
    ExtendPath(g, q, w);
    var r := q + [w];
    forall i | 0 < i < |r| - 1
      ensures t.Reached(r[i]) && t.num[r[i]] > t.num[w]
    {
      if i < |p| {
        assert r[i] == p[i];
      } else {
        assert r[i] == down[i - |p| + 1];
        assert down[i - |p| + 1] in down;
      }
    }
    assert SemiPath(g, t, w, r) && r[0] == s;
  }

  /** `b` is no larger than anything a predecessor `v` of `w` contributes: `v` itself when it is
      numbered below `w`, and the semidominators of the ancestors of `v` numbered above `w`. */
  ghost predicate BoundsPredecessor(t: DfsTree, semi: seq<int>, b: int, v: int, w: int)
    requires |semi| == |t.num| == |t.last| && t.Reached(v) && t.Reached(w)
  {
    && (t.num[v] < t.num[w] ==> b <= t.num[v])
    && forall u {:trigger semi[u]} :: t.Anc(u, v) && t.num[u] > t.num[w] && t.Reached(semi[u]) ==> b <= t.num[semi[u]]
  }

  /** The lowest interior vertex of a semipath into `w` is an ancestor of the last one, and the
      part of the path that leads to it is a semipath too. */
  lemma LowestInterior(g: FlowGraph, t: DfsTree, w: int, p: seq<int>) returns (u: int)
    requires IsDfsTree(g, t) && SemiPath(g, t, w, p) && |p| > 2
    ensures t.Anc(u, p[|p| - 2]) && t.num[u] > t.num[w]
    ensures StartsSemiPath(g, t, p[0], u)
  {
    var inner := p[1..|p| - 2 + 1];
    SubPath(g, p, 1, |p| - 2);
    assert forall k :: 0 <= k < |inner| ==> inner[k] == p[k + 1];
    var m := LeastNumberAt(t, inner, 0);
    u := inner[m];
    var tail := inner[m..|inner| - 1 + 1];
    SubPath(g, inner, m, |inner| - 1);
    assert forall k :: 0 <= k < |tail| ==> tail[k] == inner[m + k];
    StaysInSubtree(g, t, tail);
    HeadIsSemiPath(g, t, p, m + 1);
  }

  /** A path up to a vertex numbered below all that come after its start is a semipath. */
  lemma HeadIsSemiPath(g: FlowGraph, t: DfsTree, p: seq<int>, k: int)
    requires IsPath(g, p) && 0 < k < |p| && t.Reached(p[0]) && t.Reached(p[k])
    requires forall i {:trigger p[i]} :: 0 < i < k ==> t.Reached(p[i]) && t.num[p[i]] > t.num[p[k]]
    ensures StartsSemiPath(g, t, p[0], p[k])
  {
    var head := p[0..k + 1];
    SubPath(g, p, 0, k);
    assert forall i :: 0 <= i < |head| ==> head[i] == p[i];
    assert SemiPath(g, t, p[k], head) && head[0] == p[0];
  }

  /** Theorem 4: a bound on what every predecessor contributes is a bound on every semipath. */
  lemma PredecessorsBoundSemiPaths(g: FlowGraph, t: DfsTree, semi: seq<int>, b: int, w: int)
    requires IsDfsTree(g, t) && t.Reached(w)
    requires SemiAbove(g, t, semi, t.num[w])
    requires b <= t.num[w]
    requires forall v {:trigger g.Edge(v, w)} :: t.Reached(v) && g.Edge(v, w) ==> BoundsPredecessor(t, semi, b, v, w)
    ensures BoundsSemiPaths(g, t, b, w)
  {
    forall p | SemiPath(g, t, w, p)
      ensures b <= t.num[p[0]]
    {
      var v := p[|p| - 2];
      assert g.Edge(p[|p| - 2], p[|p| - 2 + 1]);
      assert g.Edge(v, w) && t.Reached(v);
      if |p| > 2 {
        var u := LowestInterior(g, t, w, p);
        assert IsSemi(g, t, semi[u], u);
        var head :| SemiPath(g, t, u, head) && head[0] == p[0];
        assert t.num[semi[u]] <= t.num[p[0]];
      }
    }
  }

  /** A semidominator is a proper tree ancestor, no deeper than the parent. */
  lemma SemiIsAncestor(g: FlowGraph, t: DfsTree, s: int, w: int)
    requires IsDfsTree(g, t) && t.Reached(w) && w != 0
    requires IsSemi(g, t, s, w)
    ensures t.Anc(s, w) && t.num[s] < t.num[w]
    ensures t.Reached(t.parent[w]) && t.num[s] <= t.num[t.parent[w]]
    ensures t.Anc(s, t.parent[w])
  {
    ParentIsAncestor(g, t, w);
    EdgeIsSemiPath(g, t, t.parent[w], w);
    var q :| SemiPath(g, t, w, q) && q[0] == t.parent[w];
    var p :| SemiPath(g, t, w, p) && p[0] == s;
    forall i | 0 <= i < |p|
      ensures t.Reached(p[i]) && t.num[p[i]] >= t.num[s]
    {
      assert i == 0 || i == |p| - 1 || 0 < i < |p| - 1;
    }
    StaysInSubtree(g, t, p);
  }

  // ---------------------------------------------------------------- dominators

  /** No vertex below `d` on the tree path from `d` down to `v` has a semidominator above `d`. */
  ghost predicate NothingBypasses(t: DfsTree, semi: seq<int>, d: int, v: int)
    requires |semi| == |t.num| == |t.last| && t.Reached(d) && t.Reached(v)
  {
    forall u {:trigger semi[u]} :: t.Anc(u, v) && t.num[u] > t.num[d] && t.Reached(semi[u]) ==>
        t.num[semi[u]] >= t.num[d]
  }

  /** Every vertex on the tree path from `semi[v]` (exclusive) down to `v` has a semidominator
      no lower than that of `v`. */
  ghost predicate NoneBypasses(t: DfsTree, semi: seq<int>, v: int)
    requires |semi| == |t.num| == |t.last| && t.Reached(v) && t.Reached(semi[v])
  {
    NothingBypasses(t, semi, semi[v], v)
  }

  /** The position of the last vertex of `p` numbered below `b`. */
  lemma LastBelow(t: DfsTree, p: seq<int>, b: int) returns (i: int)
    requires |p| > 0 && forall k :: 0 <= k < |p| ==> t.Reached(p[k])
    requires t.Reached(p[0]) && t.num[p[0]] < b
    ensures 0 <= i < |p| && t.Reached(p[i]) && t.num[p[i]] < b
    ensures forall k :: i < k < |p| ==> t.Reached(p[k]) && t.num[p[k]] >= b
  {
    i := |p| - 1;
    while t.num[p[i]] >= b
      invariant 0 <= i < |p|
      invariant forall k :: i < k < |p| ==> t.num[p[k]] >= b
      decreases i
    {
      i := i - 1;
    }
  }

  /** The first position after `i` whose vertex lies on the tree path from `s` to `v`. */
  lemma FirstOnTreePath(t: DfsTree, p: seq<int>, i: int, s: int, v: int) returns (j: int)
    requires |t.last| == |t.num| && 0 <= i < |p| - 1
    requires Last(p) == v && t.Anc(s, v) && t.Anc(v, v)
    ensures i < j < |p| && t.Anc(s, p[j]) && t.Anc(p[j], v)
    ensures forall k :: i < k < j ==> !(t.Anc(s, p[k]) && t.Anc(p[k], v))
  {
    j := i + 1;
    while !(t.Anc(s, p[j]) && t.Anc(p[j], v))
      invariant i < j < |p|
      invariant forall k :: i < k < j ==> !(t.Anc(s, p[k]) && t.Anc(p[k], v))
      decreases |p| - j
    {
      assert j != |p| - 1;
      j := j + 1;
    }
  }

  /** From the last vertex below `s` to the first later one on the tree path from `s` to `v`,
      a path stays above the number where it arrives. */
  lemma FirstEntryIsSemiPath(g: FlowGraph, t: DfsTree, s: int, v: int, p: seq<int>, i: int, j: int)
    requires IsDfsTree(g, t) && IsPath(g, p)
    requires 0 <= i < j < |p| && forall k :: 0 <= k < |p| ==> t.Reached(p[k])
    requires t.Anc(s, v) && t.Anc(s, p[j]) && t.Anc(p[j], v)
    requires forall k :: i < k < |p| ==> t.num[p[k]] >= t.num[s]
    requires forall k :: i < k < j ==> !(t.Anc(s, p[k]) && t.Anc(p[k], v))
    ensures SemiPath(g, t, p[j], p[i..j + 1])
  {
    var hop := p[i..j + 1];
    SubPath(g, p, i, j);
    assert forall k :: 0 <= k < |hop| ==> hop[k] == p[i + k];
    forall k | 0 < k < |hop| - 1
      ensures t.num[hop[k]] > t.num[p[j]]
    {
      StaysAboveEntry(g, t, s, v, hop, k);
    }
  }

  lemma StaysAboveEntry(g: FlowGraph, t: DfsTree, s: int, v: int, hop: seq<int>, k: int)
    requires IsDfsTree(g, t) && IsPath(g, hop)
    requires 0 < k < |hop| - 1 && forall l :: 0 <= l < |hop| ==> t.Reached(hop[l])
    requires t.Anc(s, v) && t.Anc(Last(hop), v)
    requires forall l :: 0 < l < |hop| ==> t.num[hop[l]] >= t.num[s]
    requires forall l :: 0 < l < |hop| - 1 ==> !(t.Anc(s, hop[l]) && t.Anc(hop[l], v))
    ensures t.num[hop[k]] > t.num[Last(hop)]
  {
    var m := LeastNumberAt(t, hop, k);
    var tail := hop[m..|hop| - 1 + 1];
    SubPath(g, hop, m, |hop| - 1);
    assert forall l :: 0 <= l < |tail| ==> tail[l] == hop[m + l];
    StaysInSubtree(g, t, tail);
    AncestorsAreNested(g, t, hop[m], Last(hop), v);
    assert t.Anc(s, hop[m]);
    assert m == |hop| - 1;
  }

  lemma EntersThrough(g: FlowGraph, t: DfsTree, semi: seq<int>, d: int, v: int, p: seq<int>)
    requires IsDfsTree(g, t) && SemiExact(g, t, semi)
    requires t.Anc(d, v) && 0 < t.num[d] && NothingBypasses(t, semi, d, v)
    requires PathBetween(g, 0, v, p) && forall k :: 0 <= k < |p| ==> t.Reached(p[k])
    ensures d in p
  {
    SelfAncestor(g, t, v);
    var i := LastBelow(t, p, t.num[d]);
    var j := FirstOnTreePath(t, p, i, d, v);
    FirstEntryIsSemiPath(g, t, d, v, p, i, j);
    var y := p[j];
    assert IsSemi(g, t, semi[y], y);
    assert t.num[semi[y]] <= t.num[p[i..j + 1][0]] < t.num[d];
    assert t.num[y] <= t.num[d];
    SameNumber(g, t, y, d);
  }

  /** A way from the entry into `u` along the tree to a semipath start `s` and then down it. */
  lemma DetourPath(g: FlowGraph, t: DfsTree, s: int, u: int, v: int) returns (p: seq<int>)
    requires IsDfsTree(g, t) && t.Reached(s) && t.Anc(u, v)
    requires StartsSemiPath(g, t, s, u)
    ensures PathBetween(g, 0, v, p)
    ensures forall x :: x in p ==> t.Reached(x) && (t.Anc(x, s) || t.num[x] > t.num[u] || x == u)
  {
    RootIsAncestor(g, t, s);
    var a := TreePath(g, t, 0, s);
    TreePathIsPath(g, t, 0, s);
    var b :| SemiPath(g, t, u, b) && b[0] == s;
    JoinPaths(g, a, b);
    var c := TreePath(g, t, u, v);
    TreePathIsPath(g, t, u, v);
    var ab := a + b[1..];
    JoinPaths(g, ab, c);
    p := ab + c[1..];
    forall x | x in p
      ensures t.Reached(x) && (t.Anc(x, s) || t.num[x] > t.num[u] || x == u)
    {
      if x in a {
      } else if x in b[1..] {
        var k :| 1 <= k < |b| && b[k] == x;
      } else {
        assert x in c;
        if t.num[x] == t.num[u] {
          SameNumber(g, t, x, u);
        }
      }
    }
  }

  /** A dominator of `v` is a tree ancestor of `v`. */
  lemma DominatorIsAncestor(g: FlowGraph, t: DfsTree, d: int, v: int)
    requires IsDfsTree(g, t) && t.Reached(v) && Dominates(g, d, v)
    ensures t.Anc(d, v)
  {
    RootIsAncestor(g, t, v);
    TreePathIsPath(g, t, 0, v);
    assert d in TreePath(g, t, 0, v);
  }

  /** Dominance read off the semidominators: an ancestor `d` of `v` dominates `v` exactly when no
      vertex below `d` on the way down to `v` has a semidominator above `d`. */
  lemma DominatesExactly(g: FlowGraph, t: DfsTree, semi: seq<int>, d: int, v: int)
    requires IsDfsTree(g, t) && SemiExact(g, t, semi) && t.Anc(d, v)
    ensures Dominates(g, d, v) <==> NothingBypasses(t, semi, d, v)
  {
    if NothingBypasses(t, semi, d, v) {
      forall p | PathBetween(g, 0, v, p)
        ensures d in p
      {
        ReachedIsClosed(g, t, p);
        if t.num[d] == 0 {
          SameNumber(g, t, d, 0);
        } else {
          EntersThrough(g, t, semi, d, v, p);
        }
      }
    } else {
      var u :| t.Anc(u, v) && t.num[u] > t.num[d] && t.Reached(semi[u]) && t.num[semi[u]] < t.num[d];
      assert IsSemi(g, t, semi[u], u);
      var p := DetourPath(g, t, semi[u], u, v);
      assert d !in p;
    }
  }

  /** A dominator of `v` above another ancestor of `v` dominates that one too. */
  lemma DominatorsNest(g: FlowGraph, t: DfsTree, e: int, d: int, v: int)
    requires IsDfsTree(g, t) && t.Anc(e, d) && t.Anc(d, v) && Dominates(g, e, v)
    ensures Dominates(g, e, d)
  {
    var down := TreePath(g, t, d, v);
    TreePathIsPath(g, t, d, v);
    forall p | PathBetween(g, 0, d, p)
      ensures e in p
    {
      JoinPaths(g, p, down);
      assert e in p + down[1..];
      if e in down {
        SameNumber(g, t, e, d);
      }
    }
  }

  /** The immediate dominator read off the semidominators: the deepest proper ancestor that nothing
      bypasses. */
  lemma ImmediateExactly(g: FlowGraph, t: DfsTree, semi: seq<int>, d: int, v: int)
    requires IsDfsTree(g, t) && SemiExact(g, t, semi) && t.Anc(d, v) && d != v
    ensures IsImmediateDominator(g, d, v) <==>
              && NothingBypasses(t, semi, d, v)
              && forall e :: t.Anc(d, e) && t.Anc(e, v) && e != d && e != v ==> !NothingBypasses(t, semi, e, v)
  {
    DominatesExactly(g, t, semi, d, v);
    hide NothingBypasses;
    if IsImmediateDominator(g, d, v) {
      forall e | t.Anc(d, e) && t.Anc(e, v) && e != d && e != v
        ensures !NothingBypasses(t, semi, e, v)
      {
        DominatesExactly(g, t, semi, e, v);
        if Dominates(g, e, v) {
          DominatorIsAncestor(g, t, e, d);
          SameNumber(g, t, e, d);
        }
      }
    } else if Dominates(g, d, v) {
      var e :| Dominates(g, e, v) && e != v && !Dominates(g, e, d);
      DominatorIsAncestor(g, t, e, v);
      DominatesExactly(g, t, semi, e, v);
      if t.num[e] <= t.num[d] {
        DominatorsNest(g, t, e, d, v);
      }
      assert Dominates(g, d, d) by {
        SelfDominates(g, d);
      }
      assert t.Anc(d, e) && e != d;
    }
  }

  lemma SelfDominates(g: FlowGraph, v: int)
    ensures Dominates(g, v, v)
  {
    forall p | PathBetween(g, 0, v, p)
      ensures v in p
    {
      assert Last(p) in p;
    }
  }

  /** No proper dominator of `v` is deeper than `semi[v]`. */
  lemma DominatorsAboveSemi(g: FlowGraph, t: DfsTree, s: int, d: int, v: int)
    requires IsDfsTree(g, t) && t.Reached(v) && v != 0 && IsSemi(g, t, s, v)
    requires Dominates(g, d, v) && d != v
    ensures t.Anc(d, s)
  {
    DominatorIsAncestor(g, t, d, v);
    SelfAncestor(g, t, v);
    var p := DetourPath(g, t, s, v, v);
    assert d in p;
  }

  /** Being dominated carries over to `semi[v]`. */
  lemma DominatorsReachSemi(g: FlowGraph, t: DfsTree, s: int, d: int, v: int)
    requires IsDfsTree(g, t) && t.Reached(v) && v != 0 && IsSemi(g, t, s, v)
    requires Dominates(g, d, v) && d != v
    ensures Dominates(g, d, s)
  {
    DominatorsAboveSemi(g, t, s, d, v);
    SemiIsAncestor(g, t, s, v);
    DominatorsNest(g, t, d, s, v);
  }

  /** The branch test is exact: `semi[v]` is the immediate dominator of `v` precisely when no
      vertex between them has a lower semidominator. */
  lemma SemiIsImmediateDominatorExactly(g: FlowGraph, t: DfsTree, semi: seq<int>, v: int)
    requires IsDfsTree(g, t) && SemiExact(g, t, semi)
    requires t.Reached(v) && v != 0 && t.Reached(semi[v])
    ensures NoneBypasses(t, semi, v) <==> IsImmediateDominator(g, semi[v], v)
  {
    ParentIsAncestor(g, t, v);
    SemiIsAncestor(g, t, semi[v], v);
    DominatesExactly(g, t, semi, semi[v], v);
    forall e | Dominates(g, e, v) && e != v
      ensures Dominates(g, e, semi[v])
    {
      DominatorsReachSemi(g, t, semi[v], e, v);
    }
  }

  /** A proper dominator of `v` is a tree ancestor of every semidominator met on the way from
      `semi[v]` down to `v`. */
  lemma DominatorsAboveChain(g: FlowGraph, t: DfsTree, semi: seq<int>, u: int, d: int, v: int)
    requires IsDfsTree(g, t) && SemiExact(g, t, semi)
    requires t.Reached(v) && v != 0 && t.Reached(semi[v])
    requires t.Anc(u, v) && t.num[u] > t.num[semi[v]]
    requires Dominates(g, d, v) && d != v
    ensures t.Anc(d, semi[u])
  {
    ParentIsAncestor(g, t, v);
    DominatorsAboveSemi(g, t, semi[v], d, v);
    assert IsSemi(g, t, semi[u], u);
    var p := DetourPath(g, t, semi[u], u, v);
    assert d in p;
  }
}

/** The link/eval forest with path compression, seen against the tree it compresses. */
module LinkForests {
  import opened FlowGraphs
  import opened DfsTrees

  function Min(a: int, b: int): int {
    if a < b then a else b
  }

  ghost predicate SemiInTree(g: FlowGraph, t: DfsTree, semi: seq<int>) {
    && Sized(g, t) && |semi| == g.Size()
    && forall v {:trigger semi[v]} :: t.Reached(v) ==> t.Reached(semi[v])
  }

  // ---------------------------------------------------------------- the uncompressed walk

  /** Vertices numbered above `bound` have been linked to their tree parents; walking those links
      from `v` ends at this root. */
  ghost function WalkRoot(g: FlowGraph, t: DfsTree, bound: int, v: int): (r: int)
    requires IsDfsTree(g, t) && t.Reached(v) && bound >= 0
    ensures t.Reached(r) && t.num[r] <= bound
    decreases t.num[v]
  {
    if t.num[v] <= bound then v
    else
      ParentIsAncestor(g, t, v);
      WalkRoot(g, t, bound, t.parent[v])
  }

  /** The least semidominator number met on that walk, the root included. */
  ghost function WalkMin(g: FlowGraph, t: DfsTree, semi: seq<int>, bound: int, v: int): int
    requires IsDfsTree(g, t) && SemiInTree(g, t, semi) && t.Reached(v) && bound >= 0
    decreases t.num[v]
  {
    if t.num[v] <= bound then t.num[semi[v]]
    else
      ParentIsAncestor(g, t, v);
      Min(t.num[semi[v]], WalkMin(g, t, semi, bound, t.parent[v]))
  }

  /** The walk visits exactly the ancestors of `v` from the root down. */
  lemma {:induction false} WalkRootIsAncestor(g: FlowGraph, t: DfsTree, bound: int, v: int)
    requires IsDfsTree(g, t) && t.Reached(v) && bound >= 0
    ensures t.Anc(WalkRoot(g, t, bound, v), v)
    ensures forall x {:trigger t.Anc(x, v)} :: t.Anc(x, v) && t.num[x] > t.num[WalkRoot(g, t, bound, v)] ==>
              t.num[x] > bound
    decreases t.num[v]
  {
    SelfAncestor(g, t, v);
    if t.num[v] > bound {
      ParentIsAncestor(g, t, v);
      WalkRootIsAncestor(g, t, bound, t.parent[v]);
      AncestorsAreNested(g, t, WalkRoot(g, t, bound, t.parent[v]), t.parent[v], v);
    }
  }

  lemma {:induction false} WalkMinIsLeast(g: FlowGraph, t: DfsTree, semi: seq<int>, bound: int, v: int)
    requires IsDfsTree(g, t) && SemiInTree(g, t, semi) && t.Reached(v) && bound >= 0
    ensures forall x {:trigger t.Anc(x, v)} :: t.Anc(x, v) && t.num[x] >= t.num[WalkRoot(g, t, bound, v)] ==>
              WalkMin(g, t, semi, bound, v) <= t.num[semi[x]]
    decreases t.num[v]
  {
    if t.num[v] > bound {
      ParentIsAncestor(g, t, v);
      WalkMinIsLeast(g, t, semi, bound, t.parent[v]);
    } else {
      forall x | t.Anc(x, v) && t.num[x] >= t.num[v]
        ensures x == v
      {
        SameNumber(g, t, x, v);
      }
    }
  }

  lemma {:induction false} WalkMinIsAttained(g: FlowGraph, t: DfsTree, semi: seq<int>, bound: int, v: int)
    returns (u: int)
    requires IsDfsTree(g, t) && SemiInTree(g, t, semi) && t.Reached(v) && bound >= 0
    ensures t.Anc(u, v) && t.num[u] >= t.num[WalkRoot(g, t, bound, v)]
            && t.num[semi[u]] == WalkMin(g, t, semi, bound, v)
    decreases t.num[v]
  {
    u := v;
    SelfAncestor(g, t, v);
    WalkRootIsAncestor(g, t, bound, v);
    if t.num[v] > bound {
      ParentIsAncestor(g, t, v);
      var u' := WalkMinIsAttained(g, t, semi, bound, t.parent[v]);
      AncestorsAreNested(g, t, u', t.parent[v], v);
      if t.num[semi[u']] < t.num[semi[v]] {
        u := u';
      }
    }
  }

  // ---------------------------------------------------------------- the compressed forest

  /** `l` is a vertex with the least semidominator among the ancestors of `v` strictly below `a`. */
  ghost predicate LeastBelow(t: DfsTree, semi: seq<int>, a: int, v: int, l: int)
    requires |semi| == |t.num| == |t.last|
  {
    && t.Anc(a, v) && t.num[a] < t.num[v]
    && t.Anc(l, v) && t.num[a] < t.num[l]
    && t.Reached(semi[l])
    && forall x {:trigger t.Anc(x, v)} :: t.Anc(x, v) && t.num[x] > t.num[a] && t.Reached(semi[x]) ==>
         t.num[semi[l]] <= t.num[semi[x]]
  }

  /** A linked vertex: everything between it and its compressed ancestor is linked, and its label
      stands for the whole stretch. */
  ghost predicate LinkedAt(t: DfsTree, semi: seq<int>, bound: int, a: int, l: int, v: int)
    requires |semi| == |t.num| == |t.last|
  {
    && LeastBelow(t, semi, a, v, l)
    && forall x {:trigger t.Anc(x, v)} :: t.Anc(x, v) && t.num[x] > t.num[a] ==> t.num[x] > bound
  }

  ghost predicate Forest(g: FlowGraph, t: DfsTree, semi: seq<int>, ancestor: seq<int>, best: seq<int>, bound: int) {
    && IsDfsTree(g, t) && SemiInTree(g, t, semi) && bound >= 0
    && |ancestor| == |best| == g.Size()
    && (forall v {:trigger ancestor[v]} {:trigger best[v]} :: t.Reached(v) && t.num[v] <= bound ==>
         ancestor[v] < 0 && best[v] == v)
    && (forall v {:trigger LinkedAt(t, semi, bound, ancestor[v], best[v], v)} :: t.Reached(v) && t.num[v] > bound ==>
          LinkedAt(t, semi, bound, ancestor[v], best[v], v))
  }

  /** Two adjoining stretches make one. */
  lemma JoinStretches(g: FlowGraph, t: DfsTree, semi: seq<int>, bound: int, a: int, m: int, v: int, la: int, lv: int)
    requires IsDfsTree(g, t) && SemiInTree(g, t, semi)
    requires LinkedAt(t, semi, bound, m, lv, v) && LinkedAt(t, semi, bound, a, la, m)
    ensures LinkedAt(t, semi, bound, a, if t.num[semi[la]] < t.num[semi[lv]] then la else lv, v)
  {
    AncestorsAreNested(g, t, a, m, v);
    AncestorsAreNested(g, t, la, m, v);
    forall x | t.Anc(x, v) && t.num[x] > t.num[a] && t.num[x] <= t.num[m]
      ensures t.Anc(x, m)
    {
      AncestorsOnOneLine(g, t, x, m, v);
    }
  }

  lemma AncestorsOnOneLine(g: FlowGraph, t: DfsTree, x: int, y: int, v: int)
    requires IsDfsTree(g, t) && t.Anc(x, v) && t.Anc(y, v) && t.num[x] <= t.num[y]
    ensures t.Anc(x, y)
  {
  }

  /** The label of a linked vertex and the label of its compressed root give the answer of the walk. */
  lemma LabelsGiveWalkMin(g: FlowGraph, t: DfsTree, semi: seq<int>, bound: int, r: int, l: int, v: int)
    requires IsDfsTree(g, t) && SemiInTree(g, t, semi) && t.Reached(v) && bound >= 0
    requires LinkedAt(t, semi, bound, r, l, v) && t.num[r] <= bound
    ensures WalkRoot(g, t, bound, v) == r
    ensures WalkMin(g, t, semi, bound, v) == Min(t.num[semi[l]], t.num[semi[r]])
  {
    var r' := WalkRoot(g, t, bound, v);
    WalkRootIsAncestor(g, t, bound, v);
    assert t.num[r] == t.num[r'];
    SameNumber(g, t, r, r');
    WalkMinIsLeast(g, t, semi, bound, v);
    var u := WalkMinIsAttained(g, t, semi, bound, v);
    if t.num[u] == t.num[r] {
      SameNumber(g, t, u, r);
    }
  }

  lemma LinkedIgnoresUnlinked(g: FlowGraph, t: DfsTree, semi: seq<int>, bound: int, a: int, l: int, v: int, w: int,
                              s: int)
    requires Sized(g, t) && SemiInTree(g, t, semi)
    requires t.Reached(w) && t.num[w] <= bound && t.Reached(s)
    requires LinkedAt(t, semi, bound, a, l, v)
    ensures LinkedAt(t, semi[w := s], bound, a, l, v)
  {
    var semi' := semi[w := s];
    assert t.num[l] > bound;
    forall x | t.Anc(x, v) && t.num[x] > t.num[a]
      ensures semi'[x] == semi[x]
    {
    }
  }

  /** A semidominator of an unlinked vertex may change freely. */
  lemma ForestIgnoresUnlinked(g: FlowGraph, t: DfsTree, semi: seq<int>, ancestor: seq<int>, best: seq<int>,
                              bound: int, w: int, s: int)
    requires Forest(g, t, semi, ancestor, best, bound)
    requires t.Reached(w) && t.num[w] <= bound && t.Reached(s)
    ensures Forest(g, t, semi[w := s], ancestor, best, bound)
  {
    var semi' := semi[w := s];
    assert SemiInTree(g, t, semi');
    forall v | t.Reached(v) && t.num[v] > bound
      ensures LinkedAt(t, semi', bound, ancestor[v], best[v], v)
    {
      LinkedIgnoresUnlinked(g, t, semi, bound, ancestor[v], best[v], v, w, s);
    }
  }

  /** Linking the highest-numbered unlinked vertex to its tree parent. */
  lemma LinkKeepsForest(g: FlowGraph, t: DfsTree, semi: seq<int>, ancestor: seq<int>, best: seq<int>, bound: int,
                        w: int)
    requires Forest(g, t, semi, ancestor, best, bound)
    requires bound > 0 && t.Reached(w) && t.num[w] == bound
    ensures Forest(g, t, semi, ancestor[w := t.parent[w]], best, bound - 1)
  {
    var ancestor' := ancestor[w := t.parent[w]];
    forall v | t.Reached(v) && t.num[v] > bound - 1
      ensures LinkedAt(t, semi, bound - 1, ancestor'[v], best[v], v)
    {
      if v == w {
        LinkOne(g, t, semi, bound, w);
        assert best[v] == w;
      } else {
        SameNumberOr(g, t, v, w);
        assert LinkedAt(t, semi, bound, ancestor[v], best[v], v);
      }
    }
    forall v | t.Reached(v) && t.num[v] <= bound - 1
      ensures ancestor'[v] < 0 && best[v] == v
    {
      assert ancestor'[v] == ancestor[v];
    }
  }

  lemma SameNumberOr(g: FlowGraph, t: DfsTree, v: int, w: int)
    requires Numbered(g, t) && t.Reached(v) && t.Reached(w)
    ensures v == w || t.num[v] != t.num[w]
  {
  }

  lemma LinkOne(g: FlowGraph, t: DfsTree, semi: seq<int>, bound: int, w: int)
    requires IsDfsTree(g, t) && SemiInTree(g, t, semi)
    requires bound > 0 && t.Reached(w) && t.num[w] == bound
    ensures LinkedAt(t, semi, bound - 1, t.parent[w], w, w)
  {
    ParentIsAncestor(g, t, w);
    SelfAncestor(g, t, w);
    forall x | t.Anc(x, w) && t.num[x] > t.num[t.parent[w]]
      ensures x == w
    {
    }
  }

  /** The tree child of `a` on the way down to `v`. */
  lemma {:induction false} ChildToward(g: FlowGraph, t: DfsTree, a: int, v: int) returns (c: int)
    requires IsDfsTree(g, t) && t.Anc(a, v) && t.num[a] < t.num[v]
    ensures c != 0 && t.Anc(c, v) && t.parent[c] == a && t.num[a] < t.num[c]
    ensures forall x {:trigger t.Anc(x, v)} :: t.Anc(x, v) && t.num[x] > t.num[a] ==> t.num[x] >= t.num[c]
    decreases t.num[v]
  {
    ParentIsAncestor(g, t, v);
    var p := t.parent[v];
    if p == a {
      c := v;
      SelfAncestor(g, t, v);
      forall x | t.Anc(x, v) && t.num[x] > t.num[a]
        ensures x == v
      {
      }
    } else {
      SameNumberOr(g, t, p, a);
      c := ChildToward(g, t, a, p);
      AncestorsAreNested(g, t, c, p, v);
    }
  }
}

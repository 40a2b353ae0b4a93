/** The invariant of the depth-first search while some visits are still open, and the three moves
    the search makes: enter a vertex, point an undiscovered vertex at its parent, leave a vertex. */
module DfsSearches {
  import opened FlowGraphs
  import opened DfsTrees

  ghost predicate Search(g: FlowGraph, t: DfsTree, semi: seq<int>, best: seq<int>, open: set<int>) {
    && g.Valid()
    && Partial(g, t, open) && InTurn(g, t)
    && |Unseen(t)| == g.Size() - t.count
    && |semi| == |best| == g.Size()
    && forall v {:trigger semi[v]} {:trigger best[v]} :: g.HasVertex(v) ==> semi[v] == v && best[v] == v
  }

  /** What a search step may index. */
  ghost predicate InRange(g: FlowGraph, t: DfsTree, semi: seq<int>, best: seq<int>) {
    && Sized(g, t)
    && |semi| == |best| == g.Size()
    && 0 <= t.count <= g.Size()
    && |g.pred| == |g.succ|
  }

  lemma SearchInRange(g: FlowGraph, t: DfsTree, semi: seq<int>, best: seq<int>, open: set<int>)
    requires Search(g, t, semi, best, open)
    ensures InRange(g, t, semi, best)
    ensures forall a {:trigger g.At(a)} :: g.At(a) < g.Size()
    ensures forall u {:trigger t.num[u]} :: g.HasVertex(u) ==> t.num[u] < t.count
    ensures forall u :: u in open ==> g.HasVertex(u) && t.num[u] >= 0
  {
  }

  lemma SearchInTurn(g: FlowGraph, t: DfsTree, semi: seq<int>, best: seq<int>, open: set<int>)
    requires Search(g, t, semi, best, open)
    ensures Sized(g, t) && InTurn(g, t)
  {
  }

  /** `v` may be entered: it hangs below the open vertex discovered last, or it is the very first. */
  ghost predicate MayEnter(g: FlowGraph, t: DfsTree, open: set<int>, v: int)
    requires Sized(g, t)
  {
    && g.HasVertex(v) && t.num[v] < 0
    && (t.count > 0 ==> IsNewest(g, t, open, t.parent[v]) && g.Edge(t.parent[v], v) && IsNext(g, t, t.parent[v], v))
  }

  /** `w` is a successor of `v`, and everything that `v` lists before it has been discovered. */
  ghost predicate IsNext(g: FlowGraph, t: DfsTree, v: int, w: int)
    requires Sized(g, t)
  {
    g.HasVertex(v) && exists j {:trigger Scanned(g, t, v, j)} ::
      0 <= j < |g.succ[v]| && g.At(g.succ[v][j]) == w && Scanned(g, t, v, j)
  }

  /** A vertex entered in its turn keeps the order. */
  lemma EnterInTurn(g: FlowGraph, t: DfsTree, open: set<int>, v: int)
    requires Partial(g, t, open) && InTurn(g, t) && MayEnter(g, t, open, v) && t.count < g.Size()
    ensures InTurn(g, Discover(t, v))
  {
    var t' := Discover(t, v);
    forall w | t'.Reached(w) && t'.num[w] > 0 && g.HasVertex(t'.parent[w])
      ensures exists j {:trigger TurnAt(g, t', t'.parent[w], w, j)} :: TurnAt(g, t', t'.parent[w], w, j)
    {
      var p := t.parent[w];
      if w == v {
        var j :| 0 <= j < |g.succ[p]| && g.At(g.succ[p][j]) == v && Scanned(g, t, p, j);
        forall i | 0 <= i < j && g.HasVertex(g.At(g.succ[p][i]))
          ensures 0 <= t'.num[g.At(g.succ[p][i])] < t'.num[v]
        {
          assert 0 <= t.num[g.At(g.succ[p][i])] < t.count;
        }
        assert TurnAt(g, t', p, v, j);
      } else {
        assert t.Reached(w) && t.num[w] > 0;
        var j :| TurnAt(g, t, p, w, j);
        assert TurnAt(g, t', p, w, j);
      }
    }
  }

  lemma SameInTurn(g: FlowGraph, t: DfsTree, t': DfsTree)
    requires Sized(g, t) && Sized(g, t') && t'.num == t.num && InTurn(g, t)
    requires forall w :: t.Reached(w) ==> t'.parent[w] == t.parent[w]
    ensures InTurn(g, t')
  {
    forall w | t'.Reached(w) && t'.num[w] > 0 && g.HasVertex(t'.parent[w])
      ensures exists j {:trigger TurnAt(g, t', t'.parent[w], w, j)} :: TurnAt(g, t', t'.parent[w], w, j)
    {
      var j :| TurnAt(g, t, t.parent[w], w, j);
      assert TurnAt(g, t', t'.parent[w], w, j);
    }
  }

  ghost predicate IsNewest(g: FlowGraph, t: DfsTree, open: set<int>, p: int)
    requires Sized(g, t)
  {
    p in open && g.HasVertex(p) && forall u :: u in open && g.HasVertex(u) ==> t.num[u] <= t.num[p]
  }

  lemma FewerUnseen(g: FlowGraph, t: DfsTree, v: int)
    requires Numbered(g, t) && g.HasVertex(v) && t.num[v] < 0
    requires |Unseen(t)| == g.Size() - t.count
    ensures t.count < g.Size()
    ensures |Unseen(Discover(t, v))| == g.Size() - (t.count + 1)
  {
    assert v in Unseen(t);
    assert Unseen(Discover(t, v)) == Unseen(t) - {v};
  }

  lemma Enter(g: FlowGraph, t: DfsTree, semi: seq<int>, best: seq<int>, open: set<int>, v: int)
    requires Search(g, t, semi, best, open) && MayEnter(g, t, open, v)
    ensures t.count < g.Size() && v !in open
    ensures Search(g, Discover(t, v), semi[v := v], best[v := v], open + {v})
    ensures IsNewest(g, Discover(t, v), open + {v}, v)
  {
    FewerUnseen(g, t, v);
    DiscoverKeeps(g, t, open, v);
    EnterInTurn(g, t, open, v);
    hide Partial, Unseen, InTurn;
  }

  lemma Aim(g: FlowGraph, t: DfsTree, semi: seq<int>, best: seq<int>, open: set<int>, w: int, v: int)
    requires Search(g, t, semi, best, open) && g.HasVertex(w) && t.num[w] < 0
    requires IsNewest(g, t, open, v) && g.Edge(v, w) && IsNext(g, t, v, w)
    ensures Search(g, t.(parent := t.parent[w := v]), semi, best, open)
    ensures MayEnter(g, t.(parent := t.parent[w := v]), open, w)
  {
    SetParentKeeps(g, t, open, w, v);
    SameInTurn(g, t, t.(parent := t.parent[w := v]));
    var j :| 0 <= j < |g.succ[v]| && g.At(g.succ[v][j]) == w && Scanned(g, t, v, j);
    assert Scanned(g, t.(parent := t.parent[w := v]), v, j);
    assert Unseen(t.(parent := t.parent[w := v])) == Unseen(t);
  }

  /** Everything listed in the first `k` successors of `v` has been discovered. */
  ghost predicate Scanned(g: FlowGraph, t: DfsTree, v: int, k: int)
    requires Sized(g, t) && g.HasVertex(v)
  {
    forall j {:trigger g.succ[v][j]} :: 0 <= j < k && j < |g.succ[v]| && g.HasVertex(g.At(g.succ[v][j])) ==>
        t.num[g.At(g.succ[v][j])] >= 0
  }

  lemma Leave(g: FlowGraph, t: DfsTree, semi: seq<int>, best: seq<int>, open: set<int>, v: int)
    requires Search(g, t, semi, best, open) && IsNewest(g, t, open, v)
    requires Scanned(g, t, v, |g.succ[v]|)
    ensures Search(g, Finish(t, v), semi, best, open - {v})
  {
    FinishKeeps(g, t, open, v);
    SameInTurn(g, t, Finish(t, v));
    assert Unseen(Finish(t, v)) == Unseen(t);
  }

  /** Numbers, once given, stay. */
  ghost predicate Extends(t: DfsTree, t': DfsTree) {
    && |t'.num| == |t.num|
    && forall u {:trigger t'.num[u]} :: 0 <= u < |t.num| && t.num[u] >= 0 ==> t'.num[u] == t.num[u]
  }

  lemma ExtendsKeeps(g: FlowGraph, t: DfsTree, t': DfsTree, open: set<int>, v: int, k: int)
    requires Sized(g, t) && Sized(g, t') && Extends(t, t') && g.HasVertex(v)
    requires forall u :: u in open ==> g.HasVertex(u) && t.num[u] >= 0
    ensures Scanned(g, t, v, k) ==> Scanned(g, t', v, k)
    ensures IsNewest(g, t, open, v) ==> IsNewest(g, t', open, v)
  {
  }
}

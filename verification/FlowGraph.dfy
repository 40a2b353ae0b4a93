/** The control-flow graph as the structuring pass sees it: blocks are indices, edges are lists of
    block start addresses that the address table turns back into indices. */
module FlowGraphs {

  datatype FlowGraph = FlowGraph(succ: seq<seq<nat>>, pred: seq<seq<nat>>, addrToIdx: map<nat, nat>) {

    function Size(): nat {
      |succ|
    }

    /** The index of the block starting at `a`, or -1 when no block starts there. */
    function At(a: nat): int {
      if a in addrToIdx then addrToIdx[a] else -1
    }

    predicate HasVertex(v: int) {
      0 <= v < |succ|
    }

    /** `v` is named by the successor list of `u`. */
    ghost predicate Edge(u: int, v: int) {
      && HasVertex(u) && HasVertex(v)
      && exists k :: 0 <= k < |succ[u]| && At(succ[u][k]) == v
    }

    /** `u` is named by the predecessor list of `v`. */
    ghost predicate PredEdge(u: int, v: int)
      requires |pred| == |succ|
    {
      && HasVertex(u) && HasVertex(v)
      && exists k :: 0 <= k < |pred[v]| && At(pred[v][k]) == u
    }

    /** Non-empty, the table names only blocks, and predecessor lists mirror successor lists. */
    ghost predicate Valid() {
      && |succ| > 0
      && |pred| == |succ|
      && (forall a :: a in addrToIdx ==> addrToIdx[a] < |succ|)
      && (forall u, v :: Edge(u, v) <==> PredEdge(u, v))
    }
  }

  ghost predicate IsPath(g: FlowGraph, p: seq<int>) {
    && |p| > 0
    && (forall i :: 0 <= i < |p| ==> g.HasVertex(p[i]))
    && (forall i :: 0 <= i < |p| - 1 ==> g.Edge(p[i], p[i + 1]))
  }

  function Last(p: seq<int>): int
    requires |p| > 0
  {
    p[|p| - 1]
  }

  ghost predicate PathBetween(g: FlowGraph, u: int, v: int, p: seq<int>) {
    IsPath(g, p) && p[0] == u && Last(p) == v
  }

  lemma JoinPaths(g: FlowGraph, p: seq<int>, q: seq<int>)
    requires IsPath(g, p) && IsPath(g, q)
    requires Last(p) == q[0]
    ensures PathBetween(g, p[0], Last(q), p + q[1..])
  {
    var r := p + q[1..];
    forall i | 0 <= i < |r| - 1
      ensures g.Edge(r[i], r[i + 1])
    {
      if i >= |p| - 1 {
        assert r[i] == q[i - (|p| - 1)];
        assert r[i + 1] == q[i + 1 - (|p| - 1)];
      }
    }
  }

  lemma ExtendPath(g: FlowGraph, p: seq<int>, v: int)
    requires IsPath(g, p) && g.Edge(Last(p), v)
    ensures PathBetween(g, p[0], v, p + [v])
  {
  }

  lemma SubPath(g: FlowGraph, p: seq<int>, i: int, j: int)
    requires IsPath(g, p) && 0 <= i <= j < |p|
    ensures PathBetween(g, p[i], p[j], p[i..j + 1])
  {
    var r := p[i..j + 1];
    forall k | 0 <= k < |r| - 1
      ensures g.Edge(r[k], r[k + 1])
    {
      assert r[k] == p[i + k] && r[k + 1] == p[i + k + 1];
    }
  }

  /** `d` lies on every path from the entry block 0 to `v`. */
  ghost predicate Dominates(g: FlowGraph, d: int, v: int) {
    forall p :: PathBetween(g, 0, v, p) ==> d in p
  }

  /** `d` is a dominator of `v` other than `v`, and every other one dominates `d`. */
  ghost predicate IsImmediateDominator(g: FlowGraph, d: int, v: int) {
    && d != v
    && Dominates(g, d, v)
    && forall e :: Dominates(g, e, v) && e != v ==> Dominates(g, e, d)
  }
}

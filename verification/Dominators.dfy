/** The dominator pass over the structured blocks: depth-first numbering, semidominators with a
    path-compressing link/eval forest, bucket pass, and the closing pass. */
module Dominators {
  import opened FlowGraphs
  import opened DfsTrees
  import opened DfsSearches
  import opened Semidominators
  import opened LinkForests
  import opened SemiLoops
  import opened ClosingPasses
  import opened DominatorTables

  /** One entry per block in every sequence; `best` is the block's `label`. */
  class DominatorPass {
    const g: FlowGraph
    var dfnum: seq<int>
    var parent: seq<int>
    var vertex: seq<int>
    var counter: int
    var semi: seq<int>
    var best: seq<int>
    var ancestor: seq<int>
    var bucket: seq<seq<int>>
    var idom: seq<int>
    ghost var last: seq<int>

    constructor (g: FlowGraph)
      requires g.Valid()
      ensures this.g == g && Fresh()
    {
      var n := g.Size();
      this.g := g;
      dfnum, idom, ancestor := seq(n, _ => -1), seq(n, _ => -1), seq(n, _ => -1);
      semi, best := seq(n, i => i), seq(n, i => i);
      parent, vertex := seq(n, _ => 0), seq(n, _ => 0);
      bucket := seq(n, _ => []);
      counter := 0;
      last := seq(n, _ => 0);
      new;
      assert Unseen(Tree()) == UpTo(n);
    }

    /** The spanning tree found so far. */
    ghost function Tree(): DfsTree
      reads this
    {
      DfsTree(dfnum, parent, vertex, last, counter)
    }

    ghost predicate Searching(open: set<int>)
      reads this
    {
      Search(g, Tree(), semi, best, open) && InRange(g, Tree(), semi, best)
    }

    /** Depth-first search from `v`; `open` are the callers still on the recursion stack. */
    method Visit(v: int, ghost open: set<int>)
      requires Searching(open) && MayEnter(g, Tree(), open, v)
      modifies `dfnum, `parent, `vertex, `counter, `semi, `best, `last
      ensures Searching(open) && InTurn(g, Tree())
      ensures dfnum[v] == old(counter) < counter
      ensures Extends(old(Tree()), Tree())
      decreases g.Size() - counter
    {
      hide Search, IsNewest, Unseen, InTurn;
      ghost var t0 := Tree();
      SearchInRange(g, t0, semi, best, open);
      Enter(g, t0, semi, best, open, v);
      dfnum := dfnum[v := counter];
      vertex := vertex[counter := v];
      semi := semi[v := v];
      best := best[v := v];
      counter := counter + 1;
      assert Tree() == Discover(t0, v);

      ghost var open' := open + {v};
      for k := 0 to |g.succ[v]|
        invariant Searching(open') && IsNewest(g, Tree(), open', v)
        invariant dfnum[v] == old(counter) < counter
        invariant Extends(t0, Tree())
        invariant Scanned(g, Tree(), v, k)
      {
        ghost var t := Tree();
        SearchInRange(g, t, semi, best, open');
        var w := g.At(g.succ[v][k]);
        if w < 0 {
          continue;
        }
        if dfnum[w] < 0 {
          assert g.Edge(v, w) && IsNext(g, t, v, w);
          Aim(g, t, semi, best, open', w, v);
          parent := parent[w := v];
          assert Tree() == t.(parent := t.parent[w := v]);
          Visit(w, open');
          ExtendsKeeps(g, t, Tree(), open', v, k);
        }
      }
      ghost var t1 := Tree();
      Leave(g, t1, semi, best, open', v);
      last := last[v := counter];
      assert Tree() == Finish(t1, v);
      assert open' - {v} == open;
      SearchInTurn(g, Tree(), semi, best, open);
    }

    ghost predicate Linked(bound: int)
      reads this
    {
      Forest(g, Tree(), semi, ancestor, best, bound)
    }

    /** Hang the tree of `w` below `v`. */
    method Link(v: int, w: int)
      requires g.HasVertex(w) && |ancestor| == g.Size()
      modifies `ancestor
      ensures ancestor == old(ancestor)[w := v]
    {
      ancestor := ancestor[w := v];
    }

    /** Point `v` straight at the root of its tree, keeping in its label the best of the stretch. */
    method Compress(v: int, ghost bound: int)
      requires Linked(bound)
      requires Tree().Reached(v) && dfnum[v] > bound
      modifies `ancestor, `best
      ensures Linked(bound)
      ensures LinkedAt(Tree(), semi, bound, ancestor[v], best[v], v)
      ensures Tree().Reached(ancestor[v]) && dfnum[ancestor[v]] <= bound
      ensures forall x {:trigger ancestor[x]} {:trigger best[x]} :: Tree().Reached(x) && dfnum[x] > dfnum[v] ==>
                ancestor[x] == old(ancestor[x]) && best[x] == old(best[x])
      decreases dfnum[v]
    {
      hide IsDfsTree;
      ghost var t := Tree();
      assert LinkedAt(t, semi, bound, ancestor[v], best[v], v);
      var a := ancestor[v];
      assert dfnum[a] > bound ==> LinkedAt(t, semi, bound, ancestor[a], best[a], a);
      if ancestor[a] >= 0 {
        Compress(a, bound);
        assert ancestor[v] == a;
        JoinStretches(g, t, semi, bound, ancestor[a], a, v, best[a], best[v]);
        if dfnum[semi[best[a]]] < dfnum[semi[best[v]]] {
          best := best[v := best[a]];
        }
        ancestor := ancestor[v := ancestor[a]];
      }
    }

    /** The vertex with the least semidominator on the walk from `v` up to its root. */
    method Eval(v: int, ghost bound: int) returns (u: int)
      requires Linked(bound)
      requires Tree().Reached(v)
      modifies `ancestor, `best
      ensures Linked(bound)
      ensures Evaluates(g, Tree(), semi, bound, v, u)
    {
      hide IsDfsTree;
      ghost var t := Tree();
      SelfAncestor(g, t, v);
      if ancestor[v] < 0 {
        assert dfnum[v] > bound ==> LinkedAt(t, semi, bound, ancestor[v], best[v], v);
        return best[v];
      }
      Compress(v, bound);
      LabelsGiveWalkMin(g, t, semi, bound, ancestor[v], best[v], v);
      if dfnum[semi[best[ancestor[v]]]] < dfnum[semi[best[v]]] {
        return best[ancestor[v]];
      }
      return best[v];
    }

    ghost predicate AtRound(i: int)
      reads this
    {
      Round(g, Tree(), semi, ancestor, best, bucket, idom, i)
    }

    /** Lower the guess for `w` by everything its discovered predecessors evaluate to. */
    method ScanPredecessors(w: int)
      requires Tree().Reached(w) && dfnum[w] > 0 && AtRound(dfnum[w])
      modifies `semi, `ancestor, `best
      ensures |semi| == |old(semi)| == g.Size()
      ensures semi == old(semi)[w := semi[w]] && semi[w] != w
      ensures Tree().Reached(semi[w])
      ensures Round(g, Tree(), old(semi), ancestor, best, bucket, idom, dfnum[w])
      ensures SemiAbove(g, Tree(), semi, dfnum[w] - 1)
      ensures Linked(dfnum[w])
    {
      hide IsDfsTree;
      ghost var t, i := Tree(), dfnum[w];
      StartScan(g, t, semi, ancestor, best, bucket, idom, w);
      for k := 0 to |g.pred[w]|
        invariant |semi| == |old(semi)| == g.Size() && semi == old(semi)[w := semi[w]]
        invariant Linked(i) && Scanning(g, t, semi, w)
        invariant ScannedPreds(g, t, semi, w, k)
        invariant Forest(g, t, old(semi), ancestor, best, i)
      {
        var v := g.At(g.pred[w][k]);
        if v < 0 {
          continue;
        }
        if dfnum[v] >= 0 {
          assert g.PredEdge(v, w);
          var u := Eval(v, i);
          ScanStep(g, t, old(semi), semi, ancestor, best, w, k, u);
          if semi[u] >= 0 && dfnum[semi[u]] < dfnum[semi[w]] {
            semi := semi[w := semi[u]];
          }
        }
      }
      ScanIsComplete(g, t, semi, w);
    }

    /** Give every vertex in the bucket of the parent of `w` its idom, then clear the bucket. */
    method FlushBucket(w: int)
      requires Flushing(g, Tree(), semi, ancestor, best, bucket, idom, w)
      modifies `ancestor, `best, `bucket, `idom
      ensures AtRound(dfnum[w] - 1)
    {
      hide IsDfsTree, Idoms, Buckets;
      ghost var t := Tree();
      FlushingInRange(g, t, semi, ancestor, best, bucket, idom, w);
      var list := bucket[parent[w]];
      for k := 0 to |list|
        invariant bucket == old(bucket)
        invariant Flushing(g, t, semi, ancestor, best, bucket, idom, w)
        invariant |idom| == g.Size() && Flushed(t, semi, idom, w, list, k)
      {
        var v := list[k];
        BucketEntry(g, t, semi, ancestor, best, bucket, idom, w, k);
        var u := Eval(v, dfnum[w] - 1);
        FlushStep(g, t, semi, ancestor, best, bucket, idom, w, k, u);
        if semi[u] >= 0 && dfnum[semi[u]] < dfnum[semi[v]] {
          idom := idom[v := semi[u]];
        } else {
          idom := idom[v := parent[w]];
        }
      }
      EndRound(g, t, semi, ancestor, best, bucket, idom, w);
      bucket := bucket[parent[w] := []];
    }

    /** A pass whose blocks are untouched. */
    ghost predicate Fresh()
      reads this
    {
      && Searching({}) && counter == 0
      && |ancestor| == |bucket| == |idom| == g.Size()
      && forall v :: g.HasVertex(v) ==> dfnum[v] == -1 && ancestor[v] == -1 && bucket[v] == [] && idom[v] == -1
    }

    /** Number the blocks reachable from the entry. */
    method NumberBlocks()
      requires Fresh()
      modifies this
      ensures counter > 0 && AtRound(counter - 1)
      ensures Sized(g, Tree()) && InTurn(g, Tree())
    {
      Visit(0, {});
      FirstRound(g, Tree(), semi, ancestor, best, bucket, idom);
    }

    /** One turn of the main loop, for the vertex numbered `i`. */
    method ProcessVertex(i: int)
      requires 0 < i < counter && AtRound(i)
      modifies `semi, `ancestor, `best, `bucket, `idom
      ensures AtRound(i - 1)
    {
      hide Partial, Flushing, Forest, SemiAbove, Idoms, Buckets;
      ghost var t := Tree();
      VertexAt(g, t, semi, ancestor, best, bucket, idom, i);
      var w := vertex[i];
      ghost var semi0 := semi;
      ScanPredecessors(w);
      LinkAndFile(g, t, semi0, semi, ancestor, best, bucket, idom, w);
      bucket := bucket[semi[w] := bucket[semi[w]] + [w]];
      Link(parent[w], w);
      FlushBucket(w);
    }

    /** Number the blocks, then compute semidominators and idoms in reverse numbering order. */
    method ComputeSemidominators()
      requires Fresh()
      modifies this
      ensures Prepared(g, Tree(), semi, idom) && InTurn(g, Tree())
    {
      NumberBlocks();
      hide Round, InTurn;
      ghost var numbered := Tree();
      var i := counter - 1;
      while i > 0
        invariant 0 <= i < counter && AtRound(i) && Tree() == numbered
        decreases i
      {
        ProcessVertex(i);
        i := i - 1;
      }
      RoundsAreComplete(g, Tree(), semi, ancestor, best, bucket, idom);
    }

    /** The closing pass over the idoms, in numbering order. */
    method ClosingPass()
      requires Prepared(g, Tree(), semi, idom)
      modifies `idom
      ensures Prepared(g, Tree(), semi, old(idom))
      ensures |idom| == g.Size()
      ensures forall v {:trigger idom[v]} :: g.HasVertex(v) ==> idom[v] == Final(g, Tree(), semi, old(idom), v)
    {
      ghost var t, pre := Tree(), idom;
      FinalStart(g, t, semi, pre);
      hide IsDfsTree, SemiAbove, PreFinal, HalfFinal, Final;
      for i := 1 to counter
        invariant HalfFinal(g, t, semi, pre, idom, i)
      {
        var w := vertex[i];
        FinalStep(g, t, semi, pre, idom, i, w);
        if idom[w] != semi[semi[w]] {
          idom := idom[w := idom[idom[w]]];
        }
      }
      FinalEnd(g, t, semi, pre, idom);
      idom := idom[0 := -1];
    }

    /** Everything the structuring pass does with dominators; `pre` is the table before the closing pass. */
    method ComputeDominators() returns (ghost pre: seq<int>)
      requires Fresh()
      modifies this
      ensures Prepared(g, Tree(), semi, pre) && InTurn(g, Tree())
      ensures |idom| == g.Size()
      ensures forall v {:trigger idom[v]} :: g.HasVertex(v) ==> idom[v] == Final(g, Tree(), semi, pre, v)
      ensures ClosedTable(g, Tree(), idom)
    {
      ComputeSemidominators();
      pre := idom;
      ClosingPass();
      FinalDescends(g, Tree(), semi, pre);
      TableOfDescending(idom, dfnum);
    }

    /** Does `a` dominate `b` according to the idom table? */
    method DominatesByTable(a: int, b: int) returns (r: bool)
      requires IdomTable(idom) && -1 <= b < |idom|
      ensures r <==> OnIdomChain(idom, a, b)
      ensures ClosedTable(g, Tree(), idom) && Tree().Reached(b) && RightChain(g, idom, b) && g.HasVertex(a) ==>
                (r <==> Dominates(g, a, b))
    {
      if ClosedTable(g, Tree(), idom) && Tree().Reached(b) && RightChain(g, idom, b) {
        RightChainAgrees(g, Tree(), idom, b);
      }
      var x := b;
      while x >= 0 && x != a
        invariant -1 <= x < |idom|
        invariant OnIdomChain(idom, a, b) <==> OnIdomChain(idom, a, x)
        decreases Depth(idom, x)
      {
        x := idom[x];
      }
      return x == a;
    }
  }
}

/** From blocks to dominators: the graph that the structuring pass reads off the block objects, and
    what its dominator computation says about executions. */
module Structuring {
  import opened Instructions
  import opened ControlFlow
  import opened BasicBlocks
  import opened FlowGraphs
  import opened DfsTrees
  import opened ClosingPasses
  import opened Runs
  import opened Dominators

  function Addresses(list: seq<BasicBlock>): seq<nat> {
    seq(|list|, i requires 0 <= i < |list| => list[i].startAddr)
  }

  /** The table from start addresses to block indices. */
  ghost predicate IndexTable(blocks: seq<BasicBlock>, table: map<nat, nat>) {
    && (forall k {:trigger blocks[k]} :: 0 <= k < |blocks| ==>
         blocks[k].startAddr in table && table[blocks[k].startAddr] == k)
    && (forall a {:trigger a in table} :: a in table ==> table[a] < |blocks|)
  }

  lemma FindInList(g: FlowGraph, blocks: seq<BasicBlock>, list: seq<BasicBlock>, v: int)
    requires IndexTable(blocks, g.addrToIdx) && 0 <= v < |blocks|
    requires forall x :: x in list ==> x in blocks
    ensures (exists k :: 0 <= k < |Addresses(list)| && g.At(Addresses(list)[k]) == v) <==> blocks[v] in list
  {
    var addrs := Addresses(list);
    forall k | 0 <= k < |list|
      ensures g.At(addrs[k]) == v <==> list[k] == blocks[v]
    {
      assert list[k] in blocks;
    }
    if blocks[v] in list {
      var k :| 0 <= k < |list| && list[k] == blocks[v];
      assert g.At(addrs[k]) == v;
    }
  }

  /** The graph stored in the block objects. */
  ghost predicate ReadOff(g: FlowGraph, blocks: seq<BasicBlock>)
    reads blocks
  {
    && |g.succ| == |g.pred| == |blocks|
    && IndexTable(blocks, g.addrToIdx)
    && forall k {:trigger blocks[k]} :: 0 <= k < |blocks| ==>
         g.succ[k] == Addresses(blocks[k].successors) && g.pred[k] == Addresses(blocks[k].predecessors)
  }

  lemma TargetsAreObjects(insts: seq<Instruction>, starts: seq<nat>, blocks: seq<BasicBlock>, b: nat, c: int)
    requires |blocks| == |starts| && b < |blocks|
    requires forall j, k :: 0 <= j < k < |blocks| ==> blocks[j] != blocks[k]
    requires HasTargets(insts, starts, blocks, blocks[b].successors, b)
    ensures forall x :: x in blocks[b].successors ==> x in blocks
    ensures 0 <= c < |blocks| ==> (blocks[c] in blocks[b].successors <==> c in Targets(insts, starts, b))
    ensures c in Targets(insts, starts, b) ==> 0 <= c < |blocks|
  {
    var idxs := Targets(insts, starts, b);
    var objs := Objects(blocks, idxs);
    assert forall i :: 0 <= i < |idxs| ==> objs[i] == blocks[idxs[i]];
    if 0 <= c < |blocks| && c in idxs {
      var i :| 0 <= i < |idxs| && idxs[i] == c;
      assert objs[i] == blocks[c];
    }
  }

  lemma EdgesReadOff(g: FlowGraph, insts: seq<Instruction>, starts: seq<nat>, blocks: seq<BasicBlock>, u: int, v: int)
    requires ReadOff(g, blocks) && Mirror(blocks) && |blocks| == |starts|
    requires forall j, k :: 0 <= j < k < |blocks| ==> blocks[j] != blocks[k]
    requires 0 <= u < |blocks| && 0 <= v < |blocks|
    requires HasTargets(insts, starts, blocks, blocks[u].successors, u)
    ensures g.Edge(u, v) <==> v in Targets(insts, starts, u)
    ensures g.Edge(u, v) <==> g.PredEdge(u, v)
  {
    TargetsAreObjects(insts, starts, blocks, u, v);
    FindInList(g, blocks, blocks[u].successors, v);
    forall x | x in blocks[v].predecessors
      ensures x in blocks
    {
      assert blocks[v] in blocks;
    }
    FindInList(g, blocks, blocks[v].predecessors, u);
    assert blocks[u] in blocks && blocks[v] in blocks;
    assert MirrorPair(blocks[u], blocks[v]);
    assert blocks[v] in blocks[u].successors <==> multiset(blocks[u].successors)[blocks[v]] > 0;
    assert blocks[u] in blocks[v].predecessors <==> multiset(blocks[v].predecessors)[blocks[u]] > 0;
  }

  /** The graph read off finished blocks is well formed and has exactly the recorded edges. */
  lemma ReadOffIsGraph(g: FlowGraph, insts: seq<Instruction>, entries: seq<nat>, starts: seq<nat>,
                       blocks: seq<BasicBlock>)
    requires Cut(insts, entries, starts) && |blocks| == |starts|
    requires forall j, k :: 0 <= j < k < |blocks| ==> blocks[j] != blocks[k]
    requires Connected(insts, starts, blocks, |blocks|) && Mirror(blocks) && ReadOff(g, blocks)
    ensures GraphOf(g, insts, entries, starts)
  {
    forall u | 0 <= u < |blocks|
      ensures HasTargets(insts, starts, blocks, blocks[u].successors, u)
    {
      assert Lists(blocks)[u] == blocks[u].successors;
    }
    hide HasTargets, Connected, Mirror, Cut, ReadOff;
    assert |g.succ| == |g.pred| == |blocks| && forall a :: a in g.addrToIdx ==> g.addrToIdx[a] < |blocks| by {
      ReadOffSizes(g, blocks);
    }
    forall u, v
      ensures g.Edge(u, v) <==> g.PredEdge(u, v)
      ensures g.Edge(u, v) <==>
                && 0 <= u < |starts| && starts[u] < BlockEnd(insts, starts, u) <= |insts|
                && v in Targets(insts, starts, u)
    {
      if 0 <= u < |blocks| {
        BlockRange(insts, entries, starts, u);
        TargetsAreObjects(insts, starts, blocks, u, v);
        if 0 <= v < |blocks| {
          EdgesReadOff(g, insts, starts, blocks, u, v);
        }
      }
    }
    assert |starts| > 0 by {
      CutNonEmpty(insts, entries, starts);
    }
  }

  lemma CutNonEmpty(insts: seq<Instruction>, entries: seq<nat>, starts: seq<nat>)
    requires Cut(insts, entries, starts)
    ensures |starts| > 0
  {
  }

  lemma ReadOffSizes(g: FlowGraph, blocks: seq<BasicBlock>)
    requires ReadOff(g, blocks)
    ensures |g.succ| == |g.pred| == |blocks| && forall a :: a in g.addrToIdx ==> g.addrToIdx[a] < |blocks|
  {
  }

  /** Read the graph off the blocks. */
  method ReadGraph(blocks: seq<BasicBlock>) returns (g: FlowGraph)
    requires forall j, k :: 0 <= j < k < |blocks| ==> blocks[j].startAddr != blocks[k].startAddr
    ensures ReadOff(g, blocks)
  {
    var succ: seq<seq<nat>>, pred: seq<seq<nat>>, table: map<nat, nat> := [], [], map[];
    for i := 0 to |blocks|
      invariant |succ| == |pred| == i
      invariant forall k {:trigger blocks[k]} :: 0 <= k < i ==>
                  succ[k] == Addresses(blocks[k].successors) && pred[k] == Addresses(blocks[k].predecessors)
      invariant forall k {:trigger blocks[k]} :: 0 <= k < i ==>
                  blocks[k].startAddr in table && table[blocks[k].startAddr] == k
      invariant forall a {:trigger a in table} :: a in table ==> table[a] < i
    {
      succ := succ + [Addresses(blocks[i].successors)];
      pred := pred + [Addresses(blocks[i].predecessors)];
      table := table[blocks[i].startAddr := i];
    }
    g := FlowGraph(succ, pred, table);
  }

  lemma StartsAreDistinct(insts: seq<Instruction>, entries: seq<nat>, starts: seq<nat>, blocks: seq<BasicBlock>)
    requires Cut(insts, entries, starts) && |blocks| == |starts|
    requires forall k {:trigger blocks[k]} :: 0 <= k < |blocks| ==> IsBlock(insts, starts, blocks[k], k)
    ensures forall j, k :: 0 <= j < k < |blocks| ==> blocks[j].startAddr != blocks[k].startAddr
  {
    forall j, k | 0 <= j < k < |blocks|
      ensures blocks[j].startAddr != blocks[k].startAddr
    {
      assert IsBlock(insts, starts, blocks[j], j) && IsBlock(insts, starts, blocks[k], k);
      assert starts[j] < starts[k];
      StartsDiffer(insts, starts[j], starts[k]);
    }
  }

  /** Build the blocks of a stream and compute the dominators of its graph. */
  method DominatorsOfStream(insts: seq<Instruction>, entries: seq<nat>)
    returns (pass: DominatorPass, ghost starts: seq<nat>, ghost pre: seq<int>)
    requires insts != [] && Ordered(insts) && EntriesInStream(insts, entries)
    ensures Cut(insts, entries, starts) && GraphOf(pass.g, insts, entries, starts)
    ensures Prepared(pass.g, pass.Tree(), pass.semi, pre)
    ensures |pass.idom| == pass.g.Size() && IdomTable(pass.idom)
    ensures forall v {:trigger pass.idom[v]} :: pass.g.HasVertex(v) ==>
              pass.idom[v] == Final(pass.g, pass.Tree(), pass.semi, pre, v)
  {
    var blocks: seq<BasicBlock>;
    blocks, starts := BuildControlFlowGraph(insts, entries);
    ghost var byAddr :| Shape(insts, starts, blocks, byAddr);
    ShapeFacts(insts, starts, blocks, byAddr);
    hide Cut, Shape, Connected, Mirror, IsBlock, GraphOf;
    StartsAreDistinct(insts, entries, starts, blocks);
    var g := ReadGraph(blocks);
    ReadOffIsGraph(g, insts, entries, starts, blocks);
    GraphIsValid(g, insts, entries, starts);
    pass := new DominatorPass(g);
    pre := pass.ComputeDominators();
  }

  lemma GraphIsValid(g: FlowGraph, insts: seq<Instruction>, entries: seq<nat>, starts: seq<nat>)
    requires Cut(insts, entries, starts) && GraphOf(g, insts, entries, starts)
    ensures g.Valid()
  {
  }

  /** Where the table before the closing pass names the semidominator of a block, every run from the
      first instruction that gets into the block has been at the first instruction of that one. */
  lemma EntryInTableIsOnEveryRun(g: FlowGraph, insts: seq<Instruction>, entries: seq<nat>, starts: seq<nat>,
                                 t: DfsTree, semi: seq<int>, pre: seq<int>, v: int, run: seq<int>)
    requires Cut(insts, entries, starts) && GraphOf(g, insts, entries, starts)
    requires Prepared(g, t, semi, pre)
    requires t.Reached(v) && v != 0 && pre[v] == semi[v]
    requires IsRun(insts, run) && run[0] == 0 && BlockOf(starts, run[|run| - 1]) == v
    ensures 0 <= semi[v] < |starts| && starts[semi[v]] in run
  {
    PreFinalExactly(g, t, semi, pre, v);
    DominatorIsOnEveryRun(g, insts, entries, starts, semi[v], run);
  }
}

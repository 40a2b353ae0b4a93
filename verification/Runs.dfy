/** Whole runs of the machine over the instruction stream, seen in the block graph. */
module Runs {
  import opened Instructions
  import opened ControlFlow
  import opened FlowGraphs

  /** A run: every position follows from the one before it by a machine step. */
  ghost predicate IsRun(insts: seq<Instruction>, run: seq<int>) {
    && |run| > 0
    && (forall k :: 0 <= k < |run| ==> 0 <= run[k] < |insts|)
    && forall k {:trigger run[k]} :: 0 <= k < |run| - 1 ==> Step(insts, run[k], run[k + 1])
  }

  /** The graph has one vertex per block and exactly the recorded edges. */
  ghost predicate GraphOf(g: FlowGraph, insts: seq<Instruction>, entries: seq<nat>, starts: seq<nat>)
    requires Cut(insts, entries, starts)
  {
    && g.Valid() && g.Size() == |starts|
    && forall b, c {:trigger g.Edge(b, c)} :: g.Edge(b, c) <==>
         && 0 <= b < |starts|
         && starts[b] < BlockEnd(insts, starts, b) <= |insts|
         && c in Targets(insts, starts, b)
  }

  lemma StepExtendsPath(g: FlowGraph, insts: seq<Instruction>, entries: seq<nat>, starts: seq<nat>, q: seq<int>,
                        b0: int, i: int, j: int)
    returns (p: seq<int>)
    requires Cut(insts, entries, starts) && GraphOf(g, insts, entries, starts)
    requires Step(insts, i, j) && PathBetween(g, b0, BlockOf(starts, i), q)
    ensures PathBetween(g, b0, BlockOf(starts, j), p)
    ensures forall x :: x in p ==> x in q || (0 <= x < |starts| && starts[x] == j)
  {
    StepFollowsGraph(insts, entries, starts, i, j);
    var b, c := BlockOf(starts, i), BlockOf(starts, j);
    hide Cut, Step, BlockOf, Targets;
    if b == c && j == i + 1 && j < BlockEnd(insts, starts, b) {
      p := q;
    } else {
      assert g.Edge(b, c);
      ExtendPath(g, q, c);
      p := q + [c];
    }
  }

  lemma RunPrefix(insts: seq<Instruction>, run: seq<int>)
    requires IsRun(insts, run) && |run| > 1
    ensures IsRun(insts, run[..|run| - 1])
    ensures Step(insts, run[|run| - 2], run[|run| - 1])
    ensures forall x :: x in run[..|run| - 1] ==> x in run
  {
    assert Step(insts, run[|run| - 2], run[|run| - 2 + 1]);
  }

  /** A run from the first instruction of a block traces a path of the graph whose every block was
      entered at its first instruction. */
  lemma {:induction false} RunTracesPath(g: FlowGraph, insts: seq<Instruction>, entries: seq<nat>, starts: seq<nat>,
                                         run: seq<int>)
    returns (p: seq<int>)
    requires Cut(insts, entries, starts) && GraphOf(g, insts, entries, starts)
    requires IsRun(insts, run) && run[0] in starts
    ensures PathBetween(g, BlockOf(starts, run[0]), BlockOf(starts, run[|run| - 1]), p)
    ensures forall x :: x in p ==> 0 <= x < |starts| && starts[x] in run
    decreases |run|
  {
    assert |starts| > 0 && starts[0] == 0;
    hide Step, GraphOf, BlockOf, PathBetween, Cut;
    if |run| == 1 {
      p := PathOfOne(g, insts, entries, starts, run[0]);
      assert starts[p[0]] in run;
    } else {
      RunPrefix(insts, run);
      hide IsRun;
      var q := RunTracesPath(g, insts, entries, starts, run[..|run| - 1]);
      p := StepExtendsPath(g, insts, entries, starts, q, BlockOf(starts, run[0]), run[|run| - 2], run[|run| - 1]);
    }
  }

  lemma PathOfOne(g: FlowGraph, insts: seq<Instruction>, entries: seq<nat>, starts: seq<nat>, i: int)
    returns (p: seq<int>)
    requires Cut(insts, entries, starts) && GraphOf(g, insts, entries, starts) && 0 <= i < |insts| && i in starts
    ensures |p| == 1 && PathBetween(g, BlockOf(starts, i), BlockOf(starts, i), p)
    ensures 0 <= p[0] < |starts| && starts[p[0]] == i
  {
    var b :| 0 <= b < |starts| && starts[b] == i;
    BlockRange(insts, entries, starts, b);
    BlockOfUnique(insts, starts, i, b);
    p := [b];
  }

  /** Dominance is about execution: every run from the entry that gets into block `b` has been at
      the first instruction of every block that dominates `b`. */
  lemma DominatorIsOnEveryRun(g: FlowGraph, insts: seq<Instruction>, entries: seq<nat>, starts: seq<nat>, d: int,
                              run: seq<int>)
    requires Cut(insts, entries, starts) && GraphOf(g, insts, entries, starts)
    requires IsRun(insts, run) && run[0] == 0
    requires Dominates(g, d, BlockOf(starts, run[|run| - 1]))
    ensures 0 <= d < |starts| && starts[d] in run
  {
    assert starts[0] in starts;
    BlockRange(insts, entries, starts, 0);
    BlockOfUnique(insts, starts, 0, 0);
    var p := RunTracesPath(g, insts, entries, starts, run);
  }
}

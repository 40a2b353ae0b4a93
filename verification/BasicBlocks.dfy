/** Building the control-flow graph: leaders, blocks as objects, and edges added in place. */
module BasicBlocks {
  import opened Instructions
  import opened ControlFlow

  class BasicBlock {
    const startAddr: nat
    const endAddr: nat
    const instructions: seq<Instruction>
    var successors: seq<BasicBlock>
    var predecessors: seq<BasicBlock>

    constructor (startAddr: nat, endAddr: nat, instructions: seq<Instruction>)
      ensures this.startAddr == startAddr && this.endAddr == endAddr && this.instructions == instructions
      ensures successors == [] && predecessors == []
    {
      this.startAddr, this.endAddr, this.instructions := startAddr, endAddr, instructions;
      successors, predecessors := [], [];
    }
  }

  /** As often as `b` is a successor of `a`, `a` is a predecessor of `b`. */
  ghost predicate MirrorPair(a: BasicBlock, b: BasicBlock)
    reads a, b
  {
    multiset(a.successors)[b] == multiset(b.predecessors)[a]
  }

  /** Successor and predecessor lists are mirror images, counting repetitions, and name only blocks. */
  ghost predicate Mirror(blocks: seq<BasicBlock>)
    reads blocks
  {
    && (forall a, b {:trigger MirrorPair(a, b)} :: a in blocks && b in blocks ==> MirrorPair(a, b))
    && (forall a, x {:trigger a in blocks, x in a.predecessors} :: a in blocks && x in a.predecessors ==> x in blocks)
  }

  method AddEdge(from: BasicBlock, to: BasicBlock, ghost blocks: seq<BasicBlock>)
    requires from in blocks && to in blocks && Mirror(blocks)
    modifies from`successors, to`predecessors
    ensures from.successors == old(from.successors) + [to]
    ensures to.predecessors == old(to.predecessors) + [from]
    ensures Mirror(blocks)
  {
    from.successors := from.successors + [to];
    to.predecessors := to.predecessors + [from];
    forall a, b | a in blocks && b in blocks
      ensures MirrorPair(a, b)
    {
      assert old(MirrorPair(a, b));
    }
    forall a, x | a in blocks && x in a.predecessors
      ensures x in blocks
    {
      assert x in old(a.predecessors) || x == from;
    }
  }

  // ---------------------------------------------------------------- leaders

  method IndexAddresses(insts: seq<Instruction>) returns (index: map<nat, nat>)
    ensures Indexes(insts, index)
  {
    index := map[];
    for i := 0 to |insts|
      invariant forall a :: a in index <==> exists j :: 0 <= j < i && insts[j].address == a
      invariant forall a :: a in index ==> index[a] < |insts| && insts[index[a]].address == a
    {
      index := index[insts[i].address := i];
    }
  }

  method FindLeaders(insts: seq<Instruction>, entries: seq<nat>, index: map<nat, nat>) returns (leaders: set<nat>)
    requires insts != []
    requires Indexes(insts, index)
    ensures forall a :: a in leaders <==> IsLeader(insts, entries, a)
  {
    leaders := {insts[0].address};
    for k := 0 to |entries|
      invariant forall a :: a in leaders <==> a == insts[0].address || a in entries[..k]
    {
      leaders := leaders + {entries[k]};
    }
    assert entries[..|entries|] == entries;
    for i := 0 to |insts|
      invariant forall a :: a in leaders <==>
                  || a == insts[0].address || a in entries
                  || exists j {:trigger insts[j]} :: 0 <= j < i && Marks(insts, insts[j], a)
    {
      var inst := insts[i];
      ghost var before := leaders;
      if inst.isBranch || inst.isCall {
        if inst.branchTarget != 0 && inst.branchTarget in index {
          leaders := leaders + {inst.branchTarget};
        }
      }
      if inst.isReturn || inst.opcode == "RET" {
        if inst.Next() in index {
          leaders := leaders + {inst.Next()};
        }
      } else if IsJump(inst) {
        if inst.Next() in index {
          leaders := leaders + {inst.Next()};
        }
      } else if inst.isCall {
        if inst.Next() in index {
          leaders := leaders + {inst.Next()};
        }
      }
      assert forall a :: a in leaders <==> a in before || Marks(insts, inst, a);
    }
  }

  /** The library sort: the elements in increasing order. */
  method Sort(s: set<nat>) returns (r: seq<nat>)
    ensures forall a :: a in r <==> a in s
    ensures forall j, k :: 0 <= j < k < |r| ==> r[j] < r[k]
  {
    r := [];
    var rest := s;
    while rest != {}
      invariant forall a :: a in s <==> a in r || a in rest
      invariant forall j, k :: 0 <= j < k < |r| ==> r[j] < r[k]
      invariant forall a, b :: a in r && b in rest ==> a < b
      decreases rest
    {
      var m := Least(rest);
      assert forall j :: 0 <= j < |r| ==> r[j] in r;
      r := r + [m];
      rest := rest - {m};
    }
  }

  method Least(s: set<nat>) returns (m: nat)
    requires s != {}
    ensures m in s && forall a :: a in s ==> m <= a
  {
    m :| m in s;
    var rest := s - {m};
    while rest != {}
      invariant m in s && rest <= s
      invariant forall a :: a in s ==> a in rest || m <= a
      decreases rest
    {
      var x :| x in rest;
      if x < m {
        m := x;
      }
      rest := rest - {x};
    }
  }

  /** The positions of the sorted leaders. */
  ghost function Positions(leaders: seq<nat>, index: map<nat, nat>): seq<nat>
    requires forall a :: a in leaders ==> a in index
  {
    seq(|leaders|, k requires 0 <= k < |leaders| => index[leaders[k]])
  }

  /** The index maps each address of the stream to its position. */
  ghost predicate Indexes(insts: seq<Instruction>, index: map<nat, nat>) {
    && (forall a :: a in index <==> IsAddress(insts, a))
    && (forall a :: a in index ==> index[a] < |insts| && insts[index[a]].address == a)
  }

  lemma LeadersAreAddresses(insts: seq<Instruction>, entries: seq<nat>, a: nat)
    requires insts != [] && EntriesInStream(insts, entries) && IsLeader(insts, entries, a)
    ensures IsAddress(insts, a)
  {
  }

  lemma FirstPosition(insts: seq<Instruction>, leaders: seq<nat>, index: map<nat, nat>)
    requires Ordered(insts) && insts != [] && Indexes(insts, index)
    requires forall a :: a in leaders ==> a in index
    requires forall j, k :: 0 <= j < k < |leaders| ==> leaders[j] < leaders[k]
    requires insts[0].address in leaders
    ensures |leaders| > 0 && Positions(leaders, index)[0] == 0
  {
    var k0 :| 0 <= k0 < |leaders| && leaders[k0] == insts[0].address;
    assert leaders[0] in leaders;
    var p := index[leaders[0]];
    AddressOrderWeak(insts, 0, p);
    SameAddress(insts, 0, p);
  }

  lemma LeadersCut(insts: seq<Instruction>, entries: seq<nat>, leaders: seq<nat>, index: map<nat, nat>)
    requires Ordered(insts) && insts != [] && EntriesInStream(insts, entries)
    requires Indexes(insts, index)
    requires forall a :: a in leaders <==> IsLeader(insts, entries, a)
    requires forall j, k :: 0 <= j < k < |leaders| ==> leaders[j] < leaders[k]
    ensures forall a :: a in leaders ==> a in index
    ensures Cut(insts, entries, Positions(leaders, index))
  {
    forall a | a in leaders
      ensures a in index
    {
      LeadersAreAddresses(insts, entries, a);
    }
    assert IsLeader(insts, entries, insts[0].address);
    hide IsLeader, EntriesInStream;
    var starts := Positions(leaders, index);
    FirstPosition(insts, leaders, index);
    forall k | 0 <= k < |leaders|
      ensures starts[k] < |insts| && insts[starts[k]].address == leaders[k]
    {
      assert leaders[k] in leaders;
    }
    hide Indexes, IsAddress;
    forall j, k | 0 <= j < k < |starts|
      ensures starts[j] < starts[k]
    {
      AddressOrder(insts, starts[j], starts[k]);
    }
    forall i | 0 <= i < |insts| && IsLeader(insts, entries, insts[i].address)
      ensures i in starts
    {
      var k :| 0 <= k < |leaders| && leaders[k] == insts[i].address;
      SameAddress(insts, i, starts[k]);
      assert starts[k] in starts;
    }
  }

  lemma AddressOrder(insts: seq<Instruction>, i: nat, j: nat)
    requires Ordered(insts) && i < |insts| && j < |insts| && insts[i].address < insts[j].address
    ensures i < j
  {
  }

  lemma AddressOrderWeak(insts: seq<Instruction>, i: nat, j: nat)
    requires Ordered(insts) && i <= j < |insts|
    ensures insts[i].address <= insts[j].address
  {
  }

  // ---------------------------------------------------------------- cutting

  ghost predicate IsBlock(insts: seq<Instruction>, starts: seq<nat>, block: BasicBlock, k: nat) {
    && k < |starts| && starts[k] < BlockEnd(insts, starts, k) <= |insts|
    && block.instructions == insts[starts[k]..BlockEnd(insts, starts, k)]
    && block.startAddr == insts[starts[k]].address
    && block.endAddr == insts[BlockEnd(insts, starts, k) - 1].Next()
  }

  /** `blocks` are the first `n` slices of the cut, one object each, and `byAddr` finds them. */
  ghost predicate Built(insts: seq<Instruction>, starts: seq<nat>, blocks: seq<BasicBlock>,
                        byAddr: map<nat, BasicBlock>, n: nat) {
    && |blocks| == n <= |starts|
    && (forall j, k :: 0 <= j < k < |blocks| ==> blocks[j] != blocks[k])
    && (forall k {:trigger blocks[k]} :: 0 <= k < |blocks| ==> IsBlock(insts, starts, blocks[k], k))
    && (forall k {:trigger blocks[k]} :: 0 <= k < |blocks| ==>
         blocks[k].startAddr in byAddr && byAddr[blocks[k].startAddr] == blocks[k])
    && (forall a {:trigger a in byAddr} :: a in byAddr ==> byAddr[a] in blocks && byAddr[a].startAddr == a)
  }

  ghost predicate Shape(insts: seq<Instruction>, starts: seq<nat>, blocks: seq<BasicBlock>,
                        byAddr: map<nat, BasicBlock>) {
    Built(insts, starts, blocks, byAddr, |starts|)
  }

  lemma StartIsNew(insts: seq<Instruction>, entries: seq<nat>, starts: seq<nat>, blocks: seq<BasicBlock>,
                   byAddr: map<nat, BasicBlock>, block: BasicBlock)
    requires Cut(insts, entries, starts)
    requires Built(insts, starts, blocks, byAddr, |blocks|) && |blocks| < |starts|
    requires IsBlock(insts, starts, block, |blocks|)
    ensures forall k {:trigger blocks[k]} :: 0 <= k < |blocks| ==> blocks[k].startAddr != block.startAddr
  {
    forall k | 0 <= k < |blocks|
      ensures blocks[k].startAddr != block.startAddr
    {
      assert IsBlock(insts, starts, blocks[k], k);
      assert starts[k] < starts[|blocks|];
      StartsDiffer(insts, starts[k], starts[|blocks|]);
    }
  }

  lemma BuiltAppend(insts: seq<Instruction>, starts: seq<nat>, blocks: seq<BasicBlock>, byAddr: map<nat, BasicBlock>,
                    block: BasicBlock)
    requires Built(insts, starts, blocks, byAddr, |blocks|) && |blocks| < |starts|
    requires block !in blocks && IsBlock(insts, starts, block, |blocks|)
    requires forall k {:trigger blocks[k]} :: 0 <= k < |blocks| ==> blocks[k].startAddr != block.startAddr
    ensures Built(insts, starts, blocks + [block], byAddr[block.startAddr := block], |blocks| + 1)
  {
    hide IsBlock;
    var n := |blocks|;
    var blocks', byAddr' := blocks + [block], byAddr[block.startAddr := block];
    forall k | 0 <= k < n + 1
      ensures IsBlock(insts, starts, blocks'[k], k)
      ensures blocks'[k].startAddr in byAddr' && byAddr'[blocks'[k].startAddr] == blocks'[k]
    {
      if k < n {
        assert blocks'[k] == blocks[k];
      }
    }
    forall a | a in byAddr'
      ensures byAddr'[a] in blocks' && byAddr'[a].startAddr == a
    {
      if a != block.startAddr {
        assert byAddr[a] in blocks;
      }
    }
  }

  lemma StartsDiffer(insts: seq<Instruction>, i: nat, j: nat)
    requires Ordered(insts) && i < j < |insts|
    ensures insts[i].address != insts[j].address
  {
  }

  ghost predicate Unconnected(blocks: seq<BasicBlock>)
    reads blocks
  {
    forall k {:trigger blocks[k]} :: 0 <= k < |blocks| ==> blocks[k].successors == [] && blocks[k].predecessors == []
  }

  method NewBlock(leader: nat, blockInsts: seq<Instruction>) returns (block: BasicBlock)
    requires blockInsts != []
    ensures fresh(block) && block.successors == [] && block.predecessors == []
    ensures block.startAddr == leader && block.instructions == blockInsts
    ensures block.endAddr == blockInsts[|blockInsts| - 1].Next()
  {
    block := new BasicBlock(leader, blockInsts[|blockInsts| - 1].Next(), blockInsts);
  }

  /** The index gives each leader the position of the instruction at that address. */
  ghost predicate Located(insts: seq<Instruction>, leaders: seq<nat>, index: map<nat, nat>) {
    && (forall a :: a in leaders ==> a in index)
    && (forall k :: 0 <= k < |leaders| ==>
          index[leaders[k]] < |insts| && insts[index[leaders[k]]].address == leaders[k])
  }

  /** Where the block of a leader begins: a leader that is no address is looked up as position 0. */
  function SliceStart(leaders: seq<nat>, index: map<nat, nat>, i: nat): nat
    requires i < |leaders|
  {
    if leaders[i] in index then index[leaders[i]] else 0
  }

  /** Where it ends: at the next leader, or with the stream when that is no address. */
  function SliceEnd(insts: seq<Instruction>, leaders: seq<nat>, index: map<nat, nat>, i: nat): nat
    requires i < |leaders|
  {
    if i + 1 < |leaders| && leaders[i + 1] in index then index[leaders[i + 1]] else |insts|
  }

  /** The block from one leader up to the next, or to the end of the stream. */
  method CutBlock(insts: seq<Instruction>, ghost entries: seq<nat>, leaders: seq<nat>, index: map<nat, nat>, i: nat)
    returns (block: BasicBlock)
    requires Located(insts, leaders, index)
    requires Cut(insts, entries, Positions(leaders, index)) && i < |leaders|
    ensures fresh(block) && block.successors == [] && block.predecessors == []
    ensures block.startAddr == leaders[i] && IsBlock(insts, Positions(leaders, index), block, i)
  {
    ghost var starts := Positions(leaders, index);
    PositionBounds(insts, entries, leaders, index, i);
    hide Cut, Positions, IsBlock;
    var startIdx := SliceStart(leaders, index, i);
    var endIdx := SliceEnd(insts, leaders, index, i);
    block := NewBlock(leaders[i], insts[startIdx..endIdx]);
    SliceIsBlock(insts, starts, block, i);
  }

  lemma SliceIsBlock(insts: seq<Instruction>, starts: seq<nat>, block: BasicBlock, i: nat)
    requires i < |starts| && starts[i] < BlockEnd(insts, starts, i) <= |insts|
    requires block.instructions == insts[starts[i]..BlockEnd(insts, starts, i)]
    requires block.startAddr == insts[starts[i]].address
    requires block.endAddr == block.instructions[|block.instructions| - 1].Next()
    ensures IsBlock(insts, starts, block, i)
  {
  }

  lemma PositionBounds(insts: seq<Instruction>, entries: seq<nat>, leaders: seq<nat>, index: map<nat, nat>, i: nat)
    requires forall a :: a in leaders ==> a in index
    requires Cut(insts, entries, Positions(leaders, index)) && i < |leaders|
    ensures var starts := Positions(leaders, index);
            && |starts| == |leaders|
            && starts[i] == index[leaders[i]] < BlockEnd(insts, starts, i) <= |insts|
            && BlockEnd(insts, starts, i) == if i + 1 < |leaders| then index[leaders[i + 1]] else |insts|
  {
    BlockRange(insts, entries, Positions(leaders, index), i);
    hide Cut;
  }

  method CutBlocks(insts: seq<Instruction>, ghost entries: seq<nat>, leaders: seq<nat>, index: map<nat, nat>)
    returns (blocks: seq<BasicBlock>, byAddr: map<nat, BasicBlock>)
    requires Located(insts, leaders, index)
    requires Cut(insts, entries, Positions(leaders, index))
    ensures Shape(insts, Positions(leaders, index), blocks, byAddr)
    ensures forall k :: 0 <= k < |blocks| ==> fresh(blocks[k])
    ensures Unconnected(blocks)
  {
    ghost var starts := Positions(leaders, index);
    blocks, byAddr := [], map[];
    NothingBuilt(insts, starts);
    assert |starts| == |leaders|;
    hide Cut, Built, IsBlock, Positions, Unconnected, Located;
    for i := 0 to |leaders|
      invariant |blocks| == i && Built(insts, starts, blocks, byAddr, i)
      invariant forall k :: 0 <= k < |blocks| ==> fresh(blocks[k])
      invariant Unconnected(blocks)
    {
      var block := CutNext(insts, entries, leaders, index, blocks, byAddr);
      blocks := blocks + [block];
      byAddr := byAddr[leaders[i] := block];
    }
  }

  /** The next block, which can be put behind the built ones and filed under its address. */
  method CutNext(insts: seq<Instruction>, ghost entries: seq<nat>, leaders: seq<nat>, index: map<nat, nat>,
                 built: seq<BasicBlock>, found: map<nat, BasicBlock>)
    returns (block: BasicBlock)
    requires Located(insts, leaders, index)
    requires Cut(insts, entries, Positions(leaders, index)) && |built| < |leaders| == |Positions(leaders, index)|
    requires Built(insts, Positions(leaders, index), built, found, |built|) && Unconnected(built)
    ensures fresh(block) && Unconnected(built + [block])
    ensures Built(insts, Positions(leaders, index), built + [block], found[leaders[|built|] := block], |built| + 1)
  {
    ghost var starts := Positions(leaders, index);
    hide Cut, Built, IsBlock, Positions;
    block := CutBlock(insts, entries, leaders, index, |built|);
    StartIsNew(insts, entries, starts, built, found, block);
    BuiltAppend(insts, starts, built, found, block);
  }

  lemma NothingBuilt(insts: seq<Instruction>, starts: seq<nat>)
    ensures Built(insts, starts, [], map[], 0) && Unconnected([])
  {
  }

  // ---------------------------------------------------------------- edges

  ghost predicate InRange(blocks: seq<BasicBlock>, idxs: seq<nat>) {
    forall i {:trigger idxs[i]} :: 0 <= i < |idxs| ==> idxs[i] < |blocks|
  }

  ghost function Objects(blocks: seq<BasicBlock>, idxs: seq<nat>): seq<BasicBlock>
    requires InRange(blocks, idxs)
  {
    seq(|idxs|, i requires 0 <= i < |idxs| => blocks[idxs[i]])
  }

  lemma FoundInTable(insts: seq<Instruction>, starts: seq<nat>, blocks: seq<BasicBlock>, byAddr: map<nat, BasicBlock>,
                     a: nat) returns (k: nat)
    requires Shape(insts, starts, blocks, byAddr) && a in byAddr
    ensures k < |blocks| == |starts| && blocks[k] == byAddr[a]
    ensures starts[k] < |insts| && insts[starts[k]].address == a
  {
    k :| 0 <= k < |blocks| && blocks[k] == byAddr[a];
    assert IsBlock(insts, starts, blocks[k], k);
  }

  lemma MissingInTable(insts: seq<Instruction>, starts: seq<nat>, blocks: seq<BasicBlock>,
                       byAddr: map<nat, BasicBlock>, a: nat, k: nat)
    requires Shape(insts, starts, blocks, byAddr) && StartsAt(insts, starts, a, k)
    ensures a in byAddr && |blocks| == |starts|
  {
    assert IsBlock(insts, starts, blocks[k], k);
  }

  /** What the table returns is what the graph calls the block at that address. */
  lemma LookUp(insts: seq<Instruction>, entries: seq<nat>, starts: seq<nat>, blocks: seq<BasicBlock>,
               byAddr: map<nat, BasicBlock>, a: nat)
    requires Cut(insts, entries, starts) && Shape(insts, starts, blocks, byAddr)
    ensures a in byAddr <==> BlockAt(insts, starts, a).Some?
    ensures InRange(blocks, ToList(BlockAt(insts, starts, a)))
    ensures a in byAddr ==> byAddr[a] in blocks && Objects(blocks, ToList(BlockAt(insts, starts, a))) == [byAddr[a]]
  {
    hide Cut, Shape;
    var r := BlockAt(insts, starts, a);
    hide BlockAt;
    if a in byAddr {
      var k := FoundInTable(insts, starts, blocks, byAddr, a);
      BlockAtStart(insts, entries, starts, k);
    }
    if r.Some? {
      MissingInTable(insts, starts, blocks, byAddr, a, r.value);
    }
  }

  lemma {:induction false} TransfersInRange(insts: seq<Instruction>, starts: seq<nat>, blocks: seq<BasicBlock>,
                                            part: seq<Instruction>)
    requires |blocks| == |starts|
    ensures InRange(blocks, TransfersOf(insts, starts, part))
    decreases |part|
  {
    if part != [] {
      TransfersInRange(insts, starts, blocks, part[..|part| - 1]);
    }
  }

  lemma ObjectsAppend(blocks: seq<BasicBlock>, x: seq<nat>, y: seq<nat>)
    requires InRange(blocks, x) && InRange(blocks, y)
    ensures InRange(blocks, x + y)
    ensures Objects(blocks, x + y) == Objects(blocks, x) + Objects(blocks, y)
  {
  }

  /** The successor lists of all blocks. */
  ghost function Lists(blocks: seq<BasicBlock>): seq<seq<BasicBlock>>
    reads blocks
  {
    seq(|blocks|, k requires 0 <= k < |blocks| reads blocks => blocks[k].successors)
  }

  /** The first `n` lists are complete, the others still empty. */
  ghost predicate Complete(insts: seq<Instruction>, starts: seq<nat>, blocks: seq<BasicBlock>,
                           lists: seq<seq<BasicBlock>>, n: nat) {
    && |blocks| == |starts| == |lists|
    && (forall k {:trigger lists[k]} :: 0 <= k < n && k < |lists| ==> HasTargets(insts, starts, blocks, lists[k], k))
    && (forall k {:trigger lists[k]} :: n <= k < |lists| ==> lists[k] == [])
  }

  /** The first `n` blocks have their successors, the others have none yet. */
  ghost predicate Connected(insts: seq<Instruction>, starts: seq<nat>, blocks: seq<BasicBlock>, n: nat)
    reads blocks
  {
    Complete(insts, starts, blocks, Lists(blocks), n)
  }

  ghost predicate HasTargets(insts: seq<Instruction>, starts: seq<nat>, blocks: seq<BasicBlock>,
                             list: seq<BasicBlock>, k: nat) {
    && k < |starts| && starts[k] < BlockEnd(insts, starts, k) <= |insts|
    && InRange(blocks, Targets(insts, starts, k))
    && list == Objects(blocks, Targets(insts, starts, k))
  }

  lemma TransfersStep(insts: seq<Instruction>, starts: seq<nat>, blocks: seq<BasicBlock>, part: seq<Instruction>,
                      i: nat)
    requires |blocks| == |starts| && i < |part|
    ensures InRange(blocks, TransfersOf(insts, starts, part[..i])) && InRange(blocks, Transfers(insts, starts, part[i]))
    ensures InRange(blocks, TransfersOf(insts, starts, part[..i + 1]))
    ensures Objects(blocks, TransfersOf(insts, starts, part[..i + 1])) ==
            Objects(blocks, TransfersOf(insts, starts, part[..i])) + Objects(blocks, Transfers(insts, starts, part[i]))
  {
    assert part[..i + 1][..i] == part[..i];
    TransfersInRange(insts, starts, blocks, part[..i]);
    TransfersInRange(insts, starts, blocks, part[..i + 1]);
    ObjectsAppend(blocks, TransfersOf(insts, starts, part[..i]), Transfers(insts, starts, part[i]));
  }

  /** Add the edge to the block that starts at `a`, if there is one. */
  method AddEdgeTo(insts: seq<Instruction>, ghost entries: seq<nat>, ghost starts: seq<nat>,
                   ghost blocks: seq<BasicBlock>, byAddr: map<nat, BasicBlock>, block: BasicBlock, a: nat)
    requires Cut(insts, entries, starts) && Shape(insts, starts, blocks, byAddr)
    requires block in blocks && Mirror(blocks)
    modifies block`successors, blocks`predecessors
    ensures InRange(blocks, ToList(BlockAt(insts, starts, a)))
    ensures block.successors == old(block.successors) + Objects(blocks, ToList(BlockAt(insts, starts, a)))
    ensures Mirror(blocks)
  {
    LookUp(insts, entries, starts, blocks, byAddr, a);
    hide Cut, Shape, Mirror, BlockAt;
    if a in byAddr {
      AddEdge(block, byAddr[a], blocks);
    }
  }

  /** Add the edges of one block: its transfers in order, then what it falls into. */
  method ConnectBlock(insts: seq<Instruction>, ghost entries: seq<nat>, ghost starts: seq<nat>,
                      ghost blocks: seq<BasicBlock>, byAddr: map<nat, BasicBlock>, block: BasicBlock, ghost k: nat)
    requires Cut(insts, entries, starts) && Shape(insts, starts, blocks, byAddr)
    requires k < |blocks| && block == blocks[k] && block.successors == []
    requires Mirror(blocks)
    modifies block`successors, blocks`predecessors
    ensures HasTargets(insts, starts, blocks, block.successors, k)
    ensures Mirror(blocks)
  {
    assert IsBlock(insts, starts, blocks[k], k);
    ghost var part := block.instructions;
    TransfersInRange(insts, starts, blocks, part);
    assert part[..|part|] == part && part[..0] == [];
    hide Cut, Shape, Mirror, BlockAt;
    for i := 0 to |block.instructions|
      invariant Mirror(blocks)
      invariant InRange(blocks, TransfersOf(insts, starts, part[..i]))
      invariant block.successors == Objects(blocks, TransfersOf(insts, starts, part[..i]))
    {
      var inst := block.instructions[i];
      TransfersStep(insts, starts, blocks, part, i);
      if inst.isCall && inst.branchTarget != 0 {
        AddEdgeTo(insts, entries, starts, blocks, byAddr, block, inst.branchTarget);
      }
      if inst.isBranch && inst.branchTarget != 0 && !inst.isCall {
        AddEdgeTo(insts, entries, starts, blocks, byAddr, block, inst.branchTarget);
      }
    }
    FallInto(insts, entries, starts, blocks, byAddr, block, k);
  }

  method FallInto(insts: seq<Instruction>, ghost entries: seq<nat>, ghost starts: seq<nat>,
                  ghost blocks: seq<BasicBlock>, byAddr: map<nat, BasicBlock>, block: BasicBlock, ghost k: nat)
    requires Cut(insts, entries, starts) && Shape(insts, starts, blocks, byAddr)
    requires k < |blocks| && block == blocks[k] && Mirror(blocks)
    requires InRange(blocks, TransfersOf(insts, starts, block.instructions))
    requires block.successors == Objects(blocks, TransfersOf(insts, starts, block.instructions))
    modifies block`successors, blocks`predecessors
    ensures HasTargets(insts, starts, blocks, block.successors, k)
    ensures Mirror(blocks)
  {
    assert IsBlock(insts, starts, blocks[k], k);
    hide Cut, Shape, Mirror, BlockAt, TransfersOf;
    ghost var done := TransfersOf(insts, starts, block.instructions);
    var last := block.instructions[|block.instructions| - 1];
    if last.isReturn {
      ObjectsAppend(blocks, done, []);
      return;
    }
    if IsJump(last) {
      ObjectsAppend(blocks, done, []);
      return;
    }
    AddEdgeTo(insts, entries, starts, blocks, byAddr, block, last.Next());
    ObjectsAppend(blocks, done, FallsInto(insts, starts, last));
  }

  lemma ShapeFacts(insts: seq<Instruction>, starts: seq<nat>, blocks: seq<BasicBlock>, byAddr: map<nat, BasicBlock>)
    requires Shape(insts, starts, blocks, byAddr)
    ensures |blocks| == |starts|
    ensures forall j, k :: 0 <= j < k < |blocks| ==> blocks[j] != blocks[k]
    ensures forall k {:trigger blocks[k]} :: 0 <= k < |blocks| ==> IsBlock(insts, starts, blocks[k], k)
  {
  }

  lemma StartsUnconnected(insts: seq<Instruction>, starts: seq<nat>, blocks: seq<BasicBlock>)
    requires |blocks| == |starts| && Unconnected(blocks)
    ensures Connected(insts, starts, blocks, 0) && Mirror(blocks)
  {
  }

  lemma CompleteStep(insts: seq<Instruction>, starts: seq<nat>, blocks: seq<BasicBlock>, lists: seq<seq<BasicBlock>>,
                     n: nat, list: seq<BasicBlock>)
    requires Complete(insts, starts, blocks, lists, n) && n < |lists|
    requires HasTargets(insts, starts, blocks, list, n)
    ensures Complete(insts, starts, blocks, lists[n := list], n + 1)
  {
  }

  lemma NotYetConnected(insts: seq<Instruction>, starts: seq<nat>, blocks: seq<BasicBlock>, n: nat)
    requires Connected(insts, starts, blocks, n) && n < |blocks|
    ensures blocks[n].successors == [] && |Lists(blocks)| == |blocks|
  {
    assert Lists(blocks)[n] == [];
  }

  method ConnectNext(insts: seq<Instruction>, ghost entries: seq<nat>, ghost starts: seq<nat>,
                     blocks: seq<BasicBlock>, byAddr: map<nat, BasicBlock>, k: nat)
    requires Cut(insts, entries, starts) && Shape(insts, starts, blocks, byAddr)
    requires k < |blocks| && Connected(insts, starts, blocks, k) && Mirror(blocks)
    modifies blocks
    ensures Connected(insts, starts, blocks, k + 1) && Mirror(blocks)
  {
    hide Cut, Shape, Mirror, HasTargets, IsBlock, Complete;
    ShapeFacts(insts, starts, blocks, byAddr);
    NotYetConnected(insts, starts, blocks, k);
    ghost var lists := Lists(blocks);
    ConnectBlock(insts, entries, starts, blocks, byAddr, blocks[k], k);
    CompleteStep(insts, starts, blocks, lists, k, blocks[k].successors);
    assert Lists(blocks) == lists[k := blocks[k].successors];
  }

  method ConnectBlocks(insts: seq<Instruction>, ghost entries: seq<nat>, ghost starts: seq<nat>,
                       blocks: seq<BasicBlock>, byAddr: map<nat, BasicBlock>)
    requires Cut(insts, entries, starts) && Shape(insts, starts, blocks, byAddr)
    requires Unconnected(blocks)
    modifies blocks
    ensures Connected(insts, starts, blocks, |blocks|) && Mirror(blocks)
  {
    hide Cut, Shape, Mirror, HasTargets, Unconnected, IsBlock;
    ShapeFacts(insts, starts, blocks, byAddr);
    StartsUnconnected(insts, starts, blocks);
    hide Connected;
    for k := 0 to |blocks|
      invariant Connected(insts, starts, blocks, k)
      invariant Mirror(blocks)
    {
      ConnectNext(insts, entries, starts, blocks, byAddr, k);
    }
  }

  /** The control-flow graph of a stream: one block per leader, edges in both directions. */
  method BuildControlFlowGraph(insts: seq<Instruction>, entries: seq<nat>)
    returns (blocks: seq<BasicBlock>, ghost starts: seq<nat>)
    requires Ordered(insts) && EntriesInStream(insts, entries)
    ensures insts == [] ==> blocks == []
    ensures insts != [] ==> Cut(insts, entries, starts)
    ensures insts != [] ==> exists byAddr :: Shape(insts, starts, blocks, byAddr)
    ensures insts != [] ==> Connected(insts, starts, blocks, |blocks|) && Mirror(blocks)
  {
    if insts == [] {
      return [], [];
    }
    var index := IndexAddresses(insts);
    var leaders := FindLeaders(insts, entries, index);
    var sortedLeaders := Sort(leaders);
    LeadersCut(insts, entries, sortedLeaders, index);
    starts := Positions(sortedLeaders, index);
    var byAddr: map<nat, BasicBlock>;
    blocks, byAddr := CutBlocks(insts, entries, sortedLeaders, index);
    ConnectBlocks(insts, entries, starts, blocks, byAddr);
  }
}

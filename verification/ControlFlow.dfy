/** Cutting an instruction stream into basic blocks, and what the recorded edges mean for runs. */
module ControlFlow {
  import opened Text
  import opened Instructions

  predicate IsJump(inst: Instruction) {
    inst.opcode == "JMP" || inst.opcode == "JMPL" || inst.opcode == "JMPQ"
  }

  /** The instruction after this one starts a new block. */
  predicate EndsRun(inst: Instruction) {
    inst.isReturn || inst.opcode == "RET" || IsJump(inst) || inst.isCall
  }

  predicate HasTarget(inst: Instruction) {
    (inst.isBranch || inst.isCall) && inst.branchTarget != 0
  }

  ghost predicate IsAddress(insts: seq<Instruction>, a: nat) {
    exists i :: 0 <= i < |insts| && insts[i].address == a
  }

  /** Instruction `inst` makes `a` the first address of a block. */
  ghost predicate Marks(insts: seq<Instruction>, inst: Instruction, a: nat) {
    IsAddress(insts, a) && ((HasTarget(inst) && inst.branchTarget == a) || (EndsRun(inst) && inst.Next() == a))
  }

  ghost predicate IsLeader(insts: seq<Instruction>, entries: seq<nat>, a: nat) {
    || (insts != [] && a == insts[0].address)
    || a in entries
    || exists i {:trigger insts[i]} :: 0 <= i < |insts| && Marks(insts, insts[i], a)
  }

  /** Every entry point is the address of an instruction of the stream. */
  ghost predicate EntriesInStream(insts: seq<Instruction>, entries: seq<nat>) {
    forall a :: a in entries ==> IsAddress(insts, a)
  }

  /** `starts` are the positions of the leaders, in order. */
  ghost predicate BlockStarts(insts: seq<Instruction>, entries: seq<nat>, starts: seq<nat>) {
    && |starts| > 0 && starts[0] == 0
    && (forall k {:trigger starts[k]} :: 0 <= k < |starts| ==> starts[k] < |insts|)
    && (forall j, k {:trigger starts[j], starts[k]} :: 0 <= j < k < |starts| ==> starts[j] < starts[k])
    && (forall k {:trigger starts[k]} :: 0 <= k < |starts| ==> IsLeader(insts, entries, insts[starts[k]].address))
    && (forall i {:trigger IsLeader(insts, entries, insts[i].address)} ::
          0 <= i < |insts| && IsLeader(insts, entries, insts[i].address) ==> i in starts)
  }

  ghost predicate Cut(insts: seq<Instruction>, entries: seq<nat>, starts: seq<nat>) {
    Ordered(insts) && insts != [] && EntriesInStream(insts, entries) && BlockStarts(insts, entries, starts)
  }

  function BlockEnd(insts: seq<Instruction>, starts: seq<nat>, k: nat): nat
    requires k < |starts|
  {
    if k + 1 < |starts| then starts[k + 1] else |insts|
  }

  lemma SameAddress(insts: seq<Instruction>, i: nat, j: nat)
    requires Ordered(insts) && i < |insts| && j < |insts| && insts[i].address == insts[j].address
    ensures i == j
  {
  }

  /** The successor address, when it is in the stream, belongs to the following instruction. */
  lemma NextIsFollowing(insts: seq<Instruction>, i: nat, j: nat)
    requires Ordered(insts) && i < |insts| && j < |insts| && insts[i].Next() == insts[j].address
    ensures j == i + 1
  {
    assert insts[i].Next() == insts[i].address + insts[i].size;
    assert i + 1 < |insts| ==> insts[i + 1].size >= 1;
  }

  // ---------------------------------------------------------------- edges

  /** The block that starts at address `a`. */
  ghost predicate StartsAt(insts: seq<Instruction>, starts: seq<nat>, a: nat, k: int) {
    0 <= k < |starts| && starts[k] < |insts| && insts[starts[k]].address == a
  }

  ghost function BlockAt(insts: seq<Instruction>, starts: seq<nat>, a: nat): (r: Option<nat>)
    ensures r.Some? ==> StartsAt(insts, starts, a, r.value)
    ensures r.None? ==> forall k :: !StartsAt(insts, starts, a, k)
  {
    if exists k :: StartsAt(insts, starts, a, k) then
      var k :| StartsAt(insts, starts, a, k);
      Some(k)
    else None
  }

  ghost function ToList(o: Option<nat>): seq<nat> {
    if o.Some? then [o.value] else []
  }

  /** The blocks that one instruction transfers to. */
  ghost function Transfers(insts: seq<Instruction>, starts: seq<nat>, inst: Instruction): seq<nat> {
    if HasTarget(inst) then ToList(BlockAt(insts, starts, inst.branchTarget)) else []
  }

  ghost function TransfersOf(insts: seq<Instruction>, starts: seq<nat>, part: seq<Instruction>): seq<nat> {
    if part == [] then []
    else TransfersOf(insts, starts, part[..|part| - 1]) + Transfers(insts, starts, part[|part| - 1])
  }

  ghost function FallsInto(insts: seq<Instruction>, starts: seq<nat>, last: Instruction): seq<nat> {
    if last.isReturn || IsJump(last) then [] else ToList(BlockAt(insts, starts, last.Next()))
  }

  /** The successor list of block `k`, in the order in which edges are added. */
  ghost function Targets(insts: seq<Instruction>, starts: seq<nat>, k: nat): seq<nat>
    requires k < |starts| && starts[k] < BlockEnd(insts, starts, k) <= |insts|
  {
    var part := insts[starts[k]..BlockEnd(insts, starts, k)];
    TransfersOf(insts, starts, part) + FallsInto(insts, starts, part[|part| - 1])
  }

  lemma BlockRange(insts: seq<Instruction>, entries: seq<nat>, starts: seq<nat>, k: nat)
    requires Cut(insts, entries, starts) && k < |starts|
    ensures starts[k] < BlockEnd(insts, starts, k) <= |insts|
  {
    hide IsLeader, EntriesInStream;
    if k + 1 < |starts| {
      assert starts[k] < starts[k + 1];
    }
  }

  /** The block that contains position `i`. */
  ghost function BlockOf(starts: seq<nat>, i: nat): nat
    requires |starts| > 0 && starts[0] == 0
  {
    if |starts| == 1 || starts[|starts| - 1] <= i then |starts| - 1
    else BlockOf(starts[..|starts| - 1], i)
  }

  lemma {:induction false} BlockOfContains(insts: seq<Instruction>, starts: seq<nat>, i: nat)
    requires |starts| > 0 && starts[0] == 0 && i < |insts|
    requires forall j, k :: 0 <= j < k < |starts| ==> starts[j] < starts[k]
    ensures BlockOf(starts, i) < |starts|
    ensures starts[BlockOf(starts, i)] <= i < BlockEnd(insts, starts, BlockOf(starts, i))
    decreases |starts|
  {
    if |starts| > 1 && starts[|starts| - 1] > i {
      BlockOfContains(insts, starts[..|starts| - 1], i);
    }
  }

  lemma BlockOfUnique(insts: seq<Instruction>, starts: seq<nat>, i: nat, k: nat)
    requires |starts| > 0 && starts[0] == 0 && i < |insts|
    requires forall j, k :: 0 <= j < k < |starts| ==> starts[j] < starts[k]
    requires k < |starts| && starts[k] <= i < BlockEnd(insts, starts, k)
    ensures BlockOf(starts, i) == k
  {
    BlockOfContains(insts, starts, i);
    var b := BlockOf(starts, i);
  }

  // ---------------------------------------------------------------- partition

  function Concat(parts: seq<seq<Instruction>>): seq<Instruction> {
    if parts == [] then [] else Concat(parts[..|parts| - 1]) + parts[|parts| - 1]
  }

  /** The blocks of a cut, one slice each. */
  function Slices(insts: seq<Instruction>, starts: seq<nat>): seq<seq<Instruction>>
    requires forall k :: 0 <= k < |starts| ==> starts[k] <= BlockEnd(insts, starts, k) <= |insts|
  {
    seq(|starts|, k requires 0 <= k < |starts| => insts[starts[k]..BlockEnd(insts, starts, k)])
  }

  lemma {:induction false} PrefixConcat(insts: seq<Instruction>, starts: seq<nat>, n: nat)
    requires |starts| > 0 && starts[0] == 0
    requires forall k :: 0 <= k < |starts| ==> starts[k] <= BlockEnd(insts, starts, k) <= |insts|
    requires n <= |starts|
    ensures Concat(Slices(insts, starts)[..n]) == insts[..if n < |starts| then starts[n] else |insts|]
    decreases n
  {
    var s := Slices(insts, starts);
    if n > 0 {
      PrefixConcat(insts, starts, n - 1);
      assert s[..n][..n - 1] == s[..n - 1];
      assert s[..n][n - 1] == insts[starts[n - 1]..BlockEnd(insts, starts, n - 1)];
    }
  }

  /** Every block is non-empty and the blocks in order are the stream. */
  lemma BlocksPartitionStream(insts: seq<Instruction>, entries: seq<nat>, starts: seq<nat>)
    requires Cut(insts, entries, starts)
    ensures forall k :: 0 <= k < |starts| ==> starts[k] < BlockEnd(insts, starts, k) <= |insts|
    ensures Concat(Slices(insts, starts)) == insts
  {
    forall k | 0 <= k < |starts|
      ensures starts[k] < BlockEnd(insts, starts, k) <= |insts|
    {
      BlockRange(insts, entries, starts, k);
    }
    PrefixConcat(insts, starts, |starts|);
    assert Slices(insts, starts)[..|starts|] == Slices(insts, starts);
  }

  // ---------------------------------------------------------------- machine steps

  /** One step of the machine: on to the next instruction (fall-through, untaken branch, return
      of a call), or to the target of a direct transfer. */
  ghost predicate Step(insts: seq<Instruction>, i: int, j: int) {
    && 0 <= i < |insts| && 0 <= j < |insts|
    && ((!insts[i].isReturn && !IsJump(insts[i]) && insts[i].Next() == insts[j].address)
        || (HasTarget(insts[i]) && insts[i].branchTarget == insts[j].address))
  }

  lemma {:induction false} TransfersFound(insts: seq<Instruction>, starts: seq<nat>, part: seq<Instruction>, i: nat)
    requires i < |part|
    ensures forall k :: k in Transfers(insts, starts, part[i]) ==> k in TransfersOf(insts, starts, part)
    decreases |part|
  {
    if i < |part| - 1 {
      TransfersFound(insts, starts, part[..|part| - 1], i);
    }
  }

  lemma {:induction false} TransfersJustified(insts: seq<Instruction>, starts: seq<nat>, part: seq<Instruction>,
                                              k: nat) returns (i: nat)
    requires k in TransfersOf(insts, starts, part)
    ensures i < |part| && k in Transfers(insts, starts, part[i])
    decreases |part|
  {
    i := |part| - 1;
    if k !in Transfers(insts, starts, part[|part| - 1]) {
      i := TransfersJustified(insts, starts, part[..|part| - 1], k);
    }
  }

  lemma BlockAtStart(insts: seq<Instruction>, entries: seq<nat>, starts: seq<nat>, k: nat)
    requires Cut(insts, entries, starts) && k < |starts|
    ensures BlockAt(insts, starts, insts[starts[k]].address) == Some(k)
  {
    hide IsLeader, EntriesInStream;
    var a := insts[starts[k]].address;
    assert StartsAt(insts, starts, a, k);
    var r := BlockAt(insts, starts, a);
    SameAddress(insts, starts[r.value], starts[k]);
  }

  /** A direct transfer goes along a recorded edge to the first instruction of a block. */
  lemma TransferFollowsEdge(insts: seq<Instruction>, entries: seq<nat>, starts: seq<nat>, i: nat, j: nat)
    requires Cut(insts, entries, starts) && i < |insts| && j < |insts|
    requires HasTarget(insts[i]) && insts[i].branchTarget == insts[j].address
    ensures var b, c := BlockOf(starts, i), BlockOf(starts, j);
            && b < |starts| && c < |starts| && starts[c] == j
            && starts[b] < BlockEnd(insts, starts, b) <= |insts|
            && c in Targets(insts, starts, b)
  {
    var b := BlockOf(starts, i);
    BlockOfContains(insts, starts, i);
    BlockRange(insts, entries, starts, b);
    assert Marks(insts, insts[i], insts[j].address);
    assert IsLeader(insts, entries, insts[j].address);
    var c :| 0 <= c < |starts| && starts[c] == j;
    BlockRange(insts, entries, starts, c);
    BlockOfUnique(insts, starts, j, c);
    BlockAtStart(insts, entries, starts, c);
    var part := insts[starts[b]..BlockEnd(insts, starts, b)];
    assert part[i - starts[b]] == insts[i];
    TransfersFound(insts, starts, part, i - starts[b]);
  }

  /** Moving on to the next instruction stays in the block or goes along the fall-through edge. */
  lemma NextFollowsEdge(insts: seq<Instruction>, entries: seq<nat>, starts: seq<nat>, i: nat)
    requires Cut(insts, entries, starts) && i + 1 < |insts|
    requires !insts[i].isReturn && !IsJump(insts[i]) && insts[i].Next() == insts[i + 1].address
    ensures var b, c := BlockOf(starts, i), BlockOf(starts, i + 1);
            && b < |starts| && c < |starts|
            && starts[b] < BlockEnd(insts, starts, b) <= |insts|
            && ((b == c && i + 1 < BlockEnd(insts, starts, b))
               || (starts[c] == i + 1 && c in Targets(insts, starts, b)))
  {
    hide IsLeader, EntriesInStream, BlockAt;
    var b := BlockOf(starts, i);
    BlockOfContains(insts, starts, i);
    BlockRange(insts, entries, starts, b);
    if i + 1 < BlockEnd(insts, starts, b) {
      BlockOfUnique(insts, starts, i + 1, b);
    } else {
      assert b + 1 < |starts| && starts[b + 1] == i + 1;
      BlockRange(insts, entries, starts, b + 1);
      BlockOfUnique(insts, starts, i + 1, b + 1);
      BlockAtStart(insts, entries, starts, b + 1);
      hide Cut, BlockOf, BlockAt;
      FallEdge(insts, starts, b);
    }
  }

  lemma FallEdge(insts: seq<Instruction>, starts: seq<nat>, b: nat)
    requires b + 1 < |starts| && starts[b] < BlockEnd(insts, starts, b) <= |insts| && starts[b + 1] < |insts|
    requires var last := insts[starts[b + 1] - 1];
             !last.isReturn && !IsJump(last) && last.Next() == insts[starts[b + 1]].address
    requires BlockAt(insts, starts, insts[starts[b + 1]].address) == Some(b + 1)
    ensures b + 1 in Targets(insts, starts, b)
  {
    var part := insts[starts[b]..BlockEnd(insts, starts, b)];
    assert part[|part| - 1] == insts[starts[b + 1] - 1];
    assert b + 1 in FallsInto(insts, starts, part[|part| - 1]);
  }

  /** Every step stays on the next instruction of its block or follows a recorded edge to the first
      instruction of the target block. */
  lemma StepFollowsGraph(insts: seq<Instruction>, entries: seq<nat>, starts: seq<nat>, i: nat, j: nat)
    requires Cut(insts, entries, starts) && Step(insts, i, j)
    ensures var b, c := BlockOf(starts, i), BlockOf(starts, j);
            && b < |starts| && c < |starts|
            && starts[b] < BlockEnd(insts, starts, b) <= |insts|
            && ((b == c && j == i + 1 && j < BlockEnd(insts, starts, b))
               || (starts[c] == j && c in Targets(insts, starts, b)))
  {
    hide BlockOf, Targets;
    if HasTarget(insts[i]) && insts[i].branchTarget == insts[j].address {
      TransferFollowsEdge(insts, entries, starts, i, j);
    } else {
      NextIsFollowing(insts, i, j);
      NextFollowsEdge(insts, entries, starts, i);
    }
  }

  lemma TransferIsStep(insts: seq<Instruction>, starts: seq<nat>, i: nat, c: nat)
    requires i < |insts| && c in Transfers(insts, starts, insts[i])
    ensures c < |starts| && Step(insts, i, starts[c])
  {
  }

  lemma FallIsStep(insts: seq<Instruction>, starts: seq<nat>, i: nat, c: nat)
    requires i < |insts| && c in FallsInto(insts, starts, insts[i])
    ensures c < |starts| && Step(insts, i, starts[c])
  {
  }

  /** Every recorded edge is taken by some step out of its block. */
  lemma EdgeIsStep(insts: seq<Instruction>, entries: seq<nat>, starts: seq<nat>, b: nat, c: nat) returns (i: nat)
    requires Cut(insts, entries, starts) && b < |starts|
    requires starts[b] < BlockEnd(insts, starts, b) <= |insts|
    requires c in Targets(insts, starts, b)
    ensures c < |starts| && starts[b] <= i < BlockEnd(insts, starts, b)
    ensures Step(insts, i, starts[c])
  {
    hide Cut, Transfers, FallsInto, Step;
    var part := insts[starts[b]..BlockEnd(insts, starts, b)];
    if c in TransfersOf(insts, starts, part) {
      var k := TransfersJustified(insts, starts, part, c);
      i := starts[b] + k;
      assert part[k] == insts[i];
      TransferIsStep(insts, starts, i, c);
    } else {
      i := BlockEnd(insts, starts, b) - 1;
      assert part[|part| - 1] == insts[i];
      FallIsStep(insts, starts, i, c);
    }
  }
}

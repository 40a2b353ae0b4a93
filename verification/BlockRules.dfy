/** The rules of the block builder spelled out: which addresses begin a block, what a run may do next,
    and what the successor list of a block holds, in which order and how often. */
module BlockRules {
  import opened Instructions
  import opened ControlFlow

  /** The direct transfer that an instruction makes to `a`. */
  predicate LeadsTo(inst: Instruction, a: nat) {
    (inst.isBranch || inst.isCall) && inst.branchTarget != 0 && inst.branchTarget == a
  }

  /** Control passes from the end of the instruction to `a`. */
  predicate PassesTo(inst: Instruction, a: nat) {
    && !inst.isReturn && inst.opcode != "JMP" && inst.opcode != "JMPL" && inst.opcode != "JMPQ"
    && a == (inst.address + inst.size) % 0x1_0000_0000_0000_0000
  }

  /** The last instruction before a cut: a return, an unconditional jump or a call. */
  predicate CutsBefore(inst: Instruction, a: nat) {
    && (|| inst.isReturn || inst.isCall || inst.opcode == "RET"
        || inst.opcode == "JMP" || inst.opcode == "JMPL" || inst.opcode == "JMPQ")
    && a == (inst.address + inst.size) % 0x1_0000_0000_0000_0000
  }

  /** An address begins a block exactly when it is the first, an entry point, or the address of an
      instruction to which a transfer leads or before which a return, jump or call cuts. */
  lemma LeaderExactly(insts: seq<Instruction>, entries: seq<nat>, a: nat)
    ensures IsLeader(insts, entries, a) <==>
              || (insts != [] && a == insts[0].address)
              || a in entries
              || ((exists j :: 0 <= j < |insts| && insts[j].address == a)
                  && exists i :: 0 <= i < |insts| && (LeadsTo(insts[i], a) || CutsBefore(insts[i], a)))
  {
    forall i | 0 <= i < |insts|
      ensures Marks(insts, insts[i], a) <==>
                IsAddress(insts, a) && (LeadsTo(insts[i], a) || CutsBefore(insts[i], a))
    {
    }
    hide Marks, LeadsTo, CutsBefore;
  }

  /** A run goes on where control passes to the next instruction or a transfer leads. */
  lemma StepExactly(insts: seq<Instruction>, i: int, j: int)
    requires 0 <= i < |insts| && 0 <= j < |insts|
    ensures Step(insts, i, j) <==> PassesTo(insts[i], insts[j].address) || LeadsTo(insts[i], insts[j].address)
  {
  }

  /** Block `k` starts at `a`. */
  ghost predicate BeginsAt(insts: seq<Instruction>, starts: seq<nat>, k: nat, a: nat) {
    k < |starts| && starts[k] < |insts| && insts[starts[k]].address == a
  }

  /** The entry at position `p` is there because of the instruction at `src[p]`, or, for
      `src[p] == |part|`, because control passes on from the end of the block. */
  ghost predicate ListedFor(insts: seq<Instruction>, starts: seq<nat>, part: seq<Instruction>, k: nat, s: nat) {
    && k < |starts| && starts[k] < |insts| && s <= |part|
    && (s < |part| ==> LeadsTo(part[s], insts[starts[k]].address))
    && (s == |part| ==> part != [] && PassesTo(part[|part| - 1], insts[starts[k]].address))
  }

  ghost predicate InTurn(src: seq<nat>) {
    forall p, q {:trigger src[p], src[q]} :: 0 <= p < q < |src| ==> src[p] < src[q]
  }

  /** Every transfer of the block to the start of a block is a source. */
  ghost predicate NoneMissing(insts: seq<Instruction>, starts: seq<nat>, part: seq<Instruction>, src: seq<nat>) {
    forall i: nat, k: nat {:trigger BeginsAt(insts, starts, k, part[i].branchTarget)} ::
      i < |part| && LeadsTo(part[i], part[i].branchTarget) && BeginsAt(insts, starts, k, part[i].branchTarget) ==>
        i in src
  }

  /** Every entry of the list has its source. */
  ghost predicate AllListedFor(insts: seq<Instruction>, starts: seq<nat>, part: seq<Instruction>, list: seq<nat>,
                               src: seq<nat>) {
    && |src| == |list|
    && forall p {:trigger src[p]} :: 0 <= p < |src| ==> ListedFor(insts, starts, part, list[p], src[p])
  }

  ghost predicate AllBelow(src: seq<nat>, n: nat) {
    forall p {:trigger src[p]} :: 0 <= p < |src| ==> src[p] < n
  }

  lemma AddSource(src: seq<nat>, n: nat)
    requires InTurn(src) && AllBelow(src, n)
    ensures InTurn(src + [n]) && AllBelow(src, n + 1) && AllBelow(src + [n], n + 1)
  {
  }

  lemma MoreSources(insts: seq<Instruction>, starts: seq<nat>, part: seq<Instruction>, src: seq<nat>, more: seq<nat>)
    requires NoneMissing(insts, starts, part, src)
    ensures NoneMissing(insts, starts, part, src + more)
  {
    hide LeadsTo, BeginsAt;
  }

  lemma AddListed(insts: seq<Instruction>, starts: seq<nat>, part: seq<Instruction>, list: seq<nat>, src: seq<nat>,
                  k: nat, s: nat)
    requires AllListedFor(insts, starts, part, list, src) && ListedFor(insts, starts, part, k, s)
    ensures AllListedFor(insts, starts, part, list + [k], src + [s])
  {
    hide ListedFor;
  }

  lemma {:induction false} TransferSources(insts: seq<Instruction>, starts: seq<nat>, part: seq<Instruction>)
    returns (src: seq<nat>)
    ensures InTurn(src) && AllBelow(src, |part|)
    ensures AllListedFor(insts, starts, part, TransfersOf(insts, starts, part), src)
    ensures NoneMissing(insts, starts, part, src)
    decreases |part|
  {
    src := [];
    if part != [] {
      var n := |part| - 1;
      var front := TransferSources(insts, starts, part[..n]);
      LastTransfer(insts, starts, part[n], part, n);
      src := if Transfers(insts, starts, part[n]) == [] then front else front + [n];
      ListedStill(insts, starts, part, TransfersOf(insts, starts, part[..n]), front);
      AddSource(front, n);
      LastSource(insts, starts, part, front, src);
      var more := Transfers(insts, starts, part[n]);
      if more != [] {
        AddListed(insts, starts, part, TransfersOf(insts, starts, part[..n]), front, more[0], n);
        assert more == [more[0]];
      }
      hide AllListedFor, Transfers, NoneMissing, InTurn, AllBelow;
    }
  }

  lemma ListedStill(insts: seq<Instruction>, starts: seq<nat>, part: seq<Instruction>, list: seq<nat>, src: seq<nat>)
    requires part != [] && AllBelow(src, |part| - 1)
    requires AllListedFor(insts, starts, part[..|part| - 1], list, src)
    ensures AllListedFor(insts, starts, part, list, src)
  {
    forall p | 0 <= p < |src|
      ensures ListedFor(insts, starts, part, list[p], src[p])
    {
      assert ListedFor(insts, starts, part[..|part| - 1], list[p], src[p]);
    }
  }

  lemma LastSource(insts: seq<Instruction>, starts: seq<nat>, part: seq<Instruction>, front: seq<nat>, src: seq<nat>)
    requires part != [] && NoneMissing(insts, starts, part[..|part| - 1], front)
    requires src == if Transfers(insts, starts, part[|part| - 1]) == [] then front else front + [|part| - 1]
    ensures NoneMissing(insts, starts, part, src)
  {
    var n := |part| - 1;
    forall i: nat, k: nat | i < |part| && LeadsTo(part[i], part[i].branchTarget)
        && BeginsAt(insts, starts, k, part[i].branchTarget)
      ensures i in src
    {
      if i < n {
        assert part[..n][i] == part[i];
        assert BeginsAt(insts, starts, k, part[..n][i].branchTarget);
      } else {
        LastTransfer(insts, starts, part[n], part, n);
      }
    }
  }

  lemma LastTransfer(insts: seq<Instruction>, starts: seq<nat>, inst: Instruction, part: seq<Instruction>, n: nat)
    requires n < |part| && part[n] == inst
    ensures |Transfers(insts, starts, inst)| <= 1
    ensures Transfers(insts, starts, inst) != [] ==>
              ListedFor(insts, starts, part, Transfers(insts, starts, inst)[0], n)
    ensures forall k: nat {:trigger BeginsAt(insts, starts, k, inst.branchTarget)} ::
              LeadsTo(inst, inst.branchTarget) && BeginsAt(insts, starts, k, inst.branchTarget) ==>
                Transfers(insts, starts, inst) != []
  {
    forall k: nat | LeadsTo(inst, inst.branchTarget) && BeginsAt(insts, starts, k, inst.branchTarget)
      ensures Transfers(insts, starts, inst) != []
    {
      assert StartsAt(insts, starts, inst.branchTarget, k);
    }
  }

  lemma LastPasses(insts: seq<Instruction>, starts: seq<nat>, part: seq<Instruction>)
    requires part != []
    ensures var fall := FallsInto(insts, starts, part[|part| - 1]);
            && |fall| <= 1 && (fall != [] ==> ListedFor(insts, starts, part, fall[0], |part|))
            && forall a: nat, k: nat {:trigger BeginsAt(insts, starts, k, a)} ::
                 PassesTo(part[|part| - 1], a) && BeginsAt(insts, starts, k, a) ==> fall != []
  {
    var last := part[|part| - 1];
    forall a: nat, k: nat | PassesTo(last, a) && BeginsAt(insts, starts, k, a)
      ensures FallsInto(insts, starts, last) != []
    {
      assert StartsAt(insts, starts, a, k);
    }
  }

  /** The successor list of a block holds one entry for each of its transfers to the start of a block,
      in the order of the instructions, then one for the block it passes into; and nothing else. */
  lemma SuccessorsExactly(insts: seq<Instruction>, entries: seq<nat>, starts: seq<nat>, k: nat)
    returns (src: seq<nat>)
    requires Cut(insts, entries, starts) && k < |starts|
    ensures starts[k] < BlockEnd(insts, starts, k) <= |insts|
    ensures var part, list := insts[starts[k]..BlockEnd(insts, starts, k)], Targets(insts, starts, k);
            && InTurn(src) && AllListedFor(insts, starts, part, list, src) && NoneMissing(insts, starts, part, src)
            && forall a: nat, c: nat {:trigger BeginsAt(insts, starts, c, a)} ::
                 PassesTo(part[|part| - 1], a) && BeginsAt(insts, starts, c, a) ==> |part| in src
  {
    BlockRange(insts, entries, starts, k);
    hide Cut, FallsInto, NoneMissing, AllListedFor, InTurn, AllBelow, PassesTo, BeginsAt, TransfersOf;
    var part := insts[starts[k]..BlockEnd(insts, starts, k)];
    var n := |part|;
    var fall := FallsInto(insts, starts, part[n - 1]);
    src := TransferSources(insts, starts, part);
    LastPasses(insts, starts, part);
    if fall != [] {
      AddSource(src, n);
      MoreSources(insts, starts, part, src, [n]);
      AddListed(insts, starts, part, TransfersOf(insts, starts, part), src, fall[0], n);
      assert fall == [fall[0]];
      src := src + [n];
    }
  }
}

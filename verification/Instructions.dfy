/** Decoded instructions, and the loop that decodes a byte buffer into a stream of them. */
module Instructions {
  import opened Text

  const TWO64: nat := 0x1_0000_0000_0000_0000

  /** Machine words wrap around. */
  function Word(n: int): nat {
    n % TWO64
  }

  datatype Instruction = Instruction(
    address: nat,
    size: nat,
    opcode: string,
    isCall: bool,
    isReturn: bool,
    isBranch: bool,
    isConditional: bool,
    branchTarget: nat)
  {
    function Next(): nat {
      Word(address + size)
    }
  }

  // ---------------------------------------------------------------- the decoder's view

  datatype Op = CALL | RET | JMP | IRET | IRETD | IRETQ | ConditionalJump | OtherOp

  /** An operand: a displacement from the next instruction, an immediate, or something else. */
  datatype Arg = Rel(displacement: int) | Imm(value: int) | OtherArg

  datatype Decoded = Decoded(len: nat, op: Op, args: seq<Arg>, opcode: string)

  predicate IsBranchOp(op: Op) {
    op != OtherOp
  }

  predicate IsConditionalBranch(op: Op) {
    op == ConditionalJump
  }

  /** The target named by the first displacement, or by the first immediate of a transfer. */
  function ResolveBranchTarget(d: Decoded, pc: nat): nat {
    if d.op in {RET, IRET, IRETD, IRETQ} then 0 else TargetIn(d, pc, d.args)
  }

  function TargetIn(d: Decoded, pc: nat, args: seq<Arg>): nat {
    if args == [] then 0
    else match args[0]
      case Rel(r) => Word(pc + d.len + r)
      case Imm(v) => if d.op == CALL || d.op == JMP
        || IsConditionalBranch(d.op) then Word(v) else TargetIn(d, pc, args[1..])
      case OtherArg => TargetIn(d, pc, args[1..])
  }

  function Describe(d: Decoded, pc: nat): Instruction {
    Instruction(pc, d.len, d.opcode, d.op == CALL, d.op == RET, IsBranchOp(d.op), IsConditionalBranch(d.op),
                ResolveBranchTarget(d, pc))
  }

  type Decoder = seq<bv8> -> Option<Decoded>

  /** A decoder consumes at least one byte and never reads past the buffer. */
  ghost predicate StaysInBuffer(dec: Decoder) {
    forall rest :: dec(rest).Some? ==> 1 <= dec(rest).value.len <= |rest|
  }

  // ---------------------------------------------------------------- layout

  /** `insts` sit at increasing, non-overlapping offsets `offs` of a buffer of `n` bytes loaded at `base`. */
  ghost predicate LaidOut(insts: seq<Instruction>, offs: seq<nat>, base: nat, n: nat) {
    && |offs| == |insts|
    && (forall i {:trigger insts[i]} {:trigger offs[i]} :: 0 <= i < |insts| ==>
          insts[i].size >= 1 && offs[i] + insts[i].size <= n && insts[i].address == Word(base + offs[i]))
    && (forall i, j {:trigger offs[i], offs[j]} :: 0 <= i < j < |insts| ==> offs[i] + insts[i].size <= offs[j])
  }

  /** A stream the graph builder can cut: addresses increase and instructions do not overlap. */
  ghost predicate Ordered(insts: seq<Instruction>) {
    && (forall i {:trigger insts[i]} :: 0 <= i < |insts| ==>
         insts[i].size >= 1 && insts[i].address + insts[i].size < TWO64)
    && (forall i, j {:trigger insts[i], insts[j]} :: 0 <= i < j < |insts| ==>
         insts[i].address + insts[i].size <= insts[j].address)
  }

  /** The operand names a target: a displacement does, an immediate only in a transfer. */
  predicate NamesTarget(op: Op, arg: Arg) {
    arg.Rel? || (arg.Imm? && (op == CALL || op == JMP || op == ConditionalJump))
  }

  /** What the first operand that names a target says, counted from the end of the instruction for a
      displacement; returns have no target, nor has an instruction without such an operand. */
  ghost predicate RightTarget(d: Decoded, pc: nat, target: nat) {
    if d.op == RET || d.op == IRET || d.op == IRETD || d.op == IRETQ then target == 0
    else
      && ((forall k {:trigger d.args[k]} :: 0 <= k < |d.args| ==> !NamesTarget(d.op, d.args[k])) ==> target == 0)
      && forall k {:trigger d.args[k]} ::
           0 <= k < |d.args| && NamesTarget(d.op, d.args[k])
           && (forall i {:trigger d.args[i]} :: 0 <= i < k ==> !NamesTarget(d.op, d.args[i])) ==>
             match d.args[k]
             case Rel(r) => target == (pc + d.len + r) % 0x1_0000_0000_0000_0000
             case Imm(v) => target == v % 0x1_0000_0000_0000_0000
             case OtherArg => true
  }

  /** The instruction says what was decoded: place, length and name, what kind of transfer it is, and
      where it leads. */
  ghost predicate SaysWhatWasDecoded(d: Decoded, pc: nat, inst: Instruction) {
    && inst.address == pc && inst.size == d.len && inst.opcode == d.opcode
    && (inst.isCall <==> d.op == CALL) && (inst.isReturn <==> d.op == RET)
    && (inst.isBranch <==> d.op != OtherOp) && (inst.isConditional <==> d.op == ConditionalJump)
    && RightTarget(d, pc, inst.branchTarget)
  }

  lemma {:induction false} NoTargetNamed(d: Decoded, pc: nat, args: seq<Arg>)
    requires forall k {:trigger args[k]} :: 0 <= k < |args| ==> !NamesTarget(d.op, args[k])
    ensures TargetIn(d, pc, args) == 0
  {
    if args != [] {
      assert !NamesTarget(d.op, args[0]);
      NoTargetNamed(d, pc, args[1..]);
    }
  }

  lemma {:induction false} TargetAt(d: Decoded, pc: nat, args: seq<Arg>, k: nat)
    requires k < |args| && NamesTarget(d.op, args[k])
    requires forall i {:trigger args[i]} :: 0 <= i < k ==> !NamesTarget(d.op, args[i])
    ensures args[k].Rel? ==> TargetIn(d, pc, args) == (pc + d.len + args[k].displacement) % 0x1_0000_0000_0000_0000
    ensures args[k].Imm? ==> TargetIn(d, pc, args) == args[k].value % 0x1_0000_0000_0000_0000
  {
    if k > 0 {
      assert !NamesTarget(d.op, args[0]);
      var rest := args[1..];
      forall i | 0 <= i < k - 1
        ensures !NamesTarget(d.op, rest[i])
      {
        assert rest[i] == args[i + 1];
      }
      TargetAt(d, pc, rest, k - 1);
    }
  }

  lemma DescribedRight(d: Decoded, pc: nat)
    ensures SaysWhatWasDecoded(d, pc, Describe(d, pc))
  {
    if forall k {:trigger d.args[k]} :: 0 <= k < |d.args| ==> !NamesTarget(d.op, d.args[k]) {
      NoTargetNamed(d, pc, d.args);
    }
    forall k | 0 <= k < |d.args| && NamesTarget(d.op, d.args[k])
        && forall i {:trigger d.args[i]} :: 0 <= i < k ==> !NamesTarget(d.op, d.args[i])
      ensures match d.args[k]
              case Rel(r) => TargetIn(d, pc, d.args) == (pc + d.len + r) % 0x1_0000_0000_0000_0000
              case Imm(v) => TargetIn(d, pc, d.args) == v % 0x1_0000_0000_0000_0000
              case OtherArg => true
    {
      TargetAt(d, pc, d.args, k);
    }
    hide TargetIn;
  }

  /** Instruction `inst` says what the decoder reads at its offset. */
  ghost predicate DecodedAt(dec: Decoder, data: seq<bv8>, base: nat, inst: Instruction, off: nat) {
    && off <= |data|
    && dec(data[off..]).Some?
    && SaysWhatWasDecoded(dec(data[off..]).value, (base + off) % 0x1_0000_0000_0000_0000, inst)
  }

  /** Some instruction covers offset `o`. */
  ghost predicate Covered(insts: seq<Instruction>, offs: seq<nat>, o: nat)
    requires |offs| == |insts|
  {
    exists i {:trigger offs[i]} :: 0 <= i < |offs| && offs[i] <= o < offs[i] + insts[i].size
  }

  /** The first `upTo` bytes have been decoded: in order, faithfully, and without passing over
      any offset at which something decodes. */
  ghost predicate DecodedUpTo(dec: Decoder, data: seq<bv8>, base: nat, insts: seq<Instruction>, offs: seq<nat>,
                              upTo: nat) {
    && LaidOut(insts, offs, base, upTo)
    && upTo <= |data|
    && (forall i {:trigger insts[i]} :: 0 <= i < |insts| ==> DecodedAt(dec, data, base, insts[i], offs[i]))
    && (forall o {:trigger Covered(insts, offs, o)} :: 0 <= o < upTo && dec(data[o..]).Some? ==>
         Covered(insts, offs, o))
  }

  lemma NothingDecoded(dec: Decoder, data: seq<bv8>, base: nat)
    ensures DecodedUpTo(dec, data, base, [], [], 0)
  {
  }

  lemma SkipByte(dec: Decoder, data: seq<bv8>, base: nat, insts: seq<Instruction>, offs: seq<nat>, o: nat)
    requires DecodedUpTo(dec, data, base, insts, offs, o) && o < |data| && dec(data[o..]).None?
    ensures DecodedUpTo(dec, data, base, insts, offs, o + 1)
  {
  }

  lemma AppendLaidOut(insts: seq<Instruction>, offs: seq<nat>, base: nat, o: nat, d: Decoded, n: nat)
    requires LaidOut(insts, offs, base, o) && d.len >= 1 && o + d.len <= n
    ensures |offs| == |insts|
    ensures LaidOut(insts + [Describe(d, Word(base + o))], offs + [o], base, n)
  {
    hide Word;
  }

  lemma AppendCovers(insts: seq<Instruction>, offs: seq<nat>, inst: Instruction, o: nat, x: nat)
    requires |offs| == |insts|
    requires Covered(insts, offs, x) || o <= x < o + inst.size
    ensures Covered(insts + [inst], offs + [o], x)
  {
    var insts', offs' := insts + [inst], offs + [o];
    if Covered(insts, offs, x) {
      var i :| 0 <= i < |offs| && offs[i] <= x < offs[i] + insts[i].size;
      assert offs'[i] == offs[i] && insts'[i] == insts[i];
    } else {
      assert offs'[|offs|] == o;
    }
  }

  lemma DecodedHere(dec: Decoder, data: seq<bv8>, base: nat, o: nat, d: Decoded)
    requires StaysInBuffer(dec)
    requires o < |data| && dec(data[o..]) == Some(d)
    ensures 1 <= d.len && o + d.len <= |data|
    ensures DecodedAt(dec, data, base, Describe(d, Word(base + o)), o)
    ensures Describe(d, Word(base + o)).size == d.len
  {
    DescribedRight(d, Word(base + o));
    hide Describe, RightTarget;
  }

  lemma TakeInstruction(dec: Decoder, data: seq<bv8>, base: nat, insts: seq<Instruction>, offs: seq<nat>, o: nat,
                        d: Decoded)
    requires StaysInBuffer(dec) && DecodedUpTo(dec, data, base, insts, offs, o)
    requires o < |data| && dec(data[o..]) == Some(d)
    ensures DecodedUpTo(dec, data, base, insts + [Describe(d, Word(base + o))], offs + [o], o + d.len)
  {
    hide Describe, Word, StaysInBuffer, DecodedAt, Covered, LaidOut;
    var inst := Describe(d, Word(base + o));
    var insts', offs' := insts + [inst], offs + [o];
    DecodedHere(dec, data, base, o, d);
    AppendLaidOut(insts, offs, base, o, d, o + d.len);
    forall i | 0 <= i < |insts'|
      ensures DecodedAt(dec, data, base, insts'[i], offs'[i])
    {
      assert i < |insts| ==> insts'[i] == insts[i] && offs'[i] == offs[i];
    }
    forall x | 0 <= x < o + d.len && dec(data[x..]).Some?
      ensures Covered(insts', offs', x)
    {
      assert x < o ==> Covered(insts, offs, x);
      AppendCovers(insts, offs, inst, o, x);
    }
  }

  /** The instructions sit at some offsets of the whole buffer, in order and without gaps that decode. */
  ghost predicate Decodes(dec: Decoder, data: seq<bv8>, base: nat, insts: seq<Instruction>) {
    exists offs: seq<nat> {:trigger DecodedUpTo(dec, data, base, insts, offs, |data|)} ::
        DecodedUpTo(dec, data, base, insts, offs, |data|)
  }

  /** Linear decoding; a byte that does not decode is skipped. */
  method DecodeStream(dec: Decoder, data: seq<bv8>, base: nat) returns (insts: seq<Instruction>)
    requires StaysInBuffer(dec)
    ensures Decodes(dec, data, base, insts)
  {
    insts := [];
    ghost var offs: seq<nat> := [];
    var offset := 0;
    NothingDecoded(dec, data, base);
    hide DecodedUpTo, Describe;
    while offset < |data|
      invariant 0 <= offset <= |data|
      invariant DecodedUpTo(dec, data, base, insts, offs, offset)
    {
      match dec(data[offset..])
      case None =>
        SkipByte(dec, data, base, insts, offs, offset);
        offset := offset + 1;
      case Some(d) =>
        TakeInstruction(dec, data, base, insts, offs, offset, d);
        insts := insts + [Describe(d, Word(base + offset))];
        offs := offs + [offset];
        offset := offset + d.len;
    }
  }

  /** The decoded stream can be cut exactly when the address counter does not wrap inside it. */
  lemma LayoutIsOrderedExactly(insts: seq<Instruction>, offs: seq<nat>, base: nat, n: nat)
    requires LaidOut(insts, offs, base, n) && insts != [] && n < TWO64
    ensures Ordered(insts) <==>
            (base + offs[0]) / TWO64 == (base + offs[|insts| - 1] + insts[|insts| - 1].size) / TWO64
  {
    var last := |insts| - 1;
    var q := (base + offs[0]) / TWO64;
    var end := base + offs[last] + insts[last].size;
    assert offs[0] <= offs[last];
    if Ordered(insts) {
      assert insts[0].address <= insts[last].address;
      OneWrap(base + offs[0], base + offs[last], insts[last].size);
    }
    if end / TWO64 == q {
      forall i | 0 <= i < |insts|
        ensures insts[i].address == base + offs[i] - q * TWO64
        ensures insts[i].address + insts[i].size < TWO64
      {
        assert offs[0] <= offs[i] && offs[i] + insts[i].size <= offs[last] + insts[last].size;
        WordWithin(base + offs[i], q);
      }
    }
  }

  lemma WordWithin(x: nat, q: nat)
    requires q * TWO64 <= x < (q + 1) * TWO64
    ensures Word(x) == x - q * TWO64
  {
  }

  /** Within less than one full turn, a counter that ends no lower than it began and stays in range
      did not wrap. */
  lemma OneWrap(x: nat, y: nat, size: nat)
    requires x <= y && y + size < x + TWO64
    requires Word(x) <= Word(y) && Word(y) + size < TWO64
    ensures x / TWO64 == (y + size) / TWO64
  {
    assert x == (x / TWO64) * TWO64 + Word(x);
    assert y == (y / TWO64) * TWO64 + Word(y);
  }

  lemma BelowTop(a: nat)
    requires a < TWO64
    ensures a / TWO64 == 0
  {
  }

  lemma LaidOutBelowTop(insts: seq<Instruction>, offs: seq<nat>, base: nat, n: nat)
    requires LaidOut(insts, offs, base, n) && base + n < TWO64
    ensures Ordered(insts)
  {
    if insts != [] {
      var last := |insts| - 1;
      assert insts[0].size >= 1 && offs[0] + insts[0].size <= n && offs[last] + insts[last].size <= n;
      BelowTop(base + offs[0]);
      BelowTop(base + offs[last] + insts[last].size);
      hide LaidOut, Ordered;
      LayoutIsOrderedExactly(insts, offs, base, n);
    }
  }

  /** What is decoded from a buffer that fits below the top of the address space can be cut. */
  lemma DecodedIsOrdered(dec: Decoder, data: seq<bv8>, base: nat, insts: seq<Instruction>)
    requires Decodes(dec, data, base, insts) && base + |data| < TWO64
    ensures Ordered(insts)
  {
    var offs: seq<nat> :| DecodedUpTo(dec, data, base, insts, offs, |data|);
    hide Ordered, DecodedAt, Covered;
    LaidOutBelowTop(insts, offs, base, |data|);
  }
}

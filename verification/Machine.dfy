/** The symbolic effect of one instruction on the register map, the machine it stands for, and the
    simulation between the two. */
module Machine {
  import opened Text
  import opened Operands
  import opened Splitting
  import opened Shifts
  import opened Words
  import opened Exprs

  // ---------------------------------------------------------------- symbolic state

  /** What the registers stand for, the names given to stack slots so far, and the last comparison. */
  datatype SymState = SymState(regs: map<string, Expr>, slots: map<int, string>, varCount: nat,
                               cmp: Option<(Expr, Expr)>)

  function Lookup(regs: map<string, Expr>, name: string): Expr {
    if name in regs then regs[name] else Reg(name)
  }

  function ToWord(n: nat): Word
    requires n <= MAX_UINT64
  {
    n as Word
  }

  function SignedHex(n: int): string {
    if n < 0 then "-" + Digits(-n, 16) else Digits(n, 16)
  }

  function StackVarName(slots: map<int, string>, offset: int): string {
    if offset in slots then slots[offset] else "stack_0x" + SignedHex(offset)
  }

  /** The expression of a source operand; `Missing` when nothing could be read. */
  function SourceExpr(st: SymState, operand: string): Expr {
    match ParseOperand(operand)
    case NoOperand => Missing
    case Immediate(n) => Const(ToWord(n))
    case Register(r) => Lookup(st.regs, r)
    case Memory(mem) =>
      if mem.base == "" then Missing
      else if mem.base == "SP" then Reg(StackVarName(st.slots, mem.offset))
      else Apply(LoadHead(mem), [])
  }

  /** What an opcode makes the analyzer do. */
  datatype Action =
    | Move | Lea | BinOp(op: string) | IncDec(op: string) | UnaryOp(op: string)
    | Compare | Test | Call | Return | Jump | CondJump | SetFlag | Ignore

  function Classify(opcode: string): Action {
    if opcode in {"MOVQ", "MOVL", "MOVW", "MOVB", "MOVUPS", "MOVSD", "MOVSS"} then Move
    else if opcode in {"LEAQ", "LEAL"} then Lea
    else if opcode in {"ADDQ", "ADDL"} then BinOp("+")
    else if opcode in {"SUBQ", "SUBL"} then BinOp("-")
    else if opcode in {"IMULQ", "IMULL", "MULQ"} then BinOp("*")
    else if opcode in {"ANDQ", "ANDL", "ANDB"} then BinOp("&")
    else if opcode in {"ORQ", "ORL", "ORB"} then BinOp("|")
    else if opcode in {"XORQ", "XORL", "XORB"} then BinOp("^")
    else if opcode in {"SHLQ", "SHLL", "SALQ", "SALL"} then BinOp("<<")
    else if opcode in {"SHRQ", "SHRL"} then BinOp(">>")
    else if opcode in {"INCQ", "INCL"} then IncDec("+")
    else if opcode in {"DECQ", "DECL"} then IncDec("-")
    else if opcode in {"NEGQ", "NEGL"} then UnaryOp("-")
    else if opcode in {"NOTQ", "NOTL"} then UnaryOp("^")
    else if opcode in {"CMPQ", "CMPL", "CMP", "CMPB"} then Compare
    else if opcode in {"TESTQ", "TESTL", "TEST"} then Test
    else if opcode == "CALL" then Call
    else if opcode == "RET" then Return
    else if opcode == "JMP" then Jump
    else if opcode in {"JEQ", "JNE", "JGT", "JLT", "JGE", "JLE", "JHI", "JLS"} then CondJump
    else if opcode in {"SETEQ", "SETNE", "SETGT"} then SetFlag
    else Ignore
  }

  /** The operators that actions carry. */
  predicate IsArithmetic(op: string) {
    op in {"+", "-", "*", "&", "|", "^", "<<", ">>"}
  }

  function SetExpr(st: SymState, dst: string, e: Expr): SymState {
    st.(regs := st.regs[dst := e])
  }

  /** A move into a stack slot names the slot if it has no name yet. */
  function NameSlot(st: SymState, offset: int): SymState {
    if offset in st.slots then st
    else st.(slots := st.slots[offset := "v" + Digits(st.varCount, 10)], varCount := st.varCount + 1)
  }

  function StepMove(st: SymState, operands: seq<string>): SymState {
    if |operands| < 2 then st
    else if IsRegister(operands[1]) then SetExpr(st, operands[1], SourceExpr(st, operands[0]))
    else
      var dst := ParseOperand(operands[1]);
      if dst.Memory? && dst.mem.base == "SP" then NameSlot(st, dst.mem.offset) else st
  }

  function StepLea(st: SymState, operands: seq<string>): SymState {
    if |operands| < 2 then st
    else
      var src := ParseOperand(operands[0]);
      if IsRegister(operands[1]) && src.Memory? then SetExpr(st, operands[1], Apply(AddrHead(src.mem), [])) else st
  }

  function StepBinOp(st: SymState, op: string, operands: seq<string>): SymState {
    if |operands| < 2 || !IsRegister(operands[1]) then st
    else SetExpr(st, operands[1], Op(op, Lookup(st.regs, operands[1]), SourceExpr(st, operands[0])))
  }

  function StepIncDec(st: SymState, op: string, operands: seq<string>): SymState {
    if |operands| < 1 || !IsRegister(operands[0]) then st
    else SetExpr(st, operands[0], Op(op, Lookup(st.regs, operands[0]), Const(1)))
  }

  function StepUnary(st: SymState, op: string, operands: seq<string>): SymState {
    if |operands| < 1 || !IsRegister(operands[0]) then st
    else SetExpr(st, operands[0], Unary(op, Lookup(st.regs, operands[0])))
  }

  function StepSet(st: SymState, operands: seq<string>): SymState {
    if |operands| < 1 || !IsRegister(operands[0]) then st else SetExpr(st, operands[0], Const(1))
  }

  /** A comparison looks at its operands as written: registers by name, memory as a load. */
  function ComparedExpr(operand: string): Expr {
    match ParseOperand(operand)
    case NoOperand => Missing
    case Immediate(n) => Const(ToWord(n))
    case Register(r) => Reg(r)
    case Memory(mem) => if mem.base != "" then Apply(LoadHead(mem), []) else Missing
  }

  /** The source of a comparison: an immediate or a register by name. */
  function ComparedSource(operand: string): Expr {
    match ParseOperand(operand)
    case Immediate(n) => Const(ToWord(n))
    case Register(r) => Reg(r)
    case _ => Missing
  }

  function StepCompare(st: SymState, operands: seq<string>): SymState {
    if |operands| < 2 then st else st.(cmp := Some((ComparedExpr(operands[1]), ComparedSource(operands[0]))))
  }

  /** A test looks at what its registers currently stand for. */
  function TestedExpr(st: SymState, operand: string): Expr {
    match ParseOperand(operand)
    case Immediate(n) => Const(ToWord(n))
    case Register(r) => Lookup(st.regs, r)
    case _ => Missing
  }

  function StepTest(st: SymState, operands: seq<string>): SymState {
    if |operands| < 2 then st else st.(cmp := Some((TestedExpr(st, operands[0]), TestedExpr(st, operands[1]))))
  }

  /** The effect of one instruction on the symbolic state. */
  function StepSym(st: SymState, action: Action, operands: seq<string>, target: string): SymState {
    match action
    case Move => StepMove(st, operands)
    case Lea => StepLea(st, operands)
    case BinOp(op) => StepBinOp(st, op, operands)
    case IncDec(op) => StepIncDec(st, op, operands)
    case UnaryOp(op) => StepUnary(st, op, operands)
    case Compare => StepCompare(st, operands)
    case Test => StepTest(st, operands)
    case Call => SetExpr(st, "AX", Apply(CallHead(target), []))
    case SetFlag => StepSet(st, operands)
    case _ => st
  }

  // ---------------------------------------------------------------- emitted statements

  datatype StatementKind = SAssign | SStore | SCall | SReturn | SIf | SGoto | SExpr

  /** A statement with its values as expressions. A condition is kept as the two sides its text is
      printed from, and as nothing when there is no comparison. */
  datatype StmtView = StmtView(
    kind: StatementKind,
    address: nat,
    dst: string,
    value: Expr,
    func: string,
    args: seq<Expr>,
    lbl: string,
    cond: seq<Expr>)

  /** One line of assembler text, with its address and branch target. */
  datatype AsmInst = AsmInst(address: nat, text: string, branchTarget: nat)

  /** Statements that are the same but for values that mean at least what they meant. */
  ghost predicate StmtRefines(s: StmtView, t: StmtView) {
    && t == s.(value := t.value, args := t.args, cond := t.cond)
    && Refines(s.value, t.value) && AllRefine(s.args, t.args) && AllRefine(s.cond, t.cond)
  }

  ghost predicate StmtsRefine(ss: seq<StmtView>, ts: seq<StmtView>) {
    |ss| == |ts| && forall i {:trigger ss[i]} {:trigger ts[i]} :: 0 <= i < |ss| ==> StmtRefines(ss[i], ts[i])
  }

  function EmitMove(st: SymState, operands: seq<string>): seq<StmtView> {
    if |operands| < 2 || IsRegister(operands[1]) then []
    else
      match ParseOperand(operands[1])
      case Memory(mem) =>
        if mem.base == "" then []
        else if mem.base == "SP" then
          var name := NameSlot(st, mem.offset).slots[mem.offset];
          [StmtView(SAssign, 0, name, SourceExpr(st, operands[0]), "", [], "", [])]
        else [StmtView(SStore, 0, mem.Print(), SourceExpr(st, operands[0]), "", [], "", [])]
      case _ => []
  }

  function EmitIncDec(st: SymState, op: string, operands: seq<string>): seq<StmtView> {
    if |operands| < 1 || !IsRegister(operands[0]) then []
    else [StmtView(SAssign, 0, operands[0], Op(op, Lookup(st.regs, operands[0]), Const(1)), "", [], "", [])]
  }

  /** The two sides of a comparison; none when one is missing. */
  function Sides(cmp: Option<(Expr, Expr)>): seq<Expr> {
    match cmp
    case None => []
    case Some((left, right)) => if left == Missing || right == Missing then [] else [left, right]
  }

  /** The statements one instruction adds. */
  function Emit(st: SymState, action: Action, operands: seq<string>, inst: AsmInst, target: string): seq<StmtView> {
    match action
    case Move => EmitMove(st, operands)
    case IncDec(op) => EmitIncDec(st, op, operands)
    case Call => [StmtView(SCall, inst.address, "", Apply(CallHead(target), []), target, [], "", [])]
    case Return =>
      var ax := Lookup(st.regs, "AX");
      [StmtView(SReturn, inst.address, "", if ax.Reg? then Missing else ax, "", [], "", [])]
    case Jump => [StmtView(SGoto, inst.address, "", Missing, "", [], FmtHex(inst.branchTarget), [])]
    case CondJump => [StmtView(SIf, inst.address, "", Missing, "", [], FmtHex(inst.branchTarget), Sides(st.cmp))]
    case _ => []
  }

  /** The function a call names. */
  function CallTarget(text: string): string {
    var (op, ops) := ParseGoSyntaxOperands(text);
    if op != "CALL" || ops == [] then ""
    else
      var sb := Index(ops[0], "(SB)");
      if sb >= 0 then TrimSpace(ops[0][..sb]) else ops[0]
  }

  // ---------------------------------------------------------------- the machine

  type RegFile = string -> Word

  function Store(rf: RegFile, dst: string, x: Word): RegFile {
    n => if n == dst then x else rf(n)
  }

  /** Shift counts are taken modulo 64, as the processor does. */
  function MachineOp(op: string, a: Word, b: Word): Word {
    if op == "+" then Add(a, b)
    else if op == "-" then Sub(a, b)
    else if op == "*" then Mul(a, b)
    else if op == "&" then And(a, b)
    else if op == "|" then Or(a, b)
    else if op == "^" then Xor(a, b)
    else if op == "<<" then Shl(a, And(b, 63))
    else Shr(a, And(b, 63))
  }

  /** A readable source: a register or a non-negative immediate. */
  predicate PlainSource(operand: string) {
    ParseOperand(operand).Immediate? || ParseOperand(operand).Register?
  }

  function SourceWord(operand: string, rf: RegFile): Word
    requires PlainSource(operand)
  {
    match ParseOperand(operand)
    case Immediate(n) => ToWord(n)
    case Register(r) => rf(r)
  }

  /** The operands the simulation covers: registers, and non-negative immediates as sources. */
  predicate PlainOperands(action: Action, operands: seq<string>) {
    match action
    case Move => |operands| == 2 && PlainSource(operands[0]) && IsRegister(operands[1])
    case BinOp(op) => IsArithmetic(op) && |operands| == 2 && PlainSource(operands[0]) && IsRegister(operands[1])
    case IncDec(op) => (op == "+" || op == "-") && |operands| == 1 && IsRegister(operands[0])
    case UnaryOp(op) => (op == "-" || op == "^") && |operands| == 1 && IsRegister(operands[0])
    case Compare => true
    case Test => true
    case CondJump => true
    case _ => false
  }

  /** The effect of an action on the registers. */
  function StepMachine(action: Action, operands: seq<string>, rf: RegFile): RegFile
    requires PlainOperands(action, operands)
  {
    match action
    case Move => Store(rf, operands[1], SourceWord(operands[0], rf))
    case BinOp(op) => Store(rf, operands[1], MachineOp(op, rf(operands[1]), SourceWord(operands[0], rf)))
    case IncDec(op) => Store(rf, operands[0], MachineOp(op, rf(operands[0]), 1))
    case UnaryOp(op) => Store(rf, operands[0], if op == "-" then Neg(rf(operands[0])) else Not(rf(operands[0])))
    case _ => rf
  }

  predicate IsShift(op: string) {
    op == "<<" || op == ">>"
  }

  /** A shift in this state has a count the symbolic shift treats like the processor does. */
  predicate CountInRange(action: Action, operands: seq<string>, rf: RegFile)
    requires PlainOperands(action, operands)
  {
    action.BinOp? && IsShift(action.op) ==> SourceWord(operands[0], rf) < 64
  }

  // ---------------------------------------------------------------- the processor

  predicate TakesTwo(opcode: string) {
    opcode in {"MOVQ", "ADDQ", "SUBQ", "IMULQ", "ANDQ", "ORQ", "XORQ", "SHLQ", "SALQ", "SHRQ"}
  }

  predicate TakesOne(opcode: string) {
    opcode in {"INCQ", "DECQ", "NEGQ", "NOTQ"}
  }

  predicate ShiftsBits(opcode: string) {
    opcode in {"SHLQ", "SALQ", "SHRQ"}
  }

  /** Comparisons and conditional jumps. */
  predicate KeepsRegisters(opcode: string) {
    opcode in {"CMPQ", "CMP", "TESTQ", "TEST", "JEQ", "JNE", "JGT", "JLT", "JGE", "JLE", "JHI", "JLS"}
  }

  /** The 64-bit instructions on registers and non-negative immediates, with shift counts below 64. */
  predicate Executable(opcode: string, operands: seq<string>, rf: RegFile) {
    || KeepsRegisters(opcode)
    || (TakesOne(opcode) && |operands| == 1 && IsRegister(operands[0]))
    || (TakesTwo(opcode) && |operands| == 2 && PlainSource(operands[0]) && IsRegister(operands[1])
        && (ShiftsBits(opcode) ==> SourceWord(operands[0], rf) < 64))
  }

  /** What an instruction leaves in its destination, which held `a`, given the other operand `x`. */
  function Result(opcode: string, a: Word, x: Word): Word {
    if opcode == "MOVQ" then x
    else if opcode == "ADDQ" then Add(a, x)
    else if opcode == "SUBQ" then Sub(a, x)
    else if opcode == "IMULQ" then Mul(a, x)
    else if opcode == "ANDQ" then And(a, x)
    else if opcode == "ORQ" then Or(a, x)
    else if opcode == "XORQ" then Xor(a, x)
    else if opcode == "SHLQ" || opcode == "SALQ" then Shl(a, x)
    else if opcode == "SHRQ" then Shr(a, x)
    else if opcode == "INCQ" then Add(a, 1)
    else if opcode == "DECQ" then Sub(a, 1)
    else if opcode == "NEGQ" then Neg(a)
    else Not(a)
  }

  /** The processor's step, from the opcode alone. */
  function Execute(opcode: string, operands: seq<string>, rf: RegFile): RegFile
    requires Executable(opcode, operands, rf)
  {
    if KeepsRegisters(opcode) then rf
    else if TakesOne(opcode) then Store(rf, operands[0], Result(opcode, rf(operands[0]), 0))
    else Store(rf, operands[1], Result(opcode, rf(operands[1]), SourceWord(operands[0], rf)))
  }

  /** Two operands: the operation the opcode stands for computes the processor's result. */
  lemma ResultIsOperation(opcode: string, a: Word, x: Word)
    requires TakesTwo(opcode) && opcode != "MOVQ" && (ShiftsBits(opcode) ==> x < 64)
    ensures Classify(opcode).BinOp? && IsArithmetic(Classify(opcode).op)
    ensures IsShift(Classify(opcode).op) <==> ShiftsBits(opcode)
    ensures Result(opcode, a, x) == MachineOp(Classify(opcode).op, a, x)
  {
    hide Add, Sub, Mul, And, Or, Xor, Shl, Shr, Neg, Not;
    if ShiftsBits(opcode) {
      CountBelow64(x);
    }
  }

  lemma ResultIsCount(opcode: string, a: Word)
    requires opcode == "INCQ" || opcode == "DECQ"
    ensures Classify(opcode) == IncDec(if opcode == "INCQ" then "+" else "-")
    ensures Result(opcode, a, 0) == MachineOp(if opcode == "INCQ" then "+" else "-", a, 1)
  {
    hide Add, Sub, Mul, And, Or, Xor, Shl, Shr, Neg, Not;
  }

  lemma ResultIsSign(opcode: string, a: Word)
    requires opcode == "NEGQ" || opcode == "NOTQ"
    ensures Classify(opcode) == UnaryOp(if opcode == "NEGQ" then "-" else "^")
    ensures Result(opcode, a, 0) == if opcode == "NEGQ" then Neg(a) else Not(a)
  {
    hide Add, Sub, Mul, And, Or, Xor, Shl, Shr, Neg, Not;
  }

  lemma TwoMatch(opcode: string, operands: seq<string>, rf: RegFile)
    requires TakesTwo(opcode) && Executable(opcode, operands, rf)
    ensures PlainOperands(Classify(opcode), operands) && CountInRange(Classify(opcode), operands, rf)
    ensures StepMachine(Classify(opcode), operands, rf) ==
            Store(rf, operands[1], Result(opcode, rf(operands[1]), SourceWord(operands[0], rf)))
  {
    TwoAreGiven(opcode, operands, rf);
    if opcode == "MOVQ" {
      assert Classify(opcode) == Move;
      assert Result(opcode, rf(operands[1]), SourceWord(operands[0], rf)) == SourceWord(operands[0], rf);
    } else {
      ResultIsOperation(opcode, rf(operands[1]), SourceWord(operands[0], rf));
    }
    hide Classify, TakesTwo, ShiftsBits, MachineOp, Result, SourceWord, Store, PlainSource, IsRegister, Executable;
  }

  lemma TwoAreGiven(opcode: string, operands: seq<string>, rf: RegFile)
    requires TakesTwo(opcode) && Executable(opcode, operands, rf)
    ensures |operands| == 2 && PlainSource(operands[0]) && IsRegister(operands[1])
    ensures ShiftsBits(opcode) ==> SourceWord(operands[0], rf) < 64
  {
    hide PlainSource, IsRegister, SourceWord;
  }

  lemma OneMatches(opcode: string, operands: seq<string>, rf: RegFile)
    requires TakesOne(opcode) && Executable(opcode, operands, rf)
    ensures PlainOperands(Classify(opcode), operands) && CountInRange(Classify(opcode), operands, rf)
    ensures StepMachine(Classify(opcode), operands, rf) == Store(rf, operands[0], Result(opcode, rf(operands[0]), 0))
  {
    OneIsGiven(opcode, operands, rf);
    if opcode == "INCQ" || opcode == "DECQ" {
      ResultIsCount(opcode, rf(operands[0]));
    } else {
      ResultIsSign(opcode, rf(operands[0]));
    }
    hide Classify, MachineOp, Result, SourceWord, Store, PlainSource, IsRegister, Executable;
  }

  lemma OneIsGiven(opcode: string, operands: seq<string>, rf: RegFile)
    requires TakesOne(opcode) && Executable(opcode, operands, rf)
    ensures |operands| == 1 && IsRegister(operands[0])
  {
    hide PlainSource, IsRegister, SourceWord;
  }

  lemma KeepersMatch(opcode: string)
    requires KeepsRegisters(opcode)
    ensures Classify(opcode) in {Compare, Test, CondJump} && !TakesOne(opcode) && !TakesTwo(opcode)
  {
  }

  lemma TakersDiffer(opcode: string)
    ensures TakesTwo(opcode) ==> !TakesOne(opcode) && !KeepsRegisters(opcode)
    ensures TakesOne(opcode) ==> !KeepsRegisters(opcode)
  {
  }

  /** The opcode table is right: what an opcode makes of the registers as an action is what the
      processor does. */
  lemma ActionIsExecution(opcode: string, operands: seq<string>, rf: RegFile)
    requires Executable(opcode, operands, rf)
    ensures PlainOperands(Classify(opcode), operands) && CountInRange(Classify(opcode), operands, rf)
    ensures StepMachine(Classify(opcode), operands, rf) == Execute(opcode, operands, rf)
  {
    TakersDiffer(opcode);
    hide TakesTwo, TakesOne, KeepsRegisters, Classify, Result, SourceWord, Store, IsRegister, PlainSource;
    if TakesTwo(opcode) {
      TwoMatch(opcode, operands, rf);
    } else if TakesOne(opcode) {
      OneMatches(opcode, operands, rf);
    } else {
      KeepersMatch(opcode);
    }
  }

  // ---------------------------------------------------------------- simulation

  /** The entry register file as an environment. */
  function EntryEnv(rf0: RegFile, apply: (Head, seq<Word>) -> Word): Env {
    Env(n => Some(rf0(n)), apply)
  }

  /** Every register's expression, evaluated at entry, is the register's current content. */
  ghost predicate Tracks(regs: map<string, Expr>, rf0: RegFile, apply: (Head, seq<Word>) -> Word, rf: RegFile) {
    forall name {:trigger Lookup(regs, name)} {:trigger rf(name)} ::
        Eval(Lookup(regs, name), EntryEnv(rf0, apply)) == Some(rf(name))
  }

  lemma EntryTracks(rf0: RegFile, apply: (Head, seq<Word>) -> Word)
    ensures Tracks(map[], rf0, apply, rf0)
  {
  }

  lemma CountBelow64(b: Word)
    requires b < 64
    ensures And(b, 63) == b
  {
  }

  lemma MachineOpMatches(op: string, a: Word, b: Word)
    requires IsArithmetic(op)
    requires IsShift(op) ==> b < 64
    ensures EvalOp(op, a, b) == Some(MachineOp(op, a, b))
  {
    hide Add, Sub, Mul, And, Or, Xor, Shl, Shr, Div;
    if IsShift(op) {
      CountBelow64(b);
    }
  }

  /** The bits a shift by `c` below 64 keeps: the low ones to the left, the high ones to the right. */
  function KeptBits(op: string, c: Word): Word {
    if op == "<<" then Shr(ONES, c) else Shl(ONES, c)
  }

  lemma FarShift(op: string, a: Word, b: Word)
    requires IsShift(op) && b >= 64
    ensures EvalOp(op, a, b) == Some(0)
  {
  }

  /** The symbolic shift and the processor agree exactly for counts below 64, and for larger counts
      when none of the bits of `a` that the processor's shift keeps is set. */
  lemma ShiftMatchesExactly(op: string, a: Word, b: Word)
    requires IsShift(op)
    ensures EvalOp(op, a, b) == Some(MachineOp(op, a, b)) <==> b < 64 || And(a, KeptBits(op, And(b, 63))) == 0
  {
    if b < 64 {
      hide Add, Sub, Mul, And, Or, Xor, Div, Shl, Shr;
      CountBelow64(b);
    } else {
      FarShift(op, a, b);
      MaskedCount(b);
      LeftShiftIsZeroExactly(a, And(b, 63));
      RightShiftIsZeroExactly(a, And(b, 63));
      hide Add, Sub, Mul, And, Or, Xor, Div, Shl, Shr, EvalOp;
    }
  }

  /** A shift by 64 that the two treat differently. */
  lemma ShiftBy64Differs()
    ensures EvalOp("<<", 1, 64) == Some(0) && MachineOp("<<", 1, 64) == 1
  {
    assert And(64, 63) == 0;
    assert Shl(1, 64) == 0;
    assert Shl(1, 0) == 1;
  }

  lemma SetTracks(regs: map<string, Expr>, rf0: RegFile, apply: (Head, seq<Word>) -> Word, rf: RegFile, dst: string,
                  e: Expr, x: Word)
    requires Tracks(regs, rf0, apply, rf)
    requires Eval(e, EntryEnv(rf0, apply)) == Some(x)
    ensures Tracks(regs[dst := e], rf0, apply, Store(rf, dst, x))
  {
    var regs', rf' := regs[dst := e], Store(rf, dst, x);
    forall name
      ensures Eval(Lookup(regs', name), EntryEnv(rf0, apply)) == Some(rf'(name))
    {
      assert name != dst ==> Lookup(regs', name) == Lookup(regs, name) && rf'(name) == rf(name);
    }
  }

  lemma SourceTracks(st: SymState, operand: string, rf0: RegFile, apply: (Head, seq<Word>) -> Word, rf: RegFile)
    requires Tracks(st.regs, rf0, apply, rf) && PlainSource(operand)
    ensures Eval(SourceExpr(st, operand), EntryEnv(rf0, apply)) == Some(SourceWord(operand, rf))
  {
    hide ToWord;
  }

  /** One supported instruction keeps the symbolic state true to the machine. */
  lemma StepTracks(st: SymState, action: Action, operands: seq<string>, target: string,
                   rf0: RegFile, apply: (Head, seq<Word>) -> Word, rf: RegFile)
    requires PlainOperands(action, operands) && CountInRange(action, operands, rf)
    requires Tracks(st.regs, rf0, apply, rf)
    ensures Tracks(StepSym(st, action, operands, target).regs, rf0, apply, StepMachine(action, operands, rf))
  {
    hide Tracks, IsRegister, Eval, EvalOp, SourceExpr, Lookup;
    match action
    case Move =>
      SourceTracks(st, operands[0], rf0, apply, rf);
      SetTracks(st.regs, rf0, apply, rf, operands[1], SourceExpr(st, operands[0]), SourceWord(operands[0], rf));
    case BinOp(op) =>
      BinOpTracks(st, op, operands, rf0, apply, rf);
    case IncDec(op) =>
      OneTracks(rf0, apply);
      OpTracks(st, op, operands[0], Const(1), 1, rf0, apply, rf);
    case UnaryOp(op) =>
      UnaryTracks(st, op, operands[0], rf0, apply, rf);
    case _ =>
  }

  lemma OneTracks(rf0: RegFile, apply: (Head, seq<Word>) -> Word)
    ensures Eval(Const(1), EntryEnv(rf0, apply)) == Some(1)
  {
  }

  lemma OpTracks(st: SymState, op: string, dst: string, e: Expr, x: Word, rf0: RegFile,
                 apply: (Head, seq<Word>) -> Word, rf: RegFile)
    requires Tracks(st.regs, rf0, apply, rf) && Eval(e, EntryEnv(rf0, apply)) == Some(x)
    requires IsArithmetic(op) && (IsShift(op) ==> x < 64)
    ensures Tracks(st.regs[dst := Op(op, Lookup(st.regs, dst), e)], rf0, apply,
                   Store(rf, dst, MachineOp(op, rf(dst), x)))
  {
    MachineOpMatches(op, rf(dst), x);
    hide EvalOp, MachineOp;
    SetTracks(st.regs, rf0, apply, rf, dst, Op(op, Lookup(st.regs, dst), e), MachineOp(op, rf(dst), x));
  }

  lemma BinOpTracks(st: SymState, op: string, operands: seq<string>, rf0: RegFile, apply: (Head, seq<Word>) -> Word,
                    rf: RegFile)
    requires Tracks(st.regs, rf0, apply, rf) && |operands| == 2 && PlainSource(operands[0]) && IsRegister(operands[1])
    requires IsArithmetic(op) && (IsShift(op) ==> SourceWord(operands[0], rf) < 64)
    ensures Tracks(StepBinOp(st, op, operands).regs, rf0, apply,
                   Store(rf, operands[1], MachineOp(op, rf(operands[1]), SourceWord(operands[0], rf))))
  {
    hide IsRegister;
    SourceTracks(st, operands[0], rf0, apply, rf);
    OpTracks(st, op, operands[1], SourceExpr(st, operands[0]), SourceWord(operands[0], rf), rf0, apply, rf);
  }

  lemma UnaryTracks(st: SymState, op: string, dst: string, rf0: RegFile, apply: (Head, seq<Word>) -> Word, rf: RegFile)
    requires Tracks(st.regs, rf0, apply, rf) && (op == "-" || op == "^")
    ensures Tracks(st.regs[dst := Unary(op, Lookup(st.regs, dst))], rf0, apply,
                   Store(rf, dst, if op == "-" then Neg(rf(dst)) else Not(rf(dst))))
  {
    hide Neg, Not;
    SetTracks(st.regs, rf0, apply, rf, dst, Unary(op, Lookup(st.regs, dst)), if op == "-" then Neg(rf(dst))
      else Not(rf(dst)));
  }

  // ---------------------------------------------------------------- runs

  /** `f` means at least what `e` means, and is a bare register or nothing only where `e` is. */
  ghost predicate StandsFor(e: Expr, f: Expr) {
    Refines(e, f) && (f.Reg? <==> e.Reg?) && (f.Missing? <==> e.Missing?)
  }

  /** `st'` means at least what `st` means. */
  ghost predicate StateRefines(st: SymState, st': SymState) {
    && st'.slots == st.slots && st'.varCount == st.varCount
    && st'.regs.Keys == st.regs.Keys
    && (forall n {:trigger st'.regs[n]} :: n in st.regs ==> StandsFor(st.regs[n], st'.regs[n]))
    && (st'.cmp.Some? <==> st.cmp.Some?)
    && (st.cmp.Some? ==> StandsFor(st.cmp.value.0, st'.cmp.value.0) && StandsFor(st.cmp.value.1, st'.cmp.value.1))
  }

  lemma RefinementTracks(st: SymState, st': SymState, rf0: RegFile, apply: (Head, seq<Word>) -> Word, rf: RegFile)
    requires StateRefines(st, st') && Tracks(st.regs, rf0, apply, rf)
    ensures Tracks(st'.regs, rf0, apply, rf)
  {
    var env := EntryEnv(rf0, apply);
    forall name
      ensures Eval(Lookup(st'.regs, name), env) == Some(rf(name))
    {
      assert Eval(Lookup(st.regs, name), env) == Some(rf(name));
      if name in st.regs {
        assert Refines(st.regs[name], st'.regs[name]);
        assert SameWhereDefined(Eval(st.regs[name], env), Eval(st'.regs[name], env));
      }
    }
  }

  type Instr = (string, seq<string>)

  /** The machine after a sequence of instructions, provided each is executable when it is reached. */
  function Run(ops: seq<Instr>, rf: RegFile): Option<RegFile> {
    if ops == [] then Some(rf)
    else
      var before := Run(ops[..|ops| - 1], rf);
      if before.None? then None else RunOne(ops[|ops| - 1], before.value)
  }

  function RunOne(instr: Instr, rf: RegFile): Option<RegFile> {
    var (opcode, operands) := instr;
    if Executable(opcode, operands, rf) then Some(Execute(opcode, operands, rf)) else None
  }

  /** Whatever the registers held on entry, executing `ops` keeps `post` as true to the machine as
      `pre` was. */
  ghost predicate Simulates(pre: map<string, Expr>, post: map<string, Expr>, ops: seq<Instr>) {
    forall rf0: RegFile, apply: (Head, seq<Word>) -> Word, rf: RegFile {:trigger Tracks(pre, rf0, apply, rf)} ::
      Tracks(pre, rf0, apply, rf) && Run(ops, rf).Some? ==> Tracks(post, rf0, apply, Run(ops, rf).value)
  }

  lemma SimulatesNothing(regs: map<string, Expr>)
    ensures Simulates(regs, regs, [])
  {
  }

  lemma {:induction false} RunAppend(x: seq<Instr>, y: seq<Instr>, rf: RegFile)
    ensures Run(x, rf).None? ==> Run(x + y, rf).None?
    ensures Run(x, rf).Some? ==> Run(x + y, rf) == Run(y, Run(x, rf).value)
    decreases |y|
  {
    if y == [] {
      assert x + y == x;
    } else {
      var front := y[..|y| - 1];
      assert (x + y)[..|x + y| - 1] == x + front;
      assert (x + y)[|x + y| - 1] == y[|y| - 1];
      RunAppend(x, front, rf);
    }
  }

  lemma SimulatesCompose(a: map<string, Expr>, b: map<string, Expr>, c: map<string, Expr>, x: seq<Instr>, y: seq<Instr>)
    requires Simulates(a, b, x) && Simulates(b, c, y)
    ensures Simulates(a, c, x + y)
  {
    forall rf0: RegFile, apply: (Head, seq<Word>) -> Word, rf: RegFile | Tracks(a, rf0, apply, rf)
      && Run(x + y, rf).Some?
      ensures Tracks(c, rf0, apply, Run(x + y, rf).value)
    {
      RunAppend(x, y, rf);
      assert Tracks(b, rf0, apply, Run(x, rf).value);
    }
  }

  /** A symbolic step, refined or not, simulates its instruction. */
  lemma StepSimulates(st: SymState, st': SymState, opcode: string, operands: seq<string>, target: string)
    requires StateRefines(StepSym(st, Classify(opcode), operands, target), st')
    ensures Simulates(st.regs, st'.regs, [(opcode, operands)])
  {
    var ops := [(opcode, operands)];
    var mid := StepSym(st, Classify(opcode), operands, target);
    hide StepSym, StateRefines, Tracks, Classify, StepMachine, CountInRange, PlainOperands, Executable, Execute;
    forall rf0: RegFile, apply: (Head, seq<Word>) -> Word, rf: RegFile | Tracks(st.regs, rf0, apply, rf)
      && Run(ops, rf).Some?
      ensures Tracks(st'.regs, rf0, apply, Run(ops, rf).value)
    {
      assert ops[..0] == [] && Run([], rf) == Some(rf);
      assert Run(ops, rf) == RunOne((opcode, operands), rf);
      ActionIsExecution(opcode, operands, rf);
      StepTracks(st, Classify(opcode), operands, target, rf0, apply, rf);
      RefinementTracks(mid, st', rf0, apply, StepMachine(Classify(opcode), operands, rf));
    }
  }

  /** The instructions of a block, in order. */
  function Flatten(insts: seq<AsmInst>): seq<Instr> {
    if insts == [] then [] else Flatten(insts[..|insts| - 1]) + ParseInstructions(insts[|insts| - 1].text)
  }

  /** Soundness, read off: from an empty register map, every register's expression evaluated in the
      entry register file is what the machine holds in the end. */
  lemma SimulationIsSound(post: map<string, Expr>, ops: seq<Instr>, rf: RegFile, apply: (Head, seq<Word>) -> Word,
                          name: string)
    requires Simulates(map[], post, ops) && Run(ops, rf).Some?
    ensures Eval(Lookup(post, name), EntryEnv(rf, apply)) == Some(Run(ops, rf).value(name))
  {
    EntryTracks(rf, apply);
    assert Tracks(map[], rf, apply, rf);
    assert Tracks(post, rf, apply, Run(ops, rf).value);
  }
}

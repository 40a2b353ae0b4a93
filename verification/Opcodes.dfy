/** What each opcode does to the symbolic state and which statements it emits, opcode by opcode. */
module Opcodes {
  import opened Text
  import opened Operands
  import opened Exprs
  import opened Machine

  // ---------------------------------------------------------------- operands

  lemma NumberIs(n: nat)
    requires n <= MAX_UINT64
    ensures ToWord(n) == n as bv64
  {
  }

  /** A source operand: a number, what a register stands for now, a named stack slot, or a load. */
  lemma SourceStandsFor(st: SymState, operand: string)
    ensures match ParseOperand(operand)
            case NoOperand => SourceExpr(st, operand) == Missing
            case Immediate(n) => SourceExpr(st, operand) == Const(ToWord(n))
            case Register(r) => SourceExpr(st, operand) == Current(st, r)
            case Memory(mem) =>
              && (mem.base == "" ==> SourceExpr(st, operand) == Missing)
              && (mem.base == "SP" ==> SourceExpr(st, operand) == Reg(StackVarName(st.slots, mem.offset)))
              && (mem.base != "" && mem.base != "SP" ==> SourceExpr(st, operand) == Apply(LoadHead(mem), []))
  {
    hide ParseOperand, ToWord, StackVarName;
  }

  /** A slot without a name is called after its offset. */
  lemma SlotIsCalled(slots: map<int, string>, offset: int)
    ensures offset in slots ==> StackVarName(slots, offset) == slots[offset]
    ensures offset !in slots && offset >= 0 ==> StackVarName(slots, offset) == "stack_0x" + Digits(offset, 16)
    ensures offset !in slots && offset < 0 ==> StackVarName(slots, offset) == "stack_0x" + ("-" + Digits(-offset, 16))
  {
    hide Digits;
  }

  function Current(st: SymState, r: string): Expr {
    if r in st.regs then st.regs[r] else Reg(r)
  }

  // ---------------------------------------------------------------- registers

  lemma MovesTranslate(st: SymState, opcode: string, operands: seq<string>, target: string)
    requires opcode in {"MOVQ", "MOVL", "MOVW", "MOVB", "MOVUPS", "MOVSD", "MOVSS"} && |operands| >= 2
    ensures var st' := StepSym(st, Classify(opcode), operands, target);
            && (IsRegister(operands[1]) ==> st' == st.(regs := st.regs[operands[1] := SourceExpr(st, operands[0])]))
            && (!IsRegister(operands[1]) && ParseOperand(operands[1]).Memory? ==>
                  var mem := ParseOperand(operands[1]).mem;
                  if mem.base == "SP" && mem.offset !in st.slots
                  then st' == st.(slots := st.slots[mem.offset := "v" + Digits(st.varCount, 10)],
                                  varCount := st.varCount + 1)
                  else st' == st)
            && (!IsRegister(operands[1]) && !ParseOperand(operands[1]).Memory? ==> st' == st)
  {
    hide SourceExpr, IsRegister;
  }

  lemma AddressesTranslate(st: SymState, opcode: string, operands: seq<string>, target: string)
    requires opcode in {"LEAQ", "LEAL"} && |operands| >= 2
    ensures StepSym(st, Classify(opcode), operands, target) ==
            if IsRegister(operands[1]) && ParseOperand(operands[0]).Memory?
            then st.(regs := st.regs[operands[1] := Apply(AddrHead(ParseOperand(operands[0]).mem), [])]) else st
  {
    hide IsRegister;
  }

  /** The operator of a two-operand instruction. */
  function Operator(opcode: string): string {
    match opcode
    case "ADDQ" => "+"  case "ADDL" => "+"
    case "SUBQ" => "-"  case "SUBL" => "-"
    case "IMULQ" => "*" case "IMULL" => "*" case "MULQ" => "*"
    case "ANDQ" => "&"  case "ANDL" => "&"  case "ANDB" => "&"
    case "ORQ" => "|"   case "ORL" => "|"   case "ORB" => "|"
    case "XORQ" => "^"  case "XORL" => "^"  case "XORB" => "^"
    case "SHLQ" => "<<" case "SHLL" => "<<" case "SALQ" => "<<" case "SALL" => "<<"
    case "SHRQ" => ">>" case "SHRL" => ">>"
    case _ => ""
  }

  lemma OperationsTranslate(st: SymState, opcode: string, operands: seq<string>, target: string)
    requires Operator(opcode) != "" && |operands| >= 2
    ensures StepSym(st, Classify(opcode), operands, target) ==
            if IsRegister(operands[1])
            then st.(regs := st.regs[operands[1] :=
                   Op(Operator(opcode), Current(st, operands[1]), SourceExpr(st, operands[0]))])
            else st
  {
    OperatorIsAction(opcode);
    hide IsRegister, SourceExpr, Classify, Operator;
  }

  lemma OperatorIsAction(opcode: string)
    requires Operator(opcode) != ""
    ensures Classify(opcode) == BinOp(Operator(opcode))
  {
  }

  lemma CountsTranslate(st: SymState, opcode: string, operands: seq<string>, target: string)
    requires opcode in {"INCQ", "INCL", "DECQ", "DECL"} && |operands| >= 1
    ensures StepSym(st, Classify(opcode), operands, target) ==
            if IsRegister(operands[0])
            then st.(regs := st.regs[operands[0] :=
                   Op(if opcode == "INCQ" || opcode == "INCL" then "+" else "-", Current(st, operands[0]), Const(1))])
            else st
  {
    CountIsAction(opcode);
    hide IsRegister, Classify;
  }

  lemma CountIsAction(opcode: string)
    requires opcode in {"INCQ", "INCL", "DECQ", "DECL"}
    ensures Classify(opcode) == IncDec(if opcode == "INCQ" || opcode == "INCL" then "+" else "-")
  {
  }

  lemma SignIsAction(opcode: string)
    requires opcode in {"NEGQ", "NEGL", "NOTQ", "NOTL"}
    ensures Classify(opcode) == UnaryOp(if opcode == "NEGQ" || opcode == "NEGL" then "-" else "^")
  {
  }

  lemma TransferIsAction(opcode: string)
    ensures opcode == "CALL" ==> Classify(opcode) == Call
    ensures opcode == "RET" ==> Classify(opcode) == Return
    ensures opcode == "JMP" ==> Classify(opcode) == Jump
    ensures opcode in {"JEQ", "JNE", "JGT", "JLT", "JGE", "JLE", "JHI", "JLS"} ==> Classify(opcode) == CondJump
  {
  }

  lemma SetIsAction(opcode: string)
    ensures opcode in {"SETEQ", "SETNE", "SETGT"} ==> Classify(opcode) == SetFlag
    ensures opcode in {"PUSHQ", "POPQ", "NOP"} ==> Classify(opcode) == Ignore
  {
  }

  lemma SignsTranslate(st: SymState, opcode: string, operands: seq<string>, target: string)
    requires opcode in {"NEGQ", "NEGL", "NOTQ", "NOTL"} && |operands| >= 1
    ensures StepSym(st, Classify(opcode), operands, target) ==
            if IsRegister(operands[0])
            then st.(regs := st.regs[operands[0] :=
                   Unary(if opcode == "NEGQ" || opcode == "NEGL" then "-" else "^", Current(st, operands[0]))])
            else st
  {
    SignIsAction(opcode);
    hide IsRegister, Classify;
  }

  /** A comparison puts its second operand left, both as written. */
  lemma ComparisonsTranslate(st: SymState, opcode: string, operands: seq<string>, target: string)
    requires opcode in {"CMPQ", "CMPL", "CMP", "CMPB"} && |operands| >= 2
    ensures var st' := StepSym(st, Classify(opcode), operands, target);
            && st'.cmp.Some? && st' == st.(cmp := st'.cmp)
            && (match ParseOperand(operands[1])
                case NoOperand => st'.cmp.value.0 == Missing
                case Immediate(n) => st'.cmp.value.0 == Const(ToWord(n))
                case Register(r) => st'.cmp.value.0 == Reg(r)
                case Memory(mem) => st'.cmp.value.0 == if mem.base != "" then Apply(LoadHead(mem), []) else Missing)
            && (match ParseOperand(operands[0])
                case Immediate(n) => st'.cmp.value.1 == Const(ToWord(n))
                case Register(r) => st'.cmp.value.1 == Reg(r)
                case _ => st'.cmp.value.1 == Missing)
  {
    hide ParseOperand, ToWord;
  }

  /** A test looks at what its registers stand for, in the order written. */
  lemma TestsTranslate(st: SymState, opcode: string, operands: seq<string>, target: string)
    requires opcode in {"TESTQ", "TESTL", "TEST"} && |operands| >= 2
    ensures var st' := StepSym(st, Classify(opcode), operands, target);
            && st'.cmp.Some? && st' == st.(cmp := st'.cmp)
            && (match ParseOperand(operands[0])
                case Immediate(n) => st'.cmp.value.0 == Const(ToWord(n))
                case Register(r) => st'.cmp.value.0 == Current(st, r)
                case _ => st'.cmp.value.0 == Missing)
            && (match ParseOperand(operands[1])
                case Immediate(n) => st'.cmp.value.1 == Const(ToWord(n))
                case Register(r) => st'.cmp.value.1 == Current(st, r)
                case _ => st'.cmp.value.1 == Missing)
  {
    hide ParseOperand, ToWord;
  }

  /** Calls set AX, the conditional set writes 1, and returns, jumps and unknown opcodes leave the state. */
  lemma OthersTranslate(st: SymState, opcode: string, operands: seq<string>, target: string)
    ensures opcode == "CALL" ==> StepSym(st, Classify(opcode), operands, target) ==
                                 st.(regs := st.regs["AX" := Apply(CallHead(target), [])])
    ensures opcode in {"SETEQ", "SETNE", "SETGT"} && |operands| >= 1 && IsRegister(operands[0]) ==>
              StepSym(st, Classify(opcode), operands, target) == st.(regs := st.regs[operands[0] := Const(1)])
    ensures opcode in {"SETEQ", "SETNE", "SETGT"} && |operands| >= 1 && !IsRegister(operands[0]) ==>
              StepSym(st, Classify(opcode), operands, target) == st
    ensures opcode in {"RET", "JMP", "JEQ", "JNE", "JGT", "JLT", "JGE", "JLE", "JHI", "JLS", "PUSHQ", "POPQ", "NOP"} ==>
              StepSym(st, Classify(opcode), operands, target) == st
  {
    TransferIsAction(opcode);
    SetIsAction(opcode);
    hide IsRegister, Classify;
  }

  /** Without enough operands nothing happens. */
  lemma TooFewOperands(st: SymState, opcode: string, operands: seq<string>, target: string)
    requires opcode != "CALL" && |operands| < 2
    requires |operands| == 1 ==> opcode !in {"INCQ", "INCL", "DECQ", "DECL", "NEGQ", "NEGL", "NOTQ", "NOTL", "SETEQ",
                                            "SETNE", "SETGT"}
    ensures StepSym(st, Classify(opcode), operands, target) == st
  {
    ActionOfOne(opcode);
    hide Classify;
  }

  lemma ActionOfOne(opcode: string)
    ensures var a := Classify(opcode);
            && (a.IncDec? || a.UnaryOp? || a.SetFlag? ==>
                  opcode in {"INCQ", "INCL", "DECQ", "DECL", "NEGQ", "NEGL", "NOTQ", "NOTL", "SETEQ", "SETNE", "SETGT"})
            && (a.Call? ==> opcode == "CALL")
  {
  }

  // ---------------------------------------------------------------- statements

  /** A move into memory assigns a named stack slot or stores; a move into a register emits nothing. */
  lemma MovesEmit(st: SymState, opcode: string, operands: seq<string>, inst: AsmInst, target: string)
    requires opcode in {"MOVQ", "MOVL", "MOVW", "MOVB", "MOVUPS", "MOVSD", "MOVSS"} && |operands| >= 2
    ensures var ss := Emit(st, Classify(opcode), operands, inst, target);
            var value := SourceExpr(st, operands[0]);
            && (IsRegister(operands[1]) ==> ss == [])
            && (!IsRegister(operands[1]) && ParseOperand(operands[1]).Memory? ==>
                  var mem := ParseOperand(operands[1]).mem;
                  && (mem.base == "" ==> ss == [])
                  && (mem.base == "SP" && mem.offset in st.slots ==>
                        ss == [StmtView(SAssign, 0, st.slots[mem.offset], value, "", [], "", [])])
                  && (mem.base == "SP" && mem.offset !in st.slots ==>
                        ss == [StmtView(SAssign, 0, "v" + Digits(st.varCount, 10), value, "", [], "", [])])
                  && (mem.base != "" && mem.base != "SP" ==>
                        ss == [StmtView(SStore, 0, mem.Print(), value, "", [], "", [])]))
            && (!IsRegister(operands[1]) && !ParseOperand(operands[1]).Memory? ==> ss == [])
  {
    hide SourceExpr, IsRegister;
  }

  lemma CountsEmit(st: SymState, opcode: string, operands: seq<string>, inst: AsmInst, target: string)
    requires opcode in {"INCQ", "INCL", "DECQ", "DECL"} && |operands| >= 1 && IsRegister(operands[0])
    ensures Emit(st, Classify(opcode), operands, inst, target) ==
            [StmtView(SAssign, 0, operands[0],
                      Op(if opcode == "INCQ" || opcode == "INCL" then "+" else "-", Current(st, operands[0]), Const(1)),
                      "", [], "", [])]
  {
    CountIsAction(opcode);
    hide IsRegister, Classify;
  }

  /** Without operands to write to, moves and counts emit nothing. */
  lemma NothingToWrite(st: SymState, opcode: string, operands: seq<string>, inst: AsmInst, target: string)
    requires opcode in {"MOVQ", "MOVL", "MOVW", "MOVB", "MOVUPS", "MOVSD", "MOVSS", "INCQ", "INCL", "DECQ", "DECL"}
    requires if opcode in {"INCQ", "INCL", "DECQ", "DECL"} then operands == [] || !IsRegister(operands[0])
             else |operands| < 2
    ensures Emit(st, Classify(opcode), operands, inst, target) == []
  {
    if opcode in {"INCQ", "INCL", "DECQ", "DECL"} {
      CountIsAction(opcode);
    } else {
      MoveIsAction(opcode);
    }
    hide IsRegister, Classify;
  }

  lemma MoveIsAction(opcode: string)
    requires opcode in {"MOVQ", "MOVL", "MOVW", "MOVB", "MOVUPS", "MOVSD", "MOVSS"}
    ensures Classify(opcode) == Move
  {
  }

  lemma TransfersEmit(st: SymState, opcode: string, operands: seq<string>, inst: AsmInst, target: string)
    ensures var ss := Emit(st, Classify(opcode), operands, inst, target);
            var lbl := FmtHex(inst.branchTarget);
            && (opcode == "CALL" ==>
                  ss == [StmtView(SCall, inst.address, "", Apply(CallHead(target), []), target, [], "", [])])
            && (opcode == "RET" ==>
                  var ax := Current(st, "AX");
                  ss == [StmtView(SReturn, inst.address, "", if ax.Reg? then Missing else ax, "", [], "", [])])
            && (opcode == "JMP" ==> ss == [StmtView(SGoto, inst.address, "", Missing, "", [], lbl, [])])
            && (opcode in {"JEQ", "JNE", "JGT", "JLT", "JGE", "JLE", "JHI", "JLS"} ==>
                  var sides := if st.cmp.None? || st.cmp.value.0 == Missing || st.cmp.value.1 == Missing then []
                               else [st.cmp.value.0, st.cmp.value.1];
                  ss == [StmtView(SIf, inst.address, "", Missing, "", [], lbl, sides)])
  {
    TransferIsAction(opcode);
    hide FmtHex, Classify;
  }

  /** Everything else emits nothing. */
  lemma OthersEmitNothing(st: SymState, opcode: string, operands: seq<string>, inst: AsmInst, target: string)
    requires opcode !in {"MOVQ", "MOVL", "MOVW", "MOVB", "MOVUPS", "MOVSD", "MOVSS", "INCQ", "INCL", "DECQ", "DECL",
                         "CALL", "RET", "JMP", "JEQ", "JNE", "JGT", "JLT", "JGE", "JLE", "JHI", "JLS"}
    ensures Emit(st, Classify(opcode), operands, inst, target) == []
  {
  }

  // ---------------------------------------------------------------- unknown opcodes

  /** An opcode that is none of these leaves the state alone. */
  lemma UnknownOpcode(st: SymState, opcode: string, operands: seq<string>, target: string)
    requires opcode !in {"MOVQ", "MOVL", "MOVW", "MOVB", "MOVUPS", "MOVSD", "MOVSS", "LEAQ", "LEAL", "INCQ", "INCL",
                         "DECQ", "DECL", "NEGQ", "NEGL", "NOTQ", "NOTL", "CMPQ", "CMPL", "CMP", "CMPB", "TESTQ",
                         "TESTL", "TEST", "CALL", "SETEQ", "SETNE", "SETGT"}
    requires Operator(opcode) == ""
    ensures StepSym(st, Classify(opcode), operands, target) == st
  {
  }
}

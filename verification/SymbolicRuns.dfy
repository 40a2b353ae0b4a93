/** Whole blocks of symbolic steps: what the register map and the statements become from the first
    instruction to the last, and that all of it depends on what expressions mean, not on how they look. */
module SymbolicRuns {
  import opened Operands
  import opened Splitting
  import opened Exprs
  import opened Machine

  // ---------------------------------------------------------------- statements that mean as much

  lemma StmtRefinesSelf(s: StmtView)
    ensures StmtRefines(s, s)
  {
    RefinesSelf(s.value);
    AllRefineSelf(s.args);
    AllRefineSelf(s.cond);
  }

  lemma StmtRefinesTransitive(s: StmtView, t: StmtView, u: StmtView)
    requires StmtRefines(s, t) && StmtRefines(t, u)
    ensures StmtRefines(s, u)
  {
    RefinesTransitive(s.value, t.value, u.value);
    AllRefineTransitive(s.args, t.args, u.args);
    AllRefineTransitive(s.cond, t.cond, u.cond);
  }

  lemma StmtsRefineSelf(ss: seq<StmtView>)
    ensures StmtsRefine(ss, ss)
  {
    forall i | 0 <= i < |ss|
      ensures StmtRefines(ss[i], ss[i])
    {
      StmtRefinesSelf(ss[i]);
    }
  }

  lemma StmtsRefineTransitive(ss: seq<StmtView>, ts: seq<StmtView>, us: seq<StmtView>)
    requires StmtsRefine(ss, ts) && StmtsRefine(ts, us)
    ensures StmtsRefine(ss, us)
  {
    forall i | 0 <= i < |ss|
      ensures StmtRefines(ss[i], us[i])
    {
      assert StmtRefines(ss[i], ts[i]) && StmtRefines(ts[i], us[i]);
      StmtRefinesTransitive(ss[i], ts[i], us[i]);
    }
  }

  lemma StmtsRefineConcat(ss: seq<StmtView>, ts: seq<StmtView>, more: seq<StmtView>, more': seq<StmtView>)
    requires StmtsRefine(ss, ts) && StmtsRefine(more, more')
    ensures StmtsRefine(ss + more, ts + more')
  {
    forall i | 0 <= i < |ss + more|
      ensures StmtRefines((ss + more)[i], (ts + more')[i])
    {
      if i < |ss| {
        assert StmtRefines(ss[i], ts[i]);
      } else {
        assert StmtRefines(more[i - |ss|], more'[i - |ss|]);
      }
    }
  }

  /** Statements that refine `done + more`, followed by statements that refine `next`. */
  lemma StmtsRefineOn(done: seq<StmtView>, more: seq<StmtView>, vs: seq<StmtView>, next: seq<StmtView>,
                      next': seq<StmtView>, us: seq<StmtView>)
    requires StmtsRefine(done + more, vs) && StmtsRefine(next, next') && StmtsRefine(vs + next', us)
    ensures StmtsRefine(done + (more + next), us)
  {
    StmtsRefineConcat(done + more, vs, next, next');
    StmtsRefineTransitive((done + more) + next, vs + next', us);
    assert done + (more + next) == (done + more) + next;
  }

  // ---------------------------------------------------------------- states that mean as much

  lemma StandsForSelf(e: Expr)
    ensures StandsFor(e, e)
  {
    RefinesSelf(e);
  }

  lemma StandsForTransitive(e: Expr, f: Expr, g: Expr)
    requires StandsFor(e, f) && StandsFor(f, g)
    ensures StandsFor(e, g)
  {
    RefinesTransitive(e, f, g);
  }

  lemma StateRefinesSelf(st: SymState)
    ensures StateRefines(st, st)
  {
    hide StandsFor;
    forall n | n in st.regs
      ensures StandsFor(st.regs[n], st.regs[n])
    {
      StandsForSelf(st.regs[n]);
    }
    if st.cmp.Some? {
      StandsForSelf(st.cmp.value.0);
      StandsForSelf(st.cmp.value.1);
    }
  }

  lemma StateRefinesTransitive(a: SymState, b: SymState, c: SymState)
    requires StateRefines(a, b) && StateRefines(b, c)
    ensures StateRefines(a, c)
  {
    hide StandsFor;
    forall n | n in a.regs
      ensures StandsFor(a.regs[n], c.regs[n])
    {
      StandsForTransitive(a.regs[n], b.regs[n], c.regs[n]);
    }
    if a.cmp.Some? {
      StandsForTransitive(a.cmp.value.0, b.cmp.value.0, c.cmp.value.0);
      StandsForTransitive(a.cmp.value.1, b.cmp.value.1, c.cmp.value.1);
    }
  }

  lemma LookupRefines(st: SymState, st': SymState, name: string)
    requires StateRefines(st, st')
    ensures StandsFor(Lookup(st.regs, name), Lookup(st'.regs, name))
  {
    if name in st.regs {
      assert StandsFor(st.regs[name], st'.regs[name]);
    } else {
      StandsForSelf(Reg(name));
    }
  }

  lemma SourceRefines(st: SymState, st': SymState, operand: string)
    requires StateRefines(st, st')
    ensures StandsFor(SourceExpr(st, operand), SourceExpr(st', operand))
    ensures StandsFor(TestedExpr(st, operand), TestedExpr(st', operand))
  {
    hide StandsFor, Lookup;
    match ParseOperand(operand)
    case Register(r) => LookupRefines(st, st', r);
    case _ =>
      StandsForSelf(SourceExpr(st, operand));
      StandsForSelf(TestedExpr(st, operand));
  }

  lemma SetRefines(st: SymState, st': SymState, dst: string, e: Expr, e': Expr)
    requires StateRefines(st, st') && StandsFor(e, e')
    ensures StateRefines(SetExpr(st, dst, e), SetExpr(st', dst, e'))
  {
    hide StandsFor;
    var a, b := SetExpr(st, dst, e), SetExpr(st', dst, e');
    forall n | n in a.regs
      ensures StandsFor(a.regs[n], b.regs[n])
    {
      assert n != dst ==> StandsFor(st.regs[n], st'.regs[n]);
    }
  }

  lemma OperationRefines(st: SymState, st': SymState, op: string, dst: string, e: Expr, e': Expr)
    requires StateRefines(st, st') && StandsFor(e, e')
    ensures StandsFor(Op(op, Lookup(st.regs, dst), e), Op(op, Lookup(st'.regs, dst), e'))
    ensures StandsFor(Unary(op, Lookup(st.regs, dst)), Unary(op, Lookup(st'.regs, dst)))
  {
    LookupRefines(st, st', dst);
    OpCongruence(op, Lookup(st.regs, dst), e, Lookup(st'.regs, dst), e');
    UnaryCongruence(op, Lookup(st.regs, dst), Lookup(st'.regs, dst));
    hide Refines;
  }

  lemma MoveRefines(st: SymState, st': SymState, operands: seq<string>)
    requires StateRefines(st, st')
    ensures StateRefines(StepMove(st, operands), StepMove(st', operands))
    ensures StmtsRefine(EmitMove(st, operands), EmitMove(st', operands))
  {
    hide StandsFor, IsRegister, SourceExpr, Refines;
    if |operands| >= 2 {
      SourceRefines(st, st', operands[0]);
      SetRefines(st, st', operands[1], SourceExpr(st, operands[0]), SourceExpr(st', operands[0]));
      StandsForMeans(SourceExpr(st, operands[0]), SourceExpr(st', operands[0]));
    }
  }

  lemma StandsForMeans(e: Expr, f: Expr)
    requires StandsFor(e, f)
    ensures Refines(e, f)
  {
  }

  lemma CountRefines(st: SymState, st': SymState, op: string, operands: seq<string>)
    requires StateRefines(st, st')
    ensures StateRefines(StepIncDec(st, op, operands), StepIncDec(st', op, operands))
    ensures StmtsRefine(EmitIncDec(st, op, operands), EmitIncDec(st', op, operands))
  {
    hide StandsFor, IsRegister, Refines, StateRefines;
    if |operands| >= 1 {
      var e, f := Op(op, Lookup(st.regs, operands[0]), Const(1)), Op(op, Lookup(st'.regs, operands[0]), Const(1));
      StandsForSelf(Const(1));
      OperationRefines(st, st', op, operands[0], Const(1), Const(1));
      SetRefines(st, st', operands[0], e, f);
      StandsForMeans(e, f);
    }
  }

  lemma BinOpRefines(st: SymState, st': SymState, op: string, operands: seq<string>)
    requires StateRefines(st, st')
    ensures StateRefines(StepBinOp(st, op, operands), StepBinOp(st', op, operands))
  {
    hide StandsFor, IsRegister, SourceExpr, StateRefines;
    if |operands| >= 2 {
      var e, f := SourceExpr(st, operands[0]), SourceExpr(st', operands[0]);
      SourceRefines(st, st', operands[0]);
      OperationRefines(st, st', op, operands[1], e, f);
      SetRefines(st, st', operands[1], Op(op, Lookup(st.regs, operands[1]), e),
                 Op(op, Lookup(st'.regs, operands[1]), f));
    }
  }

  lemma UnaryStepRefines(st: SymState, st': SymState, op: string, operands: seq<string>)
    requires StateRefines(st, st')
    ensures StateRefines(StepUnary(st, op, operands), StepUnary(st', op, operands))
  {
    hide StandsFor, IsRegister, StateRefines;
    if |operands| >= 1 {
      StandsForSelf(Missing);
      OperationRefines(st, st', op, operands[0], Missing, Missing);
      SetRefines(st, st', operands[0], Unary(op, Lookup(st.regs, operands[0])),
                 Unary(op, Lookup(st'.regs, operands[0])));
    }
  }

  /** A step that gives a register a value not taken from the state. */
  lemma FixedStepRefines(st: SymState, st': SymState, operands: seq<string>, target: string)
    requires StateRefines(st, st')
    ensures StateRefines(StepLea(st, operands), StepLea(st', operands))
    ensures StateRefines(StepSet(st, operands), StepSet(st', operands))
    ensures StateRefines(SetExpr(st, "AX", Apply(CallHead(target), [])),
                         SetExpr(st', "AX", Apply(CallHead(target), [])))
  {
    hide StandsFor, IsRegister, StateRefines;
    StandsForSelf(Apply(CallHead(target), []));
    SetRefines(st, st', "AX", Apply(CallHead(target), []), Apply(CallHead(target), []));
    if |operands| >= 1 {
      StandsForSelf(Const(1));
      SetRefines(st, st', operands[0], Const(1), Const(1));
      var src := ParseOperand(operands[0]);
      if |operands| >= 2 && src.Memory? {
        StandsForSelf(Apply(AddrHead(src.mem), []));
        SetRefines(st, st', operands[1], Apply(AddrHead(src.mem), []), Apply(AddrHead(src.mem), []));
      }
    }
  }

  lemma ComparisonRefines(st: SymState, st': SymState, operands: seq<string>)
    requires StateRefines(st, st')
    ensures StateRefines(StepCompare(st, operands), StepCompare(st', operands))
    ensures StateRefines(StepTest(st, operands), StepTest(st', operands))
  {
    hide StandsFor, ComparedExpr, ComparedSource, TestedExpr;
    if |operands| >= 2 {
      StandsForSelf(ComparedExpr(operands[1]));
      StandsForSelf(ComparedSource(operands[0]));
      SourceRefines(st, st', operands[0]);
      SourceRefines(st, st', operands[1]);
    }
  }

  /** A step from a state that means as much leads to a state that means as much. */
  lemma StepRefines(st: SymState, st': SymState, action: Action, operands: seq<string>, target: string)
    requires StateRefines(st, st')
    ensures StateRefines(StepSym(st, action, operands, target), StepSym(st', action, operands, target))
  {
    hide StateRefines, StepMove, StepLea, StepBinOp, StepIncDec, StepUnary, StepSet, StepCompare, StepTest, SetExpr;
    match action
    case Move => MoveRefines(st, st', operands);
    case BinOp(op) => BinOpRefines(st, st', op, operands);
    case IncDec(op) => CountRefines(st, st', op, operands);
    case UnaryOp(op) => UnaryStepRefines(st, st', op, operands);
    case Compare => ComparisonRefines(st, st', operands);
    case Test => ComparisonRefines(st, st', operands);
    case _ => FixedStepRefines(st, st', operands, target);
  }

  lemma ReturnRefines(st: SymState, st': SymState, inst: AsmInst)
    requires StateRefines(st, st')
    ensures StmtsRefine(Emit(st, Return, [], inst, ""), Emit(st', Return, [], inst, ""))
  {
    LookupRefines(st, st', "AX");
    RefinesSelf(Missing);
    hide Refines, Lookup;
  }

  lemma ConditionRefines(st: SymState, st': SymState, inst: AsmInst)
    requires StateRefines(st, st')
    ensures StmtsRefine(Emit(st, CondJump, [], inst, ""), Emit(st', CondJump, [], inst, ""))
  {
    RefinesSelf(Missing);
    hide Refines;
  }

  /** The statements of a step from a state that means as much mean as much. */
  lemma EmitRefines(st: SymState, st': SymState, action: Action, operands: seq<string>, inst: AsmInst, target: string)
    requires StateRefines(st, st')
    ensures StmtsRefine(Emit(st, action, operands, inst, target), Emit(st', action, operands, inst, target))
  {
    ReturnRefines(st, st', inst);
    ConditionRefines(st, st', inst);
    StmtsRefineSelf(Emit(st, action, operands, inst, target));
    hide StateRefines, StmtsRefine, EmitMove, EmitIncDec, Lookup, Sides;
    match action
    case Move => MoveRefines(st, st', operands);
    case IncDec(op) => CountRefines(st, st', op, operands);
    case _ =>
  }

  // ---------------------------------------------------------------- one line, one block

  /** The state after the instructions of one line. */
  function StepLine(st: SymState, ops: seq<Instr>, target: string): SymState {
    if ops == [] then st
    else
      var (opcode, operands) := ops[|ops| - 1];
      StepSym(StepLine(st, ops[..|ops| - 1], target), Classify(opcode), operands, target)
  }

  /** The statements of the instructions of one line, in order. */
  function EmitLine(st: SymState, ops: seq<Instr>, inst: AsmInst, target: string): seq<StmtView> {
    if ops == [] then []
    else
      var front := ops[..|ops| - 1];
      var (opcode, operands) := ops[|ops| - 1];
      EmitLine(st, front, inst, target) +
      Emit(StepLine(st, front, target), Classify(opcode), operands, inst, target)
  }

  /** The state after a block. */
  function StepBlock(st: SymState, insts: seq<AsmInst>): SymState {
    if insts == [] then st
    else
      var last := insts[|insts| - 1];
      StepLine(StepBlock(st, insts[..|insts| - 1]), ParseInstructions(last.text), CallTarget(last.text))
  }

  /** The statements of a block, in order. */
  function EmitBlock(st: SymState, insts: seq<AsmInst>): seq<StmtView> {
    if insts == [] then []
    else
      var front, last := insts[..|insts| - 1], insts[|insts| - 1];
      EmitBlock(st, front) +
      EmitLine(StepBlock(st, front), ParseInstructions(last.text), last, CallTarget(last.text))
  }

  // ---------------------------------------------------------------- the conditional jumps

  /** The conditional jumps among some instructions, by their opcodes, in order. */
  function JumpsOf(ops: seq<Instr>): seq<string> {
    if ops == [] then []
    else
      var opcode := ops[|ops| - 1].0;
      JumpsOf(ops[..|ops| - 1])
      + if opcode in {"JEQ", "JNE", "JGT", "JLT", "JGE", "JLE", "JHI", "JLS"} then [opcode] else []
  }

  lemma JumpsClassify(opcode: string)
    ensures Classify(opcode).CondJump? <==> opcode in {"JEQ", "JNE", "JGT", "JLT", "JGE", "JLE", "JHI", "JLS"}
  {
  }

  lemma JumpsOneMore(ops: seq<Instr>, opcode: string, operands: seq<string>)
    ensures JumpsOf(ops + [(opcode, operands)]) == JumpsOf(ops) + if Classify(opcode).CondJump? then [opcode] else []
  {
    hide Classify;
    JumpsClassify(opcode);
    assert (ops + [(opcode, operands)])[..|ops|] == ops;
  }

  lemma {:induction false} JumpsAppend(x: seq<Instr>, y: seq<Instr>)
    ensures JumpsOf(x + y) == JumpsOf(x) + JumpsOf(y)
    decreases |y|
  {
    if y == [] {
      assert x + y == x;
    } else {
      var front := y[..|y| - 1];
      assert (x + y)[..|x + y| - 1] == x + front && (x + y)[|x + y| - 1] == y[|y| - 1];
      JumpsAppend(x, front);
    }
  }

  lemma {:induction false} LineRefines(st: SymState, st': SymState, ops: seq<Instr>, inst: AsmInst, target: string)
    requires StateRefines(st, st')
    ensures StateRefines(StepLine(st, ops, target), StepLine(st', ops, target))
    ensures StmtsRefine(EmitLine(st, ops, inst, target), EmitLine(st', ops, inst, target))
    decreases |ops|
  {
    hide StateRefines, StmtsRefine, StepSym, Emit, Classify;
    if ops == [] {
      StmtsRefineSelf([]);
    } else {
      var front := ops[..|ops| - 1];
      var (opcode, operands) := ops[|ops| - 1];
      var a, b := StepLine(st, front, target), StepLine(st', front, target);
      LineRefines(st, st', front, inst, target);
      StepRefines(a, b, Classify(opcode), operands, target);
      EmitRefines(a, b, Classify(opcode), operands, inst, target);
      StmtsRefineConcat(EmitLine(st, front, inst, target), EmitLine(st', front, inst, target),
                        Emit(a, Classify(opcode), operands, inst, target),
                        Emit(b, Classify(opcode), operands, inst, target));
    }
  }

  /** One more instruction of a line, carried out on a state that means as much as the steps so far. */
  lemma LineGoesOn(pre: SymState, st: SymState, st': SymState, before: seq<StmtView>, vs: seq<StmtView>,
                   us: seq<StmtView>, done: seq<Instr>, opcode: string, operands: seq<string>, inst: AsmInst,
                   target: string)
    requires StateRefines(StepLine(pre, done, target), st)
    requires StmtsRefine(before + EmitLine(pre, done, inst, target), vs)
    requires StateRefines(StepSym(st, Classify(opcode), operands, target), st')
    requires StmtsRefine(vs + Emit(st, Classify(opcode), operands, inst, target), us)
    ensures StateRefines(StepLine(pre, done + [(opcode, operands)], target), st')
    ensures StmtsRefine(before + EmitLine(pre, done + [(opcode, operands)], inst, target), us)
  {
    hide StateRefines, StmtsRefine, StepSym, Emit, Classify;
    var mid, action := StepLine(pre, done, target), Classify(opcode);
    assert (done + [(opcode, operands)])[..|done|] == done;
    StepRefines(mid, st, action, operands, target);
    EmitRefines(mid, st, action, operands, inst, target);
    StateRefinesTransitive(StepSym(mid, action, operands, target), StepSym(st, action, operands, target), st');
    StmtsRefineOn(before, EmitLine(pre, done, inst, target), vs, Emit(mid, action, operands, inst, target),
                  Emit(st, action, operands, inst, target), us);
  }

  /** One more line of a block. */
  lemma BlockGoesOn(pre: SymState, st: SymState, st': SymState, before: seq<StmtView>, vs: seq<StmtView>,
                    us: seq<StmtView>, done: seq<AsmInst>, inst: AsmInst)
    requires StateRefines(StepBlock(pre, done), st)
    requires StmtsRefine(before + EmitBlock(pre, done), vs)
    requires StateRefines(StepLine(st, ParseInstructions(inst.text), CallTarget(inst.text)), st')
    requires StmtsRefine(vs + EmitLine(st, ParseInstructions(inst.text), inst, CallTarget(inst.text)), us)
    ensures StateRefines(StepBlock(pre, done + [inst]), st')
    ensures StmtsRefine(before + EmitBlock(pre, done + [inst]), us)
  {
    hide StateRefines, StmtsRefine, StepLine, EmitLine, ParseInstructions, CallTarget;
    var mid, ops, target := StepBlock(pre, done), ParseInstructions(inst.text), CallTarget(inst.text);
    assert (done + [inst])[..|done|] == done;
    LineRefines(mid, st, ops, inst, target);
    StateRefinesTransitive(StepLine(mid, ops, target), StepLine(st, ops, target), st');
    StmtsRefineOn(before, EmitBlock(pre, done), vs, EmitLine(mid, ops, inst, target),
                  EmitLine(st, ops, inst, target), us);
  }
}

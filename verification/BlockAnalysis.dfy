/** The block analyzer: it runs instructions over a register map of shared value nodes. */
module BlockAnalysis {
  import opened Text
  import opened Operands
  import opened Splitting
  import opened Shifts
  import opened Exprs
  import opened Normals
  import opened Values
  import opened Simplify
  import opened Machine
  import opened SymbolicRuns
  import opened Conditions

  /** A statement; a condition has its text, and beside it the two sides from which that was printed. */
  datatype Statement = Statement(
    kind: StatementKind,
    address: nat,
    dst: string,
    value: Value?,
    func: string,
    args: seq<Value?>,
    lbl: string,
    cond: seq<Expr>,
    text: string)

  type Comparison = Option<(Value?, Value?)>

  // ---------------------------------------------------------------- the state as expressions

  ghost predicate Known(h: Heap, v: Value?) {
    v != null ==> v in h
  }

  ghost predicate KnownRegs(h: Heap, regs: map<string, Value?>) {
    forall n {:trigger regs[n]} :: n in regs ==> Known(h, regs[n])
  }

  ghost predicate KnownCmp(h: Heap, cmp: Comparison) {
    cmp.Some? ==> Known(h, cmp.value.0) && Known(h, cmp.value.1)
  }

  ghost predicate AllKnown(h: Heap, vs: seq<Value?>) {
    forall i {:trigger vs[i]} :: 0 <= i < |vs| ==> Known(h, vs[i])
  }

  ghost predicate KnownStmt(h: Heap, s: Statement) {
    Known(h, s.value) && AllKnown(h, s.args)
  }

  ghost predicate KnownStmts(h: Heap, stmts: seq<Statement>) {
    forall i {:trigger stmts[i]} :: 0 <= i < |stmts| ==> KnownStmt(h, stmts[i])
  }

  ghost function RegExprs(h: Heap, regs: map<string, Value?>): map<string, Expr>
    requires Closed(h) && KnownRegs(h, regs)
  {
    map n | n in regs :: Tree(h, regs[n])
  }

  ghost function CmpExprs(h: Heap, cmp: Comparison): Option<(Expr, Expr)>
    requires Closed(h) && KnownCmp(h, cmp)
  {
    if cmp.None? then None else Some((Tree(h, cmp.value.0), Tree(h, cmp.value.1)))
  }

  ghost function AllExprs(h: Heap, vs: seq<Value?>): (es: seq<Expr>)
    requires Closed(h) && AllKnown(h, vs)
    ensures |es| == |vs| && (vs == [] ==> es == [])
  {
    seq(|vs|, i requires 0 <= i < |vs| => Tree(h, vs[i]))
  }

  ghost function StmtExpr(h: Heap, s: Statement): StmtView
    requires Closed(h) && KnownStmt(h, s)
  {
    StmtView(s.kind, s.address, s.dst, Tree(h, s.value), s.func, AllExprs(h, s.args), s.lbl, s.cond)
  }

  ghost function StmtExprs(h: Heap, stmts: seq<Statement>): seq<StmtView>
    requires Closed(h) && KnownStmts(h, stmts)
  {
    seq(|stmts|, i requires 0 <= i < |stmts| => StmtExpr(h, stmts[i]))
  }

  /** The expression of a node without arguments. */
  function NodeExpr(kind: Kind, constant: Word, reg: string, op: string, left: Expr, right: Expr, func: string,
                    mem: MemRef): Expr {
    match kind
    case KConst => Const(constant)
    case KReg => Reg(reg)
    case KOp => Op(op, left, right)
    case KUnary => Unary(op, left)
    case KLoad => Apply(LoadHead(mem), [])
    case KAddrOf => Apply(AddrHead(mem), if left == Missing then [] else [left])
    case KSym => Apply(SymHead(func), if left == Missing then [] else [left])
    case KCall => Apply(CallHead(func), [])
    case _ => Unknown
  }

  /** `h'` has everything `h` has, with the same meaning. */
  ghost predicate Grew(h: Heap, h': Heap) {
    && Closed(h) && Closed(h')
    && forall x: Value {:trigger Tree(h, x)} {:trigger Tree(h', x)} {:trigger x in h'} :: x in h ==>
         x in h' && Tree(h', x) == Tree(h, x)
  }

  lemma GrewAt(h: Heap, h': Heap, x: Value?)
    requires Grew(h, h') && Known(h, x)
    ensures Known(h', x) && Tree(h', x) == Tree(h, x)
  {
  }

  lemma GrewStmt(h: Heap, h': Heap, s: Statement)
    requires Grew(h, h') && KnownStmt(h, s)
    ensures KnownStmt(h', s) && StmtExpr(h', s) == StmtExpr(h, s)
  {
    GrewAt(h, h', s.value);
    forall i | 0 <= i < |s.args|
      ensures Known(h', s.args[i]) && Tree(h', s.args[i]) == Tree(h, s.args[i])
    {
      GrewAt(h, h', s.args[i]);
    }
  }

  /** A larger heap with the same trees gives the same state. */
  lemma GrewSameState(h: Heap, h': Heap, regs: map<string, Value?>, cmp: Comparison, stmts: seq<Statement>)
    requires Grew(h, h')
    requires KnownRegs(h, regs) && KnownCmp(h, cmp) && KnownStmts(h, stmts)
    ensures KnownRegs(h', regs) && KnownCmp(h', cmp) && KnownStmts(h', stmts)
    ensures RegExprs(h', regs) == RegExprs(h, regs)
    ensures CmpExprs(h', cmp) == CmpExprs(h, cmp)
    ensures StmtExprs(h', stmts) == StmtExprs(h, stmts)
  {
    forall n | n in regs
      ensures Known(h', regs[n]) && Tree(h', regs[n]) == Tree(h, regs[n])
    {
      GrewAt(h, h', regs[n]);
    }
    forall i | 0 <= i < |stmts|
      ensures KnownStmt(h', stmts[i]) && StmtExpr(h', stmts[i]) == StmtExpr(h, stmts[i])
    {
      GrewStmt(h, h', stmts[i]);
    }
    if cmp.Some? {
      GrewAt(h, h', cmp.value.0);
      GrewAt(h, h', cmp.value.1);
    }
  }

  lemma NewNodeGrows(h: Heap, v: Value, links: Links)
    requires Closed(h) && v !in h && v.args == []
    requires Below(h, links.left, v.rank) && Below(h, links.right, v.rank)
    ensures Grew(h, h[v := links])
  {
    AddNode(h, v, links);
  }

  lemma NewTree(h: Heap, v: Value, links: Links)
    requires Closed(h) && v !in h && v.args == []
    requires Below(h, links.left, v.rank) && Below(h, links.right, v.rank)
    ensures Closed(h[v := links])
    ensures Tree(h[v := links], v) ==
            NodeExpr(v.kind, v.constant, v.reg, v.op, Tree(h, links.left), Tree(h, links.right), v.func, v.mem)
  {
    AddNode(h, v, links);
    var h' := h[v := links];
    assert NodeClosed(h', v);
    assert Tree(h', links.left) == Tree(h, links.left) && Tree(h', links.right) == Tree(h, links.right);
    if links.left != null {
      NodeIsNotMissing(h, links.left);
    }
  }

  lemma NodeIsNotMissing(h: Heap, v: Value)
    requires Closed(h) && v in h
    ensures Tree(h, v) != Missing
  {
  }

  /** Simplified sides without arguments are the normal forms of the compared values. */
  lemma SidesAreNormal(sides: seq<Expr>, cond: seq<Expr>)
    requires AllRewrite(sides, cond) && forall i {:trigger cond[i]} :: 0 <= i < |cond| ==> Simple(cond[i])
    ensures AllRefine(sides, cond)
    ensures (forall e :: e in sides ==> Bare(e)) ==> cond == NormalAll(sides)
  {
    AllRewriteRefines(sides, cond);
    NormalEach(sides);
    hide Rewrites, Simple, Normal;
    if forall e :: e in sides ==> Bare(e) {
      forall i | 0 <= i < |cond|
        ensures cond[i] == NormalAll(sides)[i]
      {
        assert Rewrites(sides[i], cond[i]) && Simple(cond[i]);
        SimpleIsNormal(sides[i], cond[i]);
      }
    }
  }

  method ShowBoth(left: Value?, right: Value?, ghost nodes: set<Value>) returns (sides: seq<Expr>)
    requires Closed(Snap(nodes)) && Known(Snap(nodes), left) && Known(Snap(nodes), right)
    ensures sides == [Tree(Snap(nodes), left), Tree(Snap(nodes), right)]
  {
    var l := Show(left, nodes);
    var r := Show(right, nodes);
    sides := [l, r];
  }

  /** The jump statement on a condition. */
  ghost function JumpOn(inst: AsmInst, cond: seq<Expr>): seq<StmtView> {
    [StmtView(SIf, inst.address, "", Missing, "", [], FmtHex(inst.branchTarget), cond)]
  }

  lemma JumpRefines(inst: AsmInst, cond: seq<Expr>, cond': seq<Expr>)
    requires AllRefine(cond, cond')
    ensures StmtsRefine(JumpOn(inst, cond), JumpOn(inst, cond'))
  {
    RefinesSelf(Missing);
  }

  /** A heap that preserves meanings preserves the state. */
  lemma PreservedState(h: Heap, h': Heap, regs: map<string, Value?>, cmp: Comparison, stmts: seq<Statement>)
    requires Closed(h) && Closed(h') && Preserves(h, h')
    requires KnownRegs(h, regs) && KnownCmp(h, cmp) && KnownStmts(h, stmts)
    ensures KnownRegs(h', regs) && KnownCmp(h', cmp) && KnownStmts(h', stmts)
    ensures forall slots: map<int, string>, n: nat {:trigger SymState(RegExprs(h, regs), slots, n, CmpExprs(h, cmp))} ::
              StateRefines(SymState(RegExprs(h, regs), slots, n, CmpExprs(h, cmp)),
                           SymState(RegExprs(h', regs), slots, n, CmpExprs(h', cmp)))
    ensures StmtsRefine(StmtExprs(h, stmts), StmtExprs(h', stmts))
  {
    hide Closed;
    forall n | n in regs
      ensures Known(h', regs[n]) && StandsFor(Tree(h, regs[n]), Tree(h', regs[n]))
    {
      PreservedAt(h, h', regs[n]);
    }
    forall i | 0 <= i < |stmts|
      ensures KnownStmt(h', stmts[i]) && StmtRefines(StmtExpr(h, stmts[i]), StmtExpr(h', stmts[i]))
    {
      PreservedStmt(h, h', stmts[i]);
    }
    if cmp.Some? {
      PreservedAt(h, h', cmp.value.0);
      PreservedAt(h, h', cmp.value.1);
    }
    hide Refines, StandsFor;
  }

  lemma PreservedStmt(h: Heap, h': Heap, s: Statement)
    requires Closed(h) && Closed(h') && Preserves(h, h') && KnownStmt(h, s)
    ensures KnownStmt(h', s) && StmtRefines(StmtExpr(h, s), StmtExpr(h', s))
  {
    PreservedAt(h, h', s.value);
    StandsForMeans(Tree(h, s.value), Tree(h', s.value));
    forall i | 0 <= i < |s.args|
      ensures Known(h', s.args[i]) && Refines(Tree(h, s.args[i]), Tree(h', s.args[i]))
    {
      PreservedAt(h, h', s.args[i]);
      StandsForMeans(Tree(h, s.args[i]), Tree(h', s.args[i]));
    }
    AllRefineSelf(s.cond);
    hide Refines, Preserves, Closed, StandsFor;
  }

  lemma PreservedAt(h: Heap, h': Heap, x: Value?)
    requires Closed(h) && Closed(h') && Preserves(h, h') && Known(h, x)
    ensures Known(h', x) && StandsFor(Tree(h, x), Tree(h', x))
  {
    if x == null {
      StandsForSelf(Missing);
    } else {
      assert x in h && Rewrites(Tree(h, x), Tree(h', x));
      NodeIsNotMissing(h, x);
      NodeIsNotMissing(h', x);
    }
  }

  lemma SameStateRefines(h: Heap, regs: map<string, Value?>, cmp: Comparison, stmts: seq<Statement>)
    requires Closed(h) && KnownRegs(h, regs) && KnownCmp(h, cmp) && KnownStmts(h, stmts)
    ensures forall slots: map<int, string>, n: nat {:trigger SymState(RegExprs(h, regs), slots, n, CmpExprs(h, cmp))} ::
              StateRefines(SymState(RegExprs(h, regs), slots, n, CmpExprs(h, cmp)),
                           SymState(RegExprs(h, regs), slots, n, CmpExprs(h, cmp)))
    ensures StmtsRefine(StmtExprs(h, stmts), StmtExprs(h, stmts))
  {
    PreservedState(h, h, regs, cmp, stmts);
  }

  lemma SetRegExpr(h: Heap, regs: map<string, Value?>, name: string, v: Value?)
    requires Closed(h) && KnownRegs(h, regs) && Known(h, v)
    ensures KnownRegs(h, regs[name := v]) && RegExprs(h, regs[name := v]) == RegExprs(h, regs)[name := Tree(h, v)]
  {
    hide Closed;
  }

  function SlotName(k: nat): string {
    "v" + Digits(k, 10)
  }

  /** The slots have the names v0 to v(n-1), each given once. */
  ghost predicate SlotsNumbered(slots: map<int, string>, n: nat) {
    && |slots| == n
    && (forall o {:trigger slots[o]} :: o in slots ==>
         exists k: nat {:trigger SlotName(k)} :: k < n && slots[o] == SlotName(k))
    && (forall o, p {:trigger slots[o], slots[p]} :: o in slots && p in slots && o != p ==> slots[o] != slots[p])
  }

  /** The next number is a new name. */
  lemma NextSlot(slots: map<int, string>, n: nat, offset: int)
    requires SlotsNumbered(slots, n) && offset !in slots
    ensures SlotsNumbered(slots[offset := SlotName(n)], n + 1)
    ensures forall o :: o in slots ==> slots[o] != SlotName(n)
  {
    var more := slots[offset := SlotName(n)];
    assert more.Keys == slots.Keys + {offset};
    assert |more.Keys| == |slots.Keys| + 1;
    forall o | o in slots
      ensures slots[o] != SlotName(n)
    {
      var k: nat :| k < n && slots[o] == SlotName(k);
      if SlotName(k) == SlotName(n) {
        assert SlotName(k)[1..] == Digits(k, 10) && SlotName(n)[1..] == Digits(n, 10);
        DigitsInjective(k, n);
      }
    }
    forall o | o in more
      ensures exists k: nat {:trigger SlotName(k)} :: k < n + 1 && more[o] == SlotName(k)
    {
      if o == offset {
        assert more[o] == SlotName(n);
      } else {
        var k: nat :| k < n && slots[o] == SlotName(k);
      }
    }
  }

  /** Simplifying the right side after the left leaves both sides simple and meaning what they meant. */
  lemma ConditionSides(h: Heap, h1: Heap, h2: Heap, x: Value, y: Value, left: Value?, right: Value?)
    requires Closed(h) && x in h && y in h
    requires Simplified(h, h1, x.rank) && Replaces(h1, x, left) && Finished(h1, x, left)
    requires Simplified(h1, h2, y.rank) && Replaces(h2, y, right) && Finished(h2, y, right)
    ensures Preserves(h, h2)
    ensures left != null && right != null && left in h2 && right in h2
    ensures Rewrites(Tree(h, x), Tree(h2, left)) && Simple(Tree(h2, left))
    ensures Rewrites(Tree(h, y), Tree(h2, right)) && Simple(Tree(h2, right))
    ensures Tree(h, x) != Missing && Tree(h, y) != Missing
  {
    PreservesTransitive(h, h1, h2);
    assert Rewrites(Tree(h, x), Tree(h1, x)) && Rewrites(Tree(h, y), Tree(h2, y));
    assert left in h2 && Rewrites(Tree(h1, left), Tree(h2, left));
    StaysSimple(h1, h2, y.rank, left);
    NodeIsNotMissing(h, x);
    NodeIsNotMissing(h, y);
    RewritesTransitive(Tree(h, x), Tree(h1, x), Tree(h1, left));
    RewritesTransitive(Tree(h, x), Tree(h1, left), Tree(h2, left));
    RewritesTransitive(Tree(h, y), Tree(h2, y), Tree(h2, right));
  }

  // ---------------------------------------------------------------- the texts of the jumps

  /** The statements with at most one more, which is no conditional jump. */
  predicate AddsNoJump(ss: seq<Statement>, ts: seq<Statement>) {
    ts == ss || (|ts| == |ss| + 1 && ts[..|ss|] == ss && ts[|ss|].kind != SIf)
  }

  /** The statements with one conditional jump more, whose text is the condition of `opcode`. */
  predicate AddsJump(ss: seq<Statement>, ts: seq<Statement>, opcode: string) {
    && |ts| == |ss| + 1 && ts[..|ss|] == ss
    && ts[|ss|].kind == SIf && ts[|ss|].text == ConditionText(opcode, ts[|ss|].cond)
  }

  /** The conditional jumps in order have the texts that the opcodes `jumps` ask for. */
  predicate Worded(ss: seq<Statement>, jumps: seq<string>) {
    if ss == [] then jumps == []
    else
      var front, last := ss[..|ss| - 1], ss[|ss| - 1];
      if last.kind != SIf then Worded(front, jumps)
      else
        && jumps != [] && last.text == ConditionText(jumps[|jumps| - 1], last.cond)
        && Worded(front, jumps[..|jumps| - 1])
  }

  lemma WordedOn(ss: seq<Statement>, ts: seq<Statement>, us: seq<Statement>, jumps: seq<string>, opcode: string,
                 isJump: bool)
    requires ss <= ts && Worded(ts[|ss|..], jumps)
    requires if isJump then AddsJump(ts, us, opcode) else AddsNoJump(ts, us)
    ensures ss <= us && Worded(us[|ss|..], jumps + if isJump then [opcode] else [])
  {
    hide ConditionText;
    if us != ts {
      var more := us[|ss|..];
      assert more[..|more| - 1] == ts[|ss|..];
      assert more[|more| - 1] == us[|ts|];
      var all := jumps + [opcode];
      assert all[..|all| - 1] == jumps;
    } else {
      assert jumps + [] == jumps;
    }
  }

  /** Before the first instruction nothing has happened. */
  lemma NothingDone(ss: seq<Statement>, pre: SymState, before: seq<StmtView>, inst: AsmInst, target: string)
    ensures Worded(ss[|ss|..], JumpsOf(Flatten([]))) && Worded(ss[|ss|..], JumpsOf([]))
    ensures StateRefines(StepLine(pre, [], target), pre) && StateRefines(StepBlock(pre, []), pre)
    ensures StmtsRefine(before + EmitLine(pre, [], inst, target), before)
    ensures StmtsRefine(before + EmitBlock(pre, []), before)
  {
    StateRefinesSelf(pre);
    StmtsRefineSelf(before);
    hide StateRefines, StmtsRefine;
    assert before + [] == before;
  }

  lemma {:induction false} WordedJoin(ss: seq<Statement>, ts: seq<Statement>, jumps: seq<string>, more: seq<string>)
    requires Worded(ss, jumps) && Worded(ts, more)
    ensures Worded(ss + ts, jumps + more)
    decreases |ts|
  {
    hide ConditionText;
    if ts == [] {
      assert ss + ts == ss && jumps + more == jumps;
    } else {
      var front, last := ts[..|ts| - 1], ts[|ts| - 1];
      assert (ss + ts)[..|ss + ts| - 1] == ss + front && (ss + ts)[|ss + ts| - 1] == last;
      if last.kind != SIf {
        WordedJoin(ss, front, jumps, more);
      } else {
        WordedJoin(ss, front, jumps, more[..|more| - 1]);
        var all := jumps + more;
        assert all[..|all| - 1] == jumps + more[..|more| - 1] && all[|all| - 1] == more[|more| - 1];
      }
    }
  }

  lemma WordedOnward(ss: seq<Statement>, ts: seq<Statement>, us: seq<Statement>, jumps: seq<string>, more: seq<string>)
    requires ss <= ts <= us && Worded(ts[|ss|..], jumps) && Worded(us[|ts|..], more)
    ensures Worded(us[|ss|..], jumps + more)
  {
    assert us[|ss|..] == ts[|ss|..] + us[|ts|..];
    WordedJoin(ts[|ss|..], us[|ts|..], jumps, more);
  }

  class BlockAnalyzer {
    var regs: map<string, Value?>
    var stackSlots: map<int, string>
    var varCount: nat
    var lastCmp: Comparison
    var stmts: seq<Statement>
    ghost var nodes: set<Value>

    constructor ()
      ensures Valid() && nodes == {}
      ensures View() == SymState(map[], map[], 0, None) && Views() == []
    {
      regs, stackSlots, varCount, lastCmp, stmts := map[], map[], 0, None, [];
      nodes := {};
    }

    ghost function H(): Heap
      reads this, nodes
    {
      Snap(nodes)
    }

    ghost predicate Valid()
      reads this, nodes
    {
      && Closed(H()) && KnownRegs(H(), regs) && KnownCmp(H(), lastCmp) && KnownStmts(H(), stmts)
      && SlotsNumbered(stackSlots, varCount)
    }

    /** The symbolic state the node graph stands for. */
    ghost function View(): SymState
      requires Valid()
      reads this, nodes
    {
      SymState(RegExprs(H(), regs), stackSlots, varCount, CmpExprs(H(), lastCmp))
    }

    /** The statements emitted so far. */
    ghost function Views(): seq<StmtView>
      requires Valid()
      reads this, nodes
    {
      StmtExprs(H(), stmts)
    }

    /** A new node over known ones. */
    method NewNode(kind: Kind, constant: Word, reg: string, op: string, left: Value?, right: Value?, func: string,
                   mem: MemRef)
      returns (v: Value)
      requires Valid() && Known(H(), left) && Known(H(), right)
      modifies this`nodes
      ensures Valid() && fresh(v) && nodes == old(nodes) + {v}
      ensures View() == old(View()) && Views() == old(Views())
      ensures Grew(old(H()), H())
      ensures v.kind == kind
      ensures Tree(H(), v) == NodeExpr(kind, constant, reg, op, old(Tree(H(), left)), old(Tree(H(), right)), func, mem)
    {
      ghost var h := H();
      ghost var rank := 1 + (if left == null then 0 else left.rank) + (if right == null then 0 else right.rank);
      v := new Value.Make(kind, constant, reg, op, left, right, func, [], mem, rank);
      NewNodeGrows(h, v, Links(left, right));
      NewTree(h, v, Links(left, right));
      nodes := nodes + {v};
      assert H() == h[v := Links(left, right)];
      GrewSameState(h, H(), regs, lastCmp, stmts);
    }

    method ConstNode(c: Word) returns (v: Value)
      requires Valid()
      modifies this`nodes
      ensures Valid() && fresh(v) && nodes == old(nodes) + {v}
      ensures View() == old(View()) && Views() == old(Views()) && Grew(old(H()), H())
      ensures Tree(H(), v) == Const(c)
    {
      v := NewNode(KConst, c, "", "", null, null, "", EMPTY);
    }

    method OpNode(op: string, left: Value?, right: Value?) returns (v: Value)
      requires Valid() && Known(H(), left) && Known(H(), right)
      modifies this`nodes
      ensures Valid() && fresh(v) && nodes == old(nodes) + {v}
      ensures View() == old(View()) && Views() == old(Views()) && Grew(old(H()), H())
      ensures Tree(H(), v) == Op(op, old(Tree(H(), left)), old(Tree(H(), right)))
    {
      v := NewNode(KOp, 0, "", op, left, right, "", EMPTY);
    }

    method SetReg(name: string, v: Value?)
      requires Valid() && Known(H(), v)
      modifies this`regs
      ensures Valid() && View() == SetExpr(old(View()), name, Tree(H(), v)) && Views() == old(Views())
    {
      SetRegExpr(H(), regs, name, v);
      hide Closed, KnownCmp, KnownStmts, CmpExprs, StmtExprs, KnownRegs, RegExprs;
      regs := regs[name := v];
    }

    method GetReg(name: string) returns (v: Value?)
      requires Valid()
      modifies this`nodes
      ensures Valid() && fresh(nodes - old(nodes)) && old(nodes) <= nodes
      ensures View() == old(View()) && Views() == old(Views())
      ensures Grew(old(H()), H())
      ensures Known(H(), v) && Tree(H(), v) == Lookup(View().regs, name)
    {
      if name in regs {
        return regs[name];
      }
      v := NewNode(KReg, 0, name, "", null, null, "", EMPTY);
    }

    method AddStmt(s: Statement)
      requires Valid() && KnownStmt(H(), s)
      modifies this`stmts
      ensures Valid() && View() == old(View())
      ensures Views() == old(Views()) + [StmtExpr(H(), s)] && stmts == old(stmts) + [s]
    {
      stmts := stmts + [s];
    }

    // -------------------------------------------------------------- operands

    /** The node of a source operand. */
    method ResolveSource(operand: string) returns (v: Value?)
      requires Valid()
      modifies this`nodes
      ensures Valid() && fresh(nodes - old(nodes)) && old(nodes) <= nodes
      ensures View() == old(View()) && Views() == old(Views()) && Grew(old(H()), H())
      ensures Known(H(), v) && Tree(H(), v) == SourceExpr(View(), operand)
    {
      hide IsRegister;
      match ParseOperand(operand)
      case NoOperand =>
        v := null;
      case Immediate(n) =>
        v := ConstNode(ToWord(n));
      case Register(r) =>
        v := GetReg(r);
      case Memory(mem) =>
        if mem.base == "" {
          v := null;
        } else if mem.base == "SP" {
          v := NewNode(KReg, 0, StackVarName(stackSlots, mem.offset), "", null, null, "", EMPTY);
        } else {
          v := NewNode(KLoad, 0, "", "", null, null, "", mem);
        }
    }

    /** The name of a stack slot, given out on first use. */
    method GetStackSlot(offset: int) returns (name: string)
      requires Valid()
      modifies this`stackSlots, this`varCount
      ensures Valid() && View() == NameSlot(old(View()), offset) && Views() == old(Views())
      ensures name == View().slots[offset]
      ensures forall o :: o in View().slots && o != offset ==> View().slots[o] != name
    {
      if offset in stackSlots {
        return stackSlots[offset];
      }
      NextSlot(stackSlots, varCount, offset);
      hide SlotsNumbered;
      name := "v" + Digits(varCount, 10);
      varCount := varCount + 1;
      stackSlots := stackSlots[offset := name];
    }

    // -------------------------------------------------------------- instructions

    method TranslateMove(operands: seq<string>)
      requires Valid()
      modifies this
      ensures Valid() && fresh(nodes - old(nodes)) && old(nodes) <= nodes
      ensures View() == StepMove(old(View()), operands)
      ensures Views() == old(Views()) + EmitMove(old(View()), operands)
      ensures AddsNoJump(old(stmts), stmts)
    {
      hide IsRegister, Closed, KnownRegs, KnownCmp, KnownStmts, SlotsNumbered, RegExprs, CmpExprs, StmtExprs,
        SourceExpr;
      if |operands| < 2 {
        return;
      }
      var src := ResolveSource(operands[0]);
      if IsRegister(operands[1]) {
        SetReg(operands[1], src);
        return;
      }
      match ParseOperand(operands[1])
      case Memory(mem) =>
        if mem.base != "" {
          if mem.base == "SP" {
            var name := GetStackSlot(mem.offset);
            AddStmt(Statement(SAssign, 0, name, src, "", [], "", [], ""));
            return;
          }
          AddStmt(Statement(SStore, 0, mem.Print(), src, "", [], "", [], ""));
        }
      case _ =>
    }

    method TranslateLea(operands: seq<string>)
      requires Valid()
      modifies this
      ensures Valid() && fresh(nodes - old(nodes)) && old(nodes) <= nodes
      ensures View() == StepLea(old(View()), operands) && Views() == old(Views())
      ensures stmts == old(stmts)
    {
      hide IsRegister, Closed, KnownRegs, KnownCmp, KnownStmts, SlotsNumbered, RegExprs, CmpExprs, StmtExprs;
      if |operands| < 2 {
        return;
      }
      var mem := ParseOperand(operands[0]);
      if IsRegister(operands[1]) && mem.Memory? {
        var v := NewNode(KAddrOf, 0, "", "", null, null, "", mem.mem);
        SetReg(operands[1], v);
      }
    }

    method TranslateBinOp(op: string, operands: seq<string>)
      requires Valid()
      modifies this
      ensures Valid() && fresh(nodes - old(nodes)) && old(nodes) <= nodes
      ensures View() == StepBinOp(old(View()), op, operands) && Views() == old(Views())
      ensures stmts == old(stmts)
    {
      hide IsRegister, Closed, KnownRegs, KnownCmp, KnownStmts, SlotsNumbered, RegExprs, CmpExprs, StmtExprs,
        SourceExpr;
      if |operands| < 2 {
        return;
      }
      if !IsRegister(operands[1]) {
        return;
      }
      var src := ResolveSource(operands[0]);
      ghost var h := H();
      var dst := GetReg(operands[1]);
      GrewAt(h, H(), src);
      var result := OpNode(op, dst, src);
      SetReg(operands[1], result);
    }

    /** The node of a register changed by one. */
    method CountNode(op: string, name: string) returns (v: Value)
      requires Valid()
      modifies this`nodes
      ensures Valid() && fresh(nodes - old(nodes)) && old(nodes) <= nodes && v in nodes
      ensures View() == old(View()) && Views() == old(Views())
      ensures Tree(H(), v) == Op(op, Lookup(old(View()).regs, name), Const(1))
    {
      hide SlotsNumbered, Closed, NodeExpr, Lookup, View, Views, Valid, Grew;
      var dst := GetReg(name);
      ghost var h := H();
      var one := ConstNode(1);
      GrewAt(h, H(), dst);
      v := OpNode(op, dst, one);
    }

    method TranslateIncDec(op: string, operands: seq<string>)
      requires Valid()
      modifies this
      ensures Valid() && fresh(nodes - old(nodes)) && old(nodes) <= nodes
      ensures View() == StepIncDec(old(View()), op, operands)
      ensures Views() == old(Views()) + EmitIncDec(old(View()), op, operands)
      ensures AddsNoJump(old(stmts), stmts)
    {
      hide SlotsNumbered, IsRegister, Closed, NodeExpr, Lookup, View, Views, Valid, Grew;
      if |operands| < 1 {
        return;
      }
      if !IsRegister(operands[0]) {
        return;
      }
      var result := CountNode(op, operands[0]);
      SetReg(operands[0], result);
      AddStmt(Statement(SAssign, 0, operands[0], result, "", [], "", [], ""));
    }

    method TranslateUnary(op: string, operands: seq<string>)
      requires Valid()
      modifies this
      ensures Valid() && fresh(nodes - old(nodes)) && old(nodes) <= nodes
      ensures View() == StepUnary(old(View()), op, operands) && Views() == old(Views())
      ensures stmts == old(stmts)
    {
      hide IsRegister, Closed, KnownRegs, KnownCmp, KnownStmts, SlotsNumbered, RegExprs, CmpExprs, StmtExprs;
      if |operands| < 1 {
        return;
      }
      if !IsRegister(operands[0]) {
        return;
      }
      var dst := GetReg(operands[0]);
      var result := NewNode(KUnary, 0, "", op, dst, null, "", EMPTY);
      SetReg(operands[0], result);
    }

    method TranslateSet(operands: seq<string>)
      requires Valid()
      modifies this
      ensures Valid() && fresh(nodes - old(nodes)) && old(nodes) <= nodes
      ensures View() == StepSet(old(View()), operands) && Views() == old(Views())
      ensures stmts == old(stmts)
    {
      hide IsRegister, Closed, KnownRegs, KnownCmp, KnownStmts, SlotsNumbered, RegExprs, CmpExprs, StmtExprs;
      if |operands| < 1 {
        return;
      }
      if !IsRegister(operands[0]) {
        return;
      }
      var result := ConstNode(1);
      SetReg(operands[0], result);
    }

    method SetCmp(left: Value?, right: Value?)
      requires Valid() && Known(H(), left) && Known(H(), right)
      modifies this`lastCmp
      ensures Valid() && Views() == old(Views())
      ensures View() == old(View()).(cmp := Some((Tree(H(), left), Tree(H(), right))))
    {
      lastCmp := Some((left, right));
    }

    /** A node for a comparison operand: registers by name, not by content. */
    method RawOperand(operand: string, allowMemory: bool) returns (v: Value?)
      requires Valid()
      modifies this`nodes
      ensures Valid() && fresh(nodes - old(nodes)) && old(nodes) <= nodes
      ensures View() == old(View()) && Views() == old(Views()) && Grew(old(H()), H())
      ensures Known(H(), v)
      ensures Tree(H(), v) == if allowMemory then ComparedExpr(operand) else ComparedSource(operand)
    {
      hide IsRegister;
      match ParseOperand(operand)
      case NoOperand =>
        v := null;
      case Immediate(n) =>
        v := ConstNode(ToWord(n));
      case Register(r) =>
        v := NewNode(KReg, 0, r, "", null, null, "", EMPTY);
      case Memory(mem) =>
        if allowMemory && mem.base != "" {
          v := NewNode(KLoad, 0, "", "", null, null, "", mem);
        } else {
          v := null;
        }
    }

    method TranslateCmp(operands: seq<string>)
      requires Valid()
      modifies this
      ensures Valid() && fresh(nodes - old(nodes)) && old(nodes) <= nodes
      ensures View() == StepCompare(old(View()), operands) && Views() == old(Views())
      ensures stmts == old(stmts)
    {
      hide IsRegister, Closed, KnownRegs, KnownCmp, KnownStmts, SlotsNumbered, RegExprs, CmpExprs, StmtExprs,
        ComparedExpr, ComparedSource;
      if |operands| < 2 {
        return;
      }
      var right := RawOperand(operands[0], false);
      ghost var h := H();
      var left := RawOperand(operands[1], true);
      GrewAt(h, H(), right);
      SetCmp(left, right);
    }

    /** A node for a tested operand: an immediate, or what the register stands for. */
    method TestedOperand(operand: string) returns (v: Value?)
      requires Valid()
      modifies this`nodes
      ensures Valid() && fresh(nodes - old(nodes)) && old(nodes) <= nodes
      ensures View() == old(View()) && Views() == old(Views()) && Grew(old(H()), H())
      ensures Known(H(), v) && Tree(H(), v) == TestedExpr(View(), operand)
    {
      hide IsRegister;
      match ParseOperand(operand)
      case Immediate(n) =>
        v := ConstNode(ToWord(n));
      case Register(r) =>
        v := GetReg(r);
      case _ =>
        v := null;
    }

    method TranslateTest(operands: seq<string>)
      requires Valid()
      modifies this
      ensures Valid() && fresh(nodes - old(nodes)) && old(nodes) <= nodes
      ensures View() == StepTest(old(View()), operands) && Views() == old(Views())
      ensures stmts == old(stmts)
    {
      hide IsRegister, Closed, KnownRegs, KnownCmp, KnownStmts, SlotsNumbered, RegExprs, CmpExprs, StmtExprs,
        TestedExpr;
      if |operands| < 2 {
        return;
      }
      var left := TestedOperand(operands[0]);
      ghost var h := H();
      var right := TestedOperand(operands[1]);
      GrewAt(h, H(), left);
      SetCmp(left, right);
    }

    method TranslateCall(inst: AsmInst)
      requires Valid()
      modifies this
      ensures Valid() && fresh(nodes - old(nodes)) && old(nodes) <= nodes
      ensures View() == StepSym(old(View()), Call, [], CallTarget(inst.text))
      ensures Views() == old(Views()) + Emit(old(View()), Call, [], inst, CallTarget(inst.text))
      ensures AddsNoJump(old(stmts), stmts)
    {
      hide View, Views, Valid, Closed, KnownRegs, KnownCmp, KnownStmts, SlotsNumbered, RegExprs, CmpExprs, StmtExprs,
        CallTarget;
      var target := CallTarget(inst.text);
      var val := NewNode(KCall, 0, "", "", null, null, target, EMPTY);
      SetReg("AX", val);
      AddStmt(Statement(SCall, inst.address, "", val, target, [], "", [], ""));
    }

    method TranslateReturn(inst: AsmInst)
      requires Valid()
      modifies this
      ensures Valid() && fresh(nodes - old(nodes)) && old(nodes) <= nodes
      ensures View() == old(View())
      ensures Views() == old(Views()) + Emit(old(View()), Return, [], inst, "")
      ensures AddsNoJump(old(stmts), stmts)
    {
      hide KnownRegs, KnownCmp, KnownStmts, SlotsNumbered, RegExprs, CmpExprs, StmtExprs;
      var retVal := GetReg("AX");
      if retVal != null && retVal.kind != KReg {
        AddStmt(Statement(SReturn, inst.address, "", retVal, "", [], "", [], ""));
      } else {
        AddStmt(Statement(SReturn, inst.address, "", null, "", [], "", [], ""));
      }
    }

    method SimplifyNode(v: Value) returns (r: Value?)
      requires Valid() && Known(H(), v)
      modifies this`nodes, nodes
      ensures Valid() && fresh(nodes - old(nodes)) && old(nodes) <= nodes
      ensures Simplified(old(H()), H(), v.rank) && Replaces(H(), v, r) && Finished(H(), v, r)
    {
      ghost var h, n1 := H(), nodes;
      r, n1 := SimplifyValue(v, nodes);
      PreservedState(h, Snap(n1), regs, lastCmp, stmts);
      nodes := n1;
    }

    /** The condition of a conditional jump: the compared values are simplified where they sit, and
        printed. Registers and statements may share those nodes; each keeps its meaning. */
    method BuildCondition(opcode: string) returns (text: string, cond: seq<Expr>)
      requires Valid()
      modifies this`nodes, nodes
      ensures Valid() && fresh(nodes - old(nodes)) && old(nodes) <= nodes
      ensures StateRefines(old(View()), View()) && StmtsRefine(old(Views()), Views())
      ensures text == ConditionText(opcode, cond)
      ensures AllRewrite(Sides(old(View()).cmp), cond)
      ensures forall i {:trigger cond[i]} :: 0 <= i < |cond| ==> Simple(cond[i])
    {
      hide Rewrites, Preserves, StateRefines, StmtsRefine, Replaces, KeepsSimple, Finished, RegExprs, StmtExprs,
        KnownRegs, KnownStmts, Simple, ConditionText;
      ghost var h := H();
      if lastCmp.None? || lastCmp.value.0 == null || lastCmp.value.1 == null {
        SameStateRefines(h, regs, lastCmp, stmts);
        cond := [];
      } else {
        var x, y := lastCmp.value.0, lastCmp.value.1;
        var left := SimplifyNode(x);
        ghost var h1 := H();
        var right := SimplifyNode(y);
        ConditionSides(h, h1, H(), x, y, left, right);
        PreservedState(h, H(), regs, lastCmp, stmts);
        cond := ShowBoth(left, right, nodes);
      }
      text := ConditionText(opcode, cond);
    }

    method TranslateCondJump(opcode: string, inst: AsmInst)
      requires Valid()
      modifies this, nodes
      ensures Valid() && fresh(nodes - old(nodes)) && old(nodes) <= nodes
      ensures StateRefines(old(View()), View())
      ensures StmtsRefine(old(Views()) + Emit(old(View()), CondJump, [], inst, ""), Views())
      ensures AddsJump(old(stmts), stmts, opcode)
      ensures var sides := Sides(old(View()).cmp);
              (forall e :: e in sides ==> Bare(e)) ==> stmts[|stmts| - 1].cond == NormalAll(sides)
    {
      ghost var sides, views := Sides(View().cmp), Views();
      var text, cond := BuildCondition(opcode);
      ghost var before := Views();
      hide Closed, KnownRegs, KnownCmp, KnownStmts, SlotsNumbered, RegExprs, CmpExprs, StmtExprs, StateRefines,
        ConditionText, StmtsRefine, AllRewrite, AllRefine, Simple, Bare;
      AddStmt(Statement(SIf, inst.address, "", null, "", [], FmtHex(inst.branchTarget), cond, text));
      SidesAreNormal(sides, cond);
      JumpRefines(inst, sides, cond);
      StmtsRefineConcat(views, before, JumpOn(inst, sides), JumpOn(inst, cond));
    }

    method TranslateJump(inst: AsmInst)
      requires Valid()
      modifies this
      ensures Valid() && nodes == old(nodes)
      ensures View() == old(View())
      ensures Views() == old(Views()) + Emit(old(View()), Jump, [], inst, "")
      ensures AddsNoJump(old(stmts), stmts)
    {
      hide Closed, KnownRegs, KnownCmp, KnownStmts, SlotsNumbered, RegExprs, CmpExprs, StmtExprs;
      AddStmt(Statement(SGoto, inst.address, "", null, "", [], FmtHex(inst.branchTarget), [], ""));
    }

    /** One instruction: the symbolic step and its statements, up to simplification of shared nodes. */
    method Translate(opcode: string, operands: seq<string>, inst: AsmInst)
      requires Valid()
      modifies this, nodes
      ensures Valid() && fresh(nodes - old(nodes)) && old(nodes) <= nodes
      ensures !Classify(opcode).CondJump? ==>
                && View() == StepSym(old(View()), Classify(opcode), operands, CallTarget(inst.text))
                && Views() == old(Views()) + Emit(old(View()), Classify(opcode), operands, inst, CallTarget(inst.text))
      ensures StateRefines(StepSym(old(View()), Classify(opcode), operands, CallTarget(inst.text)), View())
      ensures StmtsRefine(old(Views()) + Emit(old(View()), Classify(opcode), operands, inst, CallTarget(inst.text)),
                          Views())
      ensures if Classify(opcode).CondJump? then AddsJump(old(stmts), stmts, opcode) else AddsNoJump(old(stmts), stmts)
    {
      hide Valid, View, Views, Classify, CallTarget, ConditionText, StepMove, StepLea, StepBinOp, StepIncDec,
        StepUnary, StepSet, StepCompare, StepTest, StateRefines, StmtsRefine, EmitMove, EmitIncDec;
      match Classify(opcode) {
        case Move => TranslateMove(operands);
        case Lea => TranslateLea(operands);
        case BinOp(op) => TranslateBinOp(op, operands);
        case IncDec(op) => TranslateIncDec(op, operands);
        case UnaryOp(op) => TranslateUnary(op, operands);
        case Compare => TranslateCmp(operands);
        case Test => TranslateTest(operands);
        case Call => TranslateCall(inst);
        case Return => TranslateReturn(inst);
        case Jump => TranslateJump(inst);
        case CondJump => TranslateCondJump(opcode, inst);
        case SetFlag => TranslateSet(operands);
        case Ignore =>
      }
      StateRefinesSelf(View());
      StmtsRefineSelf(Views());
    }

    /** All instructions on one line of assembler text: their symbolic steps in order and their
        statements in order, up to simplification of shared nodes. */
    method TranslateInstruction(inst: AsmInst)
      requires Valid()
      modifies this, nodes
      ensures Valid() && fresh(nodes - old(nodes)) && old(nodes) <= nodes
      ensures StateRefines(StepLine(old(View()), ParseInstructions(inst.text), CallTarget(inst.text)), View())
      ensures StmtsRefine(old(Views()) +
                          EmitLine(old(View()), ParseInstructions(inst.text), inst, CallTarget(inst.text)), Views())
      ensures Simulates(old(View()).regs, View().regs, ParseInstructions(inst.text))
      ensures old(stmts) <= stmts && Worded(stmts[|old(stmts)|..], JumpsOf(ParseInstructions(inst.text)))
    {
      hide Valid, View, Views, Classify, StepSym, Emit, StateRefines, Simulates, ParseInstructions, CallTarget,
        StmtsRefine, AddsJump, AddsNoJump, ConditionText, Worded, JumpsOf, StepLine, EmitLine;
      var subs := ParseInstructions(inst.text);
      ghost var pre, before, target := View(), Views(), CallTarget(inst.text);
      SimulatesNothing(pre.regs);
      NothingDone(stmts, pre, before, inst, target);
      var i := 0;
      assert subs[..0] == [];
      while i < |subs|
        invariant 0 <= i <= |subs|
        invariant Valid() && fresh(nodes - old(nodes)) && old(nodes) <= nodes
        invariant StateRefines(StepLine(pre, subs[..i], target), View())
        invariant StmtsRefine(before + EmitLine(pre, subs[..i], inst, target), Views())
        invariant Simulates(pre.regs, View().regs, subs[..i])
        invariant old(stmts) <= stmts && Worded(stmts[|old(stmts)|..], JumpsOf(subs[..i]))
      {
        ghost var st, vs, ts := View(), Views(), stmts;
        var (opcode, operands) := subs[i];
        Translate(opcode, operands, inst);
        StepSimulates(st, View(), opcode, operands, target);
        SimulatesCompose(pre.regs, st.regs, View().regs, subs[..i], [(opcode, operands)]);
        LineGoesOn(pre, st, View(), before, vs, Views(), subs[..i], opcode, operands, inst, target);
        WordedOn(old(stmts), ts, stmts, JumpsOf(subs[..i]), opcode, Classify(opcode).CondJump?);
        JumpsOneMore(subs[..i], opcode, operands);
        assert subs[..i + 1] == subs[..i] + [(opcode, operands)];
        i := i + 1;
      }
      assert subs[..i] == subs;
    }

    /** A whole block: the symbolic steps in order and their statements in order; and whatever the
        registers held on entry, and whichever register is asked for, its node stands for what the
        machine leaves there. */
    method Analyze(insts: seq<AsmInst>)
      requires Valid()
      modifies this, nodes
      ensures Valid() && fresh(nodes - old(nodes)) && old(nodes) <= nodes
      ensures StateRefines(StepBlock(old(View()), insts), View())
      ensures StmtsRefine(old(Views()) + EmitBlock(old(View()), insts), Views())
      ensures Simulates(old(View()).regs, View().regs, Flatten(insts))
      ensures old(stmts) <= stmts && Worded(stmts[|old(stmts)|..], JumpsOf(Flatten(insts)))
    {
      hide Valid, View, Views, Simulates, ParseInstructions, StateRefines, StmtsRefine, CallTarget, StepLine, EmitLine,
        Worded, JumpsOf;
      ghost var pre, before := View(), Views();
      SimulatesNothing(pre.regs);
      NothingDone(stmts, pre, before, AsmInst(0, "", 0), "");
      var i := 0;
      assert insts[..0] == [];
      while i < |insts|
        invariant 0 <= i <= |insts|
        invariant Valid() && fresh(nodes - old(nodes)) && old(nodes) <= nodes
        invariant StateRefines(StepBlock(pre, insts[..i]), View())
        invariant StmtsRefine(before + EmitBlock(pre, insts[..i]), Views())
        invariant Simulates(pre.regs, View().regs, Flatten(insts[..i]))
        invariant old(stmts) <= stmts && Worded(stmts[|old(stmts)|..], JumpsOf(Flatten(insts[..i])))
      {
        ghost var st, vs, ts := View(), Views(), stmts;
        TranslateInstruction(insts[i]);
        SimulatesCompose(pre.regs, st.regs, View().regs, Flatten(insts[..i]), ParseInstructions(insts[i].text));
        BlockGoesOn(pre, st, View(), before, vs, Views(), insts[..i], insts[i]);
        WordedOnward(old(stmts), ts, stmts, JumpsOf(Flatten(insts[..i])), JumpsOf(ParseInstructions(insts[i].text)));
        JumpsAppend(Flatten(insts[..i]), ParseInstructions(insts[i].text));
        assert insts[..i + 1] == insts[..i] + [insts[i]];
        assert insts[..i + 1][..i] == insts[..i];
        i := i + 1;
      }
      assert insts[..i] == insts;
    }
  }
}

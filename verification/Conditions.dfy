/** The text of values and of the conditions of conditional jumps, and what that text says. */
module Conditions {
  import opened Text
  import opened Operands
  import opened Shifts
  import opened Words
  import opened Exprs

  // ---------------------------------------------------------------- the text of a value

  function LowerChar(c: char): char {
    if 'A' <= c <= 'Z' then c + 32 as char else c
  }

  function ToLower(s: string): (l: string)
    ensures |l| == |s|
  {
    seq(|s|, i requires 0 <= i < |s| => LowerChar(s[i]))
  }

  function TrimSuffix(s: string, p: string): string {
    if |p| <= |s| && s[|s| - |p|..] == p then s[..|s| - |p|] else s
  }

  function ReplaceChar(s: string, from: char, to: char): string {
    seq(|s|, i requires 0 <= i < |s| => if s[i] == from then to else s[i])
  }

  /** What follows the last `c`, or everything. */
  function AfterLast(s: string, c: char): string {
    var i := LastIndexByte(s, c);
    if i >= 0 then s[i + 1..] else s
  }

  function CleanAssemblyIdent(s: string): string {
    var t := TrimSpace(TrimSuffix(s, "(SB)"));
    AfterLast(ReplaceChar(ReplaceChar(t, '+', '_'), '-', 'n'), '.')
  }

  function ShortFunc(fn: string): string {
    if LastIndexByte(fn, '.') >= 0 then AfterLast(fn, '.') else AfterLast(fn, '/')
  }

  function SignedHex(n: int): string {
    if n < 0 then "-" + Digits(-n, 16) else Digits(n, 16)
  }

  function LoadName(m: MemRef): string {
    if m.base == "SB" then
      if m.symbol == "" then "sb_unk"
      else
        CleanAssemblyIdent(m.symbol) + if m.offset != 0 then "_" + PrintInt(m.offset) else ""
    else if m.base == "SP" then "stack_0x" + SignedHex(m.offset)
    else m.base
  }

  /** The text of a value; an address node without a memory reference has the empty one. */
  function ValueText(e: Expr): string {
    match e
    case Missing => "_"
    case Unknown => "_"
    case Const(c) => FmtHex(c as nat)
    case Reg(name) => ToLower(name)
    case Op(op, l, r) => "(" + ValueText(l) + " " + op + " " + ValueText(r) + ")"
    case Unary(op, x) => op + ValueText(x)
    case Apply(head, args) =>
      match head
      case LoadHead(mem) => "*" + LoadName(mem)
      case AddrHead(mem) =>
        if mem != EMPTY then "&" + LoadName(mem)
        else if args != [] then "&" + ValueText(args[0])
        else "&_"
      case SymHead(_) => "_"
      case CallHead(func) => ShortFunc(func) + "(" + ListText(args) + ")"
  }

  function ListText(es: seq<Expr>): string {
    if es == [] then ""
    else if |es| == 1 then ValueText(es[0])
    else ValueText(es[0]) + ", " + ListText(es[1..])
  }

  // ---------------------------------------------------------------- the text of a condition

  const JUMPS: set<string> := {"JEQ", "JNE", "JGT", "JLT", "JGE", "JLE", "JHI", "JLS"}

  function Relation(opcode: string): string {
    if opcode == "JEQ" then "=="
    else if opcode == "JNE" then "!="
    else if opcode == "JGT" then ">"
    else if opcode == "JLT" then "<"
    else if opcode == "JGE" then ">="
    else if opcode == "JLE" then "<="
    else if opcode == "JHI" then ">"
    else if opcode == "JLS" then "<="
    else "?"
  }

  /** Both sides print alike, and the jump asks for equality. */
  predicate AgainstZero(opcode: string, l: Expr, r: Expr) {
    && (opcode == "JEQ" || opcode == "JNE")
    && (ValueText(l) == ValueText(r) || (l.Reg? && r.Reg? && l.name == r.name))
  }

  /** The text of a condition on two sides; an underscore when they are missing. */
  function ConditionText(opcode: string, sides: seq<Expr>): string {
    if |sides| != 2 then "_"
    else
      var (l, r) := (sides[0], sides[1]);
      ValueText(l) + " " + Relation(opcode) + " " + if AgainstZero(opcode, l, r) then "0" else ValueText(r)
  }

  /** The same relation but for the sign. */
  predicate SameButSign(a: string, b: string) {
    || a == b
    || (a in {"JGT", "JHI"} && b in {"JGT", "JHI"})
    || (a in {"JLE", "JLS"} && b in {"JLE", "JLS"})
  }

  lemma RelationHead(rel: string, rel': string, x: string, y: string, pre: string)
    requires rel in {"==", "!=", ">", "<", ">=", "<="} && rel' in {"==", "!=", ">", "<", ">=", "<="}
    requires pre + " " + rel + " " + x == pre + " " + rel' + " " + y
    ensures rel == rel'
  {
    var s, t := pre + " " + rel + " " + x, pre + " " + rel' + " " + y;
    var n := |pre| + 1;
    assert s[n] == rel[0] && t[n] == rel'[0];
    assert s[n + 1] == (if |rel| == 2 then rel[1] else ' ') && t[n + 1] == if |rel'| == 2 then rel'[1] else ' ';
  }

  /** Two jumps on the same comparison print alike exactly when they are the same up to the sign, so the
      text cannot tell a signed from an unsigned comparison. */
  lemma PrintsAlikeExactly(a: string, b: string, l: Expr, r: Expr)
    requires a in JUMPS && b in JUMPS
    ensures ConditionText(a, [l, r]) == ConditionText(b, [l, r]) <==> SameButSign(a, b)
  {
    hide ValueText;
    if ConditionText(a, [l, r]) == ConditionText(b, [l, r]) {
      RelationHead(Relation(a), Relation(b), if AgainstZero(a, l, r) then "0" else ValueText(r),
                   if AgainstZero(b, l, r) then "0" else ValueText(r), ValueText(l));
    }
  }

  // ---------------------------------------------------------------- what the text says

  /** The sign bit is set. */
  predicate Negative(x: Word) {
    x >= 0x8000_0000_0000_0000
  }

  predicate Less(x: Word, y: Word) { x < y }

  predicate SignedLess(x: Word, y: Word) {
    if Negative(x) == Negative(y) then Less(x, y) else Negative(x)
  }

  /** Whether the processor jumps after comparing `x` with `y`. */
  predicate Jumps(opcode: string, x: Word, y: Word) {
    if opcode == "JEQ" then x == y
    else if opcode == "JNE" then x != y
    else if opcode == "JGT" then SignedLess(y, x)
    else if opcode == "JLT" then SignedLess(x, y)
    else if opcode == "JGE" then !SignedLess(x, y)
    else if opcode == "JLE" then !SignedLess(y, x)
    else if opcode == "JHI" then Less(y, x)
    else !Less(y, x)
  }

  /** The relation read on unsigned words. */
  predicate Holds(relation: string, x: Word, y: Word) {
    if relation == "==" then x == y
    else if relation == "!=" then x != y
    else if relation == ">" then Less(y, x)
    else if relation == "<" then Less(x, y)
    else if relation == ">=" then !Less(x, y)
    else !Less(y, x)
  }

  predicate IsSigned(opcode: string) {
    opcode in {"JGT", "JLT", "JGE", "JLE"}
  }

  lemma OrdersAgreeExactly(x: Word, y: Word)
    ensures (SignedLess(x, y) <==> Less(x, y)) <==> Negative(x) == Negative(y)
  {
    hide Less, Negative;
    if Negative(x) && !Negative(y) {
      NegativeIsLarge(x, y);
    }
    if Negative(y) && !Negative(x) {
      NegativeIsLarge(y, x);
    }
  }

  lemma NegativeIsLarge(x: Word, y: Word)
    requires Negative(x) && !Negative(y)
    ensures !Less(x, y) && Less(y, x)
  {
  }

  /** Read on unsigned words, the relation is the jump exactly when the jump is unsigned or asks for
      equality, or the words have the same sign bit. */
  lemma ReadsRightExactly(opcode: string, x: Word, y: Word)
    requires opcode in JUMPS
    ensures (Holds(Relation(opcode), x, y) <==> Jumps(opcode, x, y)) <==>
              !IsSigned(opcode) || Negative(x) == Negative(y)
  {
    OrdersAgreeExactly(x, y);
    OrdersAgreeExactly(y, x);
    hide SignedLess, Less, Negative;
  }

  /** The form for sides that print alike tests for zero: right for a value tested against itself, and
      for a value compared with itself only when it is zero. */
  lemma ZeroFormExactly(x: Word)
    ensures And(x, x) == 0 <==> x == 0
    ensures (Sub(x, x) == 0 <==> x == 0) <==> x == 0
  {
    SelfLaws(x);
  }

  function Load(base: string, offset: int): Expr {
    Apply(LoadHead(MemRef(base, "", 0, offset, "")), [])
  }

  /** Loads from one base print alike whatever their offsets, so comparing two of them for equality
      reads as a test for zero. */
  lemma LoadsPrintAlike(base: string, i: int, j: int)
    requires base != "SB" && base != "SP"
    ensures ConditionText("JEQ", [Load(base, i), Load(base, j)]) == "*" + base + " == 0"
  {
    assert ValueText(Load(base, i)) == "*" + base == ValueText(Load(base, j));
    assert Relation("JEQ") == "==";
  }
}

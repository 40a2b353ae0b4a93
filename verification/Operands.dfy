/** Plan 9 operands: printing a memory reference, splitting an instruction into opcode and operands,
    and reading an operand back. */
module Operands {
  import opened Text

  datatype MemRef = MemRef(base: string, index: string, scale: int, offset: int, symbol: string) {
    /** The operand text of this reference. */
    function Print(): string {
      if symbol != "" then
        if offset != 0 then symbol + "+" + PrintInt(offset) + "(SB)" else symbol + "(SB)"
      else
        (if offset != 0 then PrintInt(offset) else "") + "(" + base
        + (if index != "" && scale != 0 then ")(" + index + "*" + PrintInt(scale) else "") + ")"
    }
  }

  const EMPTY: MemRef := MemRef("", "", 0, 0, "")

  datatype Operand = NoOperand | Immediate(n: nat) | Register(name: string) | Memory(mem: MemRef)

  const KNOWN_REGS: set<string> := {
    "AX", "BX", "CX", "DX", "SI", "DI", "BP", "SP",
    "R8", "R9", "R10", "R11", "R12", "R13", "R14", "R15",
    "X0", "X1", "X2", "X3", "X4", "X5", "X6", "X7",
    "X8", "X9", "X10", "X11", "X12", "X13", "X14", "X15"
  }

  predicate IsRegister(s: string) {
    s in KNOWN_REGS
  }

  // ---------------------------------------------------------------- matching parentheses

  /** The position where nesting depth, starting at `depth`, first falls to zero, or -1. */
  function ClosingFrom(s: string, i: nat, depth: nat): (r: int)
    requires i <= |s|
    ensures -1 <= r < |s|
    decreases |s| - i
  {
    if i == |s| then -1
    else if s[i] == '(' then ClosingFrom(s, i + 1, depth + 1)
    else if s[i] == ')' then if depth <= 1 then i else ClosingFrom(s, i + 1, depth - 1)
    else ClosingFrom(s, i + 1, depth)
  }

  /** How many more parentheses open than close in `s[from..to]`. */
  function Depth(s: string, from: nat, to: nat): int
    requires from <= to <= |s|
  {
    if from == to then 0
    else Depth(s, from, to - 1) + if s[to - 1] == '(' then 1 else if s[to - 1] == ')' then -1 else 0
  }

  /** Behind an opening parenthesis at `openIdx` the nesting never closes before `upTo`. */
  ghost predicate StaysOpen(s: string, openIdx: nat, upTo: nat)
    requires openIdx < upTo <= |s|
  {
    forall k {:trigger Depth(s, openIdx + 1, k)} :: openIdx < k <= upTo ==> 1 + Depth(s, openIdx + 1, k) >= 1
  }

  /** The parenthesis that closes the one at `openIdx`: the text up to it stays open, and with it the
      depth is zero. Without one the text stays open to the end. */
  method FindMatchingParen(s: string, openIdx: nat) returns (r: int)
    requires openIdx < |s|
    ensures r == ClosingFrom(s, openIdx + 1, 1)
    ensures r >= 0 ==>
              openIdx < r < |s| && StaysOpen(s, openIdx, r) && 1 + Depth(s, openIdx + 1, r + 1) == 0 && s[r] == ')'
    ensures r < 0 ==> r == -1 && StaysOpen(s, openIdx, |s|)
  {
    var depth := 1;
    var i := openIdx + 1;
    while i < |s|
      invariant openIdx + 1 <= i <= |s| && depth >= 1
      invariant depth == 1 + Depth(s, openIdx + 1, i) && StaysOpen(s, openIdx, i)
      invariant ClosingFrom(s, openIdx + 1, 1) == ClosingFrom(s, i, depth)
    {
      if s[i] == '(' {
        depth := depth + 1;
      } else if s[i] == ')' {
        depth := depth - 1;
        if depth == 0 {
          return i;
        }
      }
      i := i + 1;
    }
    return -1;
  }

  /** Without nesting, the next closing parenthesis matches. */
  lemma {:induction false} ClosesAt(s: string, i: nat, r: nat)
    requires i <= r < |s| && s[r] == ')'
    requires forall k :: i <= k < r ==> s[k] != '(' && s[k] != ')'
    ensures ClosingFrom(s, i, 1) == r
    decreases r - i
  {
    if i < r {
      ClosesAt(s, i + 1, r);
    }
  }

  // ---------------------------------------------------------------- reading an operand

  /** Index and scale out of `index*scale`. */
  function WithIndex(mem: MemRef, inner: string): MemRef {
    var star := IndexByte(inner, '*');
    if star < 0 then mem
    else
      var scale := Atoi(inner[star + 1..]);
      mem.(index := inner[..star], scale := if scale.Some? then scale.value else 0)
  }

  function ParseSymbolOperand(prefix: string): MemRef {
    var plus := LastIndexByte(prefix, '+');
    if plus >= 0 then
      var off := ParseInt(TrimSpace(prefix[plus + 1..]));
      MemRef("SB", "", 0, if off.Some? then off.value else 0, TrimSpace(prefix[..plus]))
    else
      MemRef("SB", "", 0, 0, TrimSpace(prefix))
  }

  function ParseMemOperand(operand: string): MemRef {
    var sb := Index(operand, "(SB)");
    if sb >= 0 then ParseSymbolOperand(operand[..sb])
    else
      var open := IndexByte(operand, '(');
      if open < 0 then EMPTY
      else
        var offsetStr := TrimSpace(operand[..open]);
        var off := if offsetStr != "" then ParseInt(offsetStr) else None;
        var mem := EMPTY.(offset := if off.Some? then off.value else 0);
        var close := ClosingFrom(operand, open + 1, 1);
        if close < 0 then mem
        else
          ClosingAfter(operand, open + 1, 1);
          var based := mem.(base := operand[open + 1..close]);
          ParseIndexPart(based, operand[close + 1..])
  }

  function ParseIndexPart(mem: MemRef, after: string): MemRef {
    if !HasPrefix(after, "(") then mem
    else
      var close := ClosingFrom(after, 1, 1);
      if close > 0 then
        ClosingAfter(after, 1, 1);
        WithIndex(mem, after[1..close])
      else mem
  }

  lemma {:induction false} ClosingAfter(s: string, i: nat, depth: nat)
    requires i <= |s|
    ensures ClosingFrom(s, i, depth) >= 0 ==> ClosingFrom(s, i, depth) >= i
    decreases |s| - i
  {
    if i < |s| {
      if s[i] == '(' {
        ClosingAfter(s, i + 1, depth + 1);
      } else if s[i] == ')' {
        if depth > 1 {
          ClosingAfter(s, i + 1, depth - 1);
        }
      } else {
        ClosingAfter(s, i + 1, depth);
      }
    }
  }

  function ParseOperand(operand: string): (r: Operand)
    ensures r.Immediate? ==> r.n <= MAX_UINT64
    ensures r.Register? ==> IsRegister(r.name)
  {
    if operand == "" then NoOperand
    else if HasPrefix(operand, "$") then
      var val := ParseUint(operand[1..]);
      if val.Some? then Immediate(val.value) else NoOperand
    else if IsRegister(operand) then Register(operand)
    else if '(' in operand then Memory(ParseMemOperand(operand))
    else
      var val := ParseUint(operand);
      if val.Some? then Immediate(val.value) else NoOperand
  }

  lemma RegistersEndPlain(r: string)
    requires IsRegister(r)
    ensures r != "" && r[|r| - 1] != ')'
  {
  }

  lemma NotARegister(s: string)
    requires s != "" && s[|s| - 1] == ')'
    ensures !IsRegister(s) && ')' in s
  {
    hide IsRegister;
    if IsRegister(s) {
      RegistersEndPlain(s);
    }
  }

  /** A text with a parenthesis that does not start like an immediate is a memory operand. */
  lemma ReadAsMemory(s: string)
    requires s != "" && s[0] != '$' && s[|s| - 1] == ')' && '(' in s
    ensures ParseOperand(s) == Memory(ParseMemOperand(s))
  {
    hide IsRegister, ParseMemOperand;
    NotARegister(s);
  }

  // ---------------------------------------------------------------- symbol references

  /** What makes a symbol reference readable: a trimmed symbol that does not start like an immediate
      and hides neither an `(SB)` nor, without an offset, a `+`. */
  predicate ReadableSymbol(m: MemRef) {
    && m.symbol[..if m.symbol == "" then 0 else 1] != "$"
    && Trimmed(m.symbol)
    && Index(m.symbol, "(SB)") < 0
    && (m.offset == 0 ==> '+' !in m.symbol)
  }

  lemma SuffixNotInside(p: string, i: int)
    requires 0 <= i < |p|
    requires OccursAt(p + "(SB)", "(SB)", i)
    ensures OccursAt(p, "(SB)", i)
  {
    var s := p + "(SB)";
    LettersOf(s, i);
    assert s[|p|] == '(';
    assert i + 4 <= |p|;
    assert p[i..i + 4] == s[i..i + 4];
  }

  lemma LettersOf(s: string, i: int)
    requires OccursAt(s, "(SB)", i)
    ensures s[i] == '(' && s[i + 1] == 'S' && s[i + 2] == 'B' && s[i + 3] == ')'
  {
    var cut := s[i..i + 4];
    assert cut[0] == s[i] && cut[1] == s[i + 1] && cut[2] == s[i + 2] && cut[3] == s[i + 3];
  }

  /** The text before the first `(SB)` is what was printed before it. */
  lemma PrefixFound(p: string)
    ensures Index(p, "(SB)") < 0 ==> Index(p + "(SB)", "(SB)") == |p|
    ensures Index(p, "(SB)") >= 0 ==> 0 <= Index(p + "(SB)", "(SB)") < |p|
  {
    var s := p + "(SB)";
    assert s[|p|..|p| + 4] == "(SB)";
    assert OccursAt(s, "(SB)", |p|);
    var r := Index(s, "(SB)");
    if r < |p| {
      SuffixNotInside(p, r);
    }
    var q := Index(p, "(SB)");
    if q >= 0 {
      assert s[q..q + 4] == p[q..q + 4];
      assert OccursAt(s, "(SB)", q);
    }
  }

  lemma OffsetHidesNothing(sym: string, n: int)
    ensures Index(sym, "(SB)") < 0 <==> Index(sym + "+" + PrintInt(n), "(SB)") < 0
  {
    var p := sym + "+" + PrintInt(n);
    var r := Index(p, "(SB)");
    assert p[|sym|] == '+';
    if r >= 0 {
      LettersOf(p, r);
      assert r + 4 <= |sym|;
      assert sym[r..r + 4] == p[r..r + 4];
      assert OccursAt(sym, "(SB)", r);
    }
    var q := Index(sym, "(SB)");
    if q >= 0 {
      assert p[q..q + 4] == sym[q..q + 4];
      assert OccursAt(p, "(SB)", q);
    }
  }

  lemma PrintIntIsTrimmed(n: int)
    ensures Trimmed(PrintInt(n)) && '+' !in PrintInt(n)
  {
  }

  lemma SymbolPrefixRead(sym: string, off: int)
    requires off != 0 && IsInt64(off)
    ensures ParseSymbolOperand(sym + "+" + PrintInt(off)) == MemRef("SB", "", 0, off, TrimSpace(sym))
  {
    var p := sym + "+" + PrintInt(off);
    PrintIntIsTrimmed(off);
    assert p[|sym|] == '+' && p[|sym| + 1..] == PrintInt(off);
    LastIndexUnique(p, '+', |sym|);
    assert p[..|sym|] == sym;
    TrimmedExactly(PrintInt(off));
    ParseIntOfPrinted(off);
  }

  lemma PlainPrefixRead(sym: string)
    ensures '+' !in sym ==> ParseSymbolOperand(sym) == MemRef("SB", "", 0, 0, TrimSpace(sym))
    ensures '+' in sym ==> |ParseSymbolOperand(sym).symbol| < |sym|
  {
    if '+' in sym {
      var plus := LastIndexByte(sym, '+');
      TrimNoLonger(sym[..plus]);
    }
  }

  lemma TrimNoLonger(s: string)
    ensures |TrimSpace(s)| <= |s|
  {
    TrimShortens(s);
    TrimShortens(TrimLeft(s));
  }

  function SymbolText(m: MemRef): string {
    if m.offset != 0 then m.symbol + "+" + PrintInt(m.offset) else m.symbol
  }

  lemma SymbolParts(prefix: string)
    requires Index(prefix, "(SB)") < 0
    ensures ParseMemOperand(prefix + "(SB)") == ParseSymbolOperand(prefix)
  {
    hide ParseSymbolOperand;
    var s := prefix + "(SB)";
    PrefixFound(prefix);
    assert s[..Index(s, "(SB)")] == prefix;
  }

  lemma SymbolTextShape(m: MemRef)
    requires m.symbol != "" && IsInt64(m.offset)
    ensures m.Print() == SymbolText(m) + "(SB)"
    ensures !HasPrefix(m.symbol, "$") ==> ParseOperand(m.Print()) == Memory(ParseMemOperand(m.Print()))
    ensures Index(m.symbol, "(SB)") < 0 ==> ParseMemOperand(m.Print()) == ParseSymbolOperand(SymbolText(m))
    ensures Index(m.symbol, "(SB)") >= 0 ==> |ParseMemOperand(m.Print()).symbol| < |m.symbol|
  {
    hide PrintInt, ParseOperand, ParseMemOperand;
    var s := m.Print();
    assert s == SymbolText(m) + "(SB)";
    assert s[|SymbolText(m)|] == '(';
    assert s[0] == m.symbol[0] && m.symbol[..1] == [m.symbol[0]];
    if !HasPrefix(m.symbol, "$") {
      ReadAsMemory(s);
    }
    OffsetHidesNothing(m.symbol, m.offset);
    if Index(m.symbol, "(SB)") < 0 {
      SymbolParts(SymbolText(m));
    } else {
      SymbolHiddenInside(m);
    }
  }

  lemma SymbolHiddenInside(m: MemRef)
    requires m.symbol != "" && Index(m.symbol, "(SB)") >= 0
    ensures |ParseMemOperand(m.Print()).symbol| < |m.symbol|
  {
    hide PrintInt, ParseSymbolOperand;
    var s := m.Print();
    assert s[..|m.symbol|] == m.symbol;
    SymbolCutShort(m.symbol, s, Index(s, "(SB)"));
  }

  lemma SymbolCutShort(sym: string, s: string, sb: int)
    requires HasPrefix(s, sym) && Index(sym, "(SB)") >= 0 && sb == Index(s, "(SB)")
    ensures 0 <= sb < |sym| && |ParseSymbolOperand(s[..sb]).symbol| < |sym|
  {
    var q := Index(sym, "(SB)");
    assert s[q..q + 4] == sym[q..q + 4];
    assert OccursAt(s, "(SB)", q);
    var prefix := s[..sb];
    var plus := LastIndexByte(prefix, '+');
    if plus >= 0 {
      TrimNoLonger(prefix[..plus]);
    } else {
      TrimNoLonger(prefix);
    }
  }

  /** A printed symbol reference reads back as itself exactly when its symbol is readable. */
  lemma SymbolRoundTripExactly(m: MemRef)
    requires m.symbol != "" && m.base == "SB" && m.index == "" && m.scale == 0 && IsInt64(m.offset)
    ensures ParseOperand(m.Print()) == Memory(m) <==> ReadableSymbol(m)
  {
    SymbolTextShape(m);
    TrimmedExactly(m.symbol);
    PlainPrefixRead(m.symbol);
    if m.offset != 0 {
      SymbolPrefixRead(m.symbol, m.offset);
    }
    hide TrimSpace, PrintInt, ParseSymbolOperand, ParseMemOperand, IsRegister;
    assert HasPrefix(m.Print(), "$") <==> m.symbol[0] == '$' by {
      assert m.Print()[0] == m.symbol[0];
      assert m.symbol[..1] == [m.symbol[0]];
    }
    hide MemRef.Print;
  }

  // ---------------------------------------------------------------- register references

  predicate NoParens(s: string) {
    '(' !in s && ')' !in s
  }

  /** A register-based reference with an optional index, as the assembler prints it. */
  predicate WellFormedBased(m: MemRef) {
    && m.symbol == "" && m.base != "SB" && NoParens(m.base)
    && IsInt64(m.offset) && IsInt64(m.scale)
    && (if m.index == "" then m.scale == 0 else m.scale != 0 && NoParens(m.index) && '*' !in m.index)
  }

  /** Between its parentheses a text without parentheses comes back. */
  lemma EnclosedRead(inner: string)
    requires NoParens(inner)
    ensures var after := "(" + inner + ")";
            HasPrefix(after, "(") && ClosingFrom(after, 1, 1) == |after| - 1 && after[1..|after| - 1] == inner
  {
    var after := "(" + inner + ")";
    assert after[..1] == "(";
    forall k | 1 <= k < |after| - 1
      ensures after[k] != '(' && after[k] != ')'
    {
      assert after[k] == inner[k - 1] && inner[k - 1] in inner;
    }
    ClosesAt(after, 1, |after| - 1);
  }

  lemma IndexTextHasNoParens(index: string, scale: int)
    requires NoParens(index)
    ensures NoParens(index + "*" + PrintInt(scale))
  {
  }

  lemma ScaleSplit(index: string, digits: string)
    requires '*' !in index
    ensures var inner := index + "*" + digits;
            && IndexByte(inner, '*') == |index|
            && inner[..|index|] == index && inner[|index| + 1..] == digits
  {
    var inner := index + "*" + digits;
    assert inner[..|index|] == index && inner[|index|] == '*';
    FirstIndexUnique(inner, '*', |index|);
    hide IndexByte;
  }

  lemma WithIndexRead(mem: MemRef, index: string, scale: int)
    requires '*' !in index && IsInt64(scale)
    ensures WithIndex(mem, index + "*" + PrintInt(scale)) == mem.(index := index, scale := scale)
  {
    ScaleSplit(index, PrintInt(scale));
    ParseIntOfPrinted(scale);
    hide PrintInt, ParseInt, IndexByte;
  }

  lemma IndexPartRead(mem: MemRef, index: string, scale: int)
    requires NoParens(index) && '*' !in index && IsInt64(scale)
    ensures ParseIndexPart(mem, "(" + index + "*" + PrintInt(scale) + ")") == mem.(index := index, scale := scale)
  {
    var inner := index + "*" + PrintInt(scale);
    assert "(" + inner + ")" == "(" + index + "*" + PrintInt(scale) + ")";
    IndexTextHasNoParens(index, scale);
    EnclosedRead(inner);
    WithIndexRead(mem, index, scale);
    hide NoParens, ClosingFrom, PrintInt, HasPrefix, WithIndex;
  }

  function OffsetText(m: MemRef): string {
    if m.offset != 0 then PrintInt(m.offset) else ""
  }

  function IndexText(m: MemRef): string {
    if m.index != "" then "(" + m.index + "*" + PrintInt(m.scale) + ")" else ""
  }

  lemma BasedText(m: MemRef)
    requires WellFormedBased(m)
    ensures m.Print() == OffsetText(m) + "(" + m.base + ")" + IndexText(m)
  {
    hide PrintInt;
    var mid := ")(" + m.index + "*" + PrintInt(m.scale);
    if m.index != "" {
      assert mid + ")" == ")" + IndexText(m);
    }
  }

  lemma OffsetTextRead(m: MemRef)
    requires IsInt64(m.offset)
    ensures NoParens(OffsetText(m)) && TrimSpace(OffsetText(m)) == OffsetText(m)
    ensures OffsetText(m) != "" ==> OffsetText(m)[0] != '$' && ParseInt(OffsetText(m)) == Some(m.offset)
    ensures OffsetText(m) == "" <==> m.offset == 0
  {
    TrimmedExactly(OffsetText(m));
    if m.offset != 0 {
      PrintIntIsTrimmed(m.offset);
      ParseIntOfPrinted(m.offset);
    }
  }

  /** Reading `off(base)tail`. */
  lemma BasedParts(off: string, base: string, tail: string)
    requires NoParens(off) && NoParens(base) && TrimSpace(off) == off
    requires Index(off + "(" + base + ")" + tail, "(SB)") < 0
    ensures var val := if off != "" then ParseInt(off) else None;
            ParseMemOperand(off + "(" + base + ")" + tail) ==
            ParseIndexPart(MemRef(base, "", 0, if val.Some? then val.value else 0, ""), tail)
  {
    hide TrimSpace, ParseInt, ParseIndexPart, Index;
    var s := off + "(" + base + ")" + tail;
    var open, close := |off|, |off| + 1 + |base|;
    assert s[open] == '(' && s[..open] == off;
    FirstIndexUnique(s, '(', open);
    assert forall k :: 0 <= k < |base| ==> s[open + 1 + k] == base[k];
    assert s[close] == ')';
    forall k | open + 1 <= k < close
      ensures s[k] != '(' && s[k] != ')'
    {
      assert s[k] == base[k - open - 1];
    }
    ClosesAt(s, open + 1, close);
    assert s[open + 1..close] == base && s[close + 1..] == tail;
  }

  lemma NoHiddenSymbol(off: string, base: string, tail: string, index: string, scale: int)
    requires NoParens(off) && NoParens(base) && base != "SB"
    requires tail == "" || (NoParens(index) && tail == "(" + index + "*" + PrintInt(scale) + ")")
    ensures Index(off + "(" + base + ")" + tail, "(SB)") < 0
  {
    var s := off + "(" + base + ")" + tail;
    var r := Index(s, "(SB)");
    var t := |off| + 1 + |base| + 1;
    assert forall k :: 0 <= k < |off| ==> s[k] == off[k];
    assert forall k :: 0 <= k < |base| ==> s[|off| + 1 + k] == base[k] && base[k] != '(';
    assert s[|off|] == '(' && s[t - 1] == ')' && s[t..] == tail;
    if r >= 0 {
      LettersOf(s, r);
      if r < t {
        assert r == |off|;
        OnlySB(off, base, tail);
      } else {
        assert tail[r - t] == s[r] && tail[r - t + 1] == s[r + 1] && tail[r - t + 2] == s[r + 2]
               && tail[r - t + 3] == s[r + 3];
        TailHasStar(index, scale, r - t);
      }
    }
  }

  lemma OnlySB(off: string, base: string, tail: string)
    requires NoParens(base)
    requires var s := off + "(" + base + ")" + tail;
             var r := |off|;
             r + 3 < |s| && s[r + 1] == 'S' && s[r + 2] == 'B' && s[r + 3] == ')'
    ensures base == "SB"
  {
    var s := off + "(" + base + ")" + tail;
    var r := |off|;
    assert s[r + 1 + |base|] == ')';
    assert forall k :: 0 <= k < |base| ==> s[r + 1 + k] == base[k] && base[k] != ')';
    assert |base| >= 2;
    assert s[r + 1 + 2] == ')';
  }

  lemma TailHasStar(index: string, scale: int, k: int)
    requires NoParens(index)
    requires var tail := "(" + index + "*" + PrintInt(scale) + ")"; 0 <= k < |tail| && tail[k] == '('
    ensures k == 0
    ensures var tail := "(" + index + "*" + PrintInt(scale) + ")";
            !(|tail| > 3 && tail[1] == 'S' && tail[2] == 'B' && tail[3] == ')')
  {
    var num := PrintInt(scale);
    var tail := "(" + index + "*" + num + ")";
    assert forall i :: 0 <= i < |index| ==> tail[i + 1] == index[i];
    assert tail[|index| + 1] == '*';
    assert forall i :: 0 <= i < |num| ==> tail[|index| + 2 + i] == num[i];
  }

  /** Every well-formed register reference reads back as itself. */
  lemma BasedRoundTrip(m: MemRef)
    requires WellFormedBased(m)
    ensures ParseOperand(m.Print()) == Memory(m)
  {
    BasedText(m);
    OffsetTextRead(m);
    var off, tail := OffsetText(m), IndexText(m);
    NoHiddenSymbol(off, m.base, tail, m.index, m.scale);
    BasedParts(off, m.base, tail);
    if m.index != "" {
      IndexPartRead(EMPTY.(offset := m.offset, base := m.base), m.index, m.scale);
    }
    var s := m.Print();
    hide PrintInt, ParseMemOperand, ParseIndexPart;
    assert s[|off|] == '(' && s[|s| - 1] == ')';
    ReadAsMemory(s);
  }
}

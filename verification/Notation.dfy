/** The notations spelled out: what a digit is worth and where, which prefixes name a base, which names
    are registers, what trimming takes away, and what the texts of operands and calls look like. */
module Notation {
  import opened Text
  import opened Operands
  import opened Splitting
  import opened Machine

  // ---------------------------------------------------------------- numbers

  /** What the digits of `s` are worth, each by its place. */
  function Worth(s: string, b: nat): int {
    if s == [] then 0 else DigitValue(s[0]) * Power(b, |s| - 1) + Worth(s[1..], b)
  }

  function Power(b: nat, n: nat): nat {
    if n == 0 then 1 else b * Power(b, n - 1)
  }

  predicate AllDigits(s: string, b: nat) {
    forall i {:trigger s[i]} :: 0 <= i < |s| ==> 0 <= DigitValue(s[i]) < b
  }

  /** Letters are digits in either case. */
  lemma DigitsAre(c: char)
    ensures c in "0123456789" ==> DigitValue(c) == c as int - 48
    ensures c in "abcdefghijklmnopqrstuvwxyz" ==> DigitValue(c) == c as int - 97 + 10
    ensures c in "ABCDEFGHIJKLMNOPQRSTUVWXYZ" ==> DigitValue(c) == c as int - 65 + 10
    ensures DigitValue(c) < 0 <==>
              !(48 <= c as int <= 57) && !(97 <= c as int <= 122) && !(65 <= c as int <= 90)
  {
  }

  lemma Distribute(d: int, p: nat, w: int, v: int, b: nat)
    ensures d * (b * p) + (w * b + v) == (d * p + w) * b + v
  {
    assert (d * p + w) * b == (d * p) * b + w * b;
    assert (d * p) * b == d * (b * p);
  }

  lemma {:induction false} WorthOfLonger(t: string, c: char, b: nat)
    ensures Worth(t + [c], b) == Worth(t, b) * b + DigitValue(c)
  {
    hide DigitValue;
    var s := t + [c];
    if t == [] {
      assert s[1..] == [];
      WorthOfOne(c, b);
    } else {
      var p := Power(b, |t| - 1);
      assert s[1..] == t[1..] + [c];
      WorthOfLonger(t[1..], c, b);
      WorthFirst(s, b);
      WorthFirst(t, b);
      assert Power(b, |t|) == b * p;
      Distribute(DigitValue(t[0]), p, Worth(t[1..], b), DigitValue(c), b);
      hide *;
    }
  }

  lemma WorthFirst(s: string, b: nat)
    requires s != []
    ensures Worth(s, b) == DigitValue(s[0]) * Power(b, |s| - 1) + Worth(s[1..], b)
  {
  }

  lemma WorthOfOne(c: char, b: nat)
    ensures Worth([], b) == 0 && Worth([c], b) == DigitValue(c)
  {
    hide DigitValue;
    assert Power(b, 0) == 1;
  }

  lemma NaturalSum(d: nat, p: nat, w: nat)
    ensures d * p + w >= 0
  {
  }

  lemma {:induction false} WorthIsNatural(s: string, b: nat)
    requires AllDigits(s, b)
    ensures Worth(s, b) >= 0
  {
    hide DigitValue;
    if s != [] {
      assert 0 <= DigitValue(s[0]) < b;
      assert forall i {:trigger s[1..][i]} :: 0 <= i < |s| - 1 ==> s[1..][i] == s[i + 1];
      WorthIsNatural(s[1..], b);
      WorthFirst(s, b);
      NaturalSum(DigitValue(s[0]), Power(b, |s| - 1), Worth(s[1..], b));
      hide Worth, Power;
    }
  }

  lemma DigitsOfLonger(t: string, c: char, b: nat)
    ensures AllDigits(t + [c], b) <==> AllDigits(t, b) && 0 <= DigitValue(c) < b
  {
    hide DigitValue;
    var s := t + [c];
    assert forall i {:trigger t[i]} :: 0 <= i < |t| ==> t[i] == s[i];
    assert s[|t|] == c;
  }

  lemma NoSmaller(w: nat, b: nat, d: nat)
    requires b >= 2
    ensures w <= w * b + d
  {
  }

  /** A text is a number in a base exactly when each character is a digit of the base and what they are
      worth together fits into 64 bits; that is the number. */
  lemma {:induction false} NumberExactly(s: string, b: nat)
    requires 2 <= b <= 36
    ensures ReadDigits(s, b).Some? <==> AllDigits(s, b) && Worth(s, b) <= 0xFFFF_FFFF_FFFF_FFFF
    ensures ReadDigits(s, b).Some? ==> ReadDigits(s, b).value == Worth(s, b)
    decreases |s|
  {
    hide DigitValue;
    if s != [] {
      var t, c := s[..|s| - 1], s[|s| - 1];
      assert s == t + [c];
      NumberExactly(t, b);
      WorthOfLonger(t, c, b);
      DigitsOfLonger(t, c, b);
      hide Worth, AllDigits;
      if AllDigits(t, b) && 0 <= DigitValue(c) < b {
        WorthIsNatural(t, b);
        NoSmaller(Worth(t, b), b, DigitValue(c));
      }
    }
  }

  lemma Prefixed(x: char, t: string)
    requires t != "" && x in "xXbBoO"
    ensures var s := ['0', x] + t;
            ParseUint(s) == ReadDigits(t, if x in "xX" then 16 else if x in "bB" then 2 else 8)
  {
    hide ReadDigits;
    var s := ['0', x] + t;
    assert s[2..] == t && s[1] == x && |s| >= 3;
  }

  /** Which prefix names which base. */
  lemma BasePrefixes(t: string)
    requires t != ""
    ensures ParseUint("0x" + t) == ReadDigits(t, 16) && ParseUint("0X" + t) == ReadDigits(t, 16)
    ensures ParseUint("0b" + t) == ReadDigits(t, 2) && ParseUint("0B" + t) == ReadDigits(t, 2)
    ensures ParseUint("0o" + t) == ReadDigits(t, 8) && ParseUint("0O" + t) == ReadDigits(t, 8)
  {
    Prefixed('x', t);
    Prefixed('X', t);
    Prefixed('b', t);
    Prefixed('B', t);
    Prefixed('o', t);
    Prefixed('O', t);
    hide ParseUint, ReadDigits;
    assert "0x" == ['0', 'x'] && "0X" == ['0', 'X'] && "0b" == ['0', 'b'];
    assert "0B" == ['0', 'B'] && "0o" == ['0', 'o'] && "0O" == ['0', 'O'];
  }

  /** Without a prefix a number is decimal, and octal after a zero. */
  lemma NoPrefix(t: string)
    ensures ParseUint("") == None && ParseUint("0") == Some(0)
    ensures t != "" && t[0] != '0' ==> ParseUint(t) == ReadDigits(t, 10)
    ensures t != "" && (t[0] !in "xXbBoO" || |t| == 1) ==> ParseUint("0" + t) == ReadDigits(t, 8)
  {
    EmptyIsZero();
    hide ReadDigits;
    assert "0"[1..] == [];
    assert t != "" ==> ("0" + t)[1..] == t && ("0" + t)[1] == t[0];
  }

  lemma EmptyIsZero()
    ensures ReadDigits([], 8) == Some(0)
  {
  }

  /** A number prints as lower-case digits that are worth it, without leading zeros. */
  lemma {:induction false} PrintedExactly(n: nat, b: nat)
    requires b == 10 || b == 16
    ensures Worth(Digits(n, b), b) == n && AllDigits(Digits(n, b), b)
    ensures forall i :: 0 <= i < |Digits(n, b)| ==> Digits(n, b)[i] in "0123456789abcdef"
    ensures Digits(n, b)[0] == '0' ==> n == 0 && |Digits(n, b)| == 1
    decreases n
  {
    NoLeadingZero(n, b);
    if n < b {
      DigitPrinted(n);
      WorthOfOne(DigitChar(n), b);
    } else {
      DivMod(n, b);
      DigitPrinted(n % b);
      PrintedExactly(n / b, b);
      WorthOfLonger(Digits(n / b, b), DigitChar(n % b), b);
      DigitsOfLonger(Digits(n / b, b), DigitChar(n % b), b);
    }
    hide Worth, AllDigits, DigitChar, DigitValue;
  }

  lemma DigitPrinted(d: nat)
    requires d < 16
    ensures DigitValue(DigitChar(d)) == d && DigitChar(d) == "0123456789abcdef"[d]
  {
  }

  /** From 65536 on numbers print in hexadecimal. */
  lemma HexFrom(n: nat)
    ensures n < 65536 ==> FmtHex(n) == Digits(n, 10)
    ensures n >= 65536 ==> FmtHex(n) == "0x" + Digits(n, 16)
  {
    hide Digits;
  }

  // ---------------------------------------------------------------- trimming

  predicate AllSpaces(s: string) {
    forall i {:trigger s[i]} :: 0 <= i < |s| ==> IsSpace(s[i])
  }

  lemma {:induction false} LeftTrimmed(s: string) returns (before: string)
    ensures s == before + TrimLeft(s) && AllSpaces(before)
    ensures TrimLeft(s) == [] || !IsSpace(TrimLeft(s)[0])
  {
    before := [];
    if s != [] && IsSpace(s[0]) {
      var rest := LeftTrimmed(s[1..]);
      before := [s[0]] + rest;
      assert s == [s[0]] + s[1..];
    }
  }

  lemma {:induction false} RightTrimmed(s: string) returns (behind: string)
    ensures s == TrimRight(s) + behind && AllSpaces(behind)
    ensures TrimRight(s) == [] || !IsSpace(TrimRight(s)[|TrimRight(s)| - 1])
    decreases |s|
  {
    behind := [];
    if s != [] && IsSpace(s[|s| - 1]) {
      var rest := RightTrimmed(s[..|s| - 1]);
      behind := rest + [s[|s| - 1]];
      assert s == s[..|s| - 1] + [s[|s| - 1]];
    }
  }

  /** Trimming takes the white space off both ends, and nothing else. */
  lemma TrimmingExactly(s: string) returns (before: string, behind: string)
    ensures s == before + TrimSpace(s) + behind && AllSpaces(before) && AllSpaces(behind) && Trimmed(TrimSpace(s))
  {
    before := LeftTrimmed(s);
    var t := TrimLeft(s);
    behind := RightTrimmed(t);
    hide TrimLeft, TrimRight, IsSpace;
    assert TrimRight(t) != [] ==> TrimRight(t)[0] == t[0];
    assert before + (TrimRight(t) + behind) == before + TrimRight(t) + behind;
  }

  lemma SpacesAre(c: char)
    ensures IsSpace(c) <==> c as int in {9, 10, 11, 12, 13, 32, 0x85, 0xA0}
  {
  }

  // ---------------------------------------------------------------- operands

  /** The names of registers. */
  lemma RegistersAre(s: string)
    ensures IsRegister(s) <==>
              || s in {"AX", "BX", "CX", "DX", "SI", "DI", "BP", "SP"}
              || s in {"R8", "R9", "R10", "R11", "R12", "R13", "R14", "R15"}
              || s in {"X0", "X1", "X2", "X3", "X4", "X5", "X6", "X7"}
              || s in {"X8", "X9", "X10", "X11", "X12", "X13", "X14", "X15"}
  {
  }

  /** What an operand is, by its text: a `$` announces a number; then come registers, then anything
      with a parenthesis is memory, and the rest is a number or nothing. */
  lemma OperandsAre(s: string)
    ensures ParseOperand("") == NoOperand
    ensures ParseOperand("$" + s) == if ParseUint(s).Some? then Immediate(ParseUint(s).value) else NoOperand
    ensures IsRegister(s) ==> ParseOperand(s) == Register(s)
    ensures s != "" && s[0] != '$' && !IsRegister(s) ==>
              ParseOperand(s) == if '(' in s then Memory(ParseMemOperand(s))
                                 else if ParseUint(s).Some? then Immediate(ParseUint(s).value)
                                 else NoOperand
  {
    hide ParseUint, ParseMemOperand;
    assert ("$" + s)[1..] == s && ("$" + s)[..1] == "$";
    if IsRegister(s) {
      RegistersAreBare(s);
    }
    hide IsRegister;
    assert s != "" ==> s[..1] == [s[0]];
  }

  lemma RegistersAreBare(r: string)
    requires IsRegister(r)
    ensures r != "" && !HasPrefix(r, "$")
  {
    hide HasPrefix;
    assert r != "" && r[0] in "ABCDSRX";
    hide IsRegister;
    NoPrefixMark(r);
  }

  lemma NoPrefixMark(r: string)
    requires r != "" && r[0] in "ABCDSRX"
    ensures !HasPrefix(r, "$")
  {
    assert r[..1] == [r[0]];
  }

  /** Every number and every register is an operand that reads back. */
  lemma OperandsRead(n: nat, r: string)
    requires n <= 0xFFFF_FFFF_FFFF_FFFF
    ensures ParseOperand("$" + FmtHex(n)) == Immediate(n)
    ensures IsRegister(r) ==> ParseOperand(r) == Register(r)
  {
    OperandsAre(FmtHex(n));
    OperandsAre(r);
    if n >= 0x10000 {
      ParseUintOfHex(n);
    } else {
      ParseUintOfDecimal(n);
    }
    hide ParseUint, Digits, ParseOperand, IsRegister;
  }

  /** The texts of memory references. */
  lemma ReferencesPrint(base: string, offset: int, symbol: string)
    requires symbol != "" && offset != 0
    ensures MemRef(base, "", 0, 0, "").Print() == "(" + base + ")"
    ensures MemRef(base, "", 0, offset, "").Print() == PrintInt(offset) + "(" + base + ")"
    ensures MemRef("SB", "", 0, 0, symbol).Print() == symbol + "(SB)"
    ensures MemRef("SB", "", 0, offset, symbol).Print() == symbol + "+" + PrintInt(offset) + "(SB)"
  {
    hide PrintInt;
    assert PrintInt(offset) + "(" + base + "" + ")" == PrintInt(offset) + "(" + base + ")";
    assert "" + "(" + base + "" + ")" == "(" + base + ")";
  }

  lemma IndexedPrints(base: string, index: string, scale: int)
    requires index != "" && scale != 0
    ensures MemRef(base, index, scale, 0, "").Print() == "(" + base + ")(" + index + "*" + PrintInt(scale) + ")"
  {
    hide PrintInt;
    var mid := ")(" + index + "*" + PrintInt(scale);
    assert "" + "(" + base + mid + ")" == "(" + base + ")(" + index + "*" + PrintInt(scale) + ")";
  }

  lemma {:induction false} NeverCloses(s: string, i: nat, depth: nat)
    requires i <= |s| && ')' !in s[i..]
    ensures ClosingFrom(s, i, depth) == -1
    decreases |s| - i
  {
    if i < |s| {
      assert s[i] in s[i..] && forall c :: c in s[i + 1..] ==> c in s[i..];
      NeverCloses(s, i + 1, if s[i] == '(' then depth + 1 else depth);
    }
  }

  /** What is kept of a reference that is not closed: its offset, if that can be read. */
  lemma NotClosed(off: string, rest: string)
    requires NoParens(off) && ')' !in rest && TrimSpace(off) == off
    ensures var val := if off == "" then None else ParseInt(off);
            ParseMemOperand(off + "(" + rest) == MemRef("", "", 0, if val.Some? then val.value else 0, "")
  {
    var s := off + "(" + rest;
    SymbolCloses(s);
    assert s[|off|] == '(' && s[..|off|] == off && s[|off| + 1..] == rest;
    FirstIndexUnique(s, '(', |off|);
    NeverCloses(s, |off| + 1, 1);
    hide TrimSpace, ParseInt, Index, ClosingFrom, ParseIndexPart;
  }

  lemma SymbolCloses(s: string)
    ensures Index(s, "(SB)") >= 0 ==> ')' in s
  {
    var r := Index(s, "(SB)");
    if r >= 0 {
      LettersOf(s, r);
      assert s[r + 3] in s;
    }
  }

  /** An index without a star is passed over; a scale that is no number is zero. */
  lemma BrokenIndex(mem: MemRef, index: string, scale: string)
    requires NoParens(index) && NoParens(scale) && '*' !in index && Atoi(scale).None?
    ensures ParseIndexPart(mem, "(" + index + ")") == mem
    ensures ParseIndexPart(mem, "(" + (index + "*" + scale) + ")") == mem.(index := index, scale := 0)
  {
    EnclosedRead(index);
    EnclosedRead(index + "*" + scale);
    ScaleSplit(index, scale);
    hide NoParens, ClosingFrom, HasPrefix, IndexByte, Atoi;
  }

  // ---------------------------------------------------------------- instructions

  /** What stands between operands, and between opcode and operands. */
  lemma SeparatorsAre(opcode: string, a: string, b: string, c: string)
    ensures PrintInstruction(opcode, []) == opcode
    ensures PrintInstruction(opcode, [a]) == opcode + " " + a
    ensures PrintInstruction(opcode, [a, b]) == opcode + " " + (a + ", " + b)
    ensures PrintInstruction(opcode, [a, b, c]) == opcode + " " + (a + ", " + b + ", " + c)
  {
    assert [a, b][..1] == [a] && [a, b, c][..2] == [a, b];
    assert Join([a]) == a && Join([a, b]) == a + ", " + b;
  }

  predicate IsPlain(s: string) {
    ',' !in s && '(' !in s && ')' !in s
  }

  lemma {:induction false} FeedPlain(st: Scan, o: string)
    requires IsPlain(o)
    ensures FeedAll(st, o) == st.(current := st.current + o)
    decreases |o|
  {
    if o == "" {
      assert st.current + o == st.current;
    } else {
      var front, last := o[..|o| - 1], o[|o| - 1];
      assert last in o;
      FeedPlain(st, front);
      assert st.current + o == st.current + front + [last];
    }
  }

  /** A text that ends in a star and a number. */
  predicate EndsInScale(s: string) {
    exists i {:trigger s[i]} :: 0 <= i < |s| && s[i] == '*' && '*' !in s[i + 1..] && Atoi(s[i + 1..]).Some?
  }

  lemma ScaleExactly(s: string)
    ensures InScaleContext(s) <==> EndsInScale(s)
  {
    if i :| 0 <= i < |s| && s[i] == '*' && '*' !in s[i + 1..] && Atoi(s[i + 1..]).Some? {
      LastIndexUnique(s, '*', i);
    }
    hide Atoi;
  }

  /** A comma between texts without parentheses separates operands, unless it follows a scale. */
  lemma CommasSeparate(a: string, b: string)
    requires IsPlain(a) && IsPlain(b)
    ensures Split(a + "," + b) ==
            if EndsInScale(a) then [TrimSpace(a + "," + b)]
            else [TrimSpace(a)] + if b == "" then [] else [TrimSpace(b)]
  {
    var st := Scan([], "", 0);
    FeedPlain(st, a);
    ScaleExactly(a);
    FeedAllAppend(st, a, ",");
    FeedAllAppend(st, a + ",", b);
    assert "" + a == a && "" + b == b;
    FeedOne(Scan([], a, 0), ',');
    FeedPlain(FeedAll(st, a + ","), b);
    hide FeedAll, TrimSpace, InScaleContext, EndsInScale, IsPlain;
  }

  /** Between parentheses a comma never separates. */
  lemma ParenthesesKeepCommas(a: string, b: string)
    requires IsPlain(a) && IsPlain(b)
    ensures Split("(" + a + "," + b + ")") == [TrimSpace("(" + a + "," + b + ")")]
  {
    var st := Scan([], "", 0);
    FeedOne(st, '(');
    FeedPlain(Scan([], "(", 1), a);
    FeedAllAppend(st, "(", a);
    FeedOne(Scan([], "(" + a, 1), ',');
    FeedAllAppend(st, "(" + a, ",");
    FeedPlain(Scan([], "(" + a + ",", 1), b);
    FeedAllAppend(st, "(" + a + ",", b);
    FeedOne(Scan([], "(" + a + "," + b, 1), ')');
    FeedAllAppend(st, "(" + a + "," + b, ")");
    hide FeedAll, TrimSpace, InScaleContext, IsPlain;
    assert "" + "(" == "(";
  }

  /** A call names what stands before `(SB)`, or its first operand when there is none; anything else
      names nothing. */
  lemma CallsName(text: string, opcode: string, ops: seq<string>, name: string)
    requires ParseGoSyntaxOperands(text) == (opcode, ops)
    ensures opcode != "CALL" || ops == [] ==> CallTarget(text) == ""
    ensures opcode == "CALL" && ops != [] && Index(ops[0], "(SB)") < 0 ==> CallTarget(text) == ops[0]
    ensures opcode == "CALL" && ops != [] && ops[0] == name + "(SB)" && Index(name, "(SB)") < 0 ==>
              CallTarget(text) == TrimSpace(name)
  {
    hide TrimSpace, Index, ParseGoSyntaxOperands;
    PrefixFound(name);
    assert (name + "(SB)")[..|name|] == name;
  }

  /** The name printed in a call is the name read. */
  lemma CallReads(name: string)
    requires Trimmed(name) && Index(name, "(SB)") < 0 && Balanced(name + "(SB)")
    ensures CallTarget("CALL " + name + "(SB)") == name
  {
    var text := "CALL " + name + "(SB)";
    assert PrintInstruction("CALL", [name + "(SB)"]) == text by {
      assert Join([name + "(SB)"]) == name + "(SB)";
      assert "CALL" + " " + (name + "(SB)") == text;
    }
    InstructionRoundTrip("CALL", [name + "(SB)"]);
    CallsName(text, "CALL", [name + "(SB)"], name);
    TrimmedExactly(name);
    hide *;
  }

  /** Pieces with the separator between them. */
  function Glued(pieces: seq<string>, c: char): string {
    if pieces == [] then "" else if |pieces| == 1 then pieces[0] else pieces[0] + [c] + Glued(pieces[1..], c)
  }

  lemma GluedMore(first: string, rest: seq<string>, c: char)
    requires rest != []
    ensures Glued([first] + rest, c) == first + [c] + Glued(rest, c) && Glued([first], c) == first
  {
    assert ([first] + rest)[1..] == rest;
  }

  lemma CutMore(s: string, c: char)
    ensures var i := IndexByte(s, c);
            if i < 0 then SplitOn(s, c) == [s] else SplitOn(s, c) == [s[..i]] + SplitOn(s[i + 1..], c)
  {
  }

  predicate NoneHas(pieces: seq<string>, c: char) {
    forall k {:trigger pieces[k]} :: 0 <= k < |pieces| ==> c !in pieces[k]
  }

  /** Splitting at a character loses nothing and leaves none of it in a piece. */
  lemma {:induction false} PiecesExactly(s: string, c: char)
    ensures SplitOn(s, c) != [] && Glued(SplitOn(s, c), c) == s && NoneHas(SplitOn(s, c), c)
    decreases |s|
  {
    var i := IndexByte(s, c);
    CutMore(s, c);
    hide SplitOn, Glued, IndexByte;
    if i >= 0 {
      var rest := SplitOn(s[i + 1..], c);
      PiecesExactly(s[i + 1..], c);
      GluedMore(s[..i], rest, c);
      assert s == s[..i] + [s[i]] + s[i + 1..];
    } else {
      GluedMore(s, [s], c);
    }
  }

  /** A line is one instruction, or several between semicolons; empty ones are passed over. */
  lemma LinesAre(a: string, b: string)
    requires ';' !in a && ';' !in b && TrimSpace(a) != "" && TrimSpace(b) != ""
    ensures Trimmed(a) ==> ParseInstructions(a) == [ParseGoSyntaxOperands(a)]
    ensures Trimmed(a + ";" + b) ==>
              ParseInstructions(a + ";" + b) ==
              [ParseGoSyntaxOperands(TrimSpace(a)), ParseGoSyntaxOperands(TrimSpace(b))]
    ensures Trimmed(a + ";") ==> ParseInstructions(a + ";") == [ParseGoSyntaxOperands(TrimSpace(a))]
  {
    TrimmedExactly(a);
    TrimmedExactly(a + ";" + b);
    TrimmedExactly(a + ";");
    OneCut(a, b);
    OneCut(a, "");
    hide TrimSpace, ParseGoSyntaxOperands, SplitOn, Trimmed;
    assert a + ";" + "" == a + ";" && (a + ";" + b)[|a|] == ';' && (a + ";")[|a|] == ';';
    PiecesParsed(a, b);
    PiecesParsed(a, "");
    assert TrimSpace("") == "" by {
      TrimmedExactly("");
      assert Trimmed("");
    }
  }

  lemma OneCut(a: string, b: string)
    requires ';' !in a && ';' !in b
    ensures SplitOn(a + ";" + b, ';') == [a, b]
  {
    var s := a + ";" + b;
    assert s[..|a|] == a && s[|a|] == ';' && s[|a| + 1..] == b;
    FirstIndexUnique(s, ';', |a|);
    assert SplitOn(b, ';') == [b];
  }

  lemma PiecesParsed(a: string, b: string)
    requires TrimSpace(a) != ""
    ensures TrimSpace(b) != "" ==>
              ParsePieces([a, b]) == [ParseGoSyntaxOperands(TrimSpace(a)), ParseGoSyntaxOperands(TrimSpace(b))]
    ensures TrimSpace(b) == "" ==> ParsePieces([a, b]) == [ParseGoSyntaxOperands(TrimSpace(a))]
  {
    hide TrimSpace, ParseGoSyntaxOperands;
    assert [a, b][1..] == [b] && [b][1..] == [];
    assert ParsePieces([]) == [];
  }
}

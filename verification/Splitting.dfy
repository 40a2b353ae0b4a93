/** Splitting assembler text into an opcode and its operands. */
module Splitting {
  import opened Text

  /** State of the operand scanner: finished operands, the one being read, nesting depth. */
  datatype Scan = Scan(parts: seq<string>, current: string, depth: int)

  /** The text ends in `*` and a number, so a comma would belong to an unparenthesised scale. */
  predicate InScaleContext(s: string) {
    var star := LastIndexByte(s, '*');
    star >= 0 && Atoi(s[star + 1..]).Some?
  }

  function Feed(st: Scan, ch: char): Scan {
    if ch == '(' then st.(depth := st.depth + 1, current := st.current + [ch])
    else if ch == ')' then st.(depth := st.depth - 1, current := st.current + [ch])
    else if ch == ',' && st.depth == 0 && !InScaleContext(st.current) then
      st.(parts := st.parts + [TrimSpace(st.current)], current := "")
    else st.(current := st.current + [ch])
  }

  function FeedAll(st: Scan, s: string): Scan {
    if s == [] then st else Feed(FeedAll(st, s[..|s| - 1]), s[|s| - 1])
  }

  function Finish(st: Scan): seq<string> {
    if st.current != "" then st.parts + [TrimSpace(st.current)] else st.parts
  }

  function Split(s: string): seq<string> {
    Finish(FeedAll(Scan([], "", 0), s))
  }

  method SplitPlan9Operands(s: string) returns (parts: seq<string>)
    ensures parts == Split(s)
  {
    parts := [];
    var current := "";
    var parenDepth := 0;
    for i := 0 to |s|
      invariant Scan(parts, current, parenDepth) == FeedAll(Scan([], "", 0), s[..i])
    {
      assert s[..i + 1][..i] == s[..i];
      var ch := s[i];
      if ch == '(' {
        parenDepth := parenDepth + 1;
        current := current + [ch];
      } else if ch == ')' {
        parenDepth := parenDepth - 1;
        current := current + [ch];
      } else if ch == ',' {
        if parenDepth == 0 && !InScaleContext(current) {
          parts := parts + [TrimSpace(current)];
          current := "";
        } else {
          current := current + [ch];
        }
      } else {
        current := current + [ch];
      }
    }
    assert s[..|s|] == s;
    if current != "" {
      parts := parts + [TrimSpace(current)];
    }
  }

  // ---------------------------------------------------------------- balanced operands

  /** Opening minus closing parentheses. */
  function DepthOf(s: string): int {
    if s == [] then 0
    else DepthOf(s[..|s| - 1]) + (if s[|s| - 1] == '(' then 1 else if s[|s| - 1] == ')' then -1 else 0)
  }

  /** Every comma inside is protected by parentheses or by a scale. */
  predicate CommasProtected(o: string) {
    forall i :: 0 <= i < |o| && o[i] == ',' ==> DepthOf(o[..i]) != 0 || InScaleContext(o[..i])
  }

  /** An operand that the splitter takes for one piece. */
  predicate Balanced(o: string) {
    o != "" && Trimmed(o) && CommasProtected(o) && DepthOf(o) == 0 && !InScaleContext(o)
  }

  function Join(ops: seq<string>): string
    requires ops != []
  {
    if |ops| == 1 then ops[0] else Join(ops[..|ops| - 1]) + ", " + ops[|ops| - 1]
  }

  lemma {:induction false} FeedAllAppend(st: Scan, a: string, b: string)
    ensures FeedAll(st, a + b) == FeedAll(FeedAll(st, a), b)
    decreases |b|
  {
    if b == [] {
      assert a + b == a;
    } else {
      assert (a + b)[..|a + b| - 1] == a + b[..|b| - 1];
      FeedAllAppend(st, a, b[..|b| - 1]);
    }
  }

  lemma ScaleIgnoresPrefix(pre: string, s: string)
    requires '*' !in pre
    ensures InScaleContext(pre + s) <==> InScaleContext(s)
  {
    var star := LastIndexByte(s, '*');
    if star >= 0 {
      assert (pre + s)[|pre| + star + 1..] == s[star + 1..];
      LastIndexUnique(pre + s, '*', |pre| + star);
    } else {
      assert '*' !in pre + s;
    }
  }

  /** Reading a protected text adds it to the current operand and nothing else. */
  lemma {:induction false} FeedProtected(parts: seq<string>, pre: string, o: string)
    requires '*' !in pre && CommasProtected(o)
    ensures FeedAll(Scan(parts, pre, 0), o) == Scan(parts, pre + o, DepthOf(o))
    decreases |o|
  {
    if o == [] {
      assert pre + o == pre;
    } else {
      var o' := o[..|o| - 1];
      ProtectedPrefix(o);
      hide CommasProtected, InScaleContext;
      FeedProtected(parts, pre, o');
      ScaleIgnoresPrefix(pre, o');
      assert pre + o == pre + o' + [o[|o| - 1]];
    }
  }

  lemma ProtectedPrefix(o: string)
    requires o != "" && CommasProtected(o)
    ensures CommasProtected(o[..|o| - 1])
    ensures o[|o| - 1] == ',' ==> DepthOf(o[..|o| - 1]) != 0 || InScaleContext(o[..|o| - 1])
  {
    hide DepthOf, InScaleContext;
    var o' := o[..|o| - 1];
    assert forall i :: 0 <= i < |o'| ==> o'[..i] == o[..i];
  }

  lemma TrimAfterSpace(o: string)
    requires Trimmed(o) && o != ""
    ensures TrimSpace(" " + o) == o && TrimSpace("" + o) == o
  {
    TrimmedExactly(o);
    assert (" " + o)[1..] == o;
    assert "" + o == o;
  }

  /** What precedes the last of several joined operands: nothing, or the space after a comma. */
  function Lead(ops: seq<string>): string {
    if |ops| == 1 then "" else " "
  }

  /** After reading joined balanced operands, all but the last are finished and the last is pending. */
  lemma {:induction false} FeedJoined(ops: seq<string>)
    requires ops != [] && forall o :: o in ops ==> Balanced(o)
    ensures FeedAll(Scan([], "", 0), Join(ops)) == Scan(ops[..|ops| - 1], Lead(ops) + ops[|ops| - 1], 0)
    decreases |ops|
  {
    hide Balanced, FeedAll, TrimSpace, InScaleContext;
    var last := ops[|ops| - 1];
    assert Balanced(last);
    if |ops| == 1 {
      BalancedFacts(last, "");
      FeedProtected([], "", last);
    } else {
      var front := ops[..|ops| - 1];
      FeedJoined(front);
      var o := front[|front| - 1];
      assert Balanced(o);
      BalancedFacts(o, Lead(front));
      var st := Scan(front[..|front| - 1], Lead(front) + o, 0);
      FeedOneMore(Join(front), st, last);
      assert front == st.parts + [o];
    }
  }

  /** Reading a separator and a balanced operand finishes the pending operand. */
  lemma FeedOneMore(x: string, st: Scan, last: string)
    requires Balanced(last)
    requires FeedAll(Scan([], "", 0), x) == st && st.depth == 0 && !InScaleContext(st.current)
    ensures FeedAll(Scan([], "", 0), x + ", " + last) == Scan(st.parts + [TrimSpace(st.current)], " " + last, 0)
  {
    BalancedFacts(last, " ");
    hide FeedAll, Balanced, InScaleContext, TrimSpace, CommasProtected;
    var done := st.parts + [TrimSpace(st.current)];
    FeedSeparator(st);
    FeedProtected(done, " ", last);
    FeedAllAppend(Scan([], "", 0), x, ", ");
    FeedAllAppend(Scan([], "", 0), x + ", ", last);
  }

  lemma BalancedFacts(o: string, pre: string)
    requires Balanced(o) && (pre == "" || pre == " ")
    ensures !InScaleContext(pre + o) && TrimSpace(pre + o) == o && CommasProtected(o) && DepthOf(o) == 0
            && pre + o != ""
  {
    ScaleIgnoresPrefix(pre, o);
    TrimAfterSpace(o);
  }

  lemma FeedOne(st: Scan, c: char)
    ensures FeedAll(st, [c]) == Feed(st, c)
  {
    assert [c][..0] == [];
  }

  lemma FeedSeparator(st: Scan)
    requires st.depth == 0 && !InScaleContext(st.current)
    ensures FeedAll(st, ", ") == Scan(st.parts + [TrimSpace(st.current)], " ", 0)
  {
    hide FeedAll, InScaleContext, TrimSpace;
    FeedOne(st, ',');
    var mid := Scan(st.parts + [TrimSpace(st.current)], "", 0);
    FeedOne(mid, ' ');
    FeedAllAppend(st, ",", " ");
    assert ", " == "," + " ";
  }

  /** Splitting undoes joining, for every list of balanced operands. */
  lemma SplitOfJoined(ops: seq<string>)
    requires ops != [] && forall o :: o in ops ==> Balanced(o)
    ensures Split(Join(ops)) == ops
  {
    hide FeedAll, Balanced, Join, TrimSpace, InScaleContext;
    FeedJoined(ops);
    var last := ops[|ops| - 1];
    assert Balanced(last);
    BalancedFacts(last, Lead(ops));
    assert ops[..|ops| - 1] + [last] == ops;
  }

  // ---------------------------------------------------------------- whole instructions

  function ParseGoSyntaxOperands(text: string): (string, seq<string>) {
    var goSyntax := TrimSpace(text);
    var space := IndexByte(goSyntax, ' ');
    if space < 0 then (goSyntax, [])
    else (goSyntax[..space], Split(TrimSpace(goSyntax[space + 1..])))
  }

  /** The text of an instruction. */
  function PrintInstruction(opcode: string, ops: seq<string>): string {
    if ops == [] then opcode else opcode + " " + Join(ops)
  }

  lemma {:induction false} JoinEnds(ops: seq<string>)
    requires ops != [] && forall o :: o in ops ==> Balanced(o)
    ensures Join(ops) != "" && Trimmed(Join(ops))
    decreases |ops|
  {
    assert ops[|ops| - 1] in ops;
    if |ops| > 1 {
      JoinEnds(ops[..|ops| - 1]);
    }
  }

  /** An instruction text splits back into its opcode and operands. */
  lemma InstructionRoundTrip(opcode: string, ops: seq<string>)
    requires opcode != "" && Trimmed(opcode) && ' ' !in opcode
    requires forall o :: o in ops ==> Balanced(o)
    ensures ParseGoSyntaxOperands(PrintInstruction(opcode, ops)) == (opcode, ops)
  {
    var text := PrintInstruction(opcode, ops);
    if ops == [] {
      TrimmedExactly(opcode);
    } else {
      JoinEnds(ops);
      TrimmedExactly(text);
      TrimmedExactly(Join(ops));
      assert text[|opcode|] == ' ' && text[..|opcode|] == opcode;
      FirstIndexUnique(text, ' ', |opcode|);
      assert text[|opcode| + 1..] == Join(ops);
      SplitOfJoined(ops);
    }
  }

  /** The pieces between separators. */
  function SplitOn(s: string, c: char): seq<string> {
    var i := IndexByte(s, c);
    if i < 0 then [s] else [s[..i]] + SplitOn(s[i + 1..], c)
  }

  function ParsePieces(pieces: seq<string>): seq<(string, seq<string>)> {
    if pieces == [] then []
    else
      var piece := TrimSpace(pieces[0]);
      (if piece == "" then [] else [ParseGoSyntaxOperands(piece)]) + ParsePieces(pieces[1..])
  }

  /** The instructions of one line of text: a prefix such as `REP;` makes several. */
  function ParseInstructions(text: string): seq<(string, seq<string>)> {
    var goSyntax := TrimSpace(text);
    if ';' in goSyntax then ParsePieces(SplitOn(goSyntax, ';')) else [ParseGoSyntaxOperands(goSyntax)]
  }
}

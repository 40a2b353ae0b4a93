/** Printing expression trees with the fewest parentheses, and the parser as its inverse. */
module Printer {
  import opened Text
  import opened Grammar

  /** The level at which a tree stands without parentheses. */
  function Level(e: Tree): int {
    match e
    case Ternary(_, _, _) => 0
    case Binary(op, _, _) => OpLevel(op.typ)
    case Prefix(_, _) => 9
    case Call(_, _) => 10
    case Index(_, _) => 10
    case Member(_, _) => 10
    case Scoped(_, _) => 10
    case Cast(_, _) => 10
    case _ => 11
  }

  predicate PrintableType(t: Type) {
    && NameLike(t.tok)
    && !(t.tok.typ == Keyword && t.tok.lit in {"unsigned", "signed", "const"})
  }

  /** Trees that have a printed form: every node carries the tokens its construct needs, and no part
      is absent. */
  predicate Printable(e: Tree) {
    match e
    case Absent => false
    case IntegerLiteral(tok) => tok.typ == Integer
    case FloatLiteral(tok) => tok.typ == Float
    case StringLiteral(tok) => tok.typ == String
    case CharLiteral(tok) => tok.typ == Char
    case BoolLiteral(_) => true
    case NullLiteral => true
    case Name(tok) => tok.typ == Identifier
    case Binary(op, l, r) => 1 <= OpLevel(op.typ) && Printable(l) && Printable(r)
    case Prefix(op, x) => IsPrefix(op.typ) && Printable(x)
    case Ternary(c, y, n) => Printable(c) && Printable(y) && Printable(n)
    case Call(f, args) => Printable(f) && AllPrintable(args)
    case Index(b, i) => Printable(b) && Printable(i)
    case Member(b, _) => Printable(b)
    case Scoped(b, _) => Printable(b)
    case Cast(t, x) => t.Some? && PrintableType(t.value) && Printable(x)
    case Place(x) => Printable(x)
  }

  predicate AllPrintable(es: seq<Tree>) {
    es == [] || (Printable(es[0]) && AllPrintable(es[1..]))
  }

  const OPEN := Token(LParen, "(")
  const CLOSE := Token(RParen, ")")
  const AS := Token(Keyword, "as")

  function Ident(name: string): Token {
    Token(Identifier, name)
  }

  function PrintType(t: Type): seq<Token> {
    match t
    case Builtin(tok) => [tok]
    case Custom(tok, member) => [tok, Token(Scope, "::"), Ident(member)]
  }

  /** A tree where `level` is expected: parenthesized only if it binds more loosely. */
  function Print(e: Tree, level: int): seq<Token>
    requires Printable(e)
    decreases e, 2
  {
    if Level(e) < level then Paren(e) else Body(e)
  }

  function Paren(e: Tree): seq<Token>
    requires Printable(e)
    decreases e, 1
  {
    [OPEN] + Body(e) + [CLOSE]
  }

  /** A cast to a plain type, whose type would swallow a `::` behind it. */
  predicate EndsInType(e: Tree) {
    e.Cast? && e.typ.Some? && e.typ.value.Builtin?
  }

  /** The left side of `::`. */
  function PrintScope(e: Tree): seq<Token>
    requires Printable(e)
    decreases e, 3
  {
    if EndsInType(e) then Paren(e) else Print(e, 10)
  }

  /** A scoped plain name, which parentheses before an operand would turn into a cast. */
  predicate ReadsAsType(e: Tree) {
    e.Scoped? && (e.base.Name? || e.base.BoolLiteral? || e.base.NullLiteral?)
  }

  /** The operand of `$`. What reads as a type gets a second pair of parentheses. */
  function PrintPlace(e: Tree): seq<Token>
    requires Printable(e)
    decreases e, 3
  {
    if ReadsAsType(e) then [OPEN] + Paren(e) + [CLOSE] else Print(e, 11)
  }

  function Body(e: Tree): seq<Token>
    requires Printable(e)
    decreases e, 0
  {
    match e
    case Binary(op, l, r) => Print(l, Level(e)) + [op] + Print(r, Level(e) + 1)
    case Prefix(op, x) => [op] + Print(x, 9)
    case Ternary(c, y, n) => Print(c, 1) + [Token(Question, "?")] + Print(y, 0) + [Token(Colon, ":")] + Print(n, 0)
    case Call(f, args) => Print(f, 10) + [OPEN] + PrintArgs(args) + [CLOSE]
    case Index(b, i) => Print(b, 10) + [Token(LBracket, "[")] + Print(i, 0) + [Token(RBracket, "]")]
    case Member(b, name) => Print(b, 10) + [Token(Dot, ".")] + [Ident(name)]
    case Scoped(b, name) => PrintScope(b) + [Token(Scope, "::")] + [Ident(name)]
    case Cast(t, x) => Print(x, 10) + [AS] + PrintType(t.value)
    case Place(x) => [Token(Dollar, "$")] + PrintPlace(x)
    case BoolLiteral(value) => [Token(Keyword, if value then "true" else "false")]
    case NullLiteral => [Token(Keyword, "null")]
    case IntegerLiteral(tok) => [tok]
    case FloatLiteral(tok) => [tok]
    case StringLiteral(tok) => [tok]
    case CharLiteral(tok) => [tok]
    case Name(tok) => [tok]
  }

  function PrintArgs(es: seq<Tree>): seq<Token>
    requires AllPrintable(es)
    decreases es, 0
  {
    if es == [] then []
    else if |es| == 1 then Print(es[0], 0)
    else Print(es[0], 0) + [Token(Comma, ",")] + PrintArgs(es[1..])
  }

  // ---------------------------------------------------------------- how printed trees begin

  /** Tokens an operand can begin with. */
  predicate StartsOperand(t: Token) {
    || t.typ in {Integer, Float, String, Char, Identifier, LParen, Dollar}
    || (t.typ == Keyword && t.lit in {"true", "false", "null"})
  }

  /** A leading name is followed by no closing parenthesis, not even as a scoped type. */
  predicate NoTypeAhead(ts: seq<Token>) {
    && ts != []
    && (NameLike(ts[0]) && |ts| > 1 ==> ts[1].typ != RParen)
    && (NameLike(ts[0]) && |ts| > 3 && ts[1].typ == Scope ==> ts[3].typ != RParen)
    && (NameLike(ts[0]) && |ts| > 1 && ts[1].typ == Scope ==> |ts| > 2)
    && (NameLike(ts[0]) ==> PrintableType(Builtin(ts[0])))
  }

  /** A name, or a scoped name: what could be read as a type. */
  predicate TypeShaped(ts: seq<Token>) {
    |ts| == 1 || (|ts| == 3 && ts[1].typ == Scope)
  }

  lemma ExtendNoTypeAhead(front: seq<Token>, t: Token, more: seq<Token>)
    requires NoTypeAhead(front) && t.typ != RParen && more != [] && (t.typ == Scope ==> |more| == 1)
    ensures NoTypeAhead(front + [t] + more) && (front + [t] + more)[0] == front[0]
    ensures t.typ != Scope && NameLike(front[0]) ==> !TypeShaped(front + [t] + more)
  {
    var all := front + [t] + more;
    assert all[0] == front[0] && all[|front|] == t;
    assert |front| > 1 ==> all[1] == front[1];
    assert |front| > 3 ==> all[3] == front[3];
  }

  lemma ParenShape(e: Tree)
    requires Printable(e)
    ensures NoTypeAhead(Paren(e)) && Paren(e)[0] == OPEN
  {
  }

  lemma {:induction false} PrintShape(e: Tree, level: int)
    requires Printable(e)
    ensures NoTypeAhead(Print(e, level))
    ensures StartsOperand(Print(e, level)[0]) || (level < 10 && IsPrefix(Print(e, level)[0].typ))
    decreases e, 2
  {
    if Level(e) < level {
      ParenShape(e);
    } else {
      BodyShape(e);
    }
  }

  lemma {:induction false} BodyShape(e: Tree)
    requires Printable(e)
    ensures NoTypeAhead(Body(e))
    ensures StartsOperand(Body(e)[0]) || (Level(e) < 10 && IsPrefix(Body(e)[0].typ))
    ensures NameLike(Body(e)[0]) ==> (|Body(e)| == 1 <==> Level(e) == 11)
    ensures NameLike(Body(e)[0]) && Level(e) < 11 && !ReadsAsType(e) ==> !TypeShaped(Body(e))
    decreases e, 1
  {
    match e
    case Binary(_, _, _) => InfixShape(e);
    case Ternary(_, _, _) => InfixShape(e);
    case Call(_, _) => PostfixShape(e);
    case Index(_, _) => PostfixShape(e);
    case Member(_, _) => PostfixShape(e);
    case Scoped(_, _) => ScopedShape(e);
    case Cast(_, _) => PostfixShape(e);
    case _ =>
  }

  lemma {:induction false} InfixShape(e: Tree)
    requires Printable(e) && (e.Binary? || e.Ternary?)
    ensures NoTypeAhead(Body(e)) && (StartsOperand(Body(e)[0]) || IsPrefix(Body(e)[0].typ))
    ensures NameLike(Body(e)[0]) ==> !TypeShaped(Body(e))
    decreases e, 0
  {
    var left, level, t, more;
    if e.Binary? {
      left, level, t, more := e.left, Level(e), e.op, Print(e.right, Level(e) + 1);
      assert more != [] by {
        PrintShape(e.right, Level(e) + 1);
      }
    } else {
      left, level, t := e.cond, 1, Token(Question, "?");
      more := Print(e.yes, 0) + [Token(Colon, ":")] + Print(e.no, 0);
    }
    assert t.typ != RParen && t.typ != Scope;
    assert Body(e) == Print(left, level) + [t] + more;
    hide Print, Body, Printable, Level, OpLevel;
    PrintShape(left, level);
    ExtendNoTypeAhead(Print(left, level), t, more);
  }

  lemma {:induction false} PostfixShape(e: Tree)
    requires Printable(e) && (e.Call? || e.Index? || e.Member? || e.Cast?)
    ensures NoTypeAhead(Body(e)) && StartsOperand(Body(e)[0])
    ensures NameLike(Body(e)[0]) ==> !TypeShaped(Body(e))
    decreases e, 0
  {
    var left := if e.Call? then e.func else if e.Cast? then e.arg else e.base;
    var front := Print(left, 10);
    PrintShape(left, 10);
    var t, more;
    if e.Call? {
      t, more := OPEN, PrintArgs(e.args) + [CLOSE];
    } else if e.Index? {
      t, more := Token(LBracket, "["), Print(e.index, 0) + [Token(RBracket, "]")];
    } else if e.Member? {
      t, more := Token(Dot, "."), [Ident(e.field)];
    } else {
      t, more := AS, PrintType(e.typ.value);
    }
    assert Body(e) == front + [t] + more;
    hide Print, Body, PrintArgs;
    ExtendNoTypeAhead(front, t, more);
  }

  lemma {:induction false} ScopedShape(e: Tree)
    requires Printable(e) && e.Scoped?
    ensures NoTypeAhead(Body(e)) && StartsOperand(Body(e)[0]) && |Body(e)| >= 3
    ensures NameLike(Body(e)[0]) && !ReadsAsType(e) ==> !TypeShaped(Body(e))
    decreases e, 0
  {
    var front := PrintScope(e.base);
    ParenShape(e.base);
    PrintShape(e.base, 10);
    ScopeSide(e.base);
    assert Body(e) == front + [Token(Scope, "::")] + [Ident(e.field)];
    hide Print, Body;
    ExtendNoTypeAhead(front, Token(Scope, "::"), [Ident(e.field)]);
  }

  /** Left of `::` there is a single name only when the tree is one. */
  lemma {:induction false} ScopeSide(e: Tree)
    requires Printable(e)
    ensures PrintScope(e) != []
    ensures NameLike(PrintScope(e)[0]) && |PrintScope(e)| == 1 ==> e.Name? || e.BoolLiteral? || e.NullLiteral?
    decreases e, 2
  {
    ParenShape(e);
    assert PrintScope(e) == if EndsInType(e) || Level(e) < 10 then Paren(e) else Body(e);
    if Level(e) >= 10 && !EndsInType(e) {
      BodyShape(e);
      if Level(e) == 11 {
        assert Body(e)[0].typ == (match e
                                  case IntegerLiteral(_) => Integer
                                  case FloatLiteral(_) => Float
                                  case StringLiteral(_) => String
                                  case CharLiteral(_) => Char
                                  case Name(_) => Identifier
                                  case Place(_) => Dollar
                                  case _ => Keyword);
      }
    }
  }

  lemma NoCastAhead(front: seq<Token>, suffix: seq<Token>)
    requires NoTypeAhead(front) && (NameLike(front[0]) ==> !TypeShaped(front))
    ensures !LooksLikeCast(front + [CLOSE] + suffix)
  {
    var ts := front + [CLOSE] + suffix;
    assert Peek(ts) == front[0];
    if NameLike(front[0]) {
      assert SkipWord(ts, {"unsigned", "signed"}) == ts && SkipWord(ts, {"const"}) == ts;
      hide SkipWord;
      assert Peek(Advance(ts)) == front[1];
      if front[1].typ == Scope {
        assert Advance(Advance(Advance(ts))) == ts[3..];
        assert Peek(ts[3..]) == front[3];
      }
    }
  }

  /** What stands between parentheses in a printed tree is never taken for a cast. */
  lemma NotACast(e: Tree, suffix: seq<Token>)
    requires Printable(e) && Level(e) < 11 && !ReadsAsType(e)
    ensures !LooksLikeCast(Body(e) + [CLOSE] + suffix)
  {
    BodyShape(e);
    hide *;
    NoCastAhead(Body(e), suffix);
  }

  // ---------------------------------------------------------------- round trip

  /** `t` cannot continue an operand printed at `level`. */
  predicate Stops(t: Token, level: int) {
    && OpLevel(t.typ) < level
    && (level <= 10 ==> t.typ !in {LParen, LBracket, Dot, Scope} && t != AS)
  }

  /** The parser entered at a level. */
  function ParseAt(ts: seq<Token>, level: int): Result
    requires 0 <= level <= 11
  {
    if level == 0 then ParseExpression(ts)
    else if level <= 9 then ParseBinary(ts, level)
    else if level == 10 then ParsePostfix(ts)
    else ParsePrimary(ts)
  }

  lemma BeginsWith(front: seq<Token>, suffix: seq<Token>)
    requires front != []
    ensures Peek(front + suffix) == front[0] && Advance(front + suffix) == front[1..] + suffix
  {
  }

  lemma Begins(t: Token, suffix: seq<Token>)
    ensures Peek([t] + suffix) == t && Advance([t] + suffix) == suffix
  {
  }

  lemma LevelStep(ts: seq<Token>, level: int)
    requires 1 <= level <= 8
    ensures ParseBinary(ts, level + 1).Parsed? ==>
              ParseBinary(ts, level) == BinaryRest(ParseBinary(ts, level + 1).e, ParseBinary(ts, level + 1).rest, level)
  {
  }

  lemma OperatorStep(left: Tree, t: Token, ts: seq<Token>, level: int)
    requires 1 <= level <= 8 && OpLevel(t.typ) == level
    ensures ParseBinary(ts, level + 1).Parsed? ==>
              var r := ParseBinary(ts, level + 1);
              BinaryRest(left, [t] + ts, level) == BinaryRest(Binary(t, left, r.e), r.rest, level)
  {
    Begins(t, ts);
    hide ParseBinary;
  }

  lemma CallStep(left: Tree, ts: seq<Token>)
    ensures ParseArgs(ts).Args? ==>
              PostfixRest(left, [OPEN] + ts)
                == PostfixRest(Call(left, ParseArgs(ts).es), Expect(ParseArgs(ts).rest, RParen))
  {
    Begins(OPEN, ts);
    hide ParseArgs;
  }

  lemma IndexStep(left: Tree, t: Token, ts: seq<Token>)
    requires t.typ == LBracket
    ensures ParseExpression(ts).Parsed? ==>
              PostfixRest(left, [t] + ts)
                == PostfixRest(Index(left, ParseExpression(ts).e), Expect(ParseExpression(ts).rest, RBracket))
  {
    Begins(t, ts);
    hide ParseExpression;
  }

  lemma CastStep(left: Tree, ts: seq<Token>)
    ensures PostfixRest(left, [AS] + ts) == PostfixRest(Cast(ParseType(ts).0, left), ParseType(ts).1)
  {
    Begins(AS, ts);
    hide ParseType;
  }

  lemma NameStep(left: Tree, t: Token, name: string, ts: seq<Token>)
    requires t.typ == Dot || t.typ == Scope
    ensures PostfixRest(left, [t] + ([Ident(name)] + ts))
            == PostfixRest(if t.typ == Dot then Member(left, name) else Scoped(left, name), ts)
  {
    Begins(t, [Ident(name)] + ts);
    Begins(Ident(name), ts);
  }

  lemma PostfixStep(ts: seq<Token>)
    ensures ParsePrimary(ts).Parsed? ==> ParsePostfix(ts) == PostfixRest(ParsePrimary(ts).e, ParsePrimary(ts).rest)
  {
  }

  lemma PrefixStep(ts: seq<Token>)
    ensures !IsPrefix(Peek(ts).typ) ==> ParseBinary(ts, 9) == ParsePostfix(ts)
    ensures IsPrefix(Peek(ts).typ) && ParseBinary(Advance(ts), 9).Parsed? ==>
              var r := ParseBinary(Advance(ts), 9);
              ParseBinary(ts, 9) == Parsed(Prefix(Peek(ts), r.e), r.rest)
  {
  }

  lemma ArgsStep(ts: seq<Token>)
    ensures Peek(ts).typ == RParen ==> ParseArgs(ts) == Args([], ts)
    ensures Peek(ts).typ != RParen && Peek(ts).typ != EOF && ParseExpression(ts).Parsed? ==>
              var r := ParseExpression(ts);
              var next := Expect(r.rest, Comma);
              |next| < |ts| && ParseArgs(next).Args? ==>
                ParseArgs(ts) == Args([r.e] + ParseArgs(next).es, ParseArgs(next).rest)
  {
    hide ParseExpression;
  }

  lemma ParenStep(ts: seq<Token>)
    ensures Peek(ts).typ == LParen && !LooksLikeCast(Advance(ts)) && ParseExpression(Advance(ts)).Parsed? ==>
              var r := ParseExpression(Advance(ts));
              ParsePrimary(ts) == Parsed(r.e, Expect(r.rest, RParen))
  {
    hide ParseExpression, LooksLikeCast;
  }

  function ParenFlag(e: Tree, level: int): nat {
    if Level(e) < level then 1 else 0
  }

  /** Parsing the printed form of a tree gives the tree back and stops right behind it. */
  lemma {:induction false} RoundTrip(e: Tree, level: int, suffix: seq<Token>)
    requires Printable(e) && 0 <= level <= 11 && (level == 11 ==> !ReadsAsType(e))
    requires Stops(Peek(suffix), level) || level == 11
    ensures ParseAt(Print(e, level) + suffix, level) == Parsed(e, suffix)
    decreases e, ParenFlag(e, level), 40 - 2 * level
  {
    hide Print, Body, ParseExpression, ParseBinary, ParsePrefix, ParsePostfix, ParsePrimary;
    if level == 0 {
      ExpressionTrip(e, suffix);
    } else if level <= 8 {
      Spine(e, level, suffix);
    } else if level == 9 {
      PrefixTrip(e, suffix);
    } else if level == 10 {
      PostfixSpine(e, suffix);
    } else {
      PrimaryTrip(e, suffix);
    }
  }

  lemma {:induction false} ExpressionTrip(e: Tree, suffix: seq<Token>)
    requires Printable(e) && Stops(Peek(suffix), 0)
    ensures ParseExpression(Print(e, 0) + suffix) == Parsed(e, suffix)
    decreases e, 0, 39
  {
    hide Body;
    if e.Ternary? {
      TernaryTrip(e, suffix);
    } else {
      assert Print(e, 0) == Print(e, 1);
      RoundTrip(e, 1, suffix);
    }
  }

  lemma Unparenthesized(e: Tree, level: int)
    requires Printable(e) && level <= Level(e)
    ensures Print(e, level) == Body(e)
  {
    hide Body, Printable, Level;
  }

  lemma Regroup(a: seq<Token>, t: Token, b: seq<Token>, suffix: seq<Token>)
    ensures a + [t] + b + suffix == a + ([t] + (b + suffix))
  {
  }

  lemma PrintedTernary(e: Tree, suffix: seq<Token>)
    requires Printable(e) && e.Ternary?
    ensures Print(e, 0) + suffix ==
            Print(e.cond, 1) + ([Token(Question, "?")]
              + (Print(e.yes, 0) + ([Token(Colon, ":")] + (Print(e.no, 0) + suffix))))
  {
    Unparenthesized(e, 0);
    var c, y, n := Print(e.cond, 1), Print(e.yes, 0), Print(e.no, 0);
    var q, k := Token(Question, "?"), Token(Colon, ":");
    assert Body(e) == c + [q] + y + [k] + n;
    hide *;
    Regroup(c + [q] + y, k, n, suffix);
    Regroup(c, q, y, [k] + (n + suffix));
  }

  lemma TernaryStep(ts: seq<Token>, s1: seq<Token>, s2: seq<Token>)
    requires ParseBinary(ts, 1).Parsed? && ParseBinary(ts, 1).rest == [Token(Question, "?")] + s1
    requires ParseExpression(s1).Parsed? && ParseExpression(s1).rest == [Token(Colon, ":")] + s2
    requires ParseExpression(s2).Parsed?
    ensures ParseExpression(ts) ==
            Parsed(Ternary(ParseBinary(ts, 1).e, ParseExpression(s1).e, ParseExpression(s2).e),
                   ParseExpression(s2).rest)
  {
    Begins(Token(Question, "?"), s1);
    Begins(Token(Colon, ":"), s2);
    hide ParseBinary;
  }

  lemma {:induction false} TernaryTrip(e: Tree, suffix: seq<Token>)
    requires Printable(e) && e.Ternary? && Stops(Peek(suffix), 0)
    ensures ParseExpression(Print(e, 0) + suffix) == Parsed(e, suffix)
    decreases e, 0, 38
  {
    PrintedTernary(e, suffix);
    assert Printable(e.cond) && Printable(e.yes) && Printable(e.no);
    hide Printable, ParseExpression, ParseBinary, BinaryRest, ParsePrefix, ParsePostfix, PostfixRest, ParsePrimary,
      ParseArgs, ParseType, Print, Body, PrintArgs;
    var s2 := Print(e.no, 0) + suffix;
    var s1 := Print(e.yes, 0) + ([Token(Colon, ":")] + s2);
    RoundTrip(e.cond, 1, [Token(Question, "?")] + s1);
    RoundTrip(e.yes, 0, [Token(Colon, ":")] + s2);
    RoundTrip(e.no, 0, suffix);
    TernaryStep(Print(e, 0) + suffix, s1, s2);
  }

  /** At a binary level the parser, having read the printed form, holds the tree as the left operand
      and looks for more operators of the level. */
  lemma {:induction false} Spine(e: Tree, level: int, suffix: seq<Token>)
    requires Printable(e) && 1 <= level <= 8 && Stops(Peek(suffix), level + 1)
    ensures ParseBinary(Print(e, level) + suffix, level) == BinaryRest(e, suffix, level)
    decreases e, ParenFlag(e, level), 39 - 2 * level
  {
    if e.Binary? && Level(e) == level {
      OperatorSpine(e, suffix);
    } else {
      assert Print(e, level) == Print(e, level + 1);
      hide Print, ParseBinary, BinaryRest;
      RoundTrip(e, level + 1, suffix);
      LevelStep(Print(e, level) + suffix, level);
    }
  }

  lemma PrintedOperator(e: Tree, suffix: seq<Token>)
    requires Printable(e) && e.Binary?
    ensures Print(e, Level(e)) + suffix == Print(e.left, Level(e)) + ([e.op] + (Print(e.right, Level(e) + 1) + suffix))
  {
    Unparenthesized(e, Level(e));
    var l, r := Print(e.left, Level(e)), Print(e.right, Level(e) + 1);
    assert Body(e) == l + [e.op] + r;
    hide *;
    Regroup(l, e.op, r, suffix);
  }

  lemma {:induction false} OperatorSpine(e: Tree, suffix: seq<Token>)
    requires Printable(e) && e.Binary? && 1 <= Level(e) <= 8 && Stops(Peek(suffix), Level(e) + 1)
    ensures ParseBinary(Print(e, Level(e)) + suffix, Level(e)) == BinaryRest(e, suffix, Level(e))
    decreases e, 0, 38 - 2 * Level(e)
  {
    var level := Level(e);
    PrintedOperator(e, suffix);
    assert Printable(e.left) && Printable(e.right) && OpLevel(e.op.typ) == level;
    assert e.op.typ !in {LParen, LBracket, Dot, Scope} && e.op != AS;
    assert Stops(e.op, level + 1);
    hide Print, Body, Level, OpLevel, Printable, ParseBinary, BinaryRest, Stops;
    Begins(e.op, Print(e.right, level + 1) + suffix);
    Spine(e.left, level, [e.op] + (Print(e.right, level + 1) + suffix));
    RoundTrip(e.right, level + 1, suffix);
    OperatorStep(e.left, e.op, Print(e.right, level + 1) + suffix, level);
  }

  lemma OnlyPrefixIs9(e: Tree)
    ensures Level(e) == 9 <==> e.Prefix?
  {
  }

  /** A tree other than a prefix form, where a prefix form may stand, does not begin with an operator. */
  lemma NoPrefixAhead(e: Tree)
    requires Printable(e) && !e.Prefix?
    ensures Print(e, 9) == Print(e, 10) && Print(e, 10) != [] && !IsPrefix(Print(e, 10)[0].typ)
  {
    OnlyPrefixIs9(e);
    assert Print(e, 9) == Print(e, 10);
    hide Print, Level, Printable;
    PrintShape(e, 10);
  }

  lemma {:induction false} PrefixTrip(e: Tree, suffix: seq<Token>)
    requires Printable(e) && Stops(Peek(suffix), 9)
    ensures ParseBinary(Print(e, 9) + suffix, 9) == Parsed(e, suffix)
    decreases e, ParenFlag(e, 9), 21
  {
    OnlyPrefixIs9(e);
    hide Level, Printable, ParseExpression, ParseBinary, BinaryRest, ParsePrefix, ParsePostfix, PostfixRest,
      ParsePrimary, ParseArgs, ParseType, Print, Body, PrintArgs;
    if e.Prefix? {
      OperatorTrip(e, suffix);
    } else {
      NoPrefixAhead(e);
      BeginsWith(Print(e, 10), suffix);
      RoundTrip(e, 10, suffix);
      PrefixStep(Print(e, 10) + suffix);
    }
  }

  lemma {:induction false} OperatorTrip(e: Tree, suffix: seq<Token>)
    requires Printable(e) && e.Prefix? && Stops(Peek(suffix), 9)
    ensures ParseBinary(Print(e, 9) + suffix, 9) == Parsed(e, suffix)
    decreases e, 0, 20
  {
    var x := Print(e.arg, 9);
    assert Print(e, 9) + suffix == [e.op] + (x + suffix);
    hide ParseExpression, ParseBinary, BinaryRest, ParsePrefix, ParsePostfix, PostfixRest, ParsePrimary, ParseArgs,
      ParseType, Print, Body, PrintArgs;
    Begins(e.op, x + suffix);
    RoundTrip(e.arg, 9, suffix);
    PrefixStep([e.op] + (x + suffix));
  }

  lemma TypeTrip(t: Type, suffix: seq<Token>)
    requires PrintableType(t) && (t.Builtin? ==> Peek(suffix).typ != Scope)
    ensures ParseType(PrintType(t) + suffix) == (Some(t), suffix)
  {
    var ts := PrintType(t) + suffix;
    assert Peek(ts) == t.tok;
    assert SkipWord(ts, {"unsigned", "signed"}) == ts && SkipWord(ts, {"const"}) == ts;
    hide SkipWord;
    if t.Builtin? {
      assert Advance(ts) == suffix;
    } else {
      assert Advance(ts) == [Token(Scope, "::")] + ([Ident(t.member)] + suffix);
      Begins(Token(Scope, "::"), [Ident(t.member)] + suffix);
      Begins(Ident(t.member), suffix);
    }
  }

  /** The postfix forms, left to right. */
  lemma {:induction false} PostfixSpine(e: Tree, suffix: seq<Token>)
    requires Printable(e)
    requires e.Cast? && e.typ.value.Builtin? && Level(e) == 10 ==> Peek(suffix).typ != Scope
    ensures ParsePostfix(Print(e, 10) + suffix) == PostfixRest(e, suffix)
    decreases e, ParenFlag(e, 10), 19
  {
    if Level(e) != 10 {
      assert Print(e, 10) == Print(e, 11);
      PrimaryTrip(e, suffix);
    } else if e.Call? {
      CallSpine(e, suffix);
    } else if e.Index? {
      IndexSpine(e, suffix);
    } else if e.Cast? {
      CastSpine(e, suffix);
    } else if e.Member? {
      MemberSpine(e, suffix);
    } else {
      ScopedSpine(e, suffix);
    }
  }

  lemma {:induction false} CallSpine(e: Tree, suffix: seq<Token>)
    requires Printable(e) && e.Call?
    ensures ParsePostfix(Print(e, 10) + suffix) == PostfixRest(e, suffix)
    decreases e, 0, 18
  {
    var s1 := PrintArgs(e.args) + ([CLOSE] + suffix);
    assert Print(e, 10) + suffix == Print(e.func, 10) + ([OPEN] + s1);
    Begins(OPEN, s1);
    Begins(CLOSE, suffix);
    hide ParseExpression, ParseBinary, BinaryRest, ParsePrefix, ParsePostfix, PostfixRest, ParsePrimary, ParseArgs,
      ParseType, Print, Body, PrintArgs;
    PostfixSpine(e.func, [OPEN] + s1);
    ArgsTrip(e.args, suffix);
    CallStep(e.func, s1);
  }

  lemma {:induction false} IndexSpine(e: Tree, suffix: seq<Token>)
    requires Printable(e) && e.Index?
    ensures ParsePostfix(Print(e, 10) + suffix) == PostfixRest(e, suffix)
    decreases e, 0, 18
  {
    var left, right := Token(LBracket, "["), Token(RBracket, "]");
    var s1 := Print(e.index, 0) + ([right] + suffix);
    assert Print(e, 10) + suffix == Print(e.base, 10) + ([left] + s1);
    Begins(left, s1);
    Begins(right, suffix);
    hide ParseExpression, ParseBinary, BinaryRest, ParsePrefix, ParsePostfix, PostfixRest, ParsePrimary, ParseArgs,
      ParseType, Print, Body, PrintArgs;
    PostfixSpine(e.base, [left] + s1);
    RoundTrip(e.index, 0, [right] + suffix);
    IndexStep(e.base, left, s1);
  }

  lemma {:induction false} CastSpine(e: Tree, suffix: seq<Token>)
    requires Printable(e) && e.Cast? && (e.typ.value.Builtin? ==> Peek(suffix).typ != Scope)
    ensures ParsePostfix(Print(e, 10) + suffix) == PostfixRest(e, suffix)
    decreases e, 0, 18
  {
    var s1 := PrintType(e.typ.value) + suffix;
    assert Print(e, 10) + suffix == Print(e.arg, 10) + ([AS] + s1);
    TypeTrip(e.typ.value, suffix);
    Begins(AS, s1);
    hide ParseExpression, ParseBinary, BinaryRest, ParsePrefix, ParsePostfix, PostfixRest, ParsePrimary, ParseArgs,
      ParseType, Print, Body, PrintArgs;
    PostfixSpine(e.arg, [AS] + s1);
    CastStep(e.arg, s1);
  }

  lemma {:induction false} MemberSpine(e: Tree, suffix: seq<Token>)
    requires Printable(e) && e.Member?
    ensures ParsePostfix(Print(e, 10) + suffix) == PostfixRest(e, suffix)
    decreases e, 0, 18
  {
    var t := Token(Dot, ".");
    var s1 := [Ident(e.field)] + suffix;
    Begins(t, s1);
    assert Print(e, 10) + suffix == Print(e.base, 10) + ([t] + s1);
    hide ParseExpression, ParseBinary, BinaryRest, ParsePrefix, ParsePostfix, PostfixRest, ParsePrimary, ParseArgs,
      ParseType, Print, Body, PrintArgs;
    PostfixSpine(e.base, [t] + s1);
    NameStep(e.base, t, e.field, suffix);
  }

  lemma {:induction false} ScopedSpine(e: Tree, suffix: seq<Token>)
    requires Printable(e) && e.Scoped?
    ensures ParsePostfix(Print(e, 10) + suffix) == PostfixRest(e, suffix)
    decreases e, 0, 18
  {
    var t := Token(Scope, "::");
    var s1 := [Ident(e.field)] + suffix;
    Begins(t, s1);
    assert Print(e, 10) + suffix == PrintScope(e.base) + ([t] + s1);
    assert PrintScope(e.base) == if EndsInType(e.base) then Paren(e.base) else Print(e.base, 10);
    hide ParseExpression, ParseBinary, BinaryRest, ParsePrefix, ParsePostfix, PostfixRest, ParsePrimary, ParseArgs,
      ParseType, Print, Body, PrintArgs, PrintScope;
    NameStep(e.base, t, e.field, suffix);
    if EndsInType(e.base) {
      ParenTrip(e.base, [t] + s1);
      PostfixStep(Paren(e.base) + ([t] + s1));
    } else {
      PostfixSpine(e.base, [t] + s1);
    }
  }

  lemma {:induction false} ArgsTrip(es: seq<Tree>, suffix: seq<Token>)
    requires AllPrintable(es)
    ensures ParseArgs(PrintArgs(es) + ([CLOSE] + suffix)) == Args(es, [CLOSE] + suffix)
    decreases es, 0, 2
  {
    if es == [] {
      Begins(CLOSE, suffix);
      assert PrintArgs(es) + ([CLOSE] + suffix) == [CLOSE] + suffix;
      hide ParseArgs;
      ArgsStep([CLOSE] + suffix);
    } else if |es| == 1 {
      LastArgTrip(es, suffix);
    } else {
      NextArgTrip(es, suffix);
    }
  }

  lemma PrintedHead(e: Tree)
    requires Printable(e)
    ensures Print(e, 0) != [] && Print(e, 0)[0].typ != RParen && Print(e, 0)[0].typ != EOF
  {
    PrintShape(e, 0);
  }

  lemma {:induction false} LastArgTrip(es: seq<Tree>, suffix: seq<Token>)
    requires AllPrintable(es) && |es| == 1
    ensures ParseArgs(PrintArgs(es) + ([CLOSE] + suffix)) == Args(es, [CLOSE] + suffix)
    decreases es, 0, 1
  {
    var first := Print(es[0], 0);
    assert PrintArgs(es) == first;
    hide ParseArgs, ParseExpression, Print, PrintArgs, Level;
    PrintedHead(es[0]);
    BeginsWith(first, [CLOSE] + suffix);
    Begins(CLOSE, suffix);
    RoundTrip(es[0], 0, [CLOSE] + suffix);
    ArgsStep([CLOSE] + suffix);
    ArgsStep(first + ([CLOSE] + suffix));
    assert [es[0]] + [] == es;
  }

  lemma {:induction false} NextArgTrip(es: seq<Tree>, suffix: seq<Token>)
    requires AllPrintable(es) && |es| > 1
    ensures ParseArgs(PrintArgs(es) + ([CLOSE] + suffix)) == Args(es, [CLOSE] + suffix)
    decreases es, 0, 1
  {
    var comma := Token(Comma, ",");
    var s0 := [CLOSE] + suffix;
    assert PrintArgs(es) == Print(es[0], 0) + [comma] + PrintArgs(es[1..]);
    assert Stops(comma, 0) && Expect([comma] + (PrintArgs(es[1..]) + s0), Comma) == PrintArgs(es[1..]) + s0 by {
      Begins(comma, PrintArgs(es[1..]) + s0);
    }
    hide ParseArgs, ParseExpression, Print, PrintArgs, Printable, Level, OpLevel, Stops, Expect, NoTypeAhead;
    var first, s1 := Print(es[0], 0), PrintArgs(es[1..]) + s0;
    Regroup(first, comma, PrintArgs(es[1..]), s0);
    PrintedHead(es[0]);
    BeginsWith(first, [comma] + s1);
    RoundTrip(es[0], 0, [comma] + s1);
    ArgsTrip(es[1..], suffix);
    ArgsStep(first + ([comma] + s1));
    assert [es[0]] + es[1..] == es;
  }

  lemma {:induction false} PrimaryTrip(e: Tree, suffix: seq<Token>)
    requires Printable(e) && !ReadsAsType(e)
    ensures ParsePrimary(Print(e, 11) + suffix) == Parsed(e, suffix)
    decreases e, ParenFlag(e, 11), 17
  {
    if Level(e) < 11 {
      assert Print(e, 11) == Paren(e);
      hide ParsePrimary, Print, Paren;
      ParenTrip(e, suffix);
    } else if e.Place? {
      PlaceTrip(e, suffix);
    } else {
      AtomTrip(e, suffix);
    }
  }

  lemma {:induction false} PlaceTrip(e: Tree, suffix: seq<Token>)
    requires Printable(e) && e.Place?
    ensures ParsePrimary(Print(e, 11) + suffix) == Parsed(e, suffix)
    decreases e, 0, 16
  {
    var dollar := Token(Dollar, "$");
    assert Print(e, 11) == [dollar] + PrintPlace(e.arg) && Printable(e.arg);
    assert PrintPlace(e.arg) == if ReadsAsType(e.arg) then [OPEN] + Paren(e.arg) + [CLOSE] else Print(e.arg, 11);
    hide *;
    assert [dollar] + PrintPlace(e.arg) + suffix == [dollar] + (PrintPlace(e.arg) + suffix);
    if ReadsAsType(e.arg) {
      TypeTwiceTrip(e.arg, suffix);
    } else {
      PrimaryTrip(e.arg, suffix);
    }
    PlaceStep(dollar, PrintPlace(e.arg) + suffix);
  }

  lemma PlaceStep(t: Token, ts: seq<Token>)
    requires t.typ == Dollar
    ensures var r := ParsePrimary(ts);
            r.Parsed? ==> ParsePrimary([t] + ts) == Parsed(Place(r.e), r.rest)
  {
    Begins(t, ts);
    hide ParseParenthesized;
  }

  /** A primary that nothing continues is the whole expression. */
  lemma {:induction false} Climb(ts: seq<Token>, level: int)
    requires 1 <= level <= 9 && ParsePrimary(ts).Parsed?
    requires !IsPrefix(Peek(ts).typ) && Stops(Peek(ParsePrimary(ts).rest), 0)
    ensures ParseBinary(ts, level) == ParsePrimary(ts)
    decreases 9 - level
  {
    hide ParsePrimary;
    if level < 9 {
      Climb(ts, level + 1);
      LevelStep(ts, level);
    } else {
      PostfixStep(ts);
      PrefixStep(ts);
    }
  }

  lemma TwoClosings(e: Tree, suffix: seq<Token>)
    requires Printable(e) && ReadsAsType(e)
    ensures Print(e, 0) == Body(e)
    ensures !LooksLikeCast(Print(e, 0) + ([CLOSE] + ([CLOSE] + suffix)))
  {
    var first := Body(e.base)[0];
    assert Body(e.base) == [first] && PrintScope(e.base) == Body(e.base);
    assert Body(e) == [first, Token(Scope, "::"), Ident(e.field)] && PrintableType(Builtin(first));
    Unparenthesized(e, 0);
    hide Print, Body, Printable;
    TypeTrip(Custom(first, e.field), [CLOSE] + ([CLOSE] + suffix));
    Begins(CLOSE, [CLOSE] + suffix);
    Begins(CLOSE, suffix);
  }

  /** With two pairs of parentheses a scoped name is not taken for a cast. */
  lemma {:induction false} TypeTwiceTrip(e: Tree, suffix: seq<Token>)
    requires Printable(e) && ReadsAsType(e)
    ensures ParsePrimary([OPEN] + Paren(e) + [CLOSE] + suffix) == Parsed(e, suffix)
    decreases e, 1, 15
  {
    TwoClosings(e, suffix);
    var s1 := [CLOSE] + suffix;
    var inner := Print(e, 0) + ([CLOSE] + s1);
    var outer := [OPEN] + inner;
    assert Paren(e) == [OPEN] + Print(e, 0) + [CLOSE];
    assert [OPEN] + Paren(e) + [CLOSE] + suffix == [OPEN] + outer;
    hide ParseExpression, ParseBinary, BinaryRest, ParsePrefix, ParsePostfix, PostfixRest, ParsePrimary, ParseArgs,
      Print, Body, Paren, LooksLikeCast, ParseType, Printable;
    Begins(OPEN, inner);
    Begins(CLOSE, s1);
    Begins(OPEN, outer);
    Begins(CLOSE, suffix);
    RoundTrip(e, 0, [CLOSE] + s1);
    ParenStep(outer);
    Climb(outer, 1);
    ExpressionOf(outer);
    assert !LooksLikeCast(outer) by {
      ParenIsNoType(inner);
    }
    ParenStep([OPEN] + outer);
  }

  lemma ParenIsNoType(inner: seq<Token>)
    ensures !LooksLikeCast([OPEN] + inner)
  {
    Begins(OPEN, inner);
  }

  lemma ExpressionOf(ts: seq<Token>)
    requires ParseBinary(ts, 1).Parsed? && Peek(ParseBinary(ts, 1).rest).typ != Question
    ensures ParseExpression(ts) == ParseBinary(ts, 1)
  {
    hide ParseBinary;
  }

  lemma AtomTrip(e: Tree, suffix: seq<Token>)
    requires Printable(e) && Level(e) == 11 && !e.Place?
    ensures ParsePrimary(Print(e, 11) + suffix) == Parsed(e, suffix)
  {
    assert Print(e, 11) == Body(e);
    var t := Body(e)[0];
    assert Body(e) == [t] && !e.Absent?;
    assert e == match t.typ
                case Integer => IntegerLiteral(t)
                case Float => FloatLiteral(t)
                case String => StringLiteral(t)
                case Char => CharLiteral(t)
                case Identifier => Name(t)
                case _ => if t.lit == "null" then NullLiteral else BoolLiteral(t.lit == "true");
    assert t.typ in {Integer, Float, String, Char, Identifier, Keyword};
    assert t.typ == Keyword ==> t.lit in {"true", "false", "null"};
    hide Print, Body, Level, Printable;
    Begins(t, suffix);
  }

  lemma ParenIs(e: Tree)
    requires Printable(e)
    ensures 0 <= Level(e) && Paren(e) == [OPEN] + Body(e) + [CLOSE]
  {
    hide Body;
  }

  lemma PrintedParen(e: Tree, suffix: seq<Token>)
    requires Printable(e) && Level(e) < 11 && !ReadsAsType(e)
    ensures Paren(e) + suffix == [OPEN] + (Print(e, 0) + ([CLOSE] + suffix))
    ensures !LooksLikeCast(Print(e, 0) + ([CLOSE] + suffix))
  {
    hide *;
    ParenIs(e);
    Unparenthesized(e, 0);
    NotACast(e, suffix);
    assert Body(e) + [CLOSE] + suffix == Body(e) + ([CLOSE] + suffix);
    assert [OPEN] + Body(e) + [CLOSE] + suffix == [OPEN] + (Body(e) + ([CLOSE] + suffix));
  }

  /** Parentheses: the cast guess is undone, and the tree inside comes back. */
  lemma {:induction false} ParenTrip(e: Tree, suffix: seq<Token>)
    requires Printable(e) && Level(e) < 11 && !ReadsAsType(e)
    ensures ParsePrimary(Paren(e) + suffix) == Parsed(e, suffix)
    decreases e, 1, 15
  {
    PrintedParen(e, suffix);
    hide Printable, Paren, LooksLikeCast, ParseExpression, ParseBinary, BinaryRest, ParsePrefix, ParsePostfix,
      PostfixRest, ParsePrimary, ParseArgs, ParseType, Print, Body, PrintArgs;
    Begins(OPEN, Print(e, 0) + ([CLOSE] + suffix));
    Begins(CLOSE, suffix);
    RoundTrip(e, 0, [CLOSE] + suffix);
    ParenStep([OPEN] + (Print(e, 0) + ([CLOSE] + suffix)));
  }

  /** Different trees never print alike. */
  lemma PrintIsInjective(e: Tree, f: Tree)
    requires Printable(e) && Printable(f) && Print(e, 0) == Print(f, 0)
    ensures e == f
  {
    assert Stops(Peek([]), 0);
    hide Print, Printable, ParseExpression;
    RoundTrip(e, 0, []);
    RoundTrip(f, 0, []);
  }

  // ---------------------------------------------------------------- what is lost otherwise

  /** A parenthesized name before another operand is read as a cast, so calling a parenthesized name
      does not come back as a call. */
  lemma ParenthesizedNameIsACast(a: string, x: string, suffix: seq<Token>)
    ensures ParsePrimary([OPEN, Ident(a), CLOSE, Ident(x)] + suffix)
            == Parsed(Cast(Some(Builtin(Ident(a))), Name(Ident(x))), suffix)
  {
    var s3 := [Ident(x)] + suffix;
    var s2 := [CLOSE] + s3;
    var s1 := [Ident(a)] + s2;
    assert [OPEN, Ident(a), CLOSE, Ident(x)] + suffix == [OPEN] + s1;
    Begins(OPEN, s1);
    Begins(Ident(a), s2);
    Begins(CLOSE, s3);
    Begins(Ident(x), suffix);
    assert ParseType(s1) == (Some(Builtin(Ident(a))), s2);
    assert ParsePrimary(s3) == Parsed(Name(Ident(x)), suffix);
    assert LooksLikeCast(s1);
    hide ParseType, LooksLikeCast;
  }
}

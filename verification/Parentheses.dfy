/** No token list that the parser reads as a tree has fewer opening parentheses than the printed form. */
module Parentheses {
  import opened Text
  import opened Grammar
  import opened Printer

  // ---------------------------------------------------------------- counting

  /** The opening parentheses of a token list, those of calls included. */
  function Opens(ts: seq<Token>): nat {
    if ts == [] then 0 else (if ts[0].typ == LParen then 1 else 0) + Opens(ts[1..])
  }

  lemma {:induction false} OpensJoin(a: seq<Token>, b: seq<Token>)
    ensures Opens(a + b) == Opens(a) + Opens(b)
  {
    if a == [] {
      assert a + b == b;
    } else {
      assert (a + b)[1..] == a[1..] + b;
      OpensJoin(a[1..], b);
    }
  }

  lemma OpensAdvance(ts: seq<Token>)
    ensures Opens(ts) == Opens(Advance(ts)) + if Peek(ts).typ == LParen then 1 else 0
    ensures Peek(ts).typ != EOF ==> |Advance(ts)| < |ts|
  {
  }

  lemma OpensExpect(ts: seq<Token>, typ: TokenType)
    requires typ != LParen
    ensures Opens(Expect(ts, typ)) == Opens(ts)
  {
    OpensAdvance(ts);
  }

  lemma OpensSkip(ts: seq<Token>, words: set<string>)
    ensures Opens(SkipWord(ts, words)) <= Opens(ts)
  {
    OpensAdvance(ts);
    hide Opens;
  }

  lemma OpensType(ts: seq<Token>)
    ensures Opens(ParseType(ts).1) <= Opens(ts)
    ensures ParseType(ts).0.Some? && ParseType(ts).0.value.Builtin? ==> Peek(ParseType(ts).1).typ != Scope
  {
    var first := SkipWord(ts, {"unsigned", "signed"});
    var named := SkipWord(first, {"const"});
    OpensSkip(ts, {"unsigned", "signed"});
    OpensSkip(first, {"const"});
    OpensAdvance(named);
    OpensAdvance(Advance(named));
    OpensAdvance(Advance(Advance(named)));
    hide Opens, SkipWord;
  }

  // ---------------------------------------------------------------- what a tree needs

  /** The opening parentheses that a tree needs where `level` is expected. */
  function Need(e: Tree, level: int): nat
    decreases e, 2
  {
    Inner(e) + if Level(e) < level then 1 else 0
  }

  function NeedScope(e: Tree): nat
    decreases e, 3
  {
    if EndsInType(e) then 1 + Inner(e) else Need(e, 10)
  }

  function Inner(e: Tree): nat
    decreases e, 0
  {
    match e
    case Binary(_, l, r) => Need(l, Level(e)) + Need(r, Level(e) + 1)
    case Prefix(_, x) => Need(x, 9)
    case Ternary(c, y, n) => Need(c, 1) + Need(y, 0) + Need(n, 0)
    case Call(f, args) => Need(f, 10) + 1 + NeedAll(args)
    case Index(b, i) => Need(b, 10) + Need(i, 0)
    case Member(b, _) => Need(b, 10)
    case Scoped(b, _) => NeedScope(b)
    case Cast(_, x) => Need(x, 10)
    case Place(x) => Need(x, 11)
    case _ => 0
  }

  function NeedAll(es: seq<Tree>): nat
    decreases es, 0
  {
    if es == [] then 0 else Need(es[0], 0) + NeedAll(es[1..])
  }

  /** The second pairs that the printer puts around a scoped plain name behind `$`. */
  function Doubled(e: Tree): nat
    decreases e, 0
  {
    match e
    case Binary(_, l, r) => Doubled(l) + Doubled(r)
    case Prefix(_, x) => Doubled(x)
    case Ternary(c, y, n) => Doubled(c) + Doubled(y) + Doubled(n)
    case Call(f, args) => Doubled(f) + AllDoubled(args)
    case Index(b, i) => Doubled(b) + Doubled(i)
    case Member(b, _) => Doubled(b)
    case Scoped(b, _) => Doubled(b)
    case Cast(_, x) => Doubled(x)
    case Place(x) => Doubled(x) + if ReadsAsType(x) then 1 else 0
    case _ => 0
  }

  function AllDoubled(es: seq<Tree>): nat
    decreases es, 0
  {
    if es == [] then 0 else Doubled(es[0]) + AllDoubled(es[1..])
  }

  /** The printed form has what the tree needs, and the second pairs. */
  lemma {:induction false} OpensOfPrint(e: Tree, level: int)
    requires Printable(e)
    ensures Opens(Print(e, level)) == Need(e, level) + Doubled(e)
    decreases e, 2
  {
    OpensOfBody(e);
    OpensOfParen(e);
    hide Body, Inner, Doubled, Opens, Paren;
  }

  lemma OpensOfParen(e: Tree)
    requires Printable(e)
    ensures Opens(Paren(e)) == 1 + Opens(Body(e))
  {
    OpensJoin([OPEN] + Body(e), [CLOSE]);
    OpensJoin([OPEN], Body(e));
    assert Opens([OPEN]) == 1 && Opens([CLOSE]) == 0;
  }

  lemma OpensOfOne(t: Token)
    ensures Opens([t]) == if t.typ == LParen then 1 else 0
  {
  }

  lemma {:induction false} OpensOfBody(e: Tree)
    requires Printable(e)
    ensures Opens(Body(e)) == Inner(e) + Doubled(e)
    decreases e, 1
  {
    match e
    case Binary(op, l, r) =>
      OpensOfPrint(l, Level(e));
      OpensOfPrint(r, Level(e) + 1);
      OpensOfThree(Print(l, Level(e)), op, Print(r, Level(e) + 1));
    case Prefix(op, x) =>
      OpensOfPrint(x, 9);
      OpensJoin([op], Print(x, 9));
      OpensOfOne(op);
    case Ternary(c, y, n) =>
      OpensOfTernary(e);
    case Call(f, args) =>
      OpensOfCall(e);
    case Index(b, i) =>
      OpensOfIndex(e);
    case Member(b, name) =>
      OpensOfPrint(b, 10);
      OpensOfThree(Print(b, 10), Token(Dot, "."), [Ident(name)]);
      OpensOfOne(Ident(name));
    case Scoped(b, name) =>
      OpensOfScope(b);
      OpensOfThree(PrintScope(b), Token(Scope, "::"), [Ident(name)]);
      OpensOfOne(Ident(name));
    case Cast(t, x) =>
      OpensOfPrint(x, 10);
      OpensOfThree(Print(x, 10), AS, PrintType(t.value));
      OpensOfTypeText(t.value);
    case Place(x) =>
      OpensOfPlace(x);
      OpensJoin([Token(Dollar, "$")], PrintPlace(x));
      OpensOfOne(Token(Dollar, "$"));
    case _ =>
      OpensOfAtom(e);
  }

  lemma OpensOfAtom(e: Tree)
    requires Printable(e)
    ensures Level(e) == 11 && !e.Place? ==> Opens(Body(e)) == 0
  {
    if Level(e) == 11 && !e.Place? {
      var t := Body(e)[0];
      assert Body(e) == [t];
      OpensOfOne(t);
    }
  }

  lemma OpensOfThree(a: seq<Token>, t: Token, b: seq<Token>)
    ensures Opens(a + [t] + b) == Opens(a) + Opens(b) + if t.typ == LParen then 1 else 0
  {
    OpensJoin(a + [t], b);
    OpensJoin(a, [t]);
    OpensOfOne(t);
  }

  lemma OpensOfTypeText(t: Type)
    requires PrintableType(t)
    ensures Opens(PrintType(t)) == 0
  {
    match t
    case Builtin(tok) => OpensOfOne(tok);
    case Custom(tok, member) =>
      OpensOfThree([tok], Token(Scope, "::"), [Ident(member)]);
      OpensOfOne(tok);
      OpensOfOne(Ident(member));
  }

  lemma {:induction false} OpensOfTernary(e: Tree)
    requires Printable(e) && e.Ternary?
    ensures Opens(Body(e)) == Inner(e) + Doubled(e)
    decreases e, 0
  {
    OpensOfPrint(e.cond, 1);
    OpensOfPrint(e.yes, 0);
    OpensOfPrint(e.no, 0);
    var c, y, n := Print(e.cond, 1), Print(e.yes, 0), Print(e.no, 0);
    assert Body(e) == c + [Token(Question, "?")] + y + [Token(Colon, ":")] + n;
    OpensOfThree(c + [Token(Question, "?")] + y, Token(Colon, ":"), n);
    OpensOfThree(c, Token(Question, "?"), y);
  }

  lemma {:induction false} OpensOfCall(e: Tree)
    requires Printable(e) && e.Call?
    ensures Opens(Body(e)) == Inner(e) + Doubled(e)
    decreases e, 0
  {
    OpensOfPrint(e.func, 10);
    OpensOfArgs(e.args);
    var f, args := Print(e.func, 10), PrintArgs(e.args);
    assert Body(e) == f + [OPEN] + args + [CLOSE];
    OpensJoin(f + [OPEN] + args, [CLOSE]);
    OpensOfThree(f, OPEN, args);
    OpensOfOne(CLOSE);
  }

  lemma {:induction false} OpensOfIndex(e: Tree)
    requires Printable(e) && e.Index?
    ensures Opens(Body(e)) == Inner(e) + Doubled(e)
    decreases e, 0
  {
    OpensOfPrint(e.base, 10);
    OpensOfPrint(e.index, 0);
    var b, i := Print(e.base, 10), Print(e.index, 0);
    assert Body(e) == b + [Token(LBracket, "[")] + i + [Token(RBracket, "]")];
    OpensJoin(b + [Token(LBracket, "[")] + i, [Token(RBracket, "]")]);
    OpensOfThree(b, Token(LBracket, "["), i);
    OpensOfOne(Token(RBracket, "]"));
  }

  lemma {:induction false} OpensOfScope(e: Tree)
    requires Printable(e)
    ensures Opens(PrintScope(e)) == NeedScope(e) + Doubled(e)
    decreases e, 3
  {
    OpensOfPrint(e, 10);
    OpensOfBody(e);
    OpensOfParen(e);
    hide Body, Inner, Doubled, Opens, Print, Need;
  }

  lemma {:induction false} OpensOfPlace(e: Tree)
    requires Printable(e)
    ensures Opens(PrintPlace(e)) == Need(e, 11) + Doubled(e) + if ReadsAsType(e) then 1 else 0
    decreases e, 3
  {
    OpensOfPrint(e, 11);
    assert ReadsAsType(e) ==> Print(e, 11) == Paren(e);
    OpensJoin([OPEN] + Paren(e), [CLOSE]);
    OpensJoin([OPEN], Paren(e));
    OpensOfOne(OPEN);
    OpensOfOne(CLOSE);
    hide Body, Inner, Doubled, Opens, Print, Need, Paren;
  }

  lemma {:induction false} OpensOfArgs(es: seq<Tree>)
    requires AllPrintable(es)
    ensures Opens(PrintArgs(es)) == NeedAll(es) + AllDoubled(es)
    decreases es, 0
  {
    if es != [] {
      OpensOfPrint(es[0], 0);
      if |es| == 1 {
        assert es[1..] == [];
      } else {
        OpensOfArgs(es[1..]);
        OpensOfThree(Print(es[0], 0), Token(Comma, ","), PrintArgs(es[1..]));
      }
    }
  }

  // ---------------------------------------------------------------- what the parser spends

  lemma NeedGrows(e: Tree, level: int, level': int)
    requires level <= level'
    ensures Inner(e) <= Need(e, level) <= Need(e, level') <= Inner(e) + 1
  {
  }

  lemma {:induction false} ExpressionPaid(ts: seq<Token>)
    ensures ParseExpression(ts).Parsed? ==>
              Need(ParseExpression(ts).e, 0) + Opens(ParseExpression(ts).rest) <= Opens(ts)
    decreases |ts|, 30
  {
    ExpressionStep(ts);
    BinaryPaid(ts, 1);
    hide *;
    var r := ParseBinary(ts, 1);
    if r.Parsed? {
      NeedGrows(r.e, 0, 1);
      if Peek(r.rest).typ == Question {
        BranchesPaid(r.e, r.rest);
      }
    }
  }

  lemma ExpressionStep(ts: seq<Token>)
    ensures ParseExpression(ts).Parsed? ==>
              && ParseBinary(ts, 1).Parsed?
              && var q := ParseBinary(ts, 1).rest;
                 if Peek(q).typ != Question then ParseExpression(ts) == ParseBinary(ts, 1)
                 else
                   && ParseExpression(Advance(q)).Parsed?
                   && var r1 := ParseExpression(Advance(q));
                      var r2 := ParseExpression(Expect(r1.rest, Colon));
                      r2.Parsed? && ParseExpression(ts) == Parsed(Ternary(ParseBinary(ts, 1).e, r1.e, r2.e), r2.rest)
  {
    hide ParseBinary;
  }

  lemma {:induction false} BranchesPaid(cond: Tree, ts: seq<Token>)
    requires Peek(ts).typ == Question
    ensures ParseExpression(Advance(ts)).Parsed? ==>
              var r1 := ParseExpression(Advance(ts));
              var r2 := ParseExpression(Expect(r1.rest, Colon));
              r2.Parsed? ==>
                Need(Ternary(cond, r1.e, r2.e), 0) + Opens(r2.rest) <= Need(cond, 1) + Opens(ts)
    decreases |ts|, 0
  {
    OpensAdvance(ts);
    ExpressionPaid(Advance(ts));
    var r1 := ParseExpression(Advance(ts));
    if r1.Parsed? {
      OpensExpect(r1.rest, Colon);
      var r2 := ParseExpression(Expect(r1.rest, Colon));
      ExpressionPaid(Expect(r1.rest, Colon));
      if r2.Parsed? {
        NeedOfTernary(cond, r1.e, r2.e);
      }
    }
    hide *;
  }

  lemma NeedOfTernary(c: Tree, y: Tree, n: Tree)
    ensures Need(Ternary(c, y, n), 0) == Need(c, 1) + Need(y, 0) + Need(n, 0)
  {
  }

  lemma {:induction false} BinaryPaid(ts: seq<Token>, level: int)
    requires 1 <= level <= 9
    ensures ParseBinary(ts, level).Parsed? ==>
              Need(ParseBinary(ts, level).e, level) + Opens(ParseBinary(ts, level).rest) <= Opens(ts)
    decreases |ts|, 25 - 2 * level
  {
    LevelSteps(ts, level);
    hide *;
    if level == 9 {
      PrefixPaid(ts);
    } else {
      BinaryPaid(ts, level + 1);
      var r := ParseBinary(ts, level + 1);
      if r.Parsed? {
        NeedGrows(r.e, level, level + 1);
        BinaryRestPaid(r.e, r.rest, level);
      }
    }
  }

  lemma LevelSteps(ts: seq<Token>, level: int)
    requires 1 <= level <= 9
    ensures level == 9 ==> ParseBinary(ts, level) == ParsePrefix(ts)
    ensures level < 9 && ParseBinary(ts, level).Parsed? ==>
              && ParseBinary(ts, level + 1).Parsed?
              && ParseBinary(ts, level) ==
                 BinaryRest(ParseBinary(ts, level + 1).e, ParseBinary(ts, level + 1).rest, level)
  {
    hide ParsePrefix, BinaryRest;
  }

  lemma {:induction false} BinaryRestPaid(left: Tree, ts: seq<Token>, level: int)
    requires 1 <= level <= 8
    ensures BinaryRest(left, ts, level).Parsed? ==>
              Need(BinaryRest(left, ts, level).e, level) + Opens(BinaryRest(left, ts, level).rest)
              <= Need(left, level) + Opens(ts)
    decreases |ts|, 24 - 2 * level
  {
    RestStep(left, ts, level);
    OpensAdvance(ts);
    assert OpLevel(Peek(ts).typ) == level ==> Peek(ts).typ != EOF && Peek(ts).typ != LParen;
    hide *;
    if OpLevel(Peek(ts).typ) == level {
      BinaryPaid(Advance(ts), level + 1);
      var r := ParseBinary(Advance(ts), level + 1);
      if r.Parsed? {
        NeedOfBinary(Peek(ts), left, r.e);
        BinaryRestPaid(Binary(Peek(ts), left, r.e), r.rest, level);
      }
    }
  }

  lemma RestStep(left: Tree, ts: seq<Token>, level: int)
    requires 1 <= level <= 8
    ensures BinaryRest(left, ts, level).Parsed? ==>
              if OpLevel(Peek(ts).typ) != level then BinaryRest(left, ts, level) == Parsed(left, ts)
              else
                var r := ParseBinary(Advance(ts), level + 1);
                r.Parsed? && BinaryRest(left, ts, level) == BinaryRest(Binary(Peek(ts), left, r.e), r.rest, level)
  {
    hide ParseBinary;
  }

  lemma NeedOfBinary(op: Token, l: Tree, r: Tree)
    ensures Need(Binary(op, l, r), OpLevel(op.typ)) == Need(l, OpLevel(op.typ)) + Need(r, OpLevel(op.typ) + 1)
  {
    hide OpLevel;
    var e := Binary(op, l, r);
    assert Level(e) == OpLevel(op.typ);
    assert Need(e, Level(e)) == Inner(e) == Need(l, Level(e)) + Need(r, Level(e) + 1);
    hide Need, Inner, Level;
  }

  lemma {:induction false} PrefixPaid(ts: seq<Token>)
    ensures ParsePrefix(ts).Parsed? ==> Need(ParsePrefix(ts).e, 9) + Opens(ParsePrefix(ts).rest) <= Opens(ts)
    decreases |ts|, 4
  {
    OpensAdvance(ts);
    PrefixSteps(ts);
    assert IsPrefix(Peek(ts).typ) ==> Peek(ts).typ != EOF && Peek(ts).typ != LParen;
    hide *;
    if IsPrefix(Peek(ts).typ) {
      PrefixPaid(Advance(ts));
      var r := ParsePrefix(Advance(ts));
      if r.Parsed? {
        NeedOfPrefix(Peek(ts), r.e);
      }
    } else {
      PostfixPaid(ts);
      var r := ParsePostfix(ts);
      if r.Parsed? {
        NeedGrows(r.e, 9, 10);
      }
    }
  }

  lemma PrefixSteps(ts: seq<Token>)
    ensures ParsePrefix(ts).Parsed? ==>
              if !IsPrefix(Peek(ts).typ) then ParsePrefix(ts) == ParsePostfix(ts)
              else
                var r := ParsePrefix(Advance(ts));
                r.Parsed? && ParsePrefix(ts) == Parsed(Prefix(Peek(ts), r.e), r.rest)
  {
    hide ParsePostfix;
  }

  lemma NeedOfPrefix(op: Token, x: Tree)
    ensures Need(Prefix(op, x), 9) == Need(x, 9)
  {
  }

  lemma {:induction false} PostfixPaid(ts: seq<Token>)
    ensures ParsePostfix(ts).Parsed? ==> Need(ParsePostfix(ts).e, 10) + Opens(ParsePostfix(ts).rest) <= Opens(ts)
    decreases |ts|, 3
  {
    PrimaryPaid(ts);
    assert ParsePostfix(ts).Parsed? ==>
        ParsePrimary(ts).Parsed? && ParsePostfix(ts) == PostfixRest(ParsePrimary(ts).e, ParsePrimary(ts).rest) by {
      hide ParsePrimary, PostfixRest;
    }
    var r := ParsePrimary(ts);
    if r.Parsed? {
      PostfixRestPaid(r.e, r.rest);
      SideNeedsLess(r.e, Peek(r.rest));
    }
    hide *;
  }

  /** What the left side of a postfix form needs before token `t`. */
  function NeedSide(left: Tree, t: Token): nat {
    if t.typ == Scope then NeedScope(left) else Need(left, 10)
  }

  lemma SideNeedsLess(e: Tree, t: Token)
    ensures NeedSide(e, t) <= Need(e, 11)
  {
    assert Level(e) <= 11 && (EndsInType(e) ==> Level(e) == 10);
    assert NeedScope(e) == if EndsInType(e) then 1 + Inner(e) else Need(e, 10);
    SideIs(e, t);
    NeedGrows(e, 10, 11);
    hide Inner;
  }

  lemma SideIs(left: Tree, t: Token)
    ensures NeedSide(left, t) == if t.typ == Scope then NeedScope(left) else Need(left, 10)
  {
  }

  /** What a postfix form needs before token `t`. */
  lemma NeedOfPostfix(e: Tree, t: Token)
    ensures e.Call? ==> NeedSide(e, t) == Need(e.func, 10) + 1 + NeedAll(e.args)
    ensures e.Index? ==> NeedSide(e, t) == Need(e.base, 10) + Need(e.index, 0)
    ensures e.Member? ==> NeedSide(e, t) == Need(e.base, 10)
    ensures e.Scoped? ==> NeedSide(e, t) == NeedScope(e.base)
    ensures e.Cast? && (EndsInType(e) ==> t.typ != Scope) ==> NeedSide(e, t) == Need(e.arg, 10)
  {
    assert Level(e) == 10 ==> Need(e, 10) == Inner(e);
    assert NeedScope(e) == if EndsInType(e) then 1 + Inner(e) else Need(e, 10);
    SideIs(e, t);
    hide Need, NeedSide, NeedScope;
  }

  lemma {:induction false} PostfixRestPaid(left: Tree, ts: seq<Token>)
    ensures PostfixRest(left, ts).Parsed? ==>
              Need(PostfixRest(left, ts).e, 10) + Opens(PostfixRest(left, ts).rest)
              <= NeedSide(left, Peek(ts)) + Opens(ts)
    decreases |ts|, 2
  {
    var t := Peek(ts);
    PostfixEnds(left, ts);
    SideIs(left, t);
    hide *;
    if t.typ == LParen {
      CallPaid(left, ts);
    } else if t.typ == LBracket {
      IndexPaid(left, ts);
    } else if t.typ == Dot || t.typ == Scope {
      NamePaid(left, ts);
    } else if t == AS {
      CastPaid(left, ts);
    }
  }

  lemma PostfixEnds(left: Tree, ts: seq<Token>)
    ensures Peek(ts).typ !in {LParen, LBracket, Dot, Scope} && Peek(ts) != AS ==>
              PostfixRest(left, ts) == Parsed(left, ts)
  {
    hide ParseArgs, ParseExpression, ParseType;
  }

  /** One postfix form read: the rest is paid for as well. */
  lemma {:induction false} GoesOn(left: Tree, ts: seq<Token>, e: Tree, q: seq<Token>)
    requires PostfixRest(left, ts).Parsed? ==> PostfixRest(left, ts) == PostfixRest(e, q)
    requires |q| < |ts| && NeedSide(e, Peek(q)) + Opens(q) <= NeedSide(left, Peek(ts)) + Opens(ts)
    ensures PostfixRest(left, ts).Parsed? ==>
              Need(PostfixRest(left, ts).e, 10) + Opens(PostfixRest(left, ts).rest)
              <= NeedSide(left, Peek(ts)) + Opens(ts)
    decreases |ts|, 0
  {
    hide *;
    PostfixRestPaid(e, q);
  }

  lemma {:induction false} CallPaid(left: Tree, ts: seq<Token>)
    requires Peek(ts).typ == LParen
    ensures PostfixRest(left, ts).Parsed? ==>
              Need(PostfixRest(left, ts).e, 10) + Opens(PostfixRest(left, ts).rest)
              <= NeedSide(left, Peek(ts)) + Opens(ts)
    decreases |ts|, 1
  {
    OpensAdvance(ts);
    CallSteps(left, ts);
    SideIs(left, Peek(ts));
    hide *;
    ArgsPaid(Advance(ts));
    var r := ParseArgs(Advance(ts));
    if r.Args? {
      var e, q := Call(left, r.es), Expect(r.rest, RParen);
      OpensExpect(r.rest, RParen);
      NeedOfPostfix(e, Peek(q));
      GoesOn(left, ts, e, q);
    }
  }

  lemma CallSteps(left: Tree, ts: seq<Token>)
    requires Peek(ts).typ == LParen
    ensures PostfixRest(left, ts).Parsed? ==>
              var r := ParseArgs(Advance(ts));
              r.Args? && PostfixRest(left, ts) == PostfixRest(Call(left, r.es), Expect(r.rest, RParen))
  {
    hide ParseArgs;
  }

  lemma {:induction false} IndexPaid(left: Tree, ts: seq<Token>)
    requires Peek(ts).typ == LBracket
    ensures PostfixRest(left, ts).Parsed? ==>
              Need(PostfixRest(left, ts).e, 10) + Opens(PostfixRest(left, ts).rest)
              <= NeedSide(left, Peek(ts)) + Opens(ts)
    decreases |ts|, 1
  {
    OpensAdvance(ts);
    IndexSteps(left, ts);
    SideIs(left, Peek(ts));
    hide *;
    ExpressionPaid(Advance(ts));
    var r := ParseExpression(Advance(ts));
    if r.Parsed? {
      var e, q := Index(left, r.e), Expect(r.rest, RBracket);
      OpensExpect(r.rest, RBracket);
      NeedOfPostfix(e, Peek(q));
      GoesOn(left, ts, e, q);
    }
  }

  lemma IndexSteps(left: Tree, ts: seq<Token>)
    requires Peek(ts).typ == LBracket
    ensures PostfixRest(left, ts).Parsed? ==>
              var r := ParseExpression(Advance(ts));
              r.Parsed? && PostfixRest(left, ts) == PostfixRest(Index(left, r.e), Expect(r.rest, RBracket))
  {
    hide ParseExpression;
  }

  lemma {:induction false} NamePaid(left: Tree, ts: seq<Token>)
    requires Peek(ts).typ == Dot || Peek(ts).typ == Scope
    ensures PostfixRest(left, ts).Parsed? ==>
              Need(PostfixRest(left, ts).e, 10) + Opens(PostfixRest(left, ts).rest)
              <= NeedSide(left, Peek(ts)) + Opens(ts)
    decreases |ts|, 1
  {
    var name, q := Peek(Advance(ts)).lit, Expect(Advance(ts), Identifier);
    var e := if Peek(ts).typ == Dot then Member(left, name) else Scoped(left, name);
    OpensAdvance(ts);
    OpensExpect(Advance(ts), Identifier);
    assert PostfixRest(left, ts) == PostfixRest(e, q);
    SideIs(left, Peek(ts));
    NeedOfPostfix(e, Peek(q));
    hide *;
    GoesOn(left, ts, e, q);
  }

  lemma {:induction false} CastPaid(left: Tree, ts: seq<Token>)
    requires Peek(ts) == AS
    ensures PostfixRest(left, ts).Parsed? ==>
              Need(PostfixRest(left, ts).e, 10) + Opens(PostfixRest(left, ts).rest)
              <= NeedSide(left, Peek(ts)) + Opens(ts)
    decreases |ts|, 1
  {
    OpensAdvance(ts);
    OpensType(Advance(ts));
    CastSteps(left, ts);
    SideIs(left, Peek(ts));
    var (typ, q) := ParseType(Advance(ts));
    NeedOfPostfix(Cast(typ, left), Peek(q));
    hide *;
    GoesOn(left, ts, Cast(typ, left), q);
  }

  lemma CastSteps(left: Tree, ts: seq<Token>)
    requires Peek(ts) == AS
    ensures PostfixRest(left, ts) == PostfixRest(Cast(ParseType(Advance(ts)).0, left), ParseType(Advance(ts)).1)
  {
    hide ParseType;
  }

  lemma {:induction false} ArgsPaid(ts: seq<Token>)
    ensures ParseArgs(ts).Args? ==> NeedAll(ParseArgs(ts).es) + Opens(ParseArgs(ts).rest) <= Opens(ts)
    decreases |ts|, 31
  {
    ArgsSteps(ts);
    hide *;
    if Peek(ts).typ == RParen || Peek(ts).typ == EOF {
      NeedNone();
    } else {
      ExpressionPaid(ts);
      var r := ParseExpression(ts);
      if r.Parsed? {
        var next := Expect(r.rest, Comma);
        OpensExpect(r.rest, Comma);
        if |next| < |ts| {
          ArgsPaid(next);
          NeedOneMore(r.e, ParseArgs(next));
        }
      }
    }
  }

  lemma ArgsSteps(ts: seq<Token>)
    ensures ParseArgs(ts).Args? ==>
              if Peek(ts).typ == RParen || Peek(ts).typ == EOF then ParseArgs(ts) == Args([], ts)
              else
                && ParseExpression(ts).Parsed?
                && var next := Expect(ParseExpression(ts).rest, Comma);
                   && |next| < |ts| && ParseArgs(next).Args?
                   && ParseArgs(ts) == Args([ParseExpression(ts).e] + ParseArgs(next).es, ParseArgs(next).rest)
  {
    hide ParseExpression;
  }

  lemma NeedNone()
    ensures NeedAll([]) == 0
  {
  }

  lemma NeedOneMore(e: Tree, r: ArgsResult)
    ensures r.Args? ==> NeedAll([e] + r.es) == Need(e, 0) + NeedAll(r.es)
  {
    if r.Args? {
      assert ([e] + r.es)[1..] == r.es;
    }
  }

  lemma {:induction false} PrimaryPaid(ts: seq<Token>)
    ensures ParsePrimary(ts).Parsed? ==> Need(ParsePrimary(ts).e, 11) + Opens(ParsePrimary(ts).rest) <= Opens(ts)
    decreases |ts|, 1
  {
    OpensAdvance(ts);
    PrimarySteps(ts);
    hide *;
    if Peek(ts).typ == LParen {
      ParenthesizedPaid(Advance(ts));
    } else if Peek(ts).typ == Dollar {
      PrimaryPaid(Advance(ts));
    }
  }

  lemma PrimarySteps(ts: seq<Token>)
    ensures ParsePrimary(ts).Parsed? ==>
              if Peek(ts).typ == LParen then ParsePrimary(ts) == ParseParenthesized(Advance(ts))
              else if Peek(ts).typ == Dollar then
                var r := ParsePrimary(Advance(ts));
                r.Parsed? && ParsePrimary(ts) == Parsed(Place(r.e), r.rest) && Need(Place(r.e), 11) == Need(r.e, 11)
              else
                && Need(ParsePrimary(ts).e, 11) == 0
                && (ParsePrimary(ts).rest == ts || ParsePrimary(ts).rest == Advance(ts))
  {
    if Peek(ts).typ == Dollar {
      NeedOfPlace(ParsePrimary(Advance(ts)));
      hide ParseParenthesized, Need;
    } else {
      AtomSteps(ts);
      hide ParseParenthesized, Need;
    }
  }

  lemma NeedOfPlace(r: Result)
    ensures r.Parsed? ==> Need(Place(r.e), 11) == Need(r.e, 11)
  {
  }

  lemma AtomSteps(ts: seq<Token>)
    ensures Peek(ts).typ !in {LParen, Dollar} ==>
              var r := ParsePrimary(ts);
              r.Parsed? && Need(r.e, 11) == 0 && (r.rest == ts || r.rest == Advance(ts))
  {
    hide ParseParenthesized;
  }

  lemma {:induction false} ParenthesizedPaid(inner: seq<Token>)
    ensures ParseParenthesized(inner).Parsed? ==>
              Need(ParseParenthesized(inner).e, 11) + Opens(ParseParenthesized(inner).rest) <= 1 + Opens(inner)
    decreases |inner|, 32
  {
    ParenthesizedSteps(inner);
    hide *;
    if LooksLikeCast(inner) {
      var (typ, q) := ParseType(inner);
      OpensType(inner);
      OpensAdvance(q);
      PrimaryPaid(Advance(q));
      var r := ParsePrimary(Advance(q));
      if r.Parsed? {
        NeedOfCast(typ, r.e);
      }
    } else {
      ExpressionPaid(inner);
      var r := ParseExpression(inner);
      if r.Parsed? {
        NeedGrows(r.e, 0, 11);
        OpensExpect(r.rest, RParen);
      }
    }
  }

  lemma NeedOfCast(typ: Option<Type>, x: Tree)
    ensures Need(Cast(typ, x), 11) <= 1 + Need(x, 11)
  {
    NeedGrows(x, 10, 11);
    assert Inner(Cast(typ, x)) == Need(x, 10);
  }

  lemma ParenthesizedSteps(inner: seq<Token>)
    ensures ParseParenthesized(inner).Parsed? ==>
              if LooksLikeCast(inner) then
                var (typ, q) := ParseType(inner);
                var r := ParsePrimary(Advance(q));
                r.Parsed? && ParseParenthesized(inner) == Parsed(Cast(typ, r.e), r.rest)
              else
                var r := ParseExpression(inner);
                r.Parsed? && ParseParenthesized(inner) == Parsed(r.e, Expect(r.rest, RParen))
  {
    hide ParseType, ParsePrimary, ParseExpression, LooksLikeCast;
  }

  // ---------------------------------------------------------------- the printed form has the fewest

  /** Whatever token list the parser reads as a printable tree, at least as many opening parentheses
      were read as the printed form has, second pairs aside. */
  lemma FewestParentheses(e: Tree, ts: seq<Token>, rest: seq<Token>)
    requires Printable(e) && ParseExpression(ts) == Parsed(e, rest)
    ensures Opens(Print(e, 0)) <= Opens(ts) - Opens(rest) + Doubled(e)
  {
    ExpressionPaid(ts);
    OpensOfPrint(e, 0);
  }

  function Cut(ts: seq<Token>, i: nat): seq<Token>
    requires i < |ts|
  {
    ts[..i] + ts[i + 1..]
  }

  lemma OpensCut(ts: seq<Token>, i: nat)
    requires i < |ts|
    ensures Opens(Cut(ts, i)) + (if ts[i].typ == LParen then 1 else 0) == Opens(ts)
  {
    assert ts == ts[..i] + [ts[i]] + ts[i + 1..];
    hide Opens;
    OpensOfThree(ts[..i], ts[i], ts[i + 1..]);
    OpensJoin(ts[..i], ts[i + 1..]);
  }

  /** A printed form that loses one of its pairs of parentheses is not read as the tree any more. */
  lemma EveryPairIsNeeded(e: Tree, i: nat, j: nat, rest: seq<Token>)
    requires Printable(e) && Doubled(e) == 0 && i < j < |Print(e, 0)|
    requires Print(e, 0)[i].typ == LParen && Print(e, 0)[j].typ == RParen
    ensures ParseExpression(Cut(Cut(Print(e, 0), j), i)) != Parsed(e, rest)
  {
    var ts := Print(e, 0);
    var shorter := Cut(ts, j);
    assert |shorter| == |ts| - 1 && shorter[i] == ts[i];
    hide *;
    OpensCut(ts, j);
    OpensCut(shorter, i);
    if ParseExpression(Cut(shorter, i)) == Parsed(e, rest) {
      FewestParentheses(e, Cut(shorter, i), rest);
    }
  }

  lemma CastRead(inner: seq<Token>)
    requires LooksLikeCast(inner)
    ensures var (typ, q) := ParseType(inner);
            var r := ParsePrimary(Advance(q));
            r.Parsed? ==> ParsePrimary([OPEN] + inner) == Parsed(Cast(typ, r.e), r.rest)
  {
    Begins(OPEN, inner);
    hide LooksLikeCast, ParseType, ParseExpression;
  }

  lemma NamePrimary(name: string, suffix: seq<Token>)
    ensures ParsePrimary([Ident(name)] + suffix) == Parsed(Name(Ident(name)), suffix)
  {
    Begins(Ident(name), suffix);
    hide ParseParenthesized;
  }

  /** With one pair a scoped plain name before an operand is read as a cast of that operand, so the
      second pair is needed there. */
  lemma SecondPairIsNeeded(a: string, b: string, x: string, suffix: seq<Token>)
    ensures ParsePrimary([OPEN, Ident(a), Token(Scope, "::"), Ident(b), CLOSE, Ident(x)] + suffix)
            == Parsed(Cast(Some(Custom(Ident(a), b)), Name(Ident(x))), suffix)
  {
    var typ, after := Custom(Ident(a), b), [Ident(x)] + suffix;
    var inner := PrintType(typ) + ([CLOSE] + after);
    assert [OPEN, Ident(a), Token(Scope, "::"), Ident(b), CLOSE, Ident(x)] + suffix == [OPEN] + inner;
    assert Peek(inner) == Ident(a) && NameLike(Ident(a));
    hide PrintType, ParseType, ParsePrimary;
    TypeTrip(typ, [CLOSE] + after);
    Begins(CLOSE, after);
    Begins(Ident(x), suffix);
    NamePrimary(x, suffix);
    CastRead(inner);
  }
}

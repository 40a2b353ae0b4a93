/** What the parser makes of concrete token lists: which operators bind tighter than which, and what each
    construct looks like. */
module Syntax {
  import opened Text
  import opened Grammar
  import opened Printer

  // ---------------------------------------------------------------- operands and what follows

  predicate IsAtom(t: Token) {
    t.typ == Integer || t.typ == Identifier
  }

  function Atom(t: Token): Tree {
    if t.typ == Integer then IntegerLiteral(t) else Name(t)
  }

  /** The binary operators by class, from the loosest to the tightest. */
  const CLASSES: seq<set<TokenType>> := [
    {Or}, {And}, {Xor}, {Equal, NotEqual}, {Less, Greater, LEqual, GEqual}, {LShift, RShift}, {Plus, Minus},
    {Asterisk, Slash, Percent}]

  /** A token that cannot continue an expression. */
  predicate Ends(t: Token) {
    && t != Token(Keyword, "as")
    && t.typ !in {Question, LParen, LBracket, Dot, Scope, Or, And, Xor, Equal, NotEqual, Less, Greater, LEqual, GEqual,
                  LShift, RShift, Plus, Minus, Asterisk, Slash, Percent}
  }

  lemma ClassIsLevel(t: Token, i: int)
    requires 0 <= i < 8 && t.typ in CLASSES[i]
    ensures OpLevel(t.typ) == i + 1
  {
  }

  lemma EndsStops(t: Token)
    requires Ends(t)
    ensures Stops(t, 0)
  {
  }

  lemma AtomPrints(t: Token, level: int)
    requires IsAtom(t) && level <= 11
    ensures Printable(Atom(t)) && Print(Atom(t), level) == [t]
  {
  }

  /** A tree whose printed form is known is what the parser makes of that form. */
  lemma Reads(e: Tree, ts: seq<Token>, suffix: seq<Token>)
    requires Printable(e) && Print(e, 0) == ts && Ends(Peek(suffix))
    ensures ParseExpression(ts + suffix) == Parsed(e, suffix)
  {
    EndsStops(Peek(suffix));
    RoundTrip(e, 0, suffix);
  }

  // ---------------------------------------------------------------- precedence

  lemma PairPrints(a: Token, o: Token, b: Token, i: int)
    requires IsAtom(a) && IsAtom(b) && 0 <= i < 8 && o.typ in CLASSES[i]
    ensures var e := Binary(o, Atom(a), Atom(b));
            Printable(e) && Level(e) == i + 1 && Body(e) == [a, o, b]
  {
    ClassIsLevel(o, i);
    AtomPrints(a, i + 1);
    AtomPrints(b, i + 2);
    hide OpLevel, Print;
  }

  lemma ChainPrints(a: Token, o: Token, b: Token, p: Token, c: Token, i: int, j: int)
    requires IsAtom(a) && IsAtom(b) && IsAtom(c)
    requires 0 <= i < 8 && o.typ in CLASSES[i] && 0 <= j < 8 && p.typ in CLASSES[j]
    ensures var e := if i < j then Binary(o, Atom(a), Binary(p, Atom(b), Atom(c)))
                     else Binary(p, Binary(o, Atom(a), Atom(b)), Atom(c));
            Printable(e) && Print(e, 0) == [a, o, b, p, c]
  {
    ClassIsLevel(o, i);
    ClassIsLevel(p, j);
    AtomPrints(a, i + 1);
    AtomPrints(c, j + 2);
    PairPrints(a, o, b, i);
    PairPrints(b, p, c, j);
    hide OpLevel;
    if i < j {
      var right := Binary(p, Atom(b), Atom(c));
      assert Print(right, i + 2) == [b, p, c];
      assert Body(Binary(o, Atom(a), right)) == [a] + [o] + [b, p, c];
    } else {
      var left := Binary(o, Atom(a), Atom(b));
      assert Print(left, j + 1) == [a, o, b];
      assert Body(Binary(p, left, Atom(c))) == [a, o, b] + [p] + [c];
    }
  }

  /** Of two operators the one of the later class binds tighter, and of one class the left one. */
  lemma TighterBindsFirst(a: Token, o: Token, b: Token, p: Token, c: Token, i: int, j: int, suffix: seq<Token>)
    requires IsAtom(a) && IsAtom(b) && IsAtom(c) && Ends(Peek(suffix))
    requires 0 <= i < 8 && o.typ in CLASSES[i] && 0 <= j < 8 && p.typ in CLASSES[j]
    ensures ParseExpression([a, o, b, p, c] + suffix) ==
            Parsed(if i < j then Binary(o, Atom(a), Binary(p, Atom(b), Atom(c)))
                   else Binary(p, Binary(o, Atom(a), Atom(b)), Atom(c)), suffix)
  {
    ChainPrints(a, o, b, p, c, i, j);
    hide *;
    Reads(if i < j then Binary(o, Atom(a), Binary(p, Atom(b), Atom(c)))
          else Binary(p, Binary(o, Atom(a), Atom(b)), Atom(c)), [a, o, b, p, c], suffix);
  }

  const ASK := Token(Question, "?")
  const ELSE := Token(Colon, ":")

  /** The ternary is looser than every operator, on each of its sides. */
  lemma TernaryIsLoosest(a: Token, o: Token, b: Token, c: Token, d: Token, i: int, suffix: seq<Token>)
    requires IsAtom(a) && IsAtom(b) && IsAtom(c) && IsAtom(d) && Ends(Peek(suffix))
    requires 0 <= i < 8 && o.typ in CLASSES[i]
    ensures ParseExpression([a, o, b, ASK, c, ELSE, d] + suffix) ==
            Parsed(Ternary(Binary(o, Atom(a), Atom(b)), Atom(c), Atom(d)), suffix)
    ensures ParseExpression([a, ASK, b, ELSE, c, o, d] + suffix) ==
            Parsed(Ternary(Atom(a), Atom(b), Binary(o, Atom(c), Atom(d))), suffix)
  {
    PairPrints(a, o, b, i);
    PairPrints(c, o, d, i);
    AtomPrints(a, 1);
    AtomPrints(b, 0);
    AtomPrints(c, 0);
    AtomPrints(d, 0);
    var left, right := Binary(o, Atom(a), Atom(b)), Binary(o, Atom(c), Atom(d));
    var e, f := Ternary(left, Atom(c), Atom(d)), Ternary(Atom(a), Atom(b), right);
    assert Print(left, 1) == [a, o, b] && Print(right, 0) == [c, o, d];
    TernaryPrints(left, Atom(c), Atom(d), [a, o, b], [c], [d]);
    TernaryPrints(Atom(a), Atom(b), right, [a], [b], [c, o, d]);
    hide *;
    assert [a, o, b] + [ASK] + [c] + [ELSE] + [d] == [a, o, b, ASK, c, ELSE, d];
    assert [a] + [ASK] + [b] + [ELSE] + [c, o, d] == [a, ASK, b, ELSE, c, o, d];
    Reads(e, [a, o, b, ASK, c, ELSE, d], suffix);
    Reads(f, [a, ASK, b, ELSE, c, o, d], suffix);
  }

  lemma TernaryPrints(c: Tree, y: Tree, n: Tree, cs: seq<Token>, ys: seq<Token>, ns: seq<Token>)
    requires Printable(c) && Printable(y) && Printable(n)
    requires Print(c, 1) == cs && Print(y, 0) == ys && Print(n, 0) == ns
    ensures Printable(Ternary(c, y, n)) && Print(Ternary(c, y, n), 0) == cs + [ASK] + ys + [ELSE] + ns
  {
    Unparenthesized(Ternary(c, y, n), 0);
  }

  /** Minus, exclamation mark and tilde are prefix operators, tighter than every binary one. */
  lemma PrefixIsTightest(q: Token, a: Token, o: Token, b: Token, i: int, suffix: seq<Token>)
    requires q.typ in {Minus, Exclamation, Tilde} && IsAtom(a) && IsAtom(b) && Ends(Peek(suffix))
    requires 0 <= i < 8 && o.typ in CLASSES[i]
    ensures ParseExpression([q, a, o, b] + suffix) == Parsed(Binary(o, Prefix(q, Atom(a)), Atom(b)), suffix)
    ensures ParseExpression([a, o, q, b] + suffix) == Parsed(Binary(o, Atom(a), Prefix(q, Atom(b))), suffix)
  {
    PrefixPrints(q, a);
    PrefixPrints(q, b);
    ClassIsLevel(o, i);
    AtomPrints(a, i + 1);
    AtomPrints(b, i + 2);
    BinaryPrints(o, Prefix(q, Atom(a)), Atom(b), i, [q, a], [b]);
    BinaryPrints(o, Atom(a), Prefix(q, Atom(b)), i, [a], [q, b]);
    hide *;
    assert [q, a] + [o] + [b] == [q, a, o, b] && [a] + [o] + [q, b] == [a, o, q, b];
    Reads(Binary(o, Prefix(q, Atom(a)), Atom(b)), [q, a, o, b], suffix);
    Reads(Binary(o, Atom(a), Prefix(q, Atom(b))), [a, o, q, b], suffix);
  }

  lemma PrefixPrints(q: Token, a: Token)
    requires q.typ in {Minus, Exclamation, Tilde} && IsAtom(a)
    ensures Printable(Prefix(q, Atom(a))) && forall level :: level <= 9 ==> Print(Prefix(q, Atom(a)), level) == [q, a]
  {
    AtomPrints(a, 9);
  }

  lemma BinaryPrints(o: Token, l: Tree, r: Tree, i: int, ls: seq<Token>, rs: seq<Token>)
    requires Printable(l) && Printable(r) && 0 <= i < 8 && o.typ in CLASSES[i]
    requires Print(l, i + 1) == ls && Print(r, i + 2) == rs
    ensures Printable(Binary(o, l, r)) && Print(Binary(o, l, r), 0) == ls + [o] + rs
  {
    ClassIsLevel(o, i);
    Unparenthesized(Binary(o, l, r), 0);
    hide OpLevel, Print;
  }

  /** Parentheses override all of this. */
  lemma ParenthesesBindFirst(a: Token, o: Token, b: Token, p: Token, c: Token, i: int, j: int, suffix: seq<Token>)
    requires IsAtom(a) && IsAtom(b) && IsAtom(c) && Ends(Peek(suffix))
    requires 0 <= i < j < 8 && o.typ in CLASSES[i] && p.typ in CLASSES[j]
    ensures ParseExpression([OPEN, a, o, b, CLOSE, p, c] + suffix) ==
            Parsed(Binary(p, Binary(o, Atom(a), Atom(b)), Atom(c)), suffix)
  {
    var left := Binary(o, Atom(a), Atom(b));
    PairPrints(a, o, b, i);
    AtomPrints(c, j + 2);
    assert Print(left, j + 1) == [OPEN] + [a, o, b] + [CLOSE];
    BinaryPrints(p, left, Atom(c), j, [OPEN] + [a, o, b] + [CLOSE], [c]);
    hide *;
    assert [OPEN] + [a, o, b] + [CLOSE] + [p] + [c] == [OPEN, a, o, b, CLOSE, p, c];
    Reads(Binary(p, left, Atom(c)), [OPEN, a, o, b, CLOSE, p, c], suffix);
  }

  // ---------------------------------------------------------------- the other constructs

  lemma PostfixReads(a: Token, b: Token, name: string, typ: Token, suffix: seq<Token>)
    requires IsAtom(a) && IsAtom(b) && typ.typ == Identifier && Ends(Peek(suffix))
    ensures ParseExpression([a, Token(Dot, "."), Token(Identifier, name)] + suffix) ==
            Parsed(Member(Atom(a), name), suffix)
    ensures ParseExpression([a, Token(Scope, "::"), Token(Identifier, name)] + suffix) ==
            Parsed(Scoped(Atom(a), name), suffix)
    ensures ParseExpression([a, Token(LBracket, "["), b, Token(RBracket, "]")] + suffix) ==
            Parsed(Index(Atom(a), Atom(b)), suffix)
    ensures ParseExpression([a, Token(Keyword, "as"), typ] + suffix) ==
            Parsed(Cast(Some(Builtin(typ)), Atom(a)), suffix)
    ensures ParseExpression([Token(Dollar, "$"), a] + suffix) == Parsed(Place(Atom(a)), suffix)
  {
    AtomPrints(a, 10);
    AtomPrints(a, 11);
    AtomPrints(b, 0);
    hide *;
    MemberPrints(a, name);
    ScopedPrints(a, name);
    IndexPrints(a, b);
    CastPrints(a, typ);
    PlacePrints(a);
    Reads(Member(Atom(a), name), [a, Token(Dot, "."), Token(Identifier, name)], suffix);
    Reads(Scoped(Atom(a), name), [a, Token(Scope, "::"), Token(Identifier, name)], suffix);
    Reads(Index(Atom(a), Atom(b)), [a, Token(LBracket, "["), b, Token(RBracket, "]")], suffix);
    Reads(Cast(Some(Builtin(typ)), Atom(a)), [a, Token(Keyword, "as"), typ], suffix);
    Reads(Place(Atom(a)), [Token(Dollar, "$"), a], suffix);
  }

  lemma MemberPrints(a: Token, name: string)
    requires IsAtom(a)
    ensures Printable(Member(Atom(a), name))
    ensures Print(Member(Atom(a), name), 0) == [a, Token(Dot, "."), Token(Identifier, name)]
  {
    AtomPrints(a, 10);
  }

  lemma ScopedPrints(a: Token, name: string)
    requires IsAtom(a)
    ensures Printable(Scoped(Atom(a), name))
    ensures Print(Scoped(Atom(a), name), 0) == [a, Token(Scope, "::"), Token(Identifier, name)]
  {
    AtomPrints(a, 10);
    assert PrintScope(Atom(a)) == Print(Atom(a), 10);
    Unparenthesized(Scoped(Atom(a), name), 0);
    assert Body(Scoped(Atom(a), name)) == [a] + [Token(Scope, "::")] + [Ident(name)];
  }

  lemma IndexPrints(a: Token, b: Token)
    requires IsAtom(a) && IsAtom(b)
    ensures Printable(Index(Atom(a), Atom(b)))
    ensures Print(Index(Atom(a), Atom(b)), 0) == [a, Token(LBracket, "["), b, Token(RBracket, "]")]
  {
    AtomPrints(a, 10);
    AtomPrints(b, 0);
  }

  lemma CastPrints(a: Token, typ: Token)
    requires IsAtom(a) && typ.typ == Identifier
    ensures Printable(Cast(Some(Builtin(typ)), Atom(a)))
    ensures Print(Cast(Some(Builtin(typ)), Atom(a)), 0) == [a, Token(Keyword, "as"), typ]
  {
    AtomPrints(a, 10);
  }

  lemma PlacePrints(a: Token)
    requires IsAtom(a)
    ensures Printable(Place(Atom(a))) && Print(Place(Atom(a)), 0) == [Token(Dollar, "$"), a]
  {
    AtomPrints(a, 11);
    assert PrintPlace(Atom(a)) == Print(Atom(a), 11);
    Unparenthesized(Place(Atom(a)), 0);
    assert Body(Place(Atom(a))) == [Token(Dollar, "$")] + [a];
  }

  lemma CallReads(f: Token, a: Token, b: Token, suffix: seq<Token>)
    requires IsAtom(f) && IsAtom(a) && IsAtom(b) && Ends(Peek(suffix))
    ensures ParseExpression([f, OPEN, CLOSE] + suffix) == Parsed(Call(Atom(f), []), suffix)
    ensures ParseExpression([f, OPEN, a, Token(Comma, ","), b, CLOSE] + suffix) ==
            Parsed(Call(Atom(f), [Atom(a), Atom(b)]), suffix)
  {
    AtomPrints(f, 10);
    var none, two: seq<Tree> := [], [Atom(a), Atom(b)];
    TwoPrint(a, b);
    assert AllPrintable(none) && PrintArgs(none) == [];
    CallPrints(f, none, []);
    CallPrints(f, two, [a, Token(Comma, ","), b]);
    hide *;
    assert [f] + [OPEN] + [] + [CLOSE] == [f, OPEN, CLOSE];
    assert [f] + [OPEN] + [a, Token(Comma, ","), b] + [CLOSE] == [f, OPEN, a, Token(Comma, ","), b, CLOSE];
    Reads(Call(Atom(f), none), [f, OPEN, CLOSE], suffix);
    Reads(Call(Atom(f), two), [f, OPEN, a, Token(Comma, ","), b, CLOSE], suffix);
  }

  lemma TwoPrint(a: Token, b: Token)
    requires IsAtom(a) && IsAtom(b)
    ensures AllPrintable([Atom(a), Atom(b)]) && PrintArgs([Atom(a), Atom(b)]) == [a, Token(Comma, ","), b]
  {
    AtomPrints(a, 0);
    AtomPrints(b, 0);
    var two := [Atom(a), Atom(b)];
    assert two[1..] == [Atom(b)] && two[1..][1..] == [];
    assert AllPrintable([]) && AllPrintable(two[1..]) && PrintArgs(two[1..]) == [b];
  }

  lemma CallPrints(f: Token, args: seq<Tree>, ts: seq<Token>)
    requires IsAtom(f) && AllPrintable(args) && PrintArgs(args) == ts
    ensures Printable(Call(Atom(f), args)) && Print(Call(Atom(f), args), 0) == [f] + [OPEN] + ts + [CLOSE]
  {
    AtomPrints(f, 10);
    Unparenthesized(Call(Atom(f), args), 0);
  }

  /** Literals and names, one token each; a keyword that is no literal is a name. */
  lemma TokensRead(t: Token, suffix: seq<Token>)
    ensures t.typ == Integer ==> ParsePrimary([t] + suffix) == Parsed(IntegerLiteral(t), suffix)
    ensures t.typ == Float ==> ParsePrimary([t] + suffix) == Parsed(FloatLiteral(t), suffix)
    ensures t.typ == String ==> ParsePrimary([t] + suffix) == Parsed(StringLiteral(t), suffix)
    ensures t.typ == Char ==> ParsePrimary([t] + suffix) == Parsed(CharLiteral(t), suffix)
    ensures t.typ == Identifier ==> ParsePrimary([t] + suffix) == Parsed(Name(t), suffix)
    ensures t == Token(Keyword, "true") ==> ParsePrimary([t] + suffix) == Parsed(BoolLiteral(true), suffix)
    ensures t == Token(Keyword, "false") ==> ParsePrimary([t] + suffix) == Parsed(BoolLiteral(false), suffix)
    ensures t == Token(Keyword, "null") ==> ParsePrimary([t] + suffix) == Parsed(NullLiteral, suffix)
    ensures t.typ == Keyword && t.lit !in {"true", "false", "null"} ==>
              ParsePrimary([t] + suffix) == Parsed(Name(t), suffix)
  {
    Begins(t, suffix);
    hide ParseParenthesized;
  }

  lemma GuessExactly(a: string, t: Token, suffix: seq<Token>)
    ensures var inner := [Token(Identifier, a)] + ([CLOSE] + ([t] + suffix));
            && ParseType(inner) == (Some(Builtin(Token(Identifier, a))), [CLOSE] + ([t] + suffix))
            && (LooksLikeCast(inner) <==> t.typ in {LParen, Integer, Identifier})
  {
    var s1 := [CLOSE] + ([t] + suffix);
    Begins(Token(Identifier, a), s1);
    Begins(CLOSE, [t] + suffix);
    Begins(t, suffix);
  }

  lemma ParenthesizedSteps(inner: seq<Token>)
    ensures LooksLikeCast(inner) && ParsePrimary([OPEN] + inner).Parsed? ==>
              var r := ParsePrimary([OPEN] + inner);
              r.e.Cast? && r.e.typ == ParseType(inner).0
    ensures !LooksLikeCast(inner) && ParseExpression(inner).Parsed? ==>
              ParsePrimary([OPEN] + inner) ==
              Parsed(ParseExpression(inner).e, Expect(ParseExpression(inner).rest, RParen))
  {
    Begins(OPEN, inner);
    hide LooksLikeCast, ParseExpression, ParseType;
  }

  /** A name in parentheses is a cast of what follows exactly before an opening parenthesis, an integer or
      an identifier; otherwise it is the name. */
  lemma CastExactly(a: string, t: Token, suffix: seq<Token>)
    ensures var r := ParsePrimary([OPEN, Token(Identifier, a), CLOSE, t] + suffix);
            if t.typ in {LParen, Integer, Identifier}
            then r.Parsed? ==> r.e.Cast? && r.e.typ == Some(Builtin(Token(Identifier, a)))
            else r == Parsed(Name(Token(Identifier, a)), [t] + suffix)
  {
    var inner := [Token(Identifier, a)] + ([CLOSE] + ([t] + suffix));
    assert [OPEN, Token(Identifier, a), CLOSE, t] + suffix == [OPEN] + inner;
    Begins(CLOSE, [t] + suffix);
    hide ParseType, LooksLikeCast, ParsePrimary, ParseExpression;
    GuessExactly(a, t, suffix);
    ParenthesizedSteps(inner);
    NameAlone(a, [t] + suffix);
  }

  lemma NameAlone(a: string, s2: seq<Token>)
    ensures ParseExpression([Token(Identifier, a)] + ([CLOSE] + s2)) ==
            Parsed(Name(Token(Identifier, a)), [CLOSE] + s2)
  {
    var t := Token(Identifier, a);
    AtomPrints(t, 0);
    Begins(CLOSE, s2);
    assert Ends(CLOSE);
    hide *;
    Reads(Atom(t), [t], [CLOSE] + s2);
    NameIsAtom(t);
  }

  lemma NameIsAtom(t: Token)
    requires t.typ == Identifier
    ensures Atom(t) == Name(t)
  {
  }

  /** Types: signedness and const are skipped, a scope makes a type of two names. */
  lemma TypesRead(word: string, t: Token, m: Token, suffix: seq<Token>)
    requires word in {"unsigned", "signed"} && t.typ == Identifier && Peek(suffix).typ != Scope
    ensures ParseType([Token(Keyword, word), Token(Keyword, "const"), t] + suffix) == (Some(Builtin(t)), suffix)
    ensures ParseType([t] + suffix) == (Some(Builtin(t)), suffix)
    ensures ParseType([t, Token(Scope, "::"), m] + suffix) == (Some(Custom(t, m.lit)), suffix)
  {
    PlainType(t, suffix);
    SkippedWords(word, [t] + suffix);
    Begins(t, suffix);
    assert [Token(Keyword, word), Token(Keyword, "const"), t] + suffix ==
           [Token(Keyword, word), Token(Keyword, "const")] + ([t] + suffix);
    ScopedType(t, m, suffix);
    hide ParseType;
  }

  lemma PlainType(t: Token, suffix: seq<Token>)
    requires t.typ == Identifier && Peek(suffix).typ != Scope
    ensures ParseType([t] + suffix) == (Some(Builtin(t)), suffix)
  {
    Begins(t, suffix);
  }

  lemma SkippedWords(word: string, ts: seq<Token>)
    requires word in {"unsigned", "signed"} && Peek(ts).typ == Identifier
    ensures ParseType([Token(Keyword, word), Token(Keyword, "const")] + ts) == ParseType(ts)
  {
    var s1 := [Token(Keyword, "const")] + ts;
    Begins(Token(Keyword, "const"), ts);
    Begins(Token(Keyword, word), s1);
    assert [Token(Keyword, word), Token(Keyword, "const")] + ts == [Token(Keyword, word)] + s1;
    assert SkipWord(SkipWord([Token(Keyword, word)] + s1, {"unsigned", "signed"}), {"const"}) == ts;
    assert SkipWord(SkipWord(ts, {"unsigned", "signed"}), {"const"}) == ts;
    hide SkipWord, Peek, Advance;
  }

  lemma ScopedType(t: Token, m: Token, suffix: seq<Token>)
    requires t.typ == Identifier
    ensures ParseType([t, Token(Scope, "::"), m] + suffix) == (Some(Custom(t, m.lit)), suffix)
  {
    var q1 := [m] + suffix;
    var q0 := [Token(Scope, "::")] + q1;
    Begins(m, suffix);
    Begins(Token(Scope, "::"), q1);
    Begins(t, q0);
    assert [t, Token(Scope, "::"), m] + suffix == [t] + q0;
  }
}

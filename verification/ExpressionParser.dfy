/** The recursive-descent parser: a position that moves over a token list, and a mark to come back to. */
module ExpressionParser {
  import opened Text
  import opened Grammar

  class Parser {
    const tokens: seq<Token>
    var pos: nat

    constructor (tokens: seq<Token>)
      ensures this.tokens == tokens && Valid() && Left() == tokens
    {
      this.tokens, pos := tokens, 0;
    }

    predicate Valid()
      reads this
    {
      pos <= |tokens|
    }

    /** The tokens still to be read. */
    ghost function Left(): seq<Token>
      requires Valid()
      reads this
    {
      tokens[pos..]
    }

    // -------------------------------------------------------------- helpers

    function Current(): (t: Token)
      requires Valid()
      reads this
      ensures t == Peek(Left())
    {
      if pos >= |tokens| then Token(EOF, "") else tokens[pos]
    }

    method Next() returns (t: Token)
      requires Valid()
      modifies this
      ensures Valid() && t == old(Current()) && Left() == Advance(old(Left()))
      ensures pos == if old(pos) < |tokens| then old(pos) + 1 else old(pos)
    {
      t := Current();
      if pos < |tokens| {
        pos := pos + 1;
      }
    }

    method ExpectToken(typ: TokenType) returns (t: Token)
      requires Valid()
      modifies this
      ensures Valid() && pos >= old(pos) && t == old(Current()) && Left() == Expect(old(Left()), typ)
    {
      t := Current();
      if t.typ == typ {
        t := Next();
      }
    }

    function IsEOF(): (b: bool)
      requires Valid()
      reads this
      ensures b <==> Current().typ == EOF
    {
      pos >= |tokens| || tokens[pos].typ == EOF
    }

    method SkipKeyword(words: set<string>)
      requires Valid()
      modifies this
      ensures Valid() && pos >= old(pos) && Left() == SkipWord(old(Left()), words)
    {
      if Current().typ == Keyword && Current().lit in words {
        var _ := Next();
      }
    }

    method TypeHere() returns (t: Option<Type>)
      requires Valid()
      modifies this
      ensures Valid() && pos >= old(pos) && (t, Left()) == ParseType(old(Left()))
    {
      t := None;
      SkipKeyword({"unsigned", "signed"});
      SkipKeyword({"const"});
      hide SkipWord;
      if !NameLike(Current()) {
        return;
      }
      var name := Next();
      if Current().typ == Scope {
        var _ := Next();
        var member := Next();
        return Some(Custom(name, member.lit));
      }
      t := Some(Builtin(name));
    }

    // -------------------------------------------------------------- expressions

    /** `ok` is false exactly where the parser would go on forever. */
    ghost predicate Yields(r: Result, ok: bool, e: Tree)
      requires Valid()
      reads this
    {
      if ok then r == Parsed(e, Left()) else r == Diverges
    }

    method Expression() returns (e: Tree, ok: bool)
      requires Valid()
      modifies this
      ensures Valid() && pos >= old(pos) && Yields(ParseExpression(old(Left())), ok, e)
      decreases |tokens| - pos, 30
    {
      e, ok := BinaryLevel(1);
      if !ok {
        return;
      }
      if Current().typ == Question {
        var cond := e;
        var _ := Next();
        var yes, no;
        yes, ok := Expression();
        if !ok {
          return;
        }
        var _ := ExpectToken(Colon);
        no, ok := Expression();
        e := Ternary(cond, yes, no);
      }
    }

    /** One level of left-associative operators over the next tighter one. */
    method BinaryLevel(level: int) returns (left: Tree, ok: bool)
      requires Valid() && 1 <= level <= 9
      modifies this
      ensures Valid() && pos >= old(pos) && Yields(ParseBinary(old(Left()), level), ok, left)
      decreases |tokens| - pos, 25 - 2 * level
    {
      if level == 9 {
        left, ok := PrefixExpression();
        return;
      }
      left, ok := BinaryLevel(level + 1);
      if !ok {
        return;
      }
      hide ParseBinary;
      while OpLevel(Current().typ) == level
        invariant Valid() && pos >= old(pos) && ok
        invariant ParseBinary(old(Left()), level) == BinaryRest(left, Left(), level)
        decreases |tokens| - pos
      {
        var op := Next();
        var right;
        right, ok := BinaryLevel(level + 1);
        if !ok {
          return;
        }
        left := Binary(op, left, right);
      }
    }

    method PrefixExpression() returns (e: Tree, ok: bool)
      requires Valid()
      modifies this
      ensures Valid() && pos >= old(pos) && Yields(ParsePrefix(old(Left())), ok, e)
      decreases |tokens| - pos, 4
    {
      if IsPrefix(Current().typ) {
        var op := Next();
        e, ok := PrefixExpression();
        e := Prefix(op, e);
        return;
      }
      e, ok := PostfixExpression();
    }

    method PostfixExpression() returns (left: Tree, ok: bool)
      requires Valid()
      modifies this
      ensures Valid() && pos >= old(pos) && Yields(ParsePostfix(old(Left())), ok, left)
      decreases |tokens| - pos, 3
    {
      left, ok := Primary();
      if !ok {
        return;
      }
      while true
        invariant Valid() && pos >= old(pos) && ok
        invariant ParsePostfix(old(Left())) == PostfixRest(left, Left())
        decreases |tokens| - pos
      {
        if Current().typ == LParen {
          var _ := Next();
          var args;
          args, ok := Arguments();
          if !ok {
            return;
          }
          var _ := ExpectToken(RParen);
          left := Call(left, args);
        } else if Current().typ == LBracket {
          var _ := Next();
          var index;
          index, ok := Expression();
          if !ok {
            return;
          }
          var _ := ExpectToken(RBracket);
          left := Index(left, index);
        } else if Current().typ == Dot {
          var _ := Next();
          var member := ExpectToken(Identifier);
          left := Member(left, member.lit);
        } else if Current().typ == Scope {
          var _ := Next();
          var member := ExpectToken(Identifier);
          left := Scoped(left, member.lit);
        } else if Current() == Token(Keyword, "as") {
          var _ := Next();
          var typ := TypeHere();
          left := Cast(typ, left);
        } else {
          break;
        }
      }
    }

    /** The arguments of a call. A round without progress is where the loop never ends. */
    method Arguments() returns (args: seq<Tree>, ok: bool)
      requires Valid()
      modifies this
      ensures Valid() && pos >= old(pos)
      ensures if ok then ParseArgs(old(Left())) == Args(args, Left()) else ParseArgs(old(Left())).ArgsDiverge?
      decreases |tokens| - pos, 31
    {
      args, ok := [], true;
      while Current().typ != RParen && !IsEOF()
        invariant Valid() && pos >= old(pos) && ok
        invariant ParseArgs(old(Left())) == Prepend(args, ParseArgs(Left()))
        decreases |tokens| - pos
      {
        ghost var before, rest := args, Left();
        var start := pos;
        var e;
        e, ok := Expression();
        if !ok {
          return;
        }
        args := args + [e];
        if Current().typ == Comma {
          var _ := Next();
        }
        if pos == start {
          ok := false;
          return;
        }
        PrependMore(before, e, ParseArgs(Left()));
      }
    }

    method Primary() returns (e: Tree, ok: bool)
      requires Valid()
      modifies this
      ensures Valid() && pos >= old(pos) && Yields(ParsePrimary(old(Left())), ok, e)
      decreases |tokens| - pos, 1
    {
      ok := true;
      var t := Current();
      match t.typ {
        case Integer =>
          var tok := Next();
          e := IntegerLiteral(tok);
        case Float =>
          var tok := Next();
          e := FloatLiteral(tok);
        case String =>
          var tok := Next();
          e := StringLiteral(tok);
        case Char =>
          var tok := Next();
          e := CharLiteral(tok);
        case Keyword =>
          var tok := Next();
          e := if t.lit == "true" then BoolLiteral(true)
               else if t.lit == "false" then BoolLiteral(false)
               else if t.lit == "null" then NullLiteral
               else Name(tok);
        case Identifier =>
          var tok := Next();
          e := Name(tok);
        case LParen =>
          var _ := Next();
          e, ok := Parenthesized();
        case Dollar =>
          var _ := Next();
          e, ok := Primary();
          e := Place(e);
        case _ =>
          e := Absent;
      }
    }

    /** What follows an opening parenthesis: try a cast, and go back to the mark if it is none. */
    method Parenthesized() returns (e: Tree, ok: bool)
      requires Valid()
      modifies this
      ensures Valid() && pos >= old(pos) && Yields(ParseParenthesized(old(Left())), ok, e)
      decreases |tokens| - pos, 32
    {
      if NameLike(Current()) {
        var mark := pos;
        var typ := TypeHere();
        if typ.Some? && Current().typ == RParen {
          var _ := Next();
          if Current().typ in {LParen, Integer, Identifier} {
            assert LooksLikeCast(old(Left()));
            e, ok := Primary();
            e := Cast(typ, e);
            return;
          }
        }
        pos := mark;
      }
      e, ok := Expression();
      if ok {
        var _ := ExpectToken(RParen);
      }
    }
  }

  function Prepend(es: seq<Tree>, r: ArgsResult): ArgsResult {
    match r
    case ArgsDiverge => ArgsDiverge
    case Args(more, rest) => Args(es + more, rest)
  }

  lemma PrependMore(es: seq<Tree>, e: Tree, r: ArgsResult)
    ensures Prepend(es, Prepend([e], r)) == Prepend(es + [e], r)
  {
    if r.Args? {
      assert es + ([e] + r.es) == es + [e] + r.es;
    }
  }
}

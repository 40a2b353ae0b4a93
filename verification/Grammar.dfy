/** The expression grammar of the pattern language: what the recursive-descent parser makes of a
    token list, as functions from the remaining tokens to a tree and what is left. */
module Grammar {
  import opened Text

  datatype TokenType =
    | EOF | Identifier | Integer | Float | String | Char | Keyword
    | LParen | RParen | LBracket | RBracket | Comma | Dot | Semicolon | Colon | Scope | Question | Dollar
    | Plus | Minus | Asterisk | Slash | Percent | Tilde | Exclamation
    | Less | Greater | LEqual | GEqual | Equal | NotEqual | LShift | RShift | And | Or | Xor
    | OtherToken

  datatype Token = Token(typ: TokenType, lit: string)

  datatype Type = Builtin(tok: Token) | Custom(tok: Token, member: string)

  /** Expression trees. `Absent` is what the parser returns where no expression starts. */
  datatype Tree =
    | Absent
    | IntegerLiteral(tok: Token)
    | FloatLiteral(tok: Token)
    | StringLiteral(tok: Token)
    | CharLiteral(tok: Token)
    | BoolLiteral(value: bool)
    | NullLiteral
    | Name(tok: Token)
    | Binary(op: Token, left: Tree, right: Tree)
    | Prefix(op: Token, arg: Tree)
    | Ternary(cond: Tree, yes: Tree, no: Tree)
    | Call(func: Tree, args: seq<Tree>)
    | Index(base: Tree, index: Tree)
    | Member(base: Tree, field: string)
    | Scoped(base: Tree, field: string)
    | Cast(typ: Option<Type>, arg: Tree)
    | Place(arg: Tree)

  // ---------------------------------------------------------------- tokens

  function Peek(ts: seq<Token>): Token {
    if ts == [] then Token(EOF, "") else ts[0]
  }

  function Advance(ts: seq<Token>): (rest: seq<Token>)
    ensures |rest| <= |ts| && (ts != [] ==> |rest| < |ts|)
  {
    if ts == [] then [] else ts[1..]
  }

  function Expect(ts: seq<Token>, typ: TokenType): (rest: seq<Token>)
    ensures |rest| <= |ts|
  {
    if Peek(ts).typ == typ then Advance(ts) else ts
  }

  /** The binding strength of an infix token: 0 for the ternary, 1 to 8 for the binary levels, -1
      for everything else. */
  function OpLevel(typ: TokenType): int {
    match typ
    case Question => 0
    case Or => 1
    case And => 2
    case Xor => 3
    case Equal | NotEqual => 4
    case Less | Greater | LEqual | GEqual => 5
    case LShift | RShift => 6
    case Plus | Minus => 7
    case Asterisk | Slash | Percent => 8
    case _ => -1
  }

  predicate IsPrefix(typ: TokenType) {
    typ == Minus || typ == Exclamation || typ == Tilde
  }

  predicate NameLike(t: Token) {
    t.typ == Keyword || t.typ == Identifier
  }

  function SkipWord(ts: seq<Token>, words: set<string>): (rest: seq<Token>)
    ensures |rest| <= |ts|
  {
    if Peek(ts).typ == Keyword && Peek(ts).lit in words then Advance(ts) else ts
  }

  /** A type: optional sign and const, then a name, then optionally a scoped member. */
  function ParseType(ts: seq<Token>): (r: (Option<Type>, seq<Token>))
    ensures |r.1| <= |ts|
  {
    var named := SkipWord(SkipWord(ts, {"unsigned", "signed"}), {"const"});
    if !NameLike(Peek(named)) then (None, named)
    else
      var rest := Advance(named);
      if Peek(rest).typ != Scope then (Some(Builtin(Peek(named))), rest)
      else (Some(Custom(Peek(named), Peek(Advance(rest)).lit)), Advance(Advance(rest)))
  }

  // ---------------------------------------------------------------- the parser

  /** A tree and the tokens left over; or no result at all, when an argument list makes no progress. */
  datatype Result = Parsed(e: Tree, rest: seq<Token>) | Diverges

  datatype ArgsResult = Args(es: seq<Tree>, rest: seq<Token>) | ArgsDiverge

  function ParseExpression(ts: seq<Token>): (r: Result)
    ensures r.Parsed? ==> |r.rest| <= |ts|
    decreases |ts|, 30
  {
    match ParseBinary(ts, 1)
    case Diverges => Diverges
    case Parsed(cond, q) =>
      if Peek(q).typ != Question then Parsed(cond, q)
      else
        match ParseExpression(Advance(q))
        case Diverges => Diverges
        case Parsed(yes, q1) =>
          match ParseExpression(Expect(q1, Colon))
          case Diverges => Diverges
          case Parsed(no, q2) => Parsed(Ternary(cond, yes, no), q2)
  }

  /** The binary levels, 1 loosest to 8 tightest. */
  function ParseBinary(ts: seq<Token>, level: int): (r: Result)
    requires 1 <= level <= 9
    ensures r.Parsed? ==> |r.rest| <= |ts|
    decreases |ts|, 25 - 2 * level
  {
    if level == 9 then ParsePrefix(ts)
    else
      match ParseBinary(ts, level + 1)
      case Diverges => Diverges
      case Parsed(left, q) => BinaryRest(left, q, level)
  }

  function BinaryRest(left: Tree, ts: seq<Token>, level: int): (r: Result)
    requires 1 <= level <= 8
    ensures r.Parsed? ==> |r.rest| <= |ts|
    decreases |ts|, 24 - 2 * level
  {
    if OpLevel(Peek(ts).typ) != level then Parsed(left, ts)
    else
      match ParseBinary(Advance(ts), level + 1)
      case Diverges => Diverges
      case Parsed(right, q) => BinaryRest(Binary(Peek(ts), left, right), q, level)
  }

  function ParsePrefix(ts: seq<Token>): (r: Result)
    ensures r.Parsed? ==> |r.rest| <= |ts|
    decreases |ts|, 4
  {
    if !IsPrefix(Peek(ts).typ) then ParsePostfix(ts)
    else
      match ParsePrefix(Advance(ts))
      case Diverges => Diverges
      case Parsed(arg, q) => Parsed(Prefix(Peek(ts), arg), q)
  }

  function ParsePostfix(ts: seq<Token>): (r: Result)
    ensures r.Parsed? ==> |r.rest| <= |ts|
    decreases |ts|, 3
  {
    match ParsePrimary(ts)
    case Diverges => Diverges
    case Parsed(left, q) => PostfixRest(left, q)
  }

  function PostfixRest(left: Tree, ts: seq<Token>): (r: Result)
    ensures r.Parsed? ==> |r.rest| <= |ts|
    decreases |ts|, 2
  {
    var t := Peek(ts);
    if t.typ == LParen then
      match ParseArgs(Advance(ts))
      case ArgsDiverge => Diverges
      case Args(args, q) => PostfixRest(Call(left, args), Expect(q, RParen))
    else if t.typ == LBracket then
      match ParseExpression(Advance(ts))
      case Diverges => Diverges
      case Parsed(index, q) => PostfixRest(Index(left, index), Expect(q, RBracket))
    else if t.typ == Dot then PostfixRest(Member(left, Peek(Advance(ts)).lit), Expect(Advance(ts), Identifier))
    else if t.typ == Scope then PostfixRest(Scoped(left, Peek(Advance(ts)).lit), Expect(Advance(ts), Identifier))
    else if t == Token(Keyword, "as") then
      var (typ, q) := ParseType(Advance(ts));
      PostfixRest(Cast(typ, left), q)
    else Parsed(left, ts)
  }

  /** Arguments up to a closing parenthesis or the end. A round that consumes nothing would repeat
      itself forever. */
  function ParseArgs(ts: seq<Token>): (r: ArgsResult)
    ensures r.Args? ==> |r.rest| <= |ts|
    decreases |ts|, 31
  {
    if Peek(ts).typ == RParen || Peek(ts).typ == EOF then Args([], ts)
    else
      match ParseExpression(ts)
      case Diverges => ArgsDiverge
      case Parsed(e, q) =>
        var next := Expect(q, Comma);
        if |next| == |ts| then ArgsDiverge
        else
          match ParseArgs(next)
          case ArgsDiverge => ArgsDiverge
          case Args(es, rest) => Args([e] + es, rest)
  }

  /** After an opening parenthesis: a type, a closing parenthesis and the start of an operand. */
  predicate LooksLikeCast(inner: seq<Token>) {
    var (typ, q) := ParseType(inner);
    && NameLike(Peek(inner)) && typ.Some? && Peek(q).typ == RParen
    && Peek(Advance(q)).typ in {LParen, Integer, Identifier}
  }

  function ParsePrimary(ts: seq<Token>): (r: Result)
    ensures r.Parsed? ==> |r.rest| <= |ts|
    decreases |ts|, 1
  {
    var t := Peek(ts);
    match t.typ
    case Integer => Parsed(IntegerLiteral(t), Advance(ts))
    case Float => Parsed(FloatLiteral(t), Advance(ts))
    case String => Parsed(StringLiteral(t), Advance(ts))
    case Char => Parsed(CharLiteral(t), Advance(ts))
    case Keyword =>
      if t.lit == "true" || t.lit == "false" then Parsed(BoolLiteral(t.lit == "true"), Advance(ts))
      else if t.lit == "null" then Parsed(NullLiteral, Advance(ts))
      else Parsed(Name(t), Advance(ts))
    case Identifier => Parsed(Name(t), Advance(ts))
    case LParen =>
      ParseParenthesized(Advance(ts))
    case Dollar => (
      match ParsePrimary(Advance(ts))
      case Diverges => Diverges
      case Parsed(e, q) => Parsed(Place(e), q))
    case _ => Parsed(Absent, ts)
  }

  function ParseParenthesized(inner: seq<Token>): (r: Result)
    ensures r.Parsed? ==> |r.rest| <= |inner|
    decreases |inner|, 32
  {
    if LooksLikeCast(inner) then
      var (typ, q) := ParseType(inner);
      match ParsePrimary(Advance(q))
      case Diverges => Diverges
      case Parsed(e, rest) => Parsed(Cast(typ, e), rest)
    else
      match ParseExpression(inner)
      case Diverges => Diverges
      case Parsed(e, q) => Parsed(e, Expect(q, RParen))
  }
}

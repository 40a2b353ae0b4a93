/** When the expression parser runs forever: one pass over the tokens, without building trees, gets
    stuck exactly where an argument list of the parser makes no progress. */
module Divergence {
  import opened Grammar

  // ---------------------------------------------------------------- what an expression reads

  /** Tokens that neither begin nor continue an expression. */
  predicate ReadsNothing(t: Token) {
    t.typ in {EOF, RParen, RBracket, Comma, Semicolon, Colon, OtherToken}
  }

  /** Tokens on which a round of an argument list makes no progress. */
  predicate Blocks(t: Token) {
    t.typ in {RBracket, Semicolon, Colon, OtherToken}
  }

  predicate StartsPrimary(t: Token) {
    t.typ in {Integer, Float, String, Char, Keyword, Identifier, LParen, Dollar}
  }

  predicate StartsPostfix(t: Token) {
    t.typ in {LParen, LBracket, Dot, Scope} || t == Token(Keyword, "as")
  }

  /** `t` cannot continue an expression at `level` or tighter. */
  predicate EndsAt(t: Token, level: int) {
    !StartsPostfix(t) && OpLevel(t.typ) < level
  }

  /** An expression entered at `level` on `t` reads nothing. */
  predicate Untouched(t: Token, level: int) {
    !StartsPrimary(t) && EndsAt(t, level) && !IsPrefix(t.typ)
  }

  lemma OpLevelRange(typ: TokenType)
    ensures -1 <= OpLevel(typ) <= 8
  {
  }

  lemma PostfixReads(ts: seq<Token>)
    ensures !StartsPrimary(Peek(ts)) && !StartsPostfix(Peek(ts)) ==> ParsePostfix(ts) == Parsed(Absent, ts)
    ensures StartsPrimary(Peek(ts)) || StartsPostfix(Peek(ts)) ==>
              ParsePostfix(ts).Diverges? || |ParsePostfix(ts).rest| < |ts|
  {
    if StartsPrimary(Peek(ts)) {
      PrimaryReads(ts);
      hide PostfixRest, ParsePrimary;
    } else {
      assert ParsePrimary(ts) == Parsed(Absent, ts);
      hide ParseArgs, ParseExpression, ParseType;
    }
  }

  lemma PrimaryReads(ts: seq<Token>)
    requires StartsPrimary(Peek(ts))
    ensures ParsePrimary(ts).Diverges? || |ParsePrimary(ts).rest| < |ts|
  {
    hide ParseParenthesized;
  }

  lemma RestReads(left: Result, level: int)
    requires 1 <= level <= 8 && left.Parsed?
    ensures OpLevel(Peek(left.rest).typ) != level ==> BinaryRest(left.e, left.rest, level) == left
    ensures OpLevel(Peek(left.rest).typ) == level ==>
              var r := BinaryRest(left.e, left.rest, level);
              r.Diverges? || |r.rest| < |left.rest|
  {
    hide ParseBinary;
  }

  /** A binary level reads something exactly when the first token is not left untouched. */
  lemma {:induction false} LevelReads(ts: seq<Token>, level: int)
    requires 1 <= level <= 9
    ensures Untouched(Peek(ts), level) ==> ParseBinary(ts, level) == Parsed(Absent, ts)
    ensures !Untouched(Peek(ts), level) ==> ParseBinary(ts, level).Diverges? || |ParseBinary(ts, level).rest| < |ts|
    decreases 9 - level
  {
    OpLevelRange(Peek(ts).typ);
    if level == 9 {
      PostfixReads(ts);
      hide ParsePostfix, OpLevel;
    } else {
      LevelReads(ts, level + 1);
      if ParseBinary(ts, level + 1).Parsed? {
        RestReads(ParseBinary(ts, level + 1), level);
      }
      hide OpLevel, BinaryRest;
    }
  }

  /** An expression gives its tokens back unread exactly on a token that neither begins nor
      continues one. */
  lemma UnreadExactly(ts: seq<Token>)
    ensures ParseExpression(ts).Parsed? ==> (|ParseExpression(ts).rest| == |ts| <==> ReadsNothing(Peek(ts)))
    ensures ReadsNothing(Peek(ts)) ==> ParseExpression(ts) == Parsed(Absent, ts)
  {
    LevelReads(ts, 1);
    hide ParseBinary;
  }

  /** A round of an argument list makes no progress exactly on a blocking token. */
  lemma RoundIsStuckExactly(ts: seq<Token>)
    requires Peek(ts).typ != RParen && Peek(ts).typ != EOF && ParseExpression(ts).Parsed?
    ensures |Expect(ParseExpression(ts).rest, Comma)| == |ts| <==> Blocks(Peek(ts))
  {
    UnreadExactly(ts);
    hide ParseExpression;
  }

  // ---------------------------------------------------------------- the scanner

  /** What the scanner is inside of, innermost first. */
  datatype Frames = Top | InParens(up: Frames) | InIndex(up: Frames) | InTernary(up: Frames) | InArgs(up: Frames)

  /** Expecting an operand, or one without prefix operators; behind an operand; behind an expression;
      at the start of a round of arguments. */
  datatype Mode = AtOperand | AtPrimary | AfterOperand | AfterExpression | AtRound

  datatype Outcome = Ends(rest: seq<Token>) | Stuck

  predicate Allowed(mode: Mode, frames: Frames, ts: seq<Token>) {
    && (mode.AfterExpression? ==> EndsAt(Peek(ts), 0))
    && (mode.AtRound? ==> frames.InArgs?)
  }

  function Rank(mode: Mode, t: Token): nat {
    match mode
    case AtOperand => if StartsPrimary(t) || IsPrefix(t.typ) then 1 else 6
    case AtPrimary => if StartsPrimary(t) then 0 else 5
    case AfterOperand => 4
    case AfterExpression => 3
    case AtRound => if StartsPrimary(t) || IsPrefix(t.typ) || (ReadsNothing(t) && t.typ != Comma) then 2 else 7
  }

  /** One pass over the tokens. It stops where the expression ends, or at a round of arguments that
      begins with a blocking token. */
  function Scan(mode: Mode, frames: Frames, ts: seq<Token>): Outcome
    requires Allowed(mode, frames, ts)
    decreases |ts|, frames, Rank(mode, Peek(ts))
  {
    match mode
    case AtOperand =>
      if IsPrefix(Peek(ts).typ) then Scan(AtOperand, frames, Advance(ts)) else Scan(AtPrimary, frames, ts)
    case AtPrimary => ScanPrimary(frames, ts)
    case AfterOperand => ScanContinuation(frames, ts)
    case AfterExpression => ScanEnd(frames, ts)
    case AtRound =>
      if Peek(ts).typ == RParen || Peek(ts).typ == EOF then Scan(AfterOperand, frames.up, Expect(ts, RParen))
      else if Blocks(Peek(ts)) then Stuck
      else Scan(AtOperand, frames, ts)
  }

  function ScanPrimary(frames: Frames, ts: seq<Token>): Outcome
    decreases |ts|, frames, Rank(AtPrimary, Peek(ts)), 0
  {
    var t := Peek(ts);
    if t.typ == LParen then
      var inner := Advance(ts);
      if LooksLikeCast(inner) then Scan(AtPrimary, frames, Advance(ParseType(inner).1))
      else Scan(AtOperand, InParens(frames), inner)
    else if t.typ == Dollar then Scan(AtPrimary, frames, Advance(ts))
    else if StartsPrimary(t) then Scan(AfterOperand, frames, Advance(ts))
    else Scan(AfterOperand, frames, ts)
  }

  function ScanContinuation(frames: Frames, ts: seq<Token>): Outcome
    decreases |ts|, frames, Rank(AfterOperand, Peek(ts)), 0
  {
    var t := Peek(ts);
    if t.typ == LParen then Scan(AtRound, InArgs(frames), Advance(ts))
    else if t.typ == LBracket then Scan(AtOperand, InIndex(frames), Advance(ts))
    else if t.typ == Dot || t.typ == Scope then Scan(AfterOperand, frames, Expect(Advance(ts), Identifier))
    else if t == Token(Keyword, "as") then Scan(AfterOperand, frames, ParseType(Advance(ts)).1)
    else if OpLevel(t.typ) >= 1 then Scan(AtOperand, frames, Advance(ts))
    else if t.typ == Question then Scan(AtOperand, InTernary(frames), Advance(ts))
    else Scan(AfterExpression, frames, ts)
  }

  function ScanEnd(frames: Frames, ts: seq<Token>): Outcome
    requires EndsAt(Peek(ts), 0)
    decreases |ts|, frames, Rank(AfterExpression, Peek(ts)), 0
  {
    match frames
    case Top => Ends(ts)
    case InParens(up) => Scan(AfterOperand, up, Expect(ts, RParen))
    case InIndex(up) => Scan(AfterOperand, up, Expect(ts, RBracket))
    case InTernary(up) => Scan(AtOperand, up, Expect(ts, Colon))
    case InArgs(up) =>
      if Peek(ts).typ == Comma then Scan(AtRound, frames, Advance(ts)) else Scan(AtRound, frames, ts)
  }

  // ---------------------------------------------------------------- the scanner follows the parser

  /** From `from` on, the scanner gets to where the parser got, or is stuck where the parser is. */
  ghost predicate Follows(frames: Frames, from: Outcome, r: Result) {
    if r.Parsed? then from == Scan(AfterOperand, frames, r.rest) else from == Stuck
  }

  /** The same for a whole expression. */
  ghost predicate FollowsWhole(frames: Frames, from: Outcome, r: Result) {
    if r.Parsed? then EndsAt(Peek(r.rest), 0) && from == Scan(AfterExpression, frames, r.rest) else from == Stuck
  }

  lemma AfterExpressionStep(frames: Frames, q: seq<Token>)
    requires EndsAt(Peek(q), 0)
    ensures Scan(AfterExpression, InTernary(frames), q) == Scan(AtOperand, frames, Expect(q, Colon))
    ensures Scan(AfterExpression, InParens(frames), q) == Scan(AfterOperand, frames, Expect(q, RParen))
    ensures Scan(AfterExpression, InIndex(frames), q) == Scan(AfterOperand, frames, Expect(q, RBracket))
    ensures Scan(AfterExpression, InArgs(frames), q) == Scan(AtRound, InArgs(frames), Expect(q, Comma))
  {
  }

  /** Behind an operand that no postfix form or binary operator continues. */
  lemma AfterOperandStep(frames: Frames, q: seq<Token>)
    requires EndsAt(Peek(q), 1)
    ensures Peek(q).typ == Question ==> Scan(AfterOperand, frames, q) == Scan(AtOperand, InTernary(frames), Advance(q))
    ensures Peek(q).typ != Question ==>
              EndsAt(Peek(q), 0) && Scan(AfterOperand, frames, q) == Scan(AfterExpression, frames, q)
  {
  }

  lemma OperatorStep(frames: Frames, q: seq<Token>)
    requires OpLevel(Peek(q).typ) >= 1
    ensures Scan(AfterOperand, frames, q) == Scan(AtOperand, frames, Advance(q))
  {
  }

  /** Where an expression ends: behind its condition, or behind the last branch of its ternary. */
  lemma ExpressionRest(ts: seq<Token>)
    ensures var cond := ParseBinary(ts, 1);
            if cond.Diverges? then ParseExpression(ts).Diverges?
            else if Peek(cond.rest).typ != Question then ParseExpression(ts) == cond
            else var yes := ParseExpression(Advance(cond.rest));
                 if yes.Diverges? then ParseExpression(ts).Diverges?
                 else SameEnd(ParseExpression(ts), ParseExpression(Expect(yes.rest, Colon)))
  {
    hide ParseBinary;
  }

  /** Both diverge, or both stop at the same place. */
  predicate SameEnd(r: Result, r': Result) {
    if r.Parsed? then r'.Parsed? && r'.rest == r.rest else r'.Diverges?
  }

  lemma {:induction false} ExpressionFollows(ts: seq<Token>, frames: Frames)
    ensures FollowsWhole(frames, Scan(AtOperand, frames, ts), ParseExpression(ts))
    decreases |ts|, 30
  {
    BinaryFollows(ts, 1, frames);
    ExpressionRest(ts);
    hide ParseBinary, ParseExpression, Scan, OpLevel;
    var cond := ParseBinary(ts, 1);
    if cond.Parsed? {
      AfterOperandStep(frames, cond.rest);
      if Peek(cond.rest).typ == Question {
        BranchesFollow(Advance(cond.rest), frames);
      }
    }
  }

  /** Both branches of a ternary, behind the question mark. */
  lemma {:induction false} BranchesFollow(ts: seq<Token>, frames: Frames)
    ensures var yes := ParseExpression(ts);
            if yes.Diverges? then Scan(AtOperand, InTernary(frames), ts) == Stuck
            else FollowsWhole(frames, Scan(AtOperand, InTernary(frames), ts), ParseExpression(Expect(yes.rest, Colon)))
    decreases |ts|, 31
  {
    ExpressionFollows(ts, InTernary(frames));
    hide ParseExpression, Scan;
    var yes := ParseExpression(ts);
    if yes.Parsed? {
      AfterExpressionStep(frames, yes.rest);
      ExpressionFollows(Expect(yes.rest, Colon), frames);
    }
  }

  lemma {:induction false} BinaryFollows(ts: seq<Token>, level: int, frames: Frames)
    requires 1 <= level <= 9
    ensures Follows(frames, Scan(AtOperand, frames, ts), ParseBinary(ts, level))
    ensures ParseBinary(ts, level).Parsed? ==> EndsAt(Peek(ParseBinary(ts, level).rest), level)
    decreases |ts|, 25 - 2 * level
  {
    hide Scan, ParsePrefix, BinaryRest;
    if level == 9 {
      PrefixFollows(ts, frames);
      if ParsePrefix(ts).Parsed? {
        OpLevelRange(Peek(ParsePrefix(ts).rest).typ);
      }
    } else {
      BinaryFollows(ts, level + 1, frames);
      var left := ParseBinary(ts, level + 1);
      if left.Parsed? {
        RestFollows(left.e, left.rest, level, frames);
      }
    }
  }

  lemma {:induction false} RestFollows(left: Tree, ts: seq<Token>, level: int, frames: Frames)
    requires 1 <= level <= 8 && EndsAt(Peek(ts), level + 1)
    ensures Follows(frames, Scan(AfterOperand, frames, ts), BinaryRest(left, ts, level))
    ensures BinaryRest(left, ts, level).Parsed? ==> EndsAt(Peek(BinaryRest(left, ts, level).rest), level)
    decreases |ts|, 24 - 2 * level
  {
    hide Scan, ParseBinary;
    if OpLevel(Peek(ts).typ) == level {
      OperatorStep(frames, ts);
      BinaryFollows(Advance(ts), level + 1, frames);
      var right := ParseBinary(Advance(ts), level + 1);
      if right.Parsed? {
        RestFollows(Binary(Peek(ts), left, right.e), right.rest, level, frames);
      }
    }
  }

  lemma {:induction false} PrefixFollows(ts: seq<Token>, frames: Frames)
    ensures Follows(frames, Scan(AtOperand, frames, ts), ParsePrefix(ts))
    ensures ParsePrefix(ts).Parsed? ==> !StartsPostfix(Peek(ParsePrefix(ts).rest))
    decreases |ts|, 4
  {
    AtOperandStep(frames, ts);
    hide Scan, ParsePostfix;
    if IsPrefix(Peek(ts).typ) {
      PrefixFollows(Advance(ts), frames);
    } else {
      PostfixFollows(ts, frames);
    }
  }

  lemma AtOperandStep(frames: Frames, ts: seq<Token>)
    ensures Scan(AtOperand, frames, ts) ==
            if IsPrefix(Peek(ts).typ) then Scan(AtOperand, frames, Advance(ts)) else Scan(AtPrimary, frames, ts)
  {
  }

  lemma {:induction false} PostfixFollows(ts: seq<Token>, frames: Frames)
    ensures Follows(frames, Scan(AtPrimary, frames, ts), ParsePostfix(ts))
    ensures ParsePostfix(ts).Parsed? ==> !StartsPostfix(Peek(ParsePostfix(ts).rest))
    decreases |ts|, 3
  {
    PrimaryFollows(ts, frames);
    hide Scan, ParsePrimary, PostfixRest;
    var left := ParsePrimary(ts);
    if left.Parsed? {
      PostfixRestFollows(left.e, left.rest, frames);
    }
  }

  lemma {:induction false} PostfixRestFollows(left: Tree, ts: seq<Token>, frames: Frames)
    ensures Follows(frames, Scan(AfterOperand, frames, ts), PostfixRest(left, ts))
    ensures PostfixRest(left, ts).Parsed? ==> !StartsPostfix(Peek(PostfixRest(left, ts).rest))
    decreases |ts|, 2
  {
    PostfixSteps(frames, ts);
    hide Scan, ParseExpression, ParseArgs, ParseType;
    var t := Peek(ts);
    if t.typ == LParen {
      ArgsFollow(Advance(ts), frames);
      var args := ParseArgs(Advance(ts));
      if args.Args? {
        PostfixRestFollows(Call(left, args.es), Expect(args.rest, RParen), frames);
      }
    } else if t.typ == LBracket {
      ExpressionFollows(Advance(ts), InIndex(frames));
      var index := ParseExpression(Advance(ts));
      if index.Parsed? {
        AfterExpressionStep(frames, index.rest);
        PostfixRestFollows(Index(left, index.e), Expect(index.rest, RBracket), frames);
      }
    } else if t.typ == Dot {
      PostfixRestFollows(Member(left, Peek(Advance(ts)).lit), Expect(Advance(ts), Identifier), frames);
    } else if t.typ == Scope {
      PostfixRestFollows(Scoped(left, Peek(Advance(ts)).lit), Expect(Advance(ts), Identifier), frames);
    } else if t == Token(Keyword, "as") {
      var (typ, q) := ParseType(Advance(ts));
      PostfixRestFollows(Cast(typ, left), q, frames);
    }
  }

  lemma PostfixSteps(frames: Frames, ts: seq<Token>)
    ensures var t, next := Peek(ts), Advance(ts);
            && (t.typ == LParen ==> Scan(AfterOperand, frames, ts) == Scan(AtRound, InArgs(frames), next))
            && (t.typ == LBracket ==> Scan(AfterOperand, frames, ts) == Scan(AtOperand, InIndex(frames), next))
            && (t.typ == Dot || t.typ == Scope ==>
                  Scan(AfterOperand, frames, ts) == Scan(AfterOperand, frames, Expect(next, Identifier)))
            && (t == Token(Keyword, "as") ==>
                 Scan(AfterOperand, frames, ts) == Scan(AfterOperand, frames, ParseType(next).1))
  {
    hide ParseType;
  }

  lemma {:induction false} ArgsFollow(ts: seq<Token>, frames: Frames)
    ensures var r := ParseArgs(ts);
            Scan(AtRound, InArgs(frames), ts) ==
            if r.Args? then Scan(AfterOperand, frames, Expect(r.rest, RParen)) else Stuck
    decreases |ts|, 31
  {
    RoundStep(frames, ts);
    hide Scan, ParseExpression;
    if Peek(ts).typ != RParen && Peek(ts).typ != EOF {
      ExpressionFollows(ts, InArgs(frames));
      var r := ParseExpression(ts);
      if r.Parsed? {
        RoundIsStuckExactly(ts);
        AfterExpressionStep(frames, r.rest);
        if !Blocks(Peek(ts)) {
          ArgsFollow(Expect(r.rest, Comma), frames);
        }
      } else {
        UnreadExactly(ts);
      }
    }
  }

  lemma RoundStep(frames: Frames, ts: seq<Token>)
    ensures Scan(AtRound, InArgs(frames), ts) ==
            if Peek(ts).typ == RParen || Peek(ts).typ == EOF then Scan(AfterOperand, frames, Expect(ts, RParen))
            else if Blocks(Peek(ts)) then Stuck
            else Scan(AtOperand, InArgs(frames), ts)
  {
  }

  lemma {:induction false} PrimaryFollows(ts: seq<Token>, frames: Frames)
    ensures Follows(frames, Scan(AtPrimary, frames, ts), ParsePrimary(ts))
    decreases |ts|, 1
  {
    AtPrimaryStep(frames, ts);
    hide Scan, ScanPrimary, ScanContinuation, ParseParenthesized;
    if Peek(ts).typ == LParen {
      ParenthesizedFollows(Advance(ts), frames);
    } else if Peek(ts).typ == Dollar {
      PrimaryFollows(Advance(ts), frames);
    }
  }

  /** What the scanner does behind an opening parenthesis. */
  function ScanParens(frames: Frames, inner: seq<Token>): Outcome {
    if LooksLikeCast(inner) then Scan(AtPrimary, frames, Advance(ParseType(inner).1))
      else Scan(AtOperand, InParens(frames), inner)
  }

  lemma AtPrimaryStep(frames: Frames, ts: seq<Token>)
    ensures Scan(AtPrimary, frames, ts) ==
            var t := Peek(ts);
            if t.typ == LParen then ScanParens(frames, Advance(ts))
            else if t.typ == Dollar then Scan(AtPrimary, frames, Advance(ts))
            else if StartsPrimary(t) then Scan(AfterOperand, frames, Advance(ts))
            else Scan(AfterOperand, frames, ts)
  {
    hide LooksLikeCast, ParseType;
  }

  lemma {:induction false} ParenthesizedFollows(inner: seq<Token>, frames: Frames)
    ensures Follows(frames, ScanParens(frames, inner), ParseParenthesized(inner))
    decreases |inner|, 32
  {
    hide Scan, ParseExpression, ParseType, LooksLikeCast, ParsePrimary;
    if LooksLikeCast(inner) {
      PrimaryFollows(Advance(ParseType(inner).1), frames);
    } else {
      ExpressionFollows(inner, InParens(frames));
      var r := ParseExpression(inner);
      if r.Parsed? {
        AfterExpressionStep(frames, r.rest);
      }
    }
  }

  // ---------------------------------------------------------------- divergence

  /** The parser runs forever exactly when the scanner gets stuck; otherwise both stop at the same
      place. */
  lemma DivergesExactly(ts: seq<Token>)
    ensures ParseExpression(ts).Diverges? <==> Scan(AtOperand, Top, ts).Stuck?
    ensures ParseExpression(ts).Parsed? ==> Scan(AtOperand, Top, ts) == Ends(ParseExpression(ts).rest)
  {
    ExpressionFollows(ts, Top);
    hide ParseExpression, Scan;
    if ParseExpression(ts).Parsed? {
      TopStep(ParseExpression(ts).rest);
    }
  }

  lemma TopStep(q: seq<Token>)
    requires EndsAt(Peek(q), 0)
    ensures Scan(AfterExpression, Top, q) == Ends(q)
  {
  }

  predicate NoneBlocks(ts: seq<Token>) {
    forall i {:trigger ts[i]} :: 0 <= i < |ts| ==> !Blocks(ts[i])
  }

  lemma TypeKeeps(ts: seq<Token>)
    requires NoneBlocks(ts)
    ensures NoneBlocks(ParseType(ts).1)
  {
    hide SkipWord;
    SkipKeeps(ts, {"unsigned", "signed"});
    SkipKeeps(SkipWord(ts, {"unsigned", "signed"}), {"const"});
  }

  lemma SkipKeeps(ts: seq<Token>, words: set<string>)
    requires NoneBlocks(ts)
    ensures NoneBlocks(SkipWord(ts, words))
  {
  }

  lemma {:induction false} NeverStuck(mode: Mode, frames: Frames, ts: seq<Token>)
    requires Allowed(mode, frames, ts) && NoneBlocks(ts)
    ensures Scan(mode, frames, ts).Ends?
    decreases |ts|, frames, Rank(mode, Peek(ts))
  {
    hide ParseType, LooksLikeCast;
    TypeKeeps(ts);
    match mode
    case AtOperand =>
      AtOperandStep(frames, ts);
      if IsPrefix(Peek(ts).typ) {
        NeverStuck(AtOperand, frames, Advance(ts));
      } else {
        NeverStuck(AtPrimary, frames, ts);
      }
    case AtPrimary => NeverStuckPrimary(frames, ts);
    case AfterOperand => NeverStuckContinuation(frames, ts);
    case AfterExpression => NeverStuckEnd(frames, ts);
    case AtRound =>
      if Peek(ts).typ == RParen || Peek(ts).typ == EOF {
        NeverStuck(AfterOperand, frames.up, Expect(ts, RParen));
      } else {
        NeverStuck(AtOperand, frames, ts);
      }
  }

  lemma {:induction false} NeverStuckPrimary(frames: Frames, ts: seq<Token>)
    requires NoneBlocks(ts)
    ensures ScanPrimary(frames, ts).Ends?
    decreases |ts|, frames, Rank(AtPrimary, Peek(ts)), 0
  {
    hide Scan, ParseType, LooksLikeCast;
    var t, next := Peek(ts), Advance(ts);
    TypeKeeps(next);
    if t.typ == LParen {
      if LooksLikeCast(next) {
        NeverStuck(AtPrimary, frames, Advance(ParseType(next).1));
      } else {
        NeverStuck(AtOperand, InParens(frames), next);
      }
    } else if t.typ == Dollar {
      NeverStuck(AtPrimary, frames, next);
    } else if StartsPrimary(t) {
      NeverStuck(AfterOperand, frames, next);
    } else {
      NeverStuck(AfterOperand, frames, ts);
    }
  }

  lemma {:induction false} NeverStuckContinuation(frames: Frames, ts: seq<Token>)
    requires NoneBlocks(ts)
    ensures ScanContinuation(frames, ts).Ends?
    decreases |ts|, frames, Rank(AfterOperand, Peek(ts)), 0
  {
    hide Scan, ParseType;
    var t, next := Peek(ts), Advance(ts);
    TypeKeeps(next);
    if t.typ == LParen {
      NeverStuck(AtRound, InArgs(frames), next);
    } else if t.typ == LBracket {
      NeverStuck(AtOperand, InIndex(frames), next);
    } else if t.typ == Dot || t.typ == Scope {
      NeverStuck(AfterOperand, frames, Expect(next, Identifier));
    } else if t == Token(Keyword, "as") {
      NeverStuck(AfterOperand, frames, ParseType(next).1);
    } else if OpLevel(t.typ) >= 1 {
      NeverStuck(AtOperand, frames, next);
    } else if t.typ == Question {
      NeverStuck(AtOperand, InTernary(frames), next);
    } else {
      NeverStuck(AfterExpression, frames, ts);
    }
  }

  lemma {:induction false} NeverStuckEnd(frames: Frames, ts: seq<Token>)
    requires NoneBlocks(ts) && EndsAt(Peek(ts), 0)
    ensures ScanEnd(frames, ts).Ends?
    decreases |ts|, frames, Rank(AfterExpression, Peek(ts)), 0
  {
    hide Scan;
    match frames
    case Top =>
    case InParens(up) => NeverStuck(AfterOperand, up, Expect(ts, RParen));
    case InIndex(up) => NeverStuck(AfterOperand, up, Expect(ts, RBracket));
    case InTernary(up) => NeverStuck(AtOperand, up, Expect(ts, Colon));
    case InArgs(_) => NeverStuck(AtRound, frames, Expect(ts, Comma));
  }

  /** Without a blocking token the parser always stops. */
  lemma NoBlockingTokenNoDivergence(ts: seq<Token>)
    requires NoneBlocks(ts)
    ensures ParseExpression(ts).Parsed?
  {
    DivergesExactly(ts);
    NeverStuck(AtOperand, Top, ts);
    hide ParseExpression, Scan;
  }

  /** A call whose argument list begins with a blocking token runs forever. */
  lemma CallDiverges(f: string, b: Token, suffix: seq<Token>)
    requires Blocks(b)
    ensures ParseExpression([Token(Identifier, f), Token(LParen, "("), b] + suffix).Diverges?
  {
    var s2 := [b] + suffix;
    var s1 := [Token(LParen, "(")] + s2;
    var ts := [Token(Identifier, f)] + s1;
    assert [Token(Identifier, f), Token(LParen, "("), b] + suffix == ts;
    assert Peek(ts) == Token(Identifier, f) && Advance(ts) == s1 && Peek(s1).typ == LParen && Advance(s1) == s2;
    AtOperandStep(Top, ts);
    AtPrimaryStep(Top, ts);
    PostfixSteps(Top, s1);
    RoundStep(Top, s2);
    DivergesExactly(ts);
    hide Scan, ParseExpression;
  }
}

/** Matching patterns against an instruction stream: one alternative at one position, and the scan
    through the opcode index, compared with trying everything everywhere. */
module Matching {
  import opened Text
  import opened Instructions
  import opened PatternIndex

  type Bindings = map<string, string>

  /** How a stream instruction is held against a pattern instruction: the opcode test, and the
      operand test with the variables it binds. */
  datatype Rules = Rules(
    accepts: (Instruction, PatternInst) -> bool,
    bind: (Instruction, seq<PatternOperand>, Bindings) -> Option<Bindings>)
  {
    function Step(inst: Instruction, pat: PatternInst, b: Bindings): Option<Bindings> {
      if accepts(inst, pat) then bind(inst, pat.operands, b) else None
    }
  }

  // ---------------------------------------------------------------- one alternative

  /** An alternative without its labels. */
  function Real(alt: Alternative): Alternative {
    if alt == [] then []
    else
      var front, last := Real(alt[..|alt| - 1]), alt[|alt| - 1];
      if last.isLabel then front else front + [last]
  }

  predicate EndsInLabel(alt: Alternative) {
    alt != [] && alt[|alt| - 1].isLabel
  }

  /** Instruction by instruction, with the bindings carried from left to right. */
  function Thread(rules: Rules, insts: seq<Instruction>, pats: Alternative): Option<Bindings>
    requires |insts| == |pats|
  {
    if pats == [] then Some(map[])
    else
      var n := |pats| - 1;
      match Thread(rules, insts[..n], pats[..n])
      case None => None
      case Some(b) => rules.Step(insts[n], pats[n], b)
  }

  /** The instructions an alternative needs from the stream: its own, and one more behind a label
      at the end. */
  function Needs(alt: Alternative): nat {
    |Real(alt)| + if EndsInLabel(alt) then 1 else 0
  }

  /** What matching an alternative at a position should give: the bindings and the last index. */
  function MatchAt(rules: Rules, insts: seq<Instruction>, start: nat, alt: Alternative): Option<(Bindings, nat)> {
    var n := |Real(alt)|;
    if start + Needs(alt) > |insts| then None
    else
      match Thread(rules, insts[start..start + n], Real(alt))
      case None => None
      case Some(b) => Some((b, if start + n == 0 then 0 else start + n - 1))
  }

  lemma RealAppend(alt: Alternative, p: PatternInst)
    ensures Real(alt + [p]) == if p.isLabel then Real(alt) else Real(alt) + [p]
  {
    assert (alt + [p])[..|alt|] == alt;
  }

  lemma {:induction false} RealPrefix(alt: Alternative, k: nat)
    requires k <= |alt|
    ensures |Real(alt[..k])| <= |Real(alt)| && Real(alt)[..|Real(alt[..k])|] == Real(alt[..k])
    decreases |alt| - k
  {
    if k < |alt| {
      assert alt[..k + 1] == alt[..k] + [alt[k]];
      RealAppend(alt[..k], alt[k]);
      RealPrefix(alt, k + 1);
    } else {
      assert alt[..k] == alt;
    }
  }

  /** Once a prefix fails to thread, so does everything that begins with it. */
  lemma {:induction false} ThreadPrefix(rules: Rules, insts: seq<Instruction>, pats: Alternative, k: nat)
    requires |insts| == |pats| && k <= |pats|
    requires Thread(rules, insts[..k], pats[..k]).None?
    ensures Thread(rules, insts, pats).None?
    decreases |pats|
  {
    var n := |pats|;
    if k == n {
      assert insts[..k] == insts && pats[..k] == pats;
    } else {
      assert insts[..n - 1][..k] == insts[..k] && pats[..n - 1][..k] == pats[..k];
      ThreadPrefix(rules, insts[..n - 1], pats[..n - 1], k);
    }
  }

  lemma ThreadAppend(rules: Rules, insts: seq<Instruction>, pats: Alternative, inst: Instruction, pat: PatternInst)
    requires |insts| == |pats|
    ensures Thread(rules, insts + [inst], pats + [pat]) ==
            match Thread(rules, insts, pats) case None => None case Some(b) => rules.Step(inst, pat, b)
  {
    assert (insts + [inst])[..|insts|] == insts && (pats + [pat])[..|pats|] == pats;
  }

  // ---------------------------------------------------------------- confidence

  function CountOperands(pats: Alternative): nat {
    if pats == [] then 0 else CountOperands(pats[..|pats| - 1]) + |pats[|pats| - 1].operands|
  }

  function CountWild(ops: seq<PatternOperand>): (n: nat)
    ensures n <= |ops|
  {
    if ops == [] then 0 else CountWild(ops[..|ops| - 1]) + if ops[|ops| - 1].isWildcard then 1 else 0
  }

  function CountWildcards(pats: Alternative): (n: nat)
    ensures n <= CountOperands(pats)
  {
    if pats == [] then 0 else CountWildcards(pats[..|pats| - 1]) + CountWild(pats[|pats| - 1].operands)
  }

  function Rate(operands: nat, wildcards: nat, matched: nat): real {
    var base := if operands > 0 then 1.0 - (wildcards as real) / (operands as real) else 1.0;
    var c := base + (matched as real) * 0.1;
    if c > 1.0 then 1.0 else c
  }

  /** The confidence of a match depends on the alternative alone. */
  function Confidence(alt: Alternative): real {
    Rate(CountOperands(Real(alt)), CountWildcards(Real(alt)), |Real(alt)|)
  }

  lemma ScaleOrder(a: real, b: real, c: real)
    requires c > 0.0
    ensures a * c <= b * c <==> a <= b
  {
    if a <= b {
      assert (b - a) * c >= 0.0;
    } else {
      assert (a - b) * c > 0.0;
    }
  }

  lemma {:induction false} ProductOfReals(a: nat, b: nat)
    ensures (a as real) * (b as real) == (a * b) as real
  {
    if a > 0 {
      ProductOfReals(a - 1, b);
      assert (a as real) * (b as real) == ((a - 1) as real) * (b as real) + b as real;
      assert a * b == (a - 1) * b + b;
    }
  }

  lemma ShareBounds(part: nat, whole: nat, n: nat)
    requires part <= whole && whole > 0
    ensures 0.0 <= (part as real) / (whole as real) <= 1.0
    ensures 10.0 * ((part as real) / (whole as real)) <= n as real <==> 10 * part <= n * whole
  {
    var w: real := whole as real;
    var share: real := (part as real) / w;
    var tenfold := 10.0 * share;
    assert share * w == part as real;
    assert tenfold * w == (10 * part) as real;
    ScaleOrder(tenfold, n as real, w);
    ProductOfReals(n, whole);
    assert 0.0 <= share <= 1.0 by {
      assert 0.0 * w == 0.0 && 1.0 * w == w;
      ScaleOrder(0.0, share, w);
      ScaleOrder(share, 1.0, w);
    }
  }

  /** A match is trusted a little, and never more than fully; fully exactly when wildcards are no more
      than a tenth of the operands per matched instruction. */
  lemma ConfidenceExactly(alt: Alternative)
    ensures 0.0 < Confidence(alt) <= 1.0
    ensures Confidence(alt) == 1.0 <==> 10 * CountWildcards(Real(alt)) <= |Real(alt)| * CountOperands(Real(alt))
  {
    var ops, wild, n := CountOperands(Real(alt)), CountWildcards(Real(alt)), |Real(alt)|;
    if ops > 0 {
      ShareBounds(wild, ops, n);
    } else {
      assert wild == 0;
    }
  }

  /** With `n` operands, `w` of them wildcards, and `k` matched instructions: the share of operands that are
      no wildcards plus a tenth for each instruction, cleared of fractions. */
  predicate IsShareAndTenths(r: real, n: real, w: real, k: real) {
    10.0 * n * r == 10.0 * (n - w) + k * n
  }

  lemma ShareAndTenths(n: real, w: real, k: real)
    requires n > 0.0
    ensures IsShareAndTenths(1.0 - w / n + k * 0.1, n, w, k)
  {
    var share := w / n;
    assert share * n == w;
    var c := 1.0 - share + k * 0.1;
    assert c * n == n - share * n + k * 0.1 * n;
    assert 10.0 * n * c == 10.0 * (c * n);
  }

  lemma RateIs(operands: nat, wildcards: nat, matched: nat)
    requires operands > 0
    ensures Rate(operands, wildcards, matched) < 1.0 ==>
              IsShareAndTenths(Rate(operands, wildcards, matched), operands as real, wildcards as real, matched as real)
  {
    hide IsShareAndTenths;
    ShareAndTenths(operands as real, wildcards as real, matched as real);
  }

  lemma RateAtShare(operands: nat, wildcards: nat, matched: nat, share: real)
    requires operands > 0 && share == (wildcards as real) / (operands as real)
    ensures var c := 1.0 - share + (matched as real) * 0.1;
            Rate(operands, wildcards, matched) == if c > 1.0 then 1.0 else c
  {
  }

  lemma ShareFalls(w: real, m: real, n: real)
    requires w <= m && n > 0.0
    ensures w / n <= m / n
  {
    assert (w / n) * n == w && (m / n) * n == m;
    ScaleOrder(w / n, m / n, n);
  }

  lemma RateWithoutOperands(matched: nat)
    ensures Rate(0, 0, matched) == 1.0
  {
  }

  lemma RateFalls(operands: nat, wildcards: nat, more: nat, matched: nat)
    requires wildcards <= more <= operands
    ensures Rate(operands, more, matched) <= Rate(operands, wildcards, matched)
  {
    if operands > 0 {
      var n := operands as real;
      var few, many := (wildcards as real) / n, (more as real) / n;
      ShareFalls(wildcards as real, more as real, n);
      RateAtShare(operands, wildcards, matched, few);
      RateAtShare(operands, more, matched, many);
      hide Rate;
    }
  }

  /** The confidence, computed: full without operands; otherwise, where it is not full, the share of operands
      that are no wildcards plus a tenth for each matched instruction. */
  lemma ConfidenceIs(alt: Alternative)
    ensures var operands, wildcards, matched := CountOperands(Real(alt)), CountWildcards(Real(alt)), |Real(alt)|;
            var n, w, k := operands as real, wildcards as real, matched as real;
            && (operands == 0 ==> Confidence(alt) == 1.0)
            && (operands > 0 && Confidence(alt) < 1.0 ==> IsShareAndTenths(Confidence(alt), n, w, k))
  {
    var operands, wildcards, matched := CountOperands(Real(alt)), CountWildcards(Real(alt)), |Real(alt)|;
    assert Confidence(alt) == Rate(operands, wildcards, matched) && wildcards <= operands;
    hide *;
    if operands > 0 {
      RateIs(operands, wildcards, matched);
    } else {
      RateWithoutOperands(matched);
    }
  }

  /** At equal length and number of operands, more wildcards never give more confidence. */
  lemma WildcardsCostConfidence(alt: Alternative, alt': Alternative)
    requires |Real(alt)| == |Real(alt')| && CountOperands(Real(alt)) == CountOperands(Real(alt'))
    requires CountWildcards(Real(alt)) <= CountWildcards(Real(alt'))
    ensures Confidence(alt') <= Confidence(alt)
  {
    RateFalls(CountOperands(Real(alt)), CountWildcards(Real(alt)), CountWildcards(Real(alt')), |Real(alt)|);
    hide Real, CountOperands, CountWildcards, Rate;
  }

  /** Labels are left out; operands and wildcards are counted over the instructions that are left. */
  lemma CountsAdd(alt: Alternative, p: PatternInst, ops: seq<PatternOperand>, op: PatternOperand)
    ensures Real([]) == [] && CountOperands([]) == 0 && CountWildcards([]) == 0 && CountWild([]) == 0
    ensures Real(alt + [p]) == if p.isLabel then Real(alt) else Real(alt) + [p]
    ensures CountOperands(alt + [p]) == CountOperands(alt) + |p.operands|
    ensures CountWildcards(alt + [p]) == CountWildcards(alt) + CountWild(p.operands)
    ensures CountWild(ops + [op]) == CountWild(ops) + if op.isWildcard then 1 else 0
  {
    assert (alt + [p])[..|alt|] == alt && (ops + [op])[..|ops|] == ops;
  }

  // ---------------------------------------------------------------- the loop

  /** The loop has matched the first `pi` pattern instructions with the stream up to `si`. */
  ghost predicate Walked(rules: Rules, insts: seq<Instruction>, start: nat, alt: Alternative, si: nat, pi: nat,
                         b: Bindings) {
    && start <= si <= |insts| && pi <= |alt|
    && si - start == |Real(alt[..pi])|
    && (pi > 0 && alt[pi - 1].isLabel ==> si < |insts|)
    && Thread(rules, insts[start..si], Real(alt[..pi])) == Some(b)
  }

  lemma WalkLabel(rules: Rules, insts: seq<Instruction>, start: nat, alt: Alternative, si: nat, pi: nat, b: Bindings)
    requires Walked(rules, insts, start, alt, si, pi, b) && pi < |alt| && si < |insts| && alt[pi].isLabel
    ensures Walked(rules, insts, start, alt, si, pi + 1, b) && Real(alt[..pi + 1]) == Real(alt[..pi])
  {
    assert alt[..pi + 1] == alt[..pi] + [alt[pi]];
    RealAppend(alt[..pi], alt[pi]);
  }

  lemma WalkStep(rules: Rules, insts: seq<Instruction>, start: nat, alt: Alternative, si: nat, pi: nat, b: Bindings)
    requires Walked(rules, insts, start, alt, si, pi, b) && pi < |alt| && si < |insts| && !alt[pi].isLabel
    ensures Real(alt[..pi + 1]) == Real(alt[..pi]) + [alt[pi]]
    ensures var next := rules.Step(insts[si], alt[pi], b);
            if next.Some? then Walked(rules, insts, start, alt, si + 1, pi + 1, next.value)
            else MatchAt(rules, insts, start, alt).None?
  {
    hide Real, Thread, MatchAt, EndsInLabel;
    assert alt[..pi + 1] == alt[..pi] + [alt[pi]];
    RealAppend(alt[..pi], alt[pi]);
    assert insts[start..si + 1] == insts[start..si] + [insts[si]];
    ThreadAppend(rules, insts[start..si], Real(alt[..pi]), insts[si], alt[pi]);
    if rules.Step(insts[si], alt[pi], b).None? {
      RealPrefix(alt, pi + 1);
      FailsAt(rules, insts, start, alt, si + 1 - start);
    }
  }

  lemma WalkEnds(rules: Rules, insts: seq<Instruction>, start: nat, alt: Alternative, si: nat, pi: nat, b: Bindings)
    requires Walked(rules, insts, start, alt, si, pi, b) && (si == |insts| || pi == |alt|)
    ensures MatchAt(rules, insts, start, alt) == if pi < |alt| then None else Some((b, if si == 0 then 0 else si - 1))
  {
    if pi < |alt| {
      RunsOut(alt, pi);
    } else {
      assert alt[..pi] == alt;
    }
  }

  /** The counters after the first `pi` pattern instructions. */
  ghost predicate Tallied(alt: Alternative, pi: nat, matched: nat, operands: nat, wildcards: nat) {
    && pi <= |alt| && matched == |Real(alt[..pi])|
    && operands == CountOperands(Real(alt[..pi])) && wildcards == CountWildcards(Real(alt[..pi]))
  }

  lemma TallyOneMore(alt: Alternative, pi: nat, matched: nat, operands: nat, wildcards: nat)
    requires Tallied(alt, pi, matched, operands, wildcards) && pi < |alt|
    ensures alt[pi].isLabel ==> Tallied(alt, pi + 1, matched, operands, wildcards)
    ensures !alt[pi].isLabel ==>
              Tallied(alt, pi + 1, matched + 1, operands + |alt[pi].operands|, wildcards + CountWild(alt[pi].operands))
  {
    var pats := Real(alt[..pi]);
    assert alt[..pi + 1] == alt[..pi] + [alt[pi]];
    RealAppend(alt[..pi], alt[pi]);
    assert (pats + [alt[pi]])[..|pats|] == pats;
  }

  lemma WalkBegins(rules: Rules, insts: seq<Instruction>, start: nat, alt: Alternative)
    requires start <= |insts|
    ensures Walked(rules, insts, start, alt, start, 0, map[]) && Tallied(alt, 0, 0, 0, 0)
  {
    assert alt[..0] == [];
  }

  lemma WalkIsRated(alt: Alternative, matched: nat, operands: nat, wildcards: nat)
    requires Tallied(alt, |alt|, matched, operands, wildcards)
    ensures wildcards <= operands && Rate(operands, wildcards, matched) == Confidence(alt)
  {
    assert alt[..|alt|] == alt;
  }

  /** Walk stream and alternative side by side; labels match nothing and bind nothing. */
  method TryMatch(rules: Rules, insts: seq<Instruction>, start: nat, alt: Alternative)
    returns (found: Option<(Bindings, nat)>, confidence: real)
    requires start <= |insts|
    ensures found == MatchAt(rules, insts, start, alt)
    ensures confidence == if found.Some? then Confidence(alt) else 0.0
  {
    var bindings: Bindings := map[];
    var matchCount, wildcardCount, operandCount := 0, 0, 0;
    var si: nat, pi: nat := start, 0;
    WalkBegins(rules, insts, start, alt);
    hide Walked, Tallied, MatchAt, Confidence;
    while si < |insts| && pi < |alt|
      invariant si <= |insts| && pi <= |alt| && Walked(rules, insts, start, alt, si, pi, bindings)
      invariant Tallied(alt, pi, matchCount, operandCount, wildcardCount)
      decreases |alt| - pi
    {
      var pat, inst := alt[pi], insts[si];
      TallyOneMore(alt, pi, matchCount, operandCount, wildcardCount);
      if pat.isLabel {
        WalkLabel(rules, insts, start, alt, si, pi, bindings);
        pi := pi + 1;
        continue;
      }
      WalkStep(rules, insts, start, alt, si, pi, bindings);
      var next := rules.Step(inst, pat, bindings);
      if next.None? {
        return None, 0.0;
      }
      bindings := next.value;
      var ops, wild := TallyOperands(pat.operands);
      operandCount, wildcardCount := operandCount + ops, wildcardCount + wild;
      matchCount, si, pi := matchCount + 1, si + 1, pi + 1;
    }
    WalkEnds(rules, insts, start, alt, si, pi, bindings);
    if pi < |alt| {
      return None, 0.0;
    }
    WalkIsRated(alt, matchCount, operandCount, wildcardCount);
    var last := if si == 0 then 0 else si - 1;
    return Some((bindings, last)), Rate(operandCount, wildcardCount, matchCount);
  }

  method TallyOperands(ops: seq<PatternOperand>) returns (all: nat, wild: nat)
    ensures all == |ops| && wild == CountWild(ops)
  {
    all, wild := 0, 0;
    var i := 0;
    while i < |ops|
      invariant 0 <= i <= |ops| && all == i && wild == CountWild(ops[..i])
    {
      assert ops[..i + 1][..i] == ops[..i];
      all := all + 1;
      if ops[i].isWildcard {
        wild := wild + 1;
      }
      i := i + 1;
    }
    assert ops[..i] == ops;
  }

  lemma FailsAt(rules: Rules, insts: seq<Instruction>, start: nat, alt: Alternative, k: nat)
    requires start + k <= |insts| && k <= |Real(alt)|
    requires Thread(rules, insts[start..start + k], Real(alt)[..k]).None?
    ensures MatchAt(rules, insts, start, alt).None?
  {
    var n := |Real(alt)|;
    if start + Needs(alt) <= |insts| {
      assert insts[start..start + n][..k] == insts[start..start + k];
      ThreadPrefix(rules, insts[start..start + n], Real(alt), k);
    }
  }

  /** What is left of an alternative needs at least one more instruction. */
  lemma RunsOut(alt: Alternative, k: nat)
    requires k < |alt|
    ensures Needs(alt) > |Real(alt[..k])|
  {
    RealPrefix(alt, k);
    if !EndsInLabel(alt) {
      assert alt[..|alt| - 1] + [alt[|alt| - 1]] == alt;
      RealAppend(alt[..|alt| - 1], alt[|alt| - 1]);
      assert alt[..|alt| - 1][..k] == alt[..k];
      RealPrefix(alt[..|alt| - 1], k);
    }
  }

  // ---------------------------------------------------------------- the scan

  datatype Match = Match(
    pattern: Pattern,
    alternative: nat,
    start: nat,
    end: nat,
    bindings: Bindings,
    confidence: real)

  const MAX_RAW_MATCHES: nat := 10000

  /** Alternative `a` of `p` matches at position `i`, and begins with the opcode found there. */
  predicate Hits(rules: Rules, insts: seq<Instruction>, i: nat, p: Pattern, a: nat)
    requires i < |insts|
  {
    && insts[i].opcode != ""
    && a < |p.alternatives| && BeginsWith(p.alternatives[a], ToUpper(insts[i].opcode))
    && MatchAt(rules, insts, i, p.alternatives[a]).Some?
  }

  lemma MatchStaysInside(rules: Rules, insts: seq<Instruction>, i: nat, alt: Alternative)
    requires i < |insts| && MatchAt(rules, insts, i, alt).Some?
    ensures MatchAt(rules, insts, i, alt).value.1 < |insts|
  {
  }

  /** The record of a hit. */
  function HitMatch(rules: Rules, insts: seq<Instruction>, i: nat, p: Pattern, a: nat): Match
    requires i < |insts| && Hits(rules, insts, i, p, a)
  {
    MatchStaysInside(rules, insts, i, p.alternatives[a]);
    var (b, end) := MatchAt(rules, insts, i, p.alternatives[a]).value;
    Match(p, a, insts[i].address, insts[end].Next(), b, Confidence(p.alternatives[a]))
  }

  /** All hits of the first `n` alternatives of one pattern at one position. */
  function PatternHits(rules: Rules, insts: seq<Instruction>, i: nat, p: Pattern, n: nat): seq<Match>
    requires i < |insts| && n <= |p.alternatives|
  {
    if n == 0 then []
    else
      PatternHits(rules, insts, i, p, n - 1)
      + if Hits(rules, insts, i, p, n - 1) then [HitMatch(rules, insts, i, p, n - 1)] else []
  }

  function CandidateHits(rules: Rules, insts: seq<Instruction>, i: nat, ps: seq<Pattern>): seq<Match>
    requires i < |insts|
  {
    if ps == [] then []
    else
      var last := ps[|ps| - 1];
      CandidateHits(rules, insts, i, ps[..|ps| - 1]) + PatternHits(rules, insts, i, last, |last.alternatives|)
  }

  /** All hits at the first `n` positions, through the index. */
  function IndexedHits(rules: Rules, insts: seq<Instruction>, index: OpcodeIndex, n: nat): seq<Match>
    requires n <= |insts|
  {
    if n == 0 then []
    else
      var key := ToUpper(insts[n - 1].opcode);
      IndexedHits(rules, insts, index, n - 1) + CandidateHits(rules, insts, n - 1, Filed(index, key))
  }

  lemma NextAddress(insts: seq<Instruction>, k: nat)
    requires Ordered(insts) && k < |insts|
    ensures insts[k].Next() == insts[k].address + insts[k].size && insts[k].size >= 1
  {
  }

  lemma AddressesBetween(insts: seq<Instruction>, i: nat, last: nat, k: nat)
    requires Ordered(insts) && i <= last < |insts| && k < |insts|
    ensures insts[i].address <= insts[k].address < insts[last].address + insts[last].size <==> i <= k <= last
  {
    assert k < i ==> insts[k].address + insts[k].size <= insts[i].address;
    assert i < k ==> insts[i].address + insts[i].size <= insts[k].address;
    assert last < k ==> insts[last].address + insts[last].size <= insts[k].address;
    assert k < last ==> insts[k].address + insts[k].size <= insts[last].address;
  }

  lemma HitFields(rules: Rules, insts: seq<Instruction>, i: nat, p: Pattern, a: nat)
    requires i < |insts| && Hits(rules, insts, i, p, a)
    ensures var m, n := HitMatch(rules, insts, i, p, a), |Real(p.alternatives[a])|;
            && i + n <= |insts| && m.start == insts[i].address
            && m.end == insts[if i + n == 0 then 0 else i + n - 1].Next()
  {
    hide Real, Thread, BeginsWith;
  }

  /** The address range of a hit holds exactly the instructions that were matched; for labels alone at
      the first position it holds the first instruction, and elsewhere it is empty for them. */
  lemma HitRangeExactly(rules: Rules, insts: seq<Instruction>, i: nat, p: Pattern, a: nat)
    requires Ordered(insts) && i < |insts| && Hits(rules, insts, i, p, a)
    ensures var m, n := HitMatch(rules, insts, i, p, a), |Real(p.alternatives[a])|;
            && (m.start < m.end <==> n > 0 || i == 0)
            && i + n <= |insts|
            && forall k {:trigger insts[k]} :: 0 <= k < |insts| ==>
                 (m.start <= insts[k].address < m.end <==> i <= k < i + if i + n == 0 then 1 else n)
  {
    HitFields(rules, insts, i, p, a);
    var n := |Real(p.alternatives[a])|;
    var last := if i + n == 0 then 0 else i + n - 1;
    NextAddress(insts, last);
    AddressesBetween(insts, if last < i then last else i, if last < i then i else last, i);
    if n > 0 {
      hide Hits, HitMatch, Real, Ordered;
      AddressesBetween(insts, i, last, i);
      forall k | 0 <= k < |insts|
        ensures insts[i].address <= insts[k].address < insts[last].Next() <==> i <= k < i + n
      {
        AddressesBetween(insts, i, last, k);
      }
    } else {
      hide Hits, HitMatch, Real;
      assert last < i ==> insts[last].address + insts[last].size <= insts[i].address;
    }
  }

  /** No more than the raw-match limit. */
  function Capped(ms: seq<Match>): (r: seq<Match>)
    ensures |r| <= MAX_RAW_MATCHES && r <= ms
    ensures |ms| <= MAX_RAW_MATCHES ==> r == ms
  {
    if |ms| <= MAX_RAW_MATCHES then ms else ms[..MAX_RAW_MATCHES]
  }

  lemma CappedAppend(x: seq<Match>, y: seq<Match>)
    ensures |Capped(x)| == MAX_RAW_MATCHES ==> Capped(x + y) == Capped(x)
    ensures Capped(x + y) == Capped(Capped(x) + y)
  {
    if |x| >= MAX_RAW_MATCHES {
      assert (x + y)[..MAX_RAW_MATCHES] == x[..MAX_RAW_MATCHES];
      assert (Capped(x) + y)[..MAX_RAW_MATCHES] == Capped(x);
    }
  }

  method MatchPattern(rules: Rules, insts: seq<Instruction>, i: nat, p: Pattern, found: seq<Match>)
    returns (all: seq<Match>)
    requires i < |insts| && insts[i].opcode != "" && |found| < MAX_RAW_MATCHES
    ensures all == Capped(found + PatternHits(rules, insts, i, p, |p.alternatives|))
  {
    all := found;
    var a := 0;
    NoHitsYet(rules, insts, i, p, found);
    hide PatternHits, Capped, Hits, HitMatch;
    while a < |p.alternatives|
      invariant 0 <= a <= |p.alternatives|
      invariant all == Capped(found + PatternHits(rules, insts, i, p, a)) && |all| < MAX_RAW_MATCHES
    {
      OneHitMore(rules, insts, i, p, a, found);
      var hit := TryAlternative(rules, insts, i, p, a);
      all := all + hit;
      if |all| >= MAX_RAW_MATCHES {
        LimitReached(rules, insts, i, p, a + 1, found);
        return;
      }
      a := a + 1;
    }
  }

  /** One alternative at one position: the record of the hit, if it is one. */
  method TryAlternative(rules: Rules, insts: seq<Instruction>, i: nat, p: Pattern, a: nat) returns (hit: seq<Match>)
    requires i < |insts| && insts[i].opcode != "" && a < |p.alternatives|
    ensures hit == if Hits(rules, insts, i, p, a) then [HitMatch(rules, insts, i, p, a)] else []
  {
    hit := [];
    var alt := p.alternatives[a];
    HitFound(rules, insts, i, p, a);
    hide MatchAt, Confidence, Hits, HitMatch, ToUpper, Word;
    if alt != [] && ToUpper(alt[0].opcode) == ToUpper(insts[i].opcode) {
      var result, confidence := TryMatch(rules, insts, i, alt);
      if result.Some? {
        var (bindings, endIdx) := result.value;
        hit := [Match(p, a, insts[i].address, insts[endIdx].Next(), bindings, confidence)];
      }
    }
  }

  lemma NoHitsYet(rules: Rules, insts: seq<Instruction>, i: nat, p: Pattern, found: seq<Match>)
    requires i < |insts| && |found| < MAX_RAW_MATCHES
    ensures Capped(found + PatternHits(rules, insts, i, p, 0)) == found
  {
    assert found + [] == found;
  }

  /** What one alternative gives at one position. */
  lemma HitFound(rules: Rules, insts: seq<Instruction>, i: nat, p: Pattern, a: nat)
    requires i < |insts| && insts[i].opcode != "" && a < |p.alternatives|
    ensures var alt := p.alternatives[a];
            && (Hits(rules, insts, i, p, a) <==>
                  && alt != [] && ToUpper(alt[0].opcode) == ToUpper(insts[i].opcode)
                  && MatchAt(rules, insts, i, alt).Some?)
            && (Hits(rules, insts, i, p, a) ==>
                  var (b, end) := MatchAt(rules, insts, i, alt).value;
                  && end < |insts|
                  && HitMatch(rules, insts, i, p, a) ==
                     Match(p, a, insts[i].address, insts[end].Next(), b, Confidence(alt)))
  {
    hide Thread, Real, Confidence;
  }

  lemma OneHitMore(rules: Rules, insts: seq<Instruction>, i: nat, p: Pattern, a: nat, found: seq<Match>)
    requires i < |insts| && a < |p.alternatives|
    requires |Capped(found + PatternHits(rules, insts, i, p, a))| < MAX_RAW_MATCHES
    ensures Capped(found + PatternHits(rules, insts, i, p, a + 1)) ==
            Capped(found + PatternHits(rules, insts, i, p, a))
            + if Hits(rules, insts, i, p, a) then [HitMatch(rules, insts, i, p, a)] else []
  {
    var before := PatternHits(rules, insts, i, p, a);
    var hit := if Hits(rules, insts, i, p, a) then [HitMatch(rules, insts, i, p, a)] else [];
    assert PatternHits(rules, insts, i, p, a + 1) == before + hit;
    hide PatternHits, Hits, HitMatch;
    assert found + (before + hit) == (found + before) + hit;
  }

  lemma LimitKept(rules: Rules, insts: seq<Instruction>, i: nat, p: Pattern, a: nat, found: seq<Match>)
    requires i < |insts| && a < |p.alternatives|
    requires |Capped(found + PatternHits(rules, insts, i, p, a))| == MAX_RAW_MATCHES
    ensures Capped(found + PatternHits(rules, insts, i, p, a + 1)) == Capped(found + PatternHits(rules, insts, i, p, a))
  {
    var before := PatternHits(rules, insts, i, p, a);
    var hit := if Hits(rules, insts, i, p, a) then [HitMatch(rules, insts, i, p, a)] else [];
    assert PatternHits(rules, insts, i, p, a + 1) == before + hit;
    hide PatternHits, Hits, HitMatch;
    assert found + (before + hit) == (found + before) + hit;
    CappedAppend(found + before, hit);
  }

  lemma {:induction false} LimitReached(rules: Rules, insts: seq<Instruction>, i: nat, p: Pattern, a: nat,
                                        found: seq<Match>)
    requires i < |insts| && a <= |p.alternatives|
    requires |Capped(found + PatternHits(rules, insts, i, p, a))| == MAX_RAW_MATCHES
    ensures Capped(found + PatternHits(rules, insts, i, p, |p.alternatives|))
            == Capped(found + PatternHits(rules, insts, i, p, a))
    decreases |p.alternatives| - a
  {
    hide PatternHits, Capped;
    if a < |p.alternatives| {
      LimitKept(rules, insts, i, p, a, found);
      LimitReached(rules, insts, i, p, a + 1, found);
    }
  }

  lemma MoreCandidates(rules: Rules, insts: seq<Instruction>, i: nat, ps: seq<Pattern>, k: nat, found: seq<Match>)
    requires i < |insts| && k < |ps|
    ensures var so := found + CandidateHits(rules, insts, i, ps[..k]);
            && found + CandidateHits(rules, insts, i, ps[..k + 1]) == so
               + PatternHits(rules, insts, i, ps[k], |ps[k].alternatives|)
            && Capped(found + CandidateHits(rules, insts, i, ps[..k + 1]))
               == Capped(Capped(so) + PatternHits(rules, insts, i, ps[k], |ps[k].alternatives|))
            && (|Capped(so)| == MAX_RAW_MATCHES ==>
                 Capped(found + CandidateHits(rules, insts, i, ps[..k + 1])) == Capped(so))
  {
    var before, more := CandidateHits(rules, insts, i, ps[..k]),
      PatternHits(rules, insts, i, ps[k], |ps[k].alternatives|);
    assert ps[..k + 1][..k] == ps[..k];
    assert CandidateHits(rules, insts, i, ps[..k + 1]) == before + more;
    hide CandidateHits, PatternHits;
    assert found + (before + more) == (found + before) + more;
    CappedAppend(found + before, more);
  }

  lemma {:induction false} CandidatesBeyondLimit(rules: Rules, insts: seq<Instruction>, i: nat, ps: seq<Pattern>,
                                                 k: nat, found: seq<Match>)
    requires i < |insts| && k <= |ps|
    requires |Capped(found + CandidateHits(rules, insts, i, ps[..k]))| == MAX_RAW_MATCHES
    ensures Capped(found + CandidateHits(rules, insts, i, ps))
            == Capped(found + CandidateHits(rules, insts, i, ps[..k]))
    decreases |ps| - k
  {
    hide CandidateHits, PatternHits, Capped;
    if k < |ps| {
      MoreCandidates(rules, insts, i, ps, k, found);
      CandidatesBeyondLimit(rules, insts, i, ps, k + 1, found);
    } else {
      assert ps[..k] == ps;
    }
  }

  method MatchCandidates(rules: Rules, insts: seq<Instruction>, i: nat, ps: seq<Pattern>, found: seq<Match>)
    returns (all: seq<Match>)
    requires i < |insts| && insts[i].opcode != "" && |found| < MAX_RAW_MATCHES
    ensures all == Capped(found + CandidateHits(rules, insts, i, ps))
  {
    hide PatternHits, Hits, HitMatch, MatchAt, Real;
    all := found;
    var c := 0;
    assert ps[..0] == [] && found + [] == found;
    while c < |ps|
      invariant 0 <= c <= |ps|
      invariant all == Capped(found + CandidateHits(rules, insts, i, ps[..c])) && |all| < MAX_RAW_MATCHES
    {
      hide CandidateHits, PatternHits, Capped;
      MoreCandidates(rules, insts, i, ps, c, found);
      all := MatchPattern(rules, insts, i, ps[c], all);
      c := c + 1;
      if |all| >= MAX_RAW_MATCHES {
        CandidatesBeyondLimit(rules, insts, i, ps, c, found);
        return;
      }
    }
    assert ps[..c] == ps;
  }

  lemma MorePositions(rules: Rules, insts: seq<Instruction>, index: OpcodeIndex, n: nat)
    requires n < |insts|
    ensures var more := CandidateHits(rules, insts, n, Filed(index, ToUpper(insts[n].opcode)));
            var so := IndexedHits(rules, insts, index, n);
            && IndexedHits(rules, insts, index, n + 1) == so + more
            && Capped(so + more) == Capped(Capped(so) + more)
            && (|Capped(so)| == MAX_RAW_MATCHES ==> Capped(so + more) == Capped(so))
  {
    var more := CandidateHits(rules, insts, n, Filed(index, ToUpper(insts[n].opcode)));
    CappedAppend(IndexedHits(rules, insts, index, n), more);
  }

  lemma {:induction false} PositionsBeyondLimit(rules: Rules, insts: seq<Instruction>, index: OpcodeIndex, n: nat)
    requires n <= |insts| && |Capped(IndexedHits(rules, insts, index, n))| == MAX_RAW_MATCHES
    ensures Capped(IndexedHits(rules, insts, index, |insts|)) == Capped(IndexedHits(rules, insts, index, n))
    decreases |insts| - n
  {
    hide IndexedHits, CandidateHits, Capped;
    if n < |insts| {
      MorePositions(rules, insts, index, n);
      PositionsBeyondLimit(rules, insts, index, n + 1);
    }
  }

  lemma {:induction false} NoOpcodeNoHits(rules: Rules, insts: seq<Instruction>, i: nat, ps: seq<Pattern>)
    requires i < |insts| && insts[i].opcode == ""
    ensures CandidateHits(rules, insts, i, ps) == []
  {
    if ps != [] {
      NoOpcodeNoHits(rules, insts, i, ps[..|ps| - 1]);
      NoPatternHits(rules, insts, i, ps[|ps| - 1], |ps[|ps| - 1].alternatives|);
    }
  }

  lemma {:induction false} NoPatternHits(rules: Rules, insts: seq<Instruction>, i: nat, p: Pattern, n: nat)
    requires i < |insts| && insts[i].opcode == "" && n <= |p.alternatives|
    ensures PatternHits(rules, insts, i, p, n) == []
  {
    if n > 0 {
      NoPatternHits(rules, insts, i, p, n - 1);
    }
  }

  // ---------------------------------------------------------------- the index against brute force

  lemma {:induction false} PatternHitsExactly(rules: Rules, insts: seq<Instruction>, i: nat, p: Pattern, n: nat,
                                              m: Match)
    requires i < |insts| && n <= |p.alternatives|
    ensures m in PatternHits(rules, insts, i, p, n) <==>
            exists a: nat {:trigger Hits(rules, insts, i, p, a)} :: a < n && Hits(rules, insts, i, p, a)
              && m == HitMatch(rules, insts, i, p, a)
  {
    hide MatchAt, Hits, HitMatch;
    if n > 0 {
      PatternHitsExactly(rules, insts, i, p, n - 1, m);
      assert Hits(rules, insts, i, p, n - 1) ==>
               HitMatch(rules, insts, i, p, n - 1) in PatternHits(rules, insts, i, p, n);
    }
  }

  lemma {:induction false} CandidateHitsExactly(rules: Rules, insts: seq<Instruction>, i: nat, ps: seq<Pattern>,
                                                m: Match)
    requires i < |insts|
    ensures m in CandidateHits(rules, insts, i, ps) <==>
              m.pattern in ps && m in PatternHits(rules, insts, i, m.pattern, |m.pattern.alternatives|)
  {
    hide PatternHits;
    if ps != [] {
      var front, last := ps[..|ps| - 1], ps[|ps| - 1];
      assert ps == front + [last];
      CandidateHitsExactly(rules, insts, i, front, m);
      PatternHitsExactly(rules, insts, i, last, |last.alternatives|, m);
    }
  }

  /** The record of some pattern of the list and some alternative that match at position `i`. */
  ghost predicate IsHitAt(rules: Rules, insts: seq<Instruction>, patterns: seq<Pattern>, i: nat, m: Match)
    requires i < |insts|
  {
    m.pattern in patterns &&
    exists a: nat {:trigger Hits(rules, insts, i, m.pattern, a)} ::
      Hits(rules, insts, i, m.pattern, a) && m == HitMatch(rules, insts, i, m.pattern, a)
  }

  /** ... at some position below `n`. */
  ghost predicate IsHit(rules: Rules, insts: seq<Instruction>, patterns: seq<Pattern>, n: nat, m: Match)
    requires n <= |insts|
  {
    exists i: nat {:trigger IsHitAt(rules, insts, patterns, i, m)} :: i < n && IsHitAt(rules, insts, patterns, i, m)
  }

  lemma PositionExactly(rules: Rules, insts: seq<Instruction>, index: OpcodeIndex, patterns: seq<Pattern>, i: nat,
                        m: Match)
    requires Indexes(index, patterns) && i < |insts|
    ensures m in CandidateHits(rules, insts, i, Filed(index, ToUpper(insts[i].opcode))) <==>
              IsHitAt(rules, insts, patterns, i, m)
  {
    var key := ToUpper(insts[i].opcode);
    assert Filed(index, key) == Bucket(patterns, key);
    FiledExactly(patterns, key, m.pattern);
    hide MatchAt, Hits, HitMatch, Indexes, Filed, Bucket, CandidateHits, PatternHits, BeginsWith;
    CandidateHitsExactly(rules, insts, i, Bucket(patterns, key), m);
    PatternHitsExactly(rules, insts, i, m.pattern, |m.pattern.alternatives|, m);
    forall a: nat | Hits(rules, insts, i, m.pattern, a)
      ensures a < |m.pattern.alternatives| && (exists alt :: alt in m.pattern.alternatives && BeginsWith(alt, key))
    {
      HitBegins(rules, insts, i, m.pattern, a);
    }
  }

  /** Scanning through the index finds exactly what trying every pattern, alternative and position
      would find. */
  lemma {:induction false} IndexFindsExactly(rules: Rules, insts: seq<Instruction>, index: OpcodeIndex,
                                             patterns: seq<Pattern>, n: nat, m: Match)
    requires Indexes(index, patterns) && n <= |insts|
    ensures m in IndexedHits(rules, insts, index, n) <==> IsHit(rules, insts, patterns, n, m)
  {
    hide MatchAt, Hits, HitMatch, Indexes, IsHitAt, CandidateHits;
    if n > 0 {
      IndexFindsExactly(rules, insts, index, patterns, n - 1, m);
      PositionExactly(rules, insts, index, patterns, n - 1, m);
    }
  }

  lemma HitBegins(rules: Rules, insts: seq<Instruction>, i: nat, p: Pattern, a: nat)
    requires i < |insts| && Hits(rules, insts, i, p, a)
    ensures a < |p.alternatives| && p.alternatives[a] in p.alternatives
            && BeginsWith(p.alternatives[a], ToUpper(insts[i].opcode))
  {
  }

  class Matcher {
    const patterns: seq<Pattern>
    const byOpcode: OpcodeIndex

    constructor (patterns: seq<Pattern>)
      ensures this.patterns == patterns && Valid()
    {
      var index := BuildIndex(patterns);
      this.patterns, this.byOpcode := patterns, index;
    }

    ghost predicate Valid() {
      Indexes(byOpcode, patterns)
    }

    /** Every raw match, up to the limit: below it, exactly the hits of a brute-force search. */
    method FindRaw(rules: Rules, insts: seq<Instruction>) returns (all: seq<Match>)
      requires Valid()
      ensures all == Capped(IndexedHits(rules, insts, byOpcode, |insts|))
      ensures forall m :: m in all ==> IsHit(rules, insts, patterns, |insts|, m)
      ensures |all| < MAX_RAW_MATCHES ==> forall m :: IsHit(rules, insts, patterns, |insts|, m) ==> m in all
    {
      hide IsHit, IndexedHits, MatchAt, Hits, HitMatch;
      all := ScanAll(rules, insts);
      ghost var hits := IndexedHits(rules, insts, byOpcode, |insts|);
      assert all <= hits && (|all| < MAX_RAW_MATCHES ==> all == hits);
      hide Capped;
      forall m
        ensures m in hits <==> IsHit(rules, insts, patterns, |insts|, m)
      {
        IndexFindsExactly(rules, insts, byOpcode, patterns, |insts|, m);
      }
    }

    method ScanAll(rules: Rules, insts: seq<Instruction>) returns (all: seq<Match>)
      ensures all == Capped(IndexedHits(rules, insts, byOpcode, |insts|))
    {
      hide CandidateHits, PatternHits, Hits, HitMatch, MatchAt, Real;
      all := [];
      var i := 0;
      while i < |insts|
        invariant 0 <= i <= |insts|
        invariant all == Capped(IndexedHits(rules, insts, byOpcode, i)) && |all| < MAX_RAW_MATCHES
      {
        hide IndexedHits, CandidateHits, Capped;
        MorePositions(rules, insts, byOpcode, i);
        if insts[i].opcode == "" {
          NoOpcodeNoHits(rules, insts, i, Filed(byOpcode, ToUpper(insts[i].opcode)));
          assert IndexedHits(rules, insts, byOpcode, i) + [] == IndexedHits(rules, insts, byOpcode, i);
        } else {
          all := MatchCandidates(rules, insts, i, Filed(byOpcode, ToUpper(insts[i].opcode)), all);
          if |all| >= MAX_RAW_MATCHES {
            PositionsBeyondLimit(rules, insts, byOpcode, i + 1);
            return;
          }
        }
        i := i + 1;
      }
    }
  }
}

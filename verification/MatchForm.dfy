/** What a match is made of: a chain of bindings, one link for each instruction; a first opcode without
    regard to case; and a limit on how many are collected. */
module MatchForm {
  import opened Text
  import opened Instructions
  import opened PatternIndex
  import opened Matching

  /** From no bindings at all, each instruction in turn is accepted and takes the bindings one further. */
  ghost predicate IsChain(rules: Rules, insts: seq<Instruction>, pats: Alternative, chain: seq<Bindings>)
    requires |insts| == |pats|
  {
    && |chain| == |pats| + 1 && chain[0] == map[]
    && forall k {:trigger pats[k]} :: 0 <= k < |pats| ==>
         rules.accepts(insts[k], pats[k]) && rules.bind(insts[k], pats[k].operands, chain[k]) == Some(chain[k + 1])
  }

  lemma {:induction false} ChainThreads(rules: Rules, insts: seq<Instruction>, pats: Alternative, chain: seq<Bindings>)
    requires |insts| == |pats| && IsChain(rules, insts, pats, chain)
    ensures Thread(rules, insts, pats) == Some(chain[|pats|])
    decreases |pats|
  {
    if pats != [] {
      var n := |pats| - 1;
      forall k | 0 <= k < n
        ensures rules.accepts(insts[..n][k], pats[..n][k])
        ensures rules.bind(insts[..n][k], pats[..n][k].operands, chain[..n + 1][k]) == Some(chain[..n + 1][k + 1])
      {
        assert pats[..n][k] == pats[k];
      }
      ChainThreads(rules, insts[..n], pats[..n], chain[..n + 1]);
      assert pats[n] == pats[|pats| - 1];
    }
  }

  lemma {:induction false} ThreadIsChain(rules: Rules, insts: seq<Instruction>, pats: Alternative)
    returns (chain: seq<Bindings>)
    requires |insts| == |pats| && Thread(rules, insts, pats).Some?
    ensures IsChain(rules, insts, pats, chain)
    decreases |pats|
  {
    chain := [map[]];
    if pats != [] {
      var n := |pats| - 1;
      var front := ThreadIsChain(rules, insts[..n], pats[..n]);
      ChainThreads(rules, insts[..n], pats[..n], front);
      chain := front + [Thread(rules, insts, pats).value];
      forall k | 0 <= k < |pats|
        ensures rules.accepts(insts[k], pats[k])
        ensures rules.bind(insts[k], pats[k].operands, chain[k]) == Some(chain[k + 1])
      {
        assert k < n ==> pats[..n][k] == pats[k] && insts[..n][k] == insts[k];
      }
    }
  }

  /** Room for the alternative: its instructions, and one more when it ends in a label. */
  predicate Fits(insts: seq<Instruction>, start: nat, alt: Alternative) {
    start + |Real(alt)| + (if alt != [] && alt[|alt| - 1].isLabel then 1 else 0) <= |insts|
  }

  /** The alternative fits at `start`, and its instructions without labels make a chain there. */
  ghost predicate ChainAt(rules: Rules, insts: seq<Instruction>, start: nat, alt: Alternative, chain: seq<Bindings>) {
    Fits(insts, start, alt) && IsChain(rules, insts[start..start + |Real(alt)|], Real(alt), chain)
  }

  /** An alternative matches exactly when it fits and its instructions, labels left out, are accepted one
      after the other with bindings that go on from each to the next. */
  lemma MatchesExactly(rules: Rules, insts: seq<Instruction>, start: nat, alt: Alternative)
    ensures MatchAt(rules, insts, start, alt).Some? <==> exists chain :: ChainAt(rules, insts, start, alt, chain)
  {
    hide Real;
    if Fits(insts, start, alt) {
      var part := insts[start..start + |Real(alt)|];
      hide IsChain, Thread;
      if MatchAt(rules, insts, start, alt).Some? {
        var chain := ThreadIsChain(rules, part, Real(alt));
        assert ChainAt(rules, insts, start, alt, chain);
      }
      if chain :| ChainAt(rules, insts, start, alt, chain) {
        ChainThreads(rules, part, Real(alt), chain);
      }
    }
  }

  /** The bindings are those at the end of the chain, and the end is the last instruction matched; with
      labels alone at the start of the stream it is the first instruction. */
  lemma MatchIs(rules: Rules, insts: seq<Instruction>, start: nat, alt: Alternative, chain: seq<Bindings>)
    requires ChainAt(rules, insts, start, alt, chain)
    ensures var n := |Real(alt)|;
            MatchAt(rules, insts, start, alt) == Some((chain[n], if start == 0 && n == 0 then 0 else start + n - 1))
  {
    ChainThreads(rules, insts[start..start + |Real(alt)|], Real(alt), chain);
    hide Real, IsChain, Thread;
  }

  /** Opcodes are compared letter by letter, small ASCII letters as capitals. */
  lemma UpperIs(s: string, i: nat)
    requires i < |s|
    ensures |ToUpper(s)| == |s|
    ensures ToUpper(s)[i] == if 97 <= s[i] as int <= 122 then (s[i] as int - 32) as char else s[i]
  {
  }

  /** A pattern is tried where its first opcode stands, written in any case, but never where no opcode is. */
  lemma HitsExactly(rules: Rules, insts: seq<Instruction>, i: nat, p: Pattern, a: nat)
    requires i < |insts| && a < |p.alternatives|
    ensures Hits(rules, insts, i, p, a) <==>
              && insts[i].opcode != "" && p.alternatives[a] != []
              && ToUpper(p.alternatives[a][0].opcode) == ToUpper(insts[i].opcode)
              && MatchAt(rules, insts, i, p.alternatives[a]).Some?
  {
    hide MatchAt, ToUpper;
  }

  /** What the record of a match says. */
  lemma RecordIs(rules: Rules, insts: seq<Instruction>, i: nat, p: Pattern, a: nat)
    requires i < |insts| && Hits(rules, insts, i, p, a)
    ensures var m, (b, last) := HitMatch(rules, insts, i, p, a), MatchAt(rules, insts, i, p.alternatives[a]).value;
            && m.pattern == p && m.alternative == a && m.bindings == b && m.confidence == Confidence(p.alternatives[a])
            && last < |insts| && m.start == insts[i].address
            && m.end == (insts[last].address + insts[last].size) % 0x1_0000_0000_0000_0000
  {
    MatchStaysInside(rules, insts, i, p.alternatives[a]);
    hide MatchAt, Confidence, ToUpper;
  }

  /** Hits of one pattern at one address, of its first `n` alternatives in order. */
  ghost predicate AlternativesUp(hits: seq<Match>, p: Pattern, address: nat, n: nat) {
    && (forall k {:trigger hits[k]} :: 0 <= k < |hits| ==>
          hits[k].pattern == p && hits[k].alternative < n && hits[k].start == address)
    && forall j, k {:trigger hits[j], hits[k]} :: 0 <= j < k < |hits| ==> hits[j].alternative < hits[k].alternative
  }

  lemma OneAlternativeMore(hits: seq<Match>, p: Pattern, address: nat, n: nat, m: Match)
    requires AlternativesUp(hits, p, address, n)
    ensures AlternativesUp(hits, p, address, n + 1) && AlternativesUp(hits + [], p, address, n + 1)
    ensures m.pattern == p && m.alternative == n && m.start == address ==>
              AlternativesUp(hits + [m], p, address, n + 1)
  {
    assert hits + [] == hits;
  }

  /** At one position the alternatives of a pattern are tried in order. */
  lemma {:induction false} AlternativesGoUp(rules: Rules, insts: seq<Instruction>, i: nat, p: Pattern, n: nat)
    requires i < |insts| && n <= |p.alternatives|
    ensures AlternativesUp(PatternHits(rules, insts, i, p, n), p, insts[i].address, n)
  {
    hide Hits, HitMatch;
    if n > 0 {
      var front := PatternHits(rules, insts, i, p, n - 1);
      AlternativesGoUp(rules, insts, i, p, n - 1);
      hide AlternativesUp;
      if Hits(rules, insts, i, p, n - 1) {
        RecordIs(rules, insts, i, p, n - 1);
        OneAlternativeMore(front, p, insts[i].address, n - 1, HitMatch(rules, insts, i, p, n - 1));
      } else {
        OneAlternativeMore(front, p, insts[i].address, n - 1, Match(p, 0, 0, 0, map[], 0.0));
      }
    }
  }

  /** At one position the candidates are tried in the order of their list. */
  lemma {:induction false} CandidatesInOrder(rules: Rules, insts: seq<Instruction>, i: nat, ps: seq<Pattern>,
                                             qs: seq<Pattern>, p: Pattern)
    requires i < |insts|
    ensures CandidateHits(rules, insts, i, ps + qs) ==
            CandidateHits(rules, insts, i, ps) + CandidateHits(rules, insts, i, qs)
    ensures CandidateHits(rules, insts, i, [p]) == PatternHits(rules, insts, i, p, |p.alternatives|)
    decreases |qs|
  {
    hide PatternHits;
    assert [p][..0] == [] && CandidateHits(rules, insts, i, []) == [];
    if qs == [] {
      assert ps + qs == ps;
    } else {
      var front, last := qs[..|qs| - 1], qs[|qs| - 1];
      assert (ps + qs)[..|ps + qs| - 1] == ps + front && (ps + qs)[|ps + qs| - 1] == last;
      CandidatesInOrder(rules, insts, i, ps, front, p);
    }
  }

  /** All of these matches start at the address. */
  ghost predicate AllStartAt(hits: seq<Match>, address: nat) {
    forall k {:trigger hits[k]} :: 0 <= k < |hits| ==> hits[k].start == address
  }

  lemma {:induction false} CandidatesStartHere(rules: Rules, insts: seq<Instruction>, i: nat, ps: seq<Pattern>)
    requires i < |insts|
    ensures AllStartAt(CandidateHits(rules, insts, i, ps), insts[i].address)
    decreases |ps|
  {
    hide PatternHits;
    if ps != [] {
      var last := ps[|ps| - 1];
      CandidatesStartHere(rules, insts, i, ps[..|ps| - 1]);
      AlternativesGoUp(rules, insts, i, last, |last.alternatives|);
      StartsJoin(CandidateHits(rules, insts, i, ps[..|ps| - 1]),
                 PatternHits(rules, insts, i, last, |last.alternatives|), insts[i].address);
    }
  }

  lemma StartsJoin(x: seq<Match>, y: seq<Match>, address: nat)
    requires AllStartAt(x, address) && AllStartAt(y, address)
    ensures AllStartAt(x + y, address)
  {
  }

  /** Matches from the first to the last, none of them behind `limit`. */
  ghost predicate StartsGoUp(hits: seq<Match>, limit: nat) {
    && (forall k {:trigger hits[k]} :: 0 <= k < |hits| ==> hits[k].start <= limit)
    && forall j, k {:trigger hits[j], hits[k]} :: 0 <= j < k < |hits| ==> hits[j].start <= hits[k].start
  }

  lemma GoUpFurther(x: seq<Match>, y: seq<Match>, limit: nat, address: nat)
    requires StartsGoUp(x, limit) && limit <= address && AllStartAt(y, address)
    ensures StartsGoUp(x + y, address)
  {
  }

  /** The scan finds matches from the first position to the last. */
  lemma {:induction false} ScanGoesUp(rules: Rules, insts: seq<Instruction>, index: OpcodeIndex, n: nat)
    requires Ordered(insts) && n <= |insts|
    ensures StartsGoUp(IndexedHits(rules, insts, index, n), if n == 0 then 0 else insts[n - 1].address)
  {
    hide CandidateHits, ToUpper;
    if n > 0 {
      var ps := Filed(index, ToUpper(insts[n - 1].opcode));
      ScanGoesUp(rules, insts, index, n - 1);
      CandidatesStartHere(rules, insts, n - 1, ps);
      assert n > 1 ==> insts[n - 2].address + insts[n - 2].size <= insts[n - 1].address;
      hide StartsGoUp, AllStartAt, Ordered;
      GoUpFurther(IndexedHits(rules, insts, index, n - 1), CandidateHits(rules, insts, n - 1, ps),
                  if n == 1 then 0 else insts[n - 2].address, insts[n - 1].address);
    }
  }

  /** Ten thousand raw matches are collected at most, the first ones found. */
  lemma FirstTenThousand(ms: seq<Match>)
    ensures |ms| <= 10000 ==> Capped(ms) == ms
    ensures |ms| > 10000 ==> Capped(ms) == ms[..10000]
  {
  }
}

/** Resolving conflicts: from all raw matches, best first, keep what does not overlap. */
module Conflicts {
  import opened Instructions
  import opened Matching

  predicate Overlaps(a: Match, b: Match) {
    a.start < b.end && a.end > b.start
  }

  /** The length of a range, as the 64-bit subtraction gives it. */
  function Extent(m: Match): nat {
    Word(m.end - m.start)
  }

  predicate Better(a: Match, b: Match) {
    if a.confidence != b.confidence then a.confidence > b.confidence else Extent(a) > Extent(b)
  }

  /** No match before a better one. */
  ghost predicate BestFirst(ms: seq<Match>) {
    forall i, j {:trigger ms[i], ms[j]} :: 0 <= i < j < |ms| ==> !Better(ms[j], ms[i])
  }

  /** What a library sort may return. */
  ghost predicate IsSorted(sorted: seq<Match>, matches: seq<Match>) {
    multiset(sorted) == multiset(matches) && BestFirst(sorted)
  }

  /** Each match in turn is kept unless it overlaps one kept before. */
  function Greedy(sorted: seq<Match>): seq<Match> {
    if sorted == [] then []
    else
      var kept, last := Greedy(sorted[..|sorted| - 1]), sorted[|sorted| - 1];
      if Blocked(last, kept) then kept else kept + [last]
  }

  predicate Blocked(m: Match, kept: seq<Match>) {
    exists k {:trigger kept[k]} :: 0 <= k < |kept| && Overlaps(m, kept[k])
  }

  ghost predicate Disjoint(ms: seq<Match>) {
    forall i, j {:trigger ms[i], ms[j]} :: 0 <= i < j < |ms| ==> !Overlaps(ms[i], ms[j])
  }

  lemma {:induction false} GreedyIsDisjoint(sorted: seq<Match>)
    ensures Disjoint(Greedy(sorted))
  {
    if sorted != [] {
      GreedyIsDisjoint(sorted[..|sorted| - 1]);
    }
  }

  lemma {:induction false} GreedyIsSelection(sorted: seq<Match>)
    ensures multiset(Greedy(sorted)) <= multiset(sorted)
    ensures forall m :: m in Greedy(sorted) ==> m in sorted
  {
    if sorted != [] {
      var front, last := sorted[..|sorted| - 1], sorted[|sorted| - 1];
      GreedyIsSelection(front);
      assert sorted == front + [last];
    }
  }

  /** `m` was left out for a match that stays and is no worse. */
  ghost predicate Outdone(m: Match, kept: seq<Match>) {
    exists k {:trigger kept[k]} :: 0 <= k < |kept| && Overlaps(m, kept[k]) && !Better(m, kept[k])
  }

  predicate Contains(m: Match, address: nat) {
    m.start <= address < m.end
  }

  /** Ranges overlap when some address lies in both. */
  lemma OverlapsExactly(a: Match, b: Match)
    requires a.start < a.end && b.start < b.end
    ensures Overlaps(a, b) <==> exists x: nat :: Contains(a, x) && Contains(b, x)
  {
    if Overlaps(a, b) {
      var x := if a.start < b.start then b.start else a.start;
      assert Contains(a, x) && Contains(b, x);
    }
  }

  /** What it means to be outdone: a kept match shares an address and has more confidence, or as much and no
      shorter a range. */
  lemma OutdoneMeans(m: Match, kept: seq<Match>)
    ensures Outdone(m, kept) <==>
              exists k {:trigger kept[k]} ::
                && 0 <= k < |kept| && m.start < kept[k].end && kept[k].start < m.end
                && (m.confidence < kept[k].confidence
                    || (m.confidence == kept[k].confidence
                        && (m.end - m.start) % 0x1_0000_0000_0000_0000
                           <= (kept[k].end - kept[k].start) % 0x1_0000_0000_0000_0000))
  {
  }

  lemma OutdoneStays(m: Match, kept: seq<Match>, more: seq<Match>)
    requires Outdone(m, kept)
    ensures Outdone(m, kept + more)
  {
    var k :| 0 <= k < |kept| && Overlaps(m, kept[k]) && !Better(m, kept[k]);
    assert (kept + more)[k] == kept[k];
  }

  lemma BlockedIsOutdone(sorted: seq<Match>, m: Match)
    requires forall i {:trigger sorted[i]} :: 0 <= i < |sorted| ==> !Better(m, sorted[i])
    requires Blocked(m, Greedy(sorted))
    ensures Outdone(m, Greedy(sorted))
  {
    var kept := Greedy(sorted);
    GreedyIsSelection(sorted);
    var k :| 0 <= k < |kept| && Overlaps(m, kept[k]);
    assert kept[k] in sorted;
    var i :| 0 <= i < |sorted| && sorted[i] == kept[k];
    assert !Better(m, sorted[i]);
  }

  /** Every copy of every match is kept, or overlaps a kept match that is no worse. */
  lemma {:induction false} DroppedAreOutdone(sorted: seq<Match>, m: Match)
    requires BestFirst(sorted)
    requires m in multiset(sorted) - multiset(Greedy(sorted))
    ensures Outdone(m, Greedy(sorted))
  {
    var front, last := sorted[..|sorted| - 1], sorted[|sorted| - 1];
    assert sorted == front + [last];
    var kept := Greedy(front);
    if m in multiset(front) - multiset(kept) {
      DroppedAreOutdone(front, m);
      if !Blocked(last, kept) {
        OutdoneStays(m, kept, [last]);
      }
    } else {
      GreedyIsSelection(front);
      forall i | 0 <= i < |front|
        ensures !Better(last, front[i])
      {
        assert !Better(sorted[|sorted| - 1], sorted[i]);
      }
      BlockedIsOutdone(front, last);
    }
  }

  /** Keep the best matches without overlap, given any order the sort may return. */
  method ResolveConflicts(matches: seq<Match>, sorted: seq<Match>) returns (kept: seq<Match>)
    requires IsSorted(sorted, matches)
    ensures |matches| > 1 ==> kept == Greedy(sorted)
    ensures Disjoint(kept) && multiset(kept) <= multiset(matches)
    ensures forall m :: m in multiset(matches) - multiset(kept) ==> Outdone(m, kept)
  {
    if |matches| <= 1 {
      return matches;
    }
    kept := [];
    var i := 0;
    while i < |sorted|
      invariant 0 <= i <= |sorted|
      invariant kept == Greedy(sorted[..i])
    {
      var m := sorted[i];
      assert sorted[..i + 1][..i] == sorted[..i];
      var overlap := false;
      var j := 0;
      while j < |kept|
        invariant 0 <= j <= |kept| && !overlap
        invariant forall k {:trigger kept[k]} :: 0 <= k < j ==> !Overlaps(m, kept[k])
      {
        if Overlaps(m, kept[j]) {
          overlap := true;
          break;
        }
        j := j + 1;
      }
      assert overlap == Blocked(m, kept);
      if !overlap {
        kept := kept + [m];
      }
      i := i + 1;
    }
    assert sorted[..i] == sorted;
    GreedyIsDisjoint(sorted);
    GreedyIsSelection(sorted);
    forall m | m in multiset(matches) - multiset(kept)
      ensures Outdone(m, kept)
    {
      DroppedAreOutdone(sorted, m);
    }
  }

  lemma DropLast(ms: seq<Match>)
    requires ms != []
    ensures multiset(ms[..|ms| - 1]) == multiset(ms) - multiset{ms[|ms| - 1]}
    ensures ms == ms[..|ms| - 1] + [ms[|ms| - 1]]
    ensures BestFirst(ms) ==> BestFirst(ms[..|ms| - 1])
    ensures NoTies(multiset(ms)) ==> NoTies(multiset(ms[..|ms| - 1]))
  {
    hide Better;
    assert ms == ms[..|ms| - 1] + [ms[|ms| - 1]];
  }

  lemma SameSize(a: seq<Match>, b: seq<Match>)
    requires multiset(a) == multiset(b)
    ensures |a| == |b|
  {
    assert |a| == |multiset(a)| && |b| == |multiset(b)|;
  }

  /** The order is determined up to ties. */
  lemma {:induction false} NoTiesOneOrder(a: seq<Match>, b: seq<Match>)
    requires multiset(a) == multiset(b) && BestFirst(a) && BestFirst(b)
    requires NoTies(multiset(a))
    ensures a == b
    decreases |a|
  {
    SameSize(a, b);
    hide Better, BestFirst, NoTies;
    if a != [] {
      LastIsWorst(a, b);
      DropLast(a);
      DropLast(b);
      NoTiesOneOrder(a[..|a| - 1], b[..|b| - 1]);
    }
  }

  ghost predicate NoTies(ms: multiset<Match>) {
    forall x, y {:trigger Better(x, y)} :: x in ms && y in ms && x != y ==> Better(x, y) || Better(y, x)
  }

  lemma LastIsWorst(a: seq<Match>, b: seq<Match>)
    requires multiset(a) == multiset(b) && BestFirst(a) && BestFirst(b) && a != [] && |a| == |b|
    requires NoTies(multiset(a))
    ensures a[|a| - 1] == b[|b| - 1]
  {
    var x, y := a[|a| - 1], b[|b| - 1];
    assert x in multiset(a) && x in multiset(b) && y in multiset(b) && y in multiset(a);
    var i :| 0 <= i < |b| && b[i] == x;
    var j :| 0 <= j < |a| && a[j] == y;
    hide Better;
    assert i == |b| - 1 || !Better(y, b[i]);
    assert j == |a| - 1 || !Better(x, a[j]);
  }

  /** Scan and resolve, with whatever the library sort does: kept matches are hits without overlap,
      and below the raw-match limit every hit is kept or outdone by a kept one. */
  method FindMatches(matcher: Matcher, rules: Rules, insts: seq<Instruction>, sort: seq<Match> -> seq<Match>)
    returns (kept: seq<Match>, raw: seq<Match>)
    requires matcher.Valid()
    requires forall ms {:trigger sort(ms)} :: IsSorted(sort(ms), ms)
    ensures Disjoint(kept) && multiset(kept) <= multiset(raw)
    ensures forall m :: m in raw ==> IsHit(rules, insts, matcher.patterns, |insts|, m)
    ensures |raw| < MAX_RAW_MATCHES ==> forall m :: IsHit(rules, insts, matcher.patterns, |insts|, m) ==>
              m in kept || Outdone(m, kept)
  {
    raw := matcher.FindRaw(rules, insts);
    kept := ResolveConflicts(raw, sort(raw));
    hide IsHit, Outdone, Disjoint, IsSorted;
    forall m | m in raw
      ensures m in kept || Outdone(m, kept)
    {
      assert m in multiset(raw);
      assert m !in kept ==> m in multiset(raw) - multiset(kept);
    }
  }
}

/** The flat generator: matched ranges become code, what lies between them is listed raw, and no
    instruction is lost or printed twice. */
module Listing {
  import opened Instructions
  import opened PatternIndex
  import opened Matching
  import opened Conflicts

  /** A part of the output: the header of a raw block, one instruction of the stream, or a match. */
  datatype Piece = Header | Line(index: nat) | Code(m: Match)

  predicate IsNoise(opcode: string) {
    opcode in {"NOP", "NOPL", "NOPW", "INT", "INT3", "DATA16"}
  }

  predicate InRange(inst: Instruction, lo: nat, hi: nat) {
    lo <= inst.address < hi
  }

  function Lines(insts: seq<Instruction>, lo: nat, hi: nat, n: nat): seq<Piece>
    requires n <= |insts|
  {
    if n == 0 then []
    else
      Lines(insts, lo, hi, n - 1)
      + if InRange(insts[n - 1], lo, hi) && !IsNoise(insts[n - 1].opcode) then [Line(n - 1)] else []
  }

  function Raw(insts: seq<Instruction>, lo: nat, hi: nat): seq<Piece> {
    var lines := Lines(insts, lo, hi, |insts|);
    if lines == [] then [] else [Header] + lines
  }

  /** What has been written, and up to which address, after the matches of `order`. */
  datatype Progress = Progress(out: seq<Piece>, upTo: nat)

  function Emitted(insts: seq<Instruction>, order: seq<Match>): Progress {
    if order == [] then Progress([], if insts == [] then 0 else insts[0].address)
    else
      var before, m := Emitted(insts, order[..|order| - 1]), order[|order| - 1];
      Progress(before.out + (if m.start > before.upTo then Raw(insts, before.upTo, m.start) else []) + [Code(m)], m.end)
  }

  function EndAddress(insts: seq<Instruction>, upTo: nat): nat {
    if insts == [] then upTo else insts[|insts| - 1].Next()
  }

  function ListingOf(insts: seq<Instruction>, order: seq<Match>): seq<Piece> {
    var p := Emitted(insts, order);
    var end := EndAddress(insts, p.upTo);
    p.out + if p.upTo < end then Raw(insts, p.upTo, end) else []
  }

  // ---------------------------------------------------------------- ranges in address order

  /** Ranges that are not empty and lie one behind the other. */
  ghost predicate Chain(order: seq<Match>) {
    && (forall i {:trigger order[i]} :: 0 <= i < |order| ==> order[i].start < order[i].end)
    && (forall i, j {:trigger order[i], order[j]} :: 0 <= i < j < |order| ==> order[i].end <= order[j].start)
  }

  /** What a library sort by start address may return. */
  ghost predicate ByAddress(order: seq<Match>, matches: seq<Match>) {
    multiset(order) == multiset(matches) && StartsRise(order)
  }

  ghost predicate StartsRise(order: seq<Match>) {
    forall i, j {:trigger order[i], order[j]} :: 0 <= i < j < |order| ==> order[i].start <= order[j].start
  }

  ghost predicate NonEmpty(matches: seq<Match>) {
    forall m {:trigger m in matches} :: m in matches ==> m.start < m.end
  }

  lemma {:induction false} PairInMultiset(ms: seq<Match>, a: Match, b: Match)
    requires multiset{a, b} <= multiset(ms)
    ensures exists i, j :: 0 <= i < |ms| && 0 <= j < |ms| && i != j && ms[i] == a && ms[j] == b
    decreases |ms|
  {
    assert a in multiset{a, b} && a in multiset(ms);
    var i :| 0 <= i < |ms| && ms[i] == a;
    var rest := ms[..i] + ms[i + 1..];
    assert ms == ms[..i] + [a] + ms[i + 1..];
    assert multiset(ms) == multiset(rest) + multiset{a};
    assert multiset{a, b} == multiset{a} + multiset{b};
    assert multiset(rest)[b] > 0;
    assert b in multiset(rest);
    var k :| 0 <= k < |rest| && rest[k] == b;
    var j := if k < i then k else k + 1;
    assert ms[j] == b;
  }

  lemma {:induction false} PairOfMultiset(ms: seq<Match>, i: nat, j: nat)
    requires i < j < |ms|
    ensures multiset{ms[i], ms[j]} <= multiset(ms)
  {
    assert ms == ms[..i] + [ms[i]] + ms[i + 1..j] + [ms[j]] + ms[j + 1..];
    assert multiset(ms) == multiset(ms[..i]) + multiset{ms[i]} + multiset(ms[i + 1..j]) + multiset{ms[j]}
           + multiset(ms[j + 1..]);
  }

  /** Disjoint ranges in order of their starts lie one behind the other. */
  lemma DisjointInOrderIsChain(matches: seq<Match>, order: seq<Match>)
    requires Disjoint(matches) && NonEmpty(matches) && ByAddress(order, matches)
    ensures Chain(order)
  {
    forall i | 0 <= i < |order|
      ensures order[i].start < order[i].end
    {
      assert order[i] in multiset(order) && order[i] in multiset(matches) && order[i] in matches;
    }
    forall i, j | 0 <= i < j < |order|
      ensures order[i].end <= order[j].start
    {
      PairOfMultiset(order, i, j);
      PairInMultiset(matches, order[i], order[j]);
      var p, q :| 0 <= p < |matches| && 0 <= q < |matches| && p != q && matches[p] == order[i]
        && matches[q] == order[j];
      assert p < q ==> !Overlaps(matches[p], matches[q]);
      assert q < p ==> !Overlaps(matches[q], matches[p]);
      assert order[j].start < order[j].end && order[i].start < order[i].end;
    }
  }

  // ---------------------------------------------------------------- conservation

  predicate Covers(m: Match, address: nat) {
    m.start <= address < m.end
  }

  ghost predicate IsCovered(order: seq<Match>, address: nat) {
    exists k {:trigger order[k]} :: 0 <= k < |order| && Covers(order[k], address)
  }

  /** How often instruction `i` is listed. */
  ghost function Printed(out: seq<Piece>, i: nat): nat {
    multiset(out)[Line(i)]
  }

  lemma PrintedJoin(x: seq<Piece>, y: seq<Piece>, i: nat)
    ensures Printed(x + y, i) == Printed(x, i) + Printed(y, i)
    ensures forall m {:trigger Code(m)} :: Printed([Code(m)], i) == 0
    ensures forall k {:trigger Line(k)} :: Printed([Line(k)], i) == if k == i then 1 else 0
    ensures Printed([], i) == 0
  {
  }

  lemma {:induction false} LinesCount(insts: seq<Instruction>, lo: nat, hi: nat, n: nat, i: nat)
    requires n <= |insts|
    ensures Printed(Lines(insts, lo, hi, n), i) ==
            if i < n && InRange(insts[i], lo, hi) && !IsNoise(insts[i].opcode) then 1 else 0
  {
    hide IsNoise, InRange, Printed;
    if n > 0 {
      LinesCount(insts, lo, hi, n - 1, i);
      PrintedJoin(Lines(insts, lo, hi, n - 1), [Line(n - 1)], i);
      assert Lines(insts, lo, hi, n - 1) + [] == Lines(insts, lo, hi, n - 1);
    } else {
      PrintedJoin([], [], i);
    }
  }

  lemma RawCount(insts: seq<Instruction>, lo: nat, hi: nat, i: nat)
    requires i < |insts|
    ensures Printed(Raw(insts, lo, hi), i) == if InRange(insts[i], lo, hi) && !IsNoise(insts[i].opcode) then 1 else 0
  {
    LinesCount(insts, lo, hi, |insts|, i);
  }

  lemma ChainPrefix(order: seq<Match>)
    requires Chain(order) && order != []
    ensures Chain(order[..|order| - 1])
  {
  }

  lemma CoveredOneMore(order: seq<Match>, address: nat)
    requires order != []
    ensures IsCovered(order, address) <==>
              IsCovered(order[..|order| - 1], address) || Covers(order[|order| - 1], address)
  {
    var front := order[..|order| - 1];
    if IsCovered(front, address) {
      var k :| 0 <= k < |front| && Covers(front[k], address);
      assert order[k] == front[k];
    }
    assert forall k {:trigger order[k]} :: 0 <= k < |front| ==> front[k] == order[k];
  }

  lemma EmittedStep(insts: seq<Instruction>, order: seq<Match>)
    requires order != []
    ensures var before, m := Emitted(insts, order[..|order| - 1]), order[|order| - 1];
            Emitted(insts, order) == Progress(before.out
              + (if m.start > before.upTo then Raw(insts, before.upTo, m.start) else []) + [Code(m)], m.end)
  {
  }

  /** How far the output has got before the last match. */
  lemma ReachedBefore(insts: seq<Instruction>, order: seq<Match>)
    requires Chain(order) && order != []
    ensures var front, m := order[..|order| - 1], order[|order| - 1];
            var upTo := Emitted(insts, front).upTo;
            && Chain(front) && m.start < m.end
            && (front == [] ==> upTo == Emitted(insts, []).upTo)
            && (front != [] ==> upTo <= m.start && LowestAddress(insts, front) == LowestAddress(insts, order))
  {
    var front := order[..|order| - 1];
    ChainPrefix(order);
    if front != [] {
      EmittedStep(insts, front);
      assert front[|front| - 1] == order[|order| - 2] && front[0] == order[0];
    }
  }

  lemma PrintedStep(insts: seq<Instruction>, order: seq<Match>, i: nat)
    requires order != [] && i < |insts|
    ensures var before, start := Emitted(insts, order[..|order| - 1]), order[|order| - 1].start;
            Printed(Emitted(insts, order).out, i) ==
            Printed(before.out, i)
            + if before.upTo < start && InRange(insts[i], before.upTo, start) && !IsNoise(insts[i].opcode)
              then 1 else 0
  {
    var before, m := Emitted(insts, order[..|order| - 1]), order[|order| - 1];
    EmittedStep(insts, order);
    RawCount(insts, before.upTo, m.start, i);
    hide Emitted, IsNoise, InRange, Raw, Printed;
    var raw := if m.start > before.upTo then Raw(insts, before.upTo, m.start) else [];
    PrintedJoin(before.out, raw, i);
    PrintedJoin(before.out + raw, [Code(m)], i);
  }

  /** How many of the gaps before the ranges hold `address`. */
  function Gaps(insts: seq<Instruction>, order: seq<Match>, address: nat): nat {
    if order == [] then 0
    else
      var front := order[..|order| - 1];
      Gaps(insts, front, address)
      + if Emitted(insts, front).upTo <= address < order[|order| - 1].start then 1 else 0
  }

  /** The gaps, and the rest of the stream behind the last range. */
  function Places(insts: seq<Instruction>, order: seq<Match>, address: nat): nat {
    Gaps(insts, order, address) + if Emitted(insts, order).upTo <= address then 1 else 0
  }

  lemma {:induction false} EmittedCount(insts: seq<Instruction>, order: seq<Match>, i: nat)
    requires i < |insts|
    ensures Printed(Emitted(insts, order).out, i) ==
            if IsNoise(insts[i].opcode) then 0 else Gaps(insts, order, insts[i].address)
    decreases |order|
  {
    hide IsNoise;
    if order == [] {
      PrintedJoin([], [], i);
    } else {
      EmittedCount(insts, order[..|order| - 1], i);
      PrintedStep(insts, order, i);
      hide Emitted, Printed;
    }
  }

  /** An instruction is listed once for each place it falls into. */
  lemma ListedByPlaces(insts: seq<Instruction>, order: seq<Match>, i: nat)
    requires Ordered(insts) && i < |insts|
    ensures Printed(ListingOf(insts, order), i) ==
            if IsNoise(insts[i].opcode) then 0 else Places(insts, order, insts[i].address)
  {
    var p := Emitted(insts, order);
    var end := EndAddress(insts, p.upTo);
    EmittedCount(insts, order, i);
    LastEnds(insts, i);
    RawCount(insts, p.upTo, end, i);
    hide Emitted, IsNoise, Raw, Printed, Gaps, Ordered;
    PrintedJoin(p.out, Raw(insts, p.upTo, end), i);
    assert p.out + [] == p.out;
  }

  /** The range runs backwards over `address`. */
  predicate RunsBack(m: Match, address: nat) {
    m.end <= address < m.start
  }

  /** Range `j` holds `address`, and every later one begins behind it. */
  ghost predicate Closes(order: seq<Match>, j: nat, address: nat) {
    && j < |order| && Covers(order[j], address)
    && forall l {:trigger order[l]} :: j < l < |order| ==> address < order[l].start
  }

  /** No range runs backwards over `address`, and if a range holds it, the last range to begin at or
      before it does. */
  ghost predicate WellPlaced(order: seq<Match>, address: nat) {
    && (forall k {:trigger order[k]} :: 0 <= k < |order| ==> !RunsBack(order[k], address))
    && (IsCovered(order, address) ==> exists j {:trigger Closes(order, j, address)} :: Closes(order, j, address))
  }

  lemma BeforeLast(insts: seq<Instruction>, order: seq<Match>, address: nat)
    requires order != [] && StartsRise(order) && order[|order| - 1].start <= address
    ensures Gaps(insts, order, address) == 0
    ensures WellPlaced(order, address) <==> (IsCovered(order, address) ==> Covers(order[|order| - 1], address))
  {
    NoGapBefore(insts, order, address);
    var n := |order| - 1;
    assert order[n].start <= address;
    if Covers(order[n], address) {
      assert Closes(order, n, address);
    }
  }

  lemma {:induction false} NoGapBefore(insts: seq<Instruction>, order: seq<Match>, address: nat)
    requires forall k {:trigger order[k]} :: 0 <= k < |order| ==> order[k].start <= address
    ensures Gaps(insts, order, address) == 0
    decreases |order|
  {
    if order != [] {
      assert order[|order| - 1].start <= address;
      NoGapBefore(insts, order[..|order| - 1], address);
    }
  }

  lemma BehindLast(order: seq<Match>, address: nat)
    requires order != [] && address < order[|order| - 1].start
    ensures var front, m := order[..|order| - 1], order[|order| - 1];
            && (IsCovered(order, address) <==> IsCovered(front, address))
            && (WellPlaced(order, address) <==> WellPlaced(front, address) && !RunsBack(m, address))
  {
    var front, n := order[..|order| - 1], |order| - 1;
    CoveredOneMore(order, address);
    forall j: nat
      ensures Closes(order, j, address) <==> Closes(front, j, address)
    {
      assert forall k {:trigger order[k]} :: 0 <= k < n ==> order[k] == front[k];
    }
    hide Closes, IsCovered;
    assert forall k {:trigger order[k]} {:trigger front[k]} :: 0 <= k < n ==> order[k] == front[k];
  }

  /** An instruction outside all ranges falls into a place, and the number of places is right exactly
      when the ranges are well placed around it. */
  lemma {:induction false} PlacesExactly(insts: seq<Instruction>, order: seq<Match>, address: nat)
    requires StartsRise(order) && Emitted(insts, []).upTo <= address
    ensures !IsCovered(order, address) ==> Places(insts, order, address) >= 1
    ensures Places(insts, order, address) == (if IsCovered(order, address) then 0 else 1)
            <==> WellPlaced(order, address)
    decreases |order|
  {
    if order != [] {
      var front, m := order[..|order| - 1], order[|order| - 1];
      EmittedStep(insts, order);
      CoveredOneMore(order, address);
      if m.start <= address {
        BeforeLast(insts, order, address);
      } else {
        BehindLast(order, address);
        assert StartsRise(front);
        PlacesExactly(insts, front, address);
      }
      hide Emitted, WellPlaced, IsCovered, StartsRise;
    }
  }

  /** No two ranges hold `address`. */
  ghost predicate InOneRange(order: seq<Match>, address: nat) {
    forall j, k {:trigger order[j], order[k]} ::
      0 <= j < k < |order| && Covers(order[j], address) ==> !Covers(order[k], address)
  }

  /** Covered instructions and noise are not listed, and all others once. */
  ghost predicate ListedRight(insts: seq<Instruction>, order: seq<Match>, out: seq<Piece>, i: nat)
    requires i < |insts|
  {
    Printed(out, i) == if IsCovered(order, insts[i].address) || IsNoise(insts[i].opcode) then 0 else 1
  }

  /** For ranges in any position, overlapping, empty or backwards: noise is never listed, and another
      instruction is listed as it should be exactly when the ranges are well placed around it. */
  lemma ListedRightExactly(insts: seq<Instruction>, order: seq<Match>, i: nat)
    requires Ordered(insts) && StartsRise(order) && i < |insts|
    ensures ListedRight(insts, order, ListingOf(insts, order), i)
            <==> IsNoise(insts[i].opcode) || WellPlaced(order, insts[i].address)
  {
    ListedByPlaces(insts, order, i);
    assert Emitted(insts, []).upTo <= insts[i].address;
    PlacesExactly(insts, order, insts[i].address);
    hide Emitted, WellPlaced, Places, IsCovered, IsNoise, ListingOf, Ordered, StartsRise, Printed;
  }

  /** With ranges that lie one behind the other, every instruction is inside exactly one range, listed
      once, or unlisted noise, and only one of these. */
  lemma ListedExactly(insts: seq<Instruction>, order: seq<Match>, i: nat)
    requires Ordered(insts) && Chain(order) && i < |insts|
    ensures InOneRange(order, insts[i].address)
    ensures ListedRight(insts, order, ListingOf(insts, order), i)
  {
    ChainIsWellPlaced(order, insts[i].address);
    ListedRightExactly(insts, order, i);
  }

  lemma ChainIsWellPlaced(order: seq<Match>, address: nat)
    requires Chain(order)
    ensures StartsRise(order) && WellPlaced(order, address) && InOneRange(order, address)
  {
    forall i, j | 0 <= i < j < |order|
      ensures order[i].start < order[i].end <= order[j].start
    {
    }
    if IsCovered(order, address) {
      var k :| 0 <= k < |order| && Covers(order[k], address);
      assert Closes(order, k, address);
    }
  }

  lemma LastEnds(insts: seq<Instruction>, i: nat)
    requires Ordered(insts) && i < |insts|
    ensures insts[i].address < insts[|insts| - 1].Next()
  {
    var last := insts[|insts| - 1];
    assert last.Next() == last.address + last.size;
    assert i < |insts| - 1 ==> insts[i].address + insts[i].size <= last.address;
  }

  lemma {:induction false} LinesHaveNoCode(insts: seq<Instruction>, lo: nat, hi: nat, n: nat, m: Match)
    requires n <= |insts|
    ensures Code(m) !in Lines(insts, lo, hi, n)
  {
    hide IsNoise, InRange;
    if n > 0 {
      LinesHaveNoCode(insts, lo, hi, n - 1, m);
    }
  }

  /** How often a match is expanded. */
  ghost function Expanded(out: seq<Piece>, m: Match): nat {
    multiset(out)[Code(m)]
  }

  lemma ExpandedJoin(x: seq<Piece>, y: seq<Piece>, last: Match, m: Match)
    ensures Expanded(x + y, m) == Expanded(x, m) + Expanded(y, m)
    ensures Expanded([Code(last)], m) == if last == m then 1 else 0
    ensures Expanded([], m) == 0
  {
  }

  lemma RawHasNoCode(insts: seq<Instruction>, lo: nat, hi: nat, m: Match)
    ensures Expanded(Raw(insts, lo, hi), m) == 0
  {
    LinesHaveNoCode(insts, lo, hi, |insts|, m);
    assert Code(m) !in Raw(insts, lo, hi);
  }

  lemma ExpandedStep(insts: seq<Instruction>, order: seq<Match>, m: Match)
    requires order != []
    ensures Expanded(Emitted(insts, order).out, m) ==
            Expanded(Emitted(insts, order[..|order| - 1]).out, m) + if order[|order| - 1] == m then 1 else 0
  {
    var before, last := Emitted(insts, order[..|order| - 1]), order[|order| - 1];
    EmittedStep(insts, order);
    hide Emitted, Raw, Expanded;
    RawHasNoCode(insts, before.upTo, last.start, m);
    var raw := if last.start > before.upTo then Raw(insts, before.upTo, last.start) else [];
    ExpandedJoin(before.out, raw, last, m);
    ExpandedJoin(before.out + raw, [Code(last)], last, m);
  }

  ghost function Occurrences(order: seq<Match>, m: Match): nat {
    multiset(order)[m]
  }

  lemma OccursStep(order: seq<Match>, m: Match)
    requires order != []
    ensures Occurrences(order, m) == Occurrences(order[..|order| - 1], m) + if order[|order| - 1] == m then 1 else 0
  {
    var front, last := order[..|order| - 1], order[|order| - 1];
    assert order == front + [last];
  }

  /** Every match is expanded, as often as it occurs. */
  lemma {:induction false} CodeCount(insts: seq<Instruction>, order: seq<Match>, m: Match)
    ensures Expanded(Emitted(insts, order).out, m) == Occurrences(order, m)
    decreases |order|
  {
    if order == [] {
      ExpandedJoin([], [], m, m);
    } else {
      ExpandedStep(insts, order, m);
      OccursStep(order, m);
      hide Emitted, Expanded, Occurrences;
      CodeCount(insts, order[..|order| - 1], m);
    }
  }

  lemma EveryMatchExpanded(insts: seq<Instruction>, order: seq<Match>, m: Match)
    ensures Expanded(ListingOf(insts, order), m) == Occurrences(order, m)
  {
    CodeCount(insts, order, m);
    var p := Emitted(insts, order);
    RawHasNoCode(insts, p.upTo, EndAddress(insts, p.upTo), m);
    hide Emitted, Raw, Expanded;
    ExpandedJoin(p.out, Raw(insts, p.upTo, EndAddress(insts, p.upTo)), m, m);
    assert p.out + [] == p.out;
  }

  /** A range that runs backwards makes the generator list what lies in it again. */
  lemma BackwardRangeListsTwice(inst: Instruction, m: Match)
    requires inst.address == 0 && inst.size == 1 && !IsNoise(inst.opcode) && m.start == 1 && m.end == 0
    ensures Printed(ListingOf([inst], [m]), 0) == 2
  {
    var insts := [inst];
    assert [m][..0] == [] && Emitted(insts, []) == Progress([], 0);
    PrintedStep(insts, [m], 0);
    EmittedStep(insts, [m]);
    var p := Emitted(insts, [m]);
    RawCount(insts, 0, 1, 0);
    PrintedJoin([], [], 0);
    PrintedJoin(p.out, Raw(insts, 0, 1), 0);
  }

  // ---------------------------------------------------------------- the order of the output

  predicate Addressed(insts: seq<Instruction>, p: Piece) {
    p.Code? || (p.Line? && p.index < |insts|)
  }

  function AddressOf(insts: seq<Instruction>, p: Piece): nat
    requires Addressed(insts, p)
  {
    if p.Code? then p.m.start else insts[p.index].address
  }

  /** Output with increasing addresses, all of them within bounds. */
  ghost predicate InOrder(insts: seq<Instruction>, out: seq<Piece>, lo: nat, hi: nat) {
    && (forall i {:trigger out[i]} :: 0 <= i < |out| ==>
          out[i].Header? || (Addressed(insts, out[i]) && lo <= AddressOf(insts, out[i]) < hi))
    && (forall i, j {:trigger out[i], out[j]} :: 0 <= i < j < |out| && !out[i].Header? && !out[j].Header? ==>
          AddressOf(insts, out[i]) < AddressOf(insts, out[j]))
  }

  lemma JoinInOrder(insts: seq<Instruction>, x: seq<Piece>, y: seq<Piece>, lo: nat, mid: nat, mid': nat, hi: nat)
    requires InOrder(insts, x, lo, mid) && InOrder(insts, y, mid', hi) && lo <= mid <= mid' <= hi
    ensures InOrder(insts, x + y, lo, hi)
  {
  }

  lemma {:induction false} LinesInOrder(insts: seq<Instruction>, lo: nat, hi: nat, n: nat)
    requires Ordered(insts) && n <= |insts|
    ensures InOrder(insts, Lines(insts, lo, hi, n), lo, hi)
    ensures forall k {:trigger Lines(insts, lo, hi, n)[k]} :: 0 <= k < |Lines(insts, lo, hi, n)| ==>
              Lines(insts, lo, hi, n)[k].Line? && Lines(insts, lo, hi, n)[k].index < n
  {
    hide IsNoise;
    if n > 0 {
      LinesInOrder(insts, lo, hi, n - 1);
      var front := Lines(insts, lo, hi, n - 1);
      forall k | 0 <= k < |front|
        ensures insts[front[k].index].address < insts[n - 1].address
      {
        assert insts[front[k].index].address + insts[front[k].index].size <= insts[n - 1].address;
      }
    }
  }

  lemma RawInOrder(insts: seq<Instruction>, lo: nat, hi: nat)
    requires Ordered(insts)
    ensures InOrder(insts, Raw(insts, lo, hi), lo, hi)
  {
    LinesInOrder(insts, lo, hi, |insts|);
  }

  function LowestAddress(insts: seq<Instruction>, order: seq<Match>): nat {
    var first := Emitted(insts, []).upTo;
    if order != [] && order[0].start < first then order[0].start else first
  }

  lemma {:induction false} EmittedInOrder(insts: seq<Instruction>, order: seq<Match>)
    requires Ordered(insts) && Chain(order)
    ensures var p := Emitted(insts, order);
            LowestAddress(insts, order) <= p.upTo && InOrder(insts, p.out, LowestAddress(insts, order), p.upTo)
    decreases |order|
  {
    if order != [] {
      var front, m := order[..|order| - 1], order[|order| - 1];
      ReachedBefore(insts, order);
      EmittedStep(insts, order);
      OneInOrder(insts, m);
      hide Emitted, Chain, Raw, InOrder;
      EmittedInOrder(insts, front);
      var before := Emitted(insts, front);
      RawInOrder(insts, before.upTo, m.start);
      var raw := if m.start > before.upTo then Raw(insts, before.upTo, m.start) else [];
      var lo := LowestAddress(insts, order);
      if front == [] {
        FirstInOrder(insts, before.out, raw, before.upTo, lo, m.start);
      } else {
        EmptyInOrder(insts, before.upTo, m.start);
        JoinInOrder(insts, before.out, raw, lo, before.upTo, before.upTo, m.start);
      }
      JoinInOrder(insts, before.out + raw, [Code(m)], lo, m.start, m.start, m.end);
    }
  }

  lemma OneInOrder(insts: seq<Instruction>, m: Match)
    requires m.start < m.end
    ensures InOrder(insts, [Code(m)], m.start, m.end)
  {
  }

  /** Before the first match nothing has been written but what lies in front of it. */
  lemma FirstInOrder(insts: seq<Instruction>, none: seq<Piece>, raw: seq<Piece>, first: nat, lo: nat, start: nat)
    requires InOrder(insts, none, first, first)
    requires lo <= first && lo <= start
    requires if start > first then InOrder(insts, raw, first, start) else raw == []
    ensures InOrder(insts, none + raw, lo, start)
  {
  }

  lemma EmptyInOrder(insts: seq<Instruction>, lo: nat, hi: nat)
    ensures InOrder(insts, [], lo, hi)
  {
  }

  /** The whole output goes up in addresses. */
  lemma ListingInOrder(insts: seq<Instruction>, order: seq<Match>)
    requires Ordered(insts) && Chain(order)
    ensures exists hi :: InOrder(insts, ListingOf(insts, order), LowestAddress(insts, order), hi)
  {
    EmittedInOrder(insts, order);
    var p := Emitted(insts, order);
    var end := EndAddress(insts, p.upTo);
    var lo := LowestAddress(insts, order);
    if p.upTo < end {
      assert ListingOf(insts, order) == p.out + Raw(insts, p.upTo, end);
      RawInOrder(insts, p.upTo, end);
      hide InOrder, Raw, Emitted, ListingOf;
      JoinInOrder(insts, p.out, Raw(insts, p.upTo, end), lo, p.upTo, p.upTo, end);
      assert InOrder(insts, ListingOf(insts, order), lo, end);
    } else {
      assert p.out + [] == p.out;
      assert InOrder(insts, ListingOf(insts, order), lo, p.upTo);
    }
  }

  // ---------------------------------------------------------------- from the scan to the listing

  /** Labels carry no opcode, as compiled patterns have them. */
  ghost predicate LabelsAreBare(patterns: seq<Pattern>) {
    forall p, a: nat, k: nat {:trigger p.alternatives[a][k], p in patterns} ::
      p in patterns && a < |p.alternatives| && k < |p.alternatives[a]| && p.alternatives[a][k].isLabel ==>
        p.alternatives[a][k].opcode == ""
  }

  /** An alternative that begins with an opcode has an instruction to match. */
  lemma FirstIsReal(alt: Alternative)
    requires alt != [] && !alt[0].isLabel
    ensures Real(alt) != []
  {
    assert alt[..1] == [alt[0]] && [alt[0]][..0] == [];
    RealPrefix(alt, 1);
  }

  lemma HitsAreNonEmpty(rules: Rules, insts: seq<Instruction>, patterns: seq<Pattern>, m: Match)
    requires Ordered(insts) && LabelsAreBare(patterns) && IsHit(rules, insts, patterns, |insts|, m)
    ensures m.start < m.end
  {
    var i: nat :| i < |insts| && IsHitAt(rules, insts, patterns, i, m);
    var a: nat :| Hits(rules, insts, i, m.pattern, a) && m == HitMatch(rules, insts, i, m.pattern, a);
    HitBegins(rules, insts, i, m.pattern, a);
    assert insts[i].opcode != "";
    hide Hits, HitMatch, Ordered;
    FirstIsReal(m.pattern.alternatives[a]);
    HitRangeExactly(rules, insts, i, m.pattern, a);
  }

  lemma KeptAreHits(rules: Rules, insts: seq<Instruction>, patterns: seq<Pattern>, raw: seq<Match>, kept: seq<Match>)
    requires Ordered(insts) && LabelsAreBare(patterns) && multiset(kept) <= multiset(raw)
    requires forall m :: m in raw ==> IsHit(rules, insts, patterns, |insts|, m)
    ensures NonEmpty(kept) && forall m :: m in kept ==> IsHit(rules, insts, patterns, |insts|, m)
  {
    hide IsHit, Ordered, LabelsAreBare;
    forall m | m in kept
      ensures IsHit(rules, insts, patterns, |insts|, m) && m.start < m.end
    {
      assert m in multiset(kept) && m in multiset(raw) && m in raw;
      HitsAreNonEmpty(rules, insts, patterns, m);
    }
  }

  /** From scan to listing: whatever subset without overlap is kept of the hits, every instruction is
      inside one of the kept ranges, listed once, or unlisted noise. */
  lemma ScanToListing(rules: Rules, insts: seq<Instruction>, patterns: seq<Pattern>, raw: seq<Match>,
                      kept: seq<Match>, order: seq<Match>, i: nat)
    requires Ordered(insts) && LabelsAreBare(patterns) && i < |insts|
    requires forall m :: m in raw ==> IsHit(rules, insts, patterns, |insts|, m)
    requires multiset(kept) <= multiset(raw) && Disjoint(kept) && ByAddress(order, kept)
    ensures NonEmpty(kept) && Chain(order)
    ensures InOneRange(order, insts[i].address)
    ensures ListedRight(insts, order, ListingOf(insts, order), i)
  {
    hide IsHit, ListingOf, IsCovered, InOneRange, ListedRight, Ordered;
    KeptAreHits(rules, insts, patterns, raw, kept);
    DisjointInOrderIsChain(kept, order);
    ListedExactly(insts, order, i);
  }

  // ---------------------------------------------------------------- the generator

  class Generator {
    var matches: seq<Match>
    const instructions: seq<Instruction>

    constructor (matches: seq<Match>, instructions: seq<Instruction>)
      ensures this.matches == matches && this.instructions == instructions
    {
      this.matches, this.instructions := matches, instructions;
    }

    /** List the instructions of a range, noise left out, under a header if there are any. */
    method EmitRawRange(buf: seq<Piece>, start: nat, end: nat) returns (out: seq<Piece>)
      ensures out == buf + Raw(instructions, start, end)
    {
      var rangeInsts: seq<Piece> := [];
      var i := 0;
      while i < |instructions|
        invariant 0 <= i <= |instructions|
        invariant rangeInsts == Lines(instructions, start, end, i)
      {
        var inst := instructions[i];
        if inst.address >= start && inst.address < end && !IsNoise(inst.opcode) {
          rangeInsts := rangeInsts + [Line(i)];
        }
        i := i + 1;
      }
      if |rangeInsts| == 0 {
        return buf + [];
      }
      out := buf + ([Header] + rangeInsts);
    }

    /** Write everything: given the order the sort by address returned, code for every match and a
        listing of the rest. Matches that are disjoint and not empty account for every instruction
        once, in order; other matches do so exactly around the instructions where they are well
        placed. */
    method Generate(order: seq<Match>) returns (out: seq<Piece>)
      requires Ordered(instructions) && ByAddress(order, matches)
      modifies this`matches
      ensures matches == order
      ensures out == ListingOf(instructions, order)
      ensures forall i {:trigger instructions[i]} :: 0 <= i < |instructions| ==>
                (ListedRight(instructions, order, out, i)
                 <==> IsNoise(instructions[i].opcode) || WellPlaced(order, instructions[i].address))
      ensures forall m :: Expanded(out, m) == Occurrences(old(matches), m)
      ensures Disjoint(old(matches)) && NonEmpty(old(matches)) ==>
                && (forall i {:trigger instructions[i]} :: 0 <= i < |instructions| ==>
                      && InOneRange(order, instructions[i].address)
                      && ListedRight(instructions, order, out, i))
                && exists hi :: InOrder(instructions, out, LowestAddress(instructions, order), hi)
    {
      ghost var given := matches;
      matches := order;
      out := WriteAll();
      hide Ordered, ListingOf, WellPlaced, InOneRange, ListedRight, IsNoise, Expanded, Occurrences, InOrder,
        LowestAddress, Disjoint, NonEmpty;
      forall i | 0 <= i < |instructions|
        ensures ListedRight(instructions, order, out, i)
                <==> IsNoise(instructions[i].opcode) || WellPlaced(order, instructions[i].address)
      {
        ListedRightExactly(instructions, order, i);
      }
      forall m
        ensures Expanded(out, m) == Occurrences(given, m)
      {
        EveryMatchExpanded(instructions, order, m);
        SameOccurrences(order, given, m);
      }
      if Disjoint(given) && NonEmpty(given) {
        DisjointInOrderIsChain(given, order);
        forall i | 0 <= i < |instructions|
          ensures InOneRange(order, instructions[i].address) && ListedRight(instructions, order, out, i)
        {
          ListedExactly(instructions, order, i);
        }
        ListingInOrder(instructions, order);
      }
    }

    method WriteAll() returns (out: seq<Piece>)
      ensures out == ListingOf(instructions, matches)
    {
      out := [];
      var lastAddr := 0;
      if |instructions| > 0 {
        lastAddr := instructions[0].address;
      }
      var i := 0;
      while i < |matches|
        invariant 0 <= i <= |matches|
        invariant Progress(out, lastAddr) == Emitted(instructions, matches[..i])
      {
        var m := matches[i];
        assert matches[..i + 1][..i] == matches[..i];
        if m.start > lastAddr {
          out := EmitRawRange(out, lastAddr, m.start);
        } else {
          assert out == out + [];
        }
        out := out + [Code(m)];
        lastAddr := m.end;
        i := i + 1;
      }
      assert matches[..i] == matches;
      var endAddr := lastAddr;
      if |instructions| > 0 {
        endAddr := instructions[|instructions| - 1].Next();
      }
      if lastAddr < endAddr {
        out := EmitRawRange(out, lastAddr, endAddr);
      } else {
        assert out == out + [];
      }
    }
  }

  lemma SameOccurrences(x: seq<Match>, y: seq<Match>, m: Match)
    requires multiset(x) == multiset(y)
    ensures Occurrences(x, m) == Occurrences(y, m)
  {
  }

  /** From patterns to output: every instruction of the stream is inside one of the matches kept,
      listed once, or unlisted noise. */
  method Decompile(matcher: Matcher, rules: Rules, insts: seq<Instruction>,
                   byQuality: seq<Match> -> seq<Match>, byAddress: seq<Match> -> seq<Match>)
    returns (out: seq<Piece>, kept: seq<Match>)
    requires matcher.Valid() && Ordered(insts) && LabelsAreBare(matcher.patterns)
    requires forall ms {:trigger byQuality(ms)} :: IsSorted(byQuality(ms), ms)
    requires forall ms {:trigger byAddress(ms)} :: ByAddress(byAddress(ms), ms)
    ensures forall m :: m in kept ==> IsHit(rules, insts, matcher.patterns, |insts|, m)
    ensures Disjoint(kept) && forall m :: Expanded(out, m) == Occurrences(kept, m)
    ensures forall i {:trigger insts[i]} :: 0 <= i < |insts| ==>
              InOneRange(byAddress(kept), insts[i].address) && ListedRight(insts, byAddress(kept), out, i)
  {
    hide IsHit, InOneRange, IsNoise, ListedRight, WellPlaced, Expanded, Occurrences, Ordered, InOrder, ListingOf,
      Disjoint, ByAddress, NonEmpty, Outdone, IsSorted, LabelsAreBare, LowestAddress;
    var raw;
    kept, raw := FindMatches(matcher, rules, insts, byQuality);
    KeptAreHits(rules, insts, matcher.patterns, raw, kept);
    var order := byAddress(kept);
    var generator := new Generator(kept, insts);
    out := generator.Generate(order);
  }
}

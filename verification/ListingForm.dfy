/** The form of the output: what counts as noise, what a raw range holds, where the headers stand, and
    that the matches come out in the order they were given. */
module ListingForm {
  import opened Instructions
  import opened Matching
  import opened Listing

  lemma NoiseExactly(opcode: string)
    ensures IsNoise(opcode) <==>
              || opcode == "NOP" || opcode == "NOPL" || opcode == "NOPW"
              || opcode == "INT" || opcode == "INT3" || opcode == "DATA16"
  {
  }

  /** The lines of a range are the instructions in it that are no noise, in stream order. */
  lemma {:induction false} LinesExactly(insts: seq<Instruction>, lo: nat, hi: nat, n: nat)
    requires n <= |insts|
    ensures var lines := Lines(insts, lo, hi, n);
            && (forall k {:trigger lines[k]} :: 0 <= k < |lines| ==> lines[k].Line? && lines[k].index < n)
            && (forall j, k {:trigger lines[j], lines[k]} :: 0 <= j < k < |lines| ==> lines[j].index < lines[k].index)
            && forall i: nat {:trigger insts[i]} :: i < n ==>
                 (Line(i) in lines <==> lo <= insts[i].address < hi && !IsNoise(insts[i].opcode))
  {
    hide IsNoise;
    if n > 0 {
      LinesExactly(insts, lo, hi, n - 1);
      var front := Lines(insts, lo, hi, n - 1);
      assert forall k {:trigger front[k]} :: 0 <= k < |front| ==> front[k] in front;
      assert Line(n - 1) !in front;
    }
  }

  /** A header stands before each run of lines, and nowhere else. */
  ghost predicate WellHeaded(out: seq<Piece>) {
    && (forall i {:trigger out[i]} :: 0 <= i < |out| && out[i].Header? ==> i + 1 < |out| && out[i + 1].Line?)
    && (forall i {:trigger out[i]} :: 0 <= i < |out| && out[i].Header? ==> i == 0 || out[i - 1].Code?)
    && (forall i {:trigger out[i]} :: 0 <= i < |out| && out[i].Line? ==> i > 0 && !out[i - 1].Code?)
  }

  /** A raw range is empty when no instruction is to be listed, and otherwise a header with the lines. */
  lemma RawExactly(insts: seq<Instruction>, lo: nat, hi: nat)
    ensures WellHeaded(Raw(insts, lo, hi))
    ensures var raw := Raw(insts, lo, hi);
            && (raw == [] || (raw[0] == Header && |raw| > 1))
            && (forall k {:trigger raw[k]} :: 1 <= k < |raw| ==> raw[k].Line? && raw[k].index < |insts|)
            && (forall j, k {:trigger raw[j], raw[k]} :: 1 <= j < k < |raw| ==> raw[j].index < raw[k].index)
            && forall i: nat {:trigger insts[i]} :: i < |insts| ==>
                 (Line(i) in raw <==> lo <= insts[i].address < hi && !IsNoise(insts[i].opcode))
  {
    LinesExactly(insts, lo, hi, |insts|);
    hide Lines, IsNoise;
    var raw, lines := Raw(insts, lo, hi), Lines(insts, lo, hi, |insts|);
    assert raw != [] ==> forall k {:trigger raw[k]} :: 1 <= k < |raw| ==> raw[k] == lines[k - 1];
  }

  /** Nothing, or something that ends in code. */
  predicate EndsInCode(out: seq<Piece>) {
    out == [] || out[|out| - 1].Code?
  }

  lemma HeadedJoin(x: seq<Piece>, raw: seq<Piece>)
    requires WellHeaded(x) && EndsInCode(x) && WellHeaded(raw)
    ensures WellHeaded(x + raw)
  {
    var out := x + raw;
    forall i | 0 <= i < |out|
      ensures out[i].Header? ==> i + 1 < |out| && out[i + 1].Line?
      ensures out[i].Header? ==> i == 0 || out[i - 1].Code?
      ensures out[i].Line? ==> i > 0 && !out[i - 1].Code?
    {
      if i >= |x| {
        assert out[i] == raw[i - |x|];
      }
    }
  }

  lemma HeadedCode(x: seq<Piece>, m: Match)
    requires WellHeaded(x)
    ensures WellHeaded(x + [Code(m)]) && EndsInCode(x + [Code(m)])
  {
  }

  lemma {:induction false} EmittedHeaded(insts: seq<Instruction>, order: seq<Match>)
    ensures WellHeaded(Emitted(insts, order).out) && EndsInCode(Emitted(insts, order).out)
    decreases |order|
  {
    if order != [] {
      var front, m := order[..|order| - 1], order[|order| - 1];
      EmittedHeaded(insts, front);
      EmittedStep(insts, order);
      var before := Emitted(insts, front);
      RawExactly(insts, before.upTo, m.start);
      hide Emitted, WellHeaded, EndsInCode, Raw;
      var raw := if m.start > before.upTo then Raw(insts, before.upTo, m.start) else [];
      NothingHeaded();
      HeadedJoin(before.out, raw);
      HeadedCode(before.out + raw, m);
    }
  }

  lemma NothingHeaded()
    ensures WellHeaded([])
  {
  }

  /** Every run of listed instructions has one header in front, and there are no other headers. */
  lemma HeadersExactly(insts: seq<Instruction>, order: seq<Match>)
    ensures WellHeaded(ListingOf(insts, order))
  {
    EmittedHeaded(insts, order);
    var p := Emitted(insts, order);
    RawExactly(insts, p.upTo, EndAddress(insts, p.upTo));
    hide Emitted, WellHeaded, EndsInCode, Raw;
    HeadedJoin(p.out, Raw(insts, p.upTo, EndAddress(insts, p.upTo)));
    assert p.out + [] == p.out;
  }

  // ---------------------------------------------------------------- the matches

  /** The matches expanded in the output, in order. */
  function Expansions(out: seq<Piece>): seq<Match> {
    if out == [] then []
    else
      var front, last := out[..|out| - 1], out[|out| - 1];
      Expansions(front) + if last.Code? then [last.m] else []
  }

  lemma {:induction false} ExpansionsJoin(x: seq<Piece>, y: seq<Piece>)
    ensures Expansions(x + y) == Expansions(x) + Expansions(y)
    decreases |y|
  {
    if y == [] {
      assert x + y == x;
    } else {
      var front := y[..|y| - 1];
      assert (x + y)[..|x + y| - 1] == x + front;
      ExpansionsJoin(x, front);
    }
  }

  lemma {:induction false} NoExpansions(out: seq<Piece>)
    requires forall k {:trigger out[k]} :: 0 <= k < |out| ==> !out[k].Code?
    ensures Expansions(out) == []
    decreases |out|
  {
    if out != [] {
      NoExpansions(out[..|out| - 1]);
    }
  }

  lemma RawExpandsNothing(insts: seq<Instruction>, lo: nat, hi: nat)
    ensures Expansions(Raw(insts, lo, hi)) == []
  {
    RawExactly(insts, lo, hi);
    hide Raw, IsNoise;
    NoExpansions(Raw(insts, lo, hi));
  }

  lemma CodeExpands(out: seq<Piece>, raw: seq<Piece>, m: Match)
    requires Expansions(raw) == []
    ensures Expansions([]) == [] && Expansions(out + raw) == Expansions(out)
    ensures Expansions(out + raw + [Code(m)]) == Expansions(out) + [m]
  {
    assert [Code(m)][..0] == [];
    assert Expansions([Code(m)]) == Expansions([]) + [m];
    ExpansionsJoin(out, raw);
    ExpansionsJoin(out + raw, [Code(m)]);
  }

  lemma NothingEmitted(insts: seq<Instruction>)
    ensures Emitted(insts, []).out == [] && Expansions([]) == []
  {
  }

  lemma {:induction false} EmittedExpansions(insts: seq<Instruction>, order: seq<Match>)
    ensures Expansions(Emitted(insts, order).out) == order
    decreases |order|
  {
    hide Emitted, Raw, Expansions;
    if order == [] {
      NothingEmitted(insts);
    } else {
      var front, m := order[..|order| - 1], order[|order| - 1];
      var before := Emitted(insts, front);
      EmittedExpansions(insts, front);
      EmittedStep(insts, order);
      RawExpandsNothing(insts, before.upTo, m.start);
      NothingEmitted(insts);
      CodeExpands(before.out, if m.start > before.upTo then Raw(insts, before.upTo, m.start) else [], m);
    }
  }

  /** The matches are expanded in the order of their sorted list, each where it stands there. */
  lemma MatchesInOrder(insts: seq<Instruction>, order: seq<Match>)
    ensures Expansions(ListingOf(insts, order)) == order
  {
    EmittedExpansions(insts, order);
    var p := Emitted(insts, order);
    RawExpandsNothing(insts, p.upTo, EndAddress(insts, p.upTo));
    ExpansionsJoin(p.out, Raw(insts, p.upTo, EndAddress(insts, p.upTo)));
    hide Emitted, Raw, Expansions;
    assert p.out + [] == p.out;
  }
}

/** Names in one package file: a name already taken is numbered until it is free. */
module Names {
  import opened Text

  /** The candidates for a base name, in the order they are tried. */
  function Candidate(base: string, i: nat): string {
    if i == 0 then base else base + "_" + Digits(i, 10)
  }

  /** The base name itself comes first, then the base with `_1`, `_2` and so on. */
  lemma CandidatesAre(base: string, i: nat)
    requires i > 0
    ensures Candidate(base, 0) == base && Candidate(base, i) == base + "_" + Digits(i, 10)
  {
  }

  /** No two candidates are the same. */
  lemma CandidatesDiffer(base: string, i: nat, j: nat)
    requires i != j
    ensures Candidate(base, i) != Candidate(base, j)
  {
    if i > 0 && j > 0 && Candidate(base, i) == Candidate(base, j) {
      var k := |base| + 1;
      assert Candidate(base, i)[k..] == Digits(i, 10) && Candidate(base, j)[k..] == Digits(j, 10);
      DigitsInjective(i, j);
    }
  }

  /** `name` is the first candidate that is not taken. */
  ghost predicate FirstFree(base: string, taken: string -> bool, name: string) {
    exists i: nat {:trigger Candidate(base, i)} ::
      name == Candidate(base, i) && !taken(name) && forall k: nat {:trigger Candidate(base, k)} :: k < i ==>
          taken(Candidate(base, k))
  }

  ghost function TakenNames(used: map<string, bool>): set<string> {
    set n | n in used && used[n]
  }

  ghost function Tried(base: string, i: nat): set<string> {
    set k | 0 <= k < i :: Candidate(base, k)
  }

  lemma OneMoreTried(used: map<string, bool>, base: string, i: nat)
    requires IsMarked(used, Candidate(base, i))
    ensures |TakenNames(used) - Tried(base, i + 1)| < |TakenNames(used) - Tried(base, i)|
  {
    var name := Candidate(base, i);
    assert name !in Tried(base, i) by {
      forall k | 0 <= k < i
        ensures Candidate(base, k) != name
      {
        CandidatesDiffer(base, k, i);
      }
    }
    var before, after := TakenNames(used) - Tried(base, i), TakenNames(used) - Tried(base, i + 1);
    assert name in Tried(base, i + 1);
    assert after <= before && name in before && name !in after;
    Shrinks(after, before, name);
  }

  lemma Shrinks(small: set<string>, large: set<string>, x: string)
    requires small <= large && x in large && x !in small
    ensures |small| < |large|
  {
    var rest := large - (small + {x});
    assert large == small + {x} + rest;
  }

  /** Number a name until it is free. The loop ends because every candidate it rejects is a different
      one of the finitely many taken names. */
  method DeduplicateName(base: string, used: map<string, bool>) returns (name: string)
    ensures FirstFree(base, n => IsMarked(used, n), name)
  {
    name := base;
    var i := 1;
    while IsMarked(used, name)
      invariant i >= 1 && name == Candidate(base, i - 1)
      invariant forall k: nat {:trigger Candidate(base, k)} :: k < i - 1 ==> IsMarked(used, Candidate(base, k))
      decreases |TakenNames(used) - Tried(base, i - 1)|
    {
      OneMoreTried(used, base, i - 1);
      name := base + "_" + Digits(i, 10);
      i := i + 1;
    }
  }

  // ---------------------------------------------------------------- one package file

  /** A function to declare: the name its signature suggests, and whether anything is left of it. */
  datatype FuncEntry = FuncEntry(signatureName: string, hasInstructions: bool, hasBlocks: bool)

  /** The names asked for: of the named structures, then of the functions with something to declare. */
  function StructBases(structs: seq<string>, sanitize: string -> string): seq<string> {
    if structs == [] then []
    else
      var front, last := StructBases(structs[..|structs| - 1], sanitize), structs[|structs| - 1];
      if last == "" then front else front + [sanitize(last)]
  }

  function FuncBases(funcs: seq<FuncEntry>, sanitize: string -> string): seq<string> {
    if funcs == [] then []
    else
      var front, last := FuncBases(funcs[..|funcs| - 1], sanitize), funcs[|funcs| - 1];
      if last.hasInstructions && last.hasBlocks then front + [sanitize(last.signatureName)] else front
  }

  /** Structures without a name and functions with nothing left of them are passed over; every other one
      asks for its sanitized name. */
  lemma BasesAre(structs: seq<string>, s: string, funcs: seq<FuncEntry>, f: FuncEntry, sanitize: string -> string)
    ensures StructBases([], sanitize) == [] && FuncBases([], sanitize) == []
    ensures StructBases(structs + [s], sanitize) ==
            StructBases(structs, sanitize) + if s == "" then [] else [sanitize(s)]
    ensures FuncBases(funcs + [f], sanitize) ==
            FuncBases(funcs, sanitize)
            + if f.hasInstructions && f.hasBlocks then [sanitize(f.signatureName)] else []
  {
    assert (structs + [s])[..|structs|] == structs && (funcs + [f])[..|funcs|] == funcs;
  }

  /** Each name is the first free candidate of its base, given the names before it. */
  ghost predicate Declared(names: seq<string>, bases: seq<string>) {
    |names| == |bases| &&
    forall k {:trigger names[k]} :: 0 <= k < |names| ==> FirstFree(bases[k], n => n in names[..k], names[k])
  }

  ghost predicate Distinct(names: seq<string>) {
    forall i, j {:trigger names[i], names[j]} :: 0 <= i < j < |names| ==> names[i] != names[j]
  }

  lemma DeclaredAreDistinct(names: seq<string>, bases: seq<string>)
    requires Declared(names, bases)
    ensures Distinct(names)
  {
    forall i, j | 0 <= i < j < |names|
      ensures names[i] != names[j]
    {
      assert FirstFree(bases[j], n => n in names[..j], names[j]);
      assert names[j] !in names[..j];
      assert names[..j][i] == names[i];
    }
  }

  /** The map holds exactly the names given out. */
  ghost predicate Records(used: map<string, bool>, names: seq<string>) {
    forall n {:trigger IsMarked(used, n)} {:trigger n in names} :: IsMarked(used, n) <==> n in names
  }

  lemma DeclareOneMore(names: seq<string>, bases: seq<string>, used: map<string, bool>, base: string, name: string)
    requires Declared(names, bases)
    requires Records(used, names)
    requires FirstFree(base, n => IsMarked(used, n), name)
    ensures Declared(names + [name], bases + [base]) && Records(used[name := true], names + [name])
  {
    forall n
      ensures IsMarked(used[name := true], n) <==> n in names + [name]
    {
      assert IsMarked(used, n) <==> n in names;
    }
    var names', bases' := names + [name], bases + [base];
    forall k | 0 <= k < |names'|
      ensures FirstFree(bases'[k], n => n in names'[..k], names'[k])
    {
      if k < |names| {
        assert FirstFree(bases[k], n => n in names[..k], names[k]);
        assert names'[..k] == names[..k];
      } else {
        assert names'[..k] == names;
        var i: nat :| name == Candidate(base, i) && !IsMarked(used, name)
          && forall j: nat {:trigger Candidate(base, j)} :: j < i ==> IsMarked(used, Candidate(base, j));
        assert forall j: nat {:trigger Candidate(base, j)} :: j < i ==> Candidate(base, j) in names by {
          forall j: nat | j < i
            ensures Candidate(base, j) in names
          {
            assert IsMarked(used, Candidate(base, j));
          }
        }
      }
    }
  }

  /** The declaration names of one file, structures first. They are pairwise different. */
  method PackageNames(structs: seq<string>, funcs: seq<FuncEntry>, sanitize: string -> string)
    returns (names: seq<string>)
    ensures Declared(names, StructBases(structs, sanitize) + FuncBases(funcs, sanitize))
    ensures Distinct(names)
  {
    var usedNames: map<string, bool> := map[];
    names := [];
    ghost var bases: seq<string> := [];
    var i := 0;
    while i < |structs|
      invariant 0 <= i <= |structs|
      invariant bases == StructBases(structs[..i], sanitize) && Declared(names, bases)
      invariant Records(usedNames, names)
    {
      hide Records, Declared, FirstFree;
      assert structs[..i + 1][..i] == structs[..i];
      if structs[i] != "" {
        var base := sanitize(structs[i]);
        var name := DeduplicateName(base, usedNames);
        DeclareOneMore(names, bases, usedNames, base, name);
        names, bases := names + [name], bases + [base];
        usedNames := usedNames[name := true];
      }
      i := i + 1;
    }
    assert structs[..i] == structs;
    ghost var fromStructs := bases;
    assert fromStructs + [] == fromStructs;
    var j := 0;
    while j < |funcs|
      invariant 0 <= j <= |funcs|
      invariant bases == fromStructs + FuncBases(funcs[..j], sanitize) && Declared(names, bases)
      invariant Records(usedNames, names)
    {
      hide Records, Declared, FirstFree;
      var f := funcs[j];
      assert funcs[..j + 1][..j] == funcs[..j];
      if f.hasInstructions && f.hasBlocks {
        var base := sanitize(f.signatureName);
        var name := DeduplicateName(base, usedNames);
        DeclareOneMore(names, bases, usedNames, base, name);
        assert bases + [base] == fromStructs + (FuncBases(funcs[..j], sanitize) + [base]);
        names, bases := names + [name], bases + [base];
        usedNames := usedNames[name := true];
      }
      j := j + 1;
    }
    assert funcs[..j] == funcs;
    DeclaredAreDistinct(names, bases);
  }
}

/** Compiled patterns, the opcode index over them, and the database that keeps the index up to date
    while patterns come and go. */
module PatternIndex {

  datatype PatternOperand = PatternOperand(
    isWildcard: bool,
    isImmediate: bool,
    register: string,
    captureVar: string,
    baseReg: string,
    offset: string)

  datatype PatternInst = PatternInst(opcode: string, isLabel: bool, operands: seq<PatternOperand>)

  type Alternative = seq<PatternInst>

  datatype Pattern = Pattern(name: string, library: string, alternatives: seq<Alternative>)

  function UpperChar(c: char): char {
    if 'a' <= c <= 'z' then ((c as int) - 32) as char else c
  }

  function ToUpper(s: string): (u: string)
    ensures |u| == |s|
  {
    seq(|s|, i requires 0 <= i < |s| => UpperChar(s[i]))
  }

  predicate BeginsWith(alt: Alternative, key: string) {
    alt != [] && ToUpper(alt[0].opcode) == key
  }

  // ---------------------------------------------------------------- the index, as a function

  /** One copy of `p` for each alternative that begins with `key`. */
  function Copies(p: Pattern, alts: seq<Alternative>, key: string): seq<Pattern> {
    if alts == [] then []
    else Copies(p, alts[..|alts| - 1], key) + if BeginsWith(alts[|alts| - 1], key) then [p] else []
  }

  /** The patterns filed under `key`, in order and with duplicates. */
  function Bucket(patterns: seq<Pattern>, key: string): seq<Pattern> {
    if patterns == [] then []
    else
      var last := patterns[|patterns| - 1];
      Bucket(patterns[..|patterns| - 1], key) + Copies(last, last.alternatives, key)
  }

  type OpcodeIndex = map<string, seq<Pattern>>

  function Filed(index: OpcodeIndex, key: string): seq<Pattern> {
    if key in index then index[key] else []
  }

  ghost predicate NoneEmpty(index: OpcodeIndex) {
    forall key {:trigger key in index} :: key in index ==> index[key] != []
  }

  /** `index` files exactly the patterns of the list, under exactly the keys they begin with. */
  ghost predicate Indexes(index: OpcodeIndex, patterns: seq<Pattern>) {
    && (forall key {:trigger Filed(index, key)} {:trigger Bucket(patterns, key)} ::
         Filed(index, key) == Bucket(patterns, key))
    && NoneEmpty(index)
  }

  /** There is only one index for a list, however it was arrived at. */
  lemma IndexIsUnique(a: OpcodeIndex, b: OpcodeIndex, patterns: seq<Pattern>)
    requires Indexes(a, patterns) && Indexes(b, patterns)
    ensures a == b
  {
    forall key
      ensures key in a <==> key in b
      ensures key in a ==> a[key] == b[key]
    {
      assert Filed(a, key) == Bucket(patterns, key) == Filed(b, key);
    }
  }

  lemma {:induction false} CopiesOf(p: Pattern, alts: seq<Alternative>, key: string, x: Pattern)
    ensures x in Copies(p, alts, key) <==> x == p && exists alt :: alt in alts && BeginsWith(alt, key)
  {
    if alts != [] {
      var front, last := alts[..|alts| - 1], alts[|alts| - 1];
      assert alts == front + [last];
      CopiesOf(p, front, key, x);
    }
  }

  /** A pattern is filed under a key exactly when it is in the list and some alternative begins with
      the key. */
  lemma {:induction false} FiledExactly(patterns: seq<Pattern>, key: string, x: Pattern)
    ensures x in Bucket(patterns, key) <==> x in patterns && exists alt :: alt in x.alternatives && BeginsWith(alt, key)
  {
    if patterns != [] {
      var front, last := patterns[..|patterns| - 1], patterns[|patterns| - 1];
      assert patterns == front + [last];
      FiledExactly(front, key, x);
      CopiesOf(last, last.alternatives, key, x);
    }
  }

  lemma BucketAppend(patterns: seq<Pattern>, p: Pattern, key: string)
    ensures Bucket(patterns + [p], key) == Bucket(patterns, key) + Copies(p, p.alternatives, key)
  {
    assert (patterns + [p])[..|patterns|] == patterns;
  }

  /** In a list that is one behind another, a key's patterns are those of the first and then those of the second. */
  lemma {:induction false} BucketsJoin(xs: seq<Pattern>, ys: seq<Pattern>, key: string)
    ensures Bucket(xs + ys, key) == Bucket(xs, key) + Bucket(ys, key)
    decreases |ys|
  {
    if ys == [] {
      assert xs + ys == xs;
    } else {
      var front := ys[..|ys| - 1];
      assert xs + ys == xs + front + [ys[|ys| - 1]];
      BucketsJoin(xs, front, key);
      BucketAppend(xs + front, ys[|ys| - 1], key);
    }
  }

  /** A pattern is filed once for every alternative whose first opcode is the key. */
  lemma FiledPerAlternative(p: Pattern, alts: seq<Alternative>, alt: Alternative, key: string)
    ensures Copies(p, [], key) == []
    ensures Copies(p, alts + [alt], key) ==
            Copies(p, alts, key) + if alt != [] && ToUpper(alt[0].opcode) == key then [p] else []
  {
    hide ToUpper;
    assert (alts + [alt])[..|alts|] == alts;
  }

  /** `index` is `base` with the first `n` alternatives of `p` filed as well. */
  ghost predicate FiledSoFar(base: OpcodeIndex, index: OpcodeIndex, p: Pattern, n: nat)
    requires n <= |p.alternatives|
  {
    && (forall key {:trigger Filed(index, key)} ::
         Filed(index, key) == Filed(base, key) + Copies(p, p.alternatives[..n], key))
    && NoneEmpty(index)
  }

  lemma FileOne(base: OpcodeIndex, index: OpcodeIndex, p: Pattern, n: nat)
    requires n < |p.alternatives| && FiledSoFar(base, index, p, n)
    ensures var alt := p.alternatives[n];
            FiledSoFar(base, if alt == [] then index
                             else index[ToUpper(alt[0].opcode) := Filed(index, ToUpper(alt[0].opcode)) + [p]], p, n + 1)
  {
    var alts: seq<Alternative> := p.alternatives;
    assert alts[..n + 1][..n] == alts[..n] && alts[..n + 1][n] == alts[n];
    var alt := alts[n];
    var index' := if alt == [] then index
      else index[ToUpper(alt[0].opcode) := Filed(index, ToUpper(alt[0].opcode)) + [p]];
    forall key
      ensures Filed(index', key) == Filed(base, key) + Copies(p, alts[..n + 1], key)
    {
      assert Filed(index, key) == Filed(base, key) + Copies(p, alts[..n], key);
      assert Copies(p, alts[..n + 1], key) == Copies(p, alts[..n], key) + if BeginsWith(alt, key) then [p] else [];
      hide Copies;
    }
    hide Copies;
  }

  lemma AllFiled(base: OpcodeIndex, index: OpcodeIndex, p: Pattern, patterns: seq<Pattern>)
    requires Indexes(base, patterns) && FiledSoFar(base, index, p, |p.alternatives|)
    ensures Indexes(index, patterns + [p])
  {
    var alts: seq<Alternative> := p.alternatives;
    assert alts[..|alts|] == alts;
    hide Copies;
    forall key
      ensures Filed(index, key) == Bucket(patterns + [p], key)
    {
      assert Filed(index, key) == Filed(base, key) + Copies(p, alts[..|alts|], key);
      BucketAppend(patterns, p, key);
    }
  }

  /** File one pattern under the opcode of each of its alternatives. */
  method AddToIndex(index: OpcodeIndex, p: Pattern, ghost patterns: seq<Pattern>) returns (index': OpcodeIndex)
    requires Indexes(index, patterns)
    ensures Indexes(index', patterns + [p])
  {
    index' := index;
    var alts: seq<Alternative> := p.alternatives;
    var i := 0;
    while i < |alts|
      invariant 0 <= i <= |alts|
      invariant FiledSoFar(index, index', p, i)
    {
      FileOne(index, index', p, i);
      hide FiledSoFar, Filed;
      var alt := alts[i];
      if alt != [] {
        var key := ToUpper(alt[0].opcode);
        index' := index'[key := Filed(index', key) + [p]];
      }
      i := i + 1;
    }
    AllFiled(index, index', p, patterns);
  }

  /** The index of a list, from scratch. */
  method BuildIndex(patterns: seq<Pattern>) returns (index: OpcodeIndex)
    ensures Indexes(index, patterns)
  {
    index := map[];
    var i := 0;
    while i < |patterns|
      invariant 0 <= i <= |patterns|
      invariant Indexes(index, patterns[..i])
    {
      assert patterns[..i + 1] == patterns[..i] + [patterns[i]];
      index := AddToIndex(index, patterns[i], patterns[..i]);
      i := i + 1;
    }
    assert patterns[..i] == patterns;
  }

  // ---------------------------------------------------------------- the pattern list

  function FirstNamed(patterns: seq<Pattern>, name: string): (i: nat)
    ensures i <= |patterns|
    ensures i < |patterns| ==> patterns[i].name == name
    ensures forall k {:trigger patterns[k]} :: 0 <= k < i ==> patterns[k].name != name
  {
    if patterns == [] || patterns[0].name == name then 0 else 1 + FirstNamed(patterns[1..], name)
  }

  function WithoutFirst(patterns: seq<Pattern>, name: string): seq<Pattern> {
    var i := FirstNamed(patterns, name);
    if i < |patterns| then patterns[..i] + patterns[i + 1..] else patterns
  }

  function OutsideLibrary(patterns: seq<Pattern>, library: string): seq<Pattern> {
    if patterns == [] then []
    else
      var front, last := patterns[..|patterns| - 1], patterns[|patterns| - 1];
      OutsideLibrary(front, library) + if last.library == library then [] else [last]
  }

  /** What can be done to a database. */
  datatype Change = Register(p: Pattern) | Deregister(name: string) | DeregisterLibrary(library: string)

  function Changed(patterns: seq<Pattern>, change: Change): seq<Pattern> {
    match change
    case Register(p) => patterns + [p]
    case Deregister(name) => WithoutFirst(patterns, name)
    case DeregisterLibrary(library) => OutsideLibrary(patterns, library)
  }

  class Database {
    var patterns: seq<Pattern>
    var byOpcode: OpcodeIndex

    /** The index is the one of the pattern list. */
    ghost predicate Valid()
      reads this
    {
      Indexes(byOpcode, patterns)
    }

    constructor ()
      ensures Valid() && patterns == []
    {
      patterns, byOpcode := [], map[];
    }

    method AddPattern(p: Pattern)
      requires Valid()
      modifies this
      ensures Valid() && patterns == Changed(old(patterns), Register(p))
    {
      ghost var before := patterns;
      patterns := patterns + [p];
      byOpcode := AddToIndex(byOpcode, p, before);
    }

    method RebuildIndex()
      modifies this`byOpcode
      ensures Valid()
    {
      byOpcode := BuildIndex(patterns);
    }

    /** Remove the first pattern of the name; false, and no change at all, if there is none. */
    method DeregisterPattern(name: string) returns (found: bool)
      requires Valid()
      modifies this
      ensures Valid() && patterns == Changed(old(patterns), Deregister(name))
      ensures found <==> exists p :: p in old(patterns) && p.name == name
      ensures !found ==> byOpcode == old(byOpcode)
    {
      var idx := -1;
      var i := 0;
      while i < |patterns|
        invariant 0 <= i <= |patterns|
        invariant idx == -1 && forall k :: 0 <= k < i ==> patterns[k].name != name
      {
        if patterns[i].name == name {
          idx := i;
          break;
        }
        i := i + 1;
      }
      if idx < 0 {
        assert FirstNamed(patterns, name) == |patterns|;
        return false;
      }
      assert FirstNamed(patterns, name) == idx;
      patterns := patterns[..idx] + patterns[idx + 1..];
      RebuildIndex();
      return true;
    }

    /** Remove every pattern of a library, and count them. */
    method DeregisterAll(library: string) returns (removed: nat)
      requires Valid()
      modifies this
      ensures Valid() && patterns == Changed(old(patterns), DeregisterLibrary(library))
      ensures removed == |old(patterns)| - |patterns|
    {
      var kept: seq<Pattern> := [];
      removed := 0;
      var i := 0;
      while i < |patterns|
        invariant 0 <= i <= |patterns|
        invariant kept == OutsideLibrary(patterns[..i], library) && removed == i - |kept|
      {
        assert patterns[..i + 1][..i] == patterns[..i];
        if patterns[i].library == library {
          removed := removed + 1;
        } else {
          kept := kept + [patterns[i]];
        }
        i := i + 1;
      }
      assert patterns[..i] == patterns;
      patterns := kept;
      RebuildIndex();
    }
  }

  // ---------------------------------------------------------------- laws of the changes

  /** Taking back a registration restores the list, when the name was not there before. */
  lemma DeregisterUndoesRegister(patterns: seq<Pattern>, p: Pattern)
    requires forall q :: q in patterns ==> q.name != p.name
    ensures Changed(Changed(patterns, Register(p)), Deregister(p.name)) == patterns
  {
    var more := patterns + [p];
    forall k | 0 <= k < |patterns|
      ensures more[k].name != p.name
    {
      assert more[k] == patterns[k] && patterns[k] in patterns;
    }
    assert more[|patterns|] == p;
    assert FirstNamed(more, p.name) == |patterns|;
  }

  /** By name the first one goes, and the rest stay in order; without one of the name nothing changes. */
  lemma FirstGoes(xs: seq<Pattern>, p: Pattern, ys: seq<Pattern>)
    requires forall q :: q in xs ==> q.name != p.name
    ensures Changed(xs + [p] + ys, Deregister(p.name)) == xs + ys && Changed(xs, Deregister(p.name)) == xs
    ensures Changed(xs, Register(p)) == xs + [p]
  {
    var all := xs + [p] + ys;
    assert forall k {:trigger all[k]} :: 0 <= k < |xs| ==> all[k] == xs[k] && xs[k] in xs;
    assert all[|xs|] == p;
    assert FirstNamed(all, p.name) == |xs|;
    assert FirstNamed(xs, p.name) == |xs|;
  }

  /** By library all go, and the rest stay in order. */
  lemma {:induction false} LibraryLeavesInOrder(xs: seq<Pattern>, ys: seq<Pattern>, p: Pattern, library: string)
    ensures OutsideLibrary(xs + ys, library) == OutsideLibrary(xs, library) + OutsideLibrary(ys, library)
    ensures OutsideLibrary([p], library) == if p.library == library then [] else [p]
    decreases |ys|
  {
    assert [p][..0] == [] && OutsideLibrary([], library) == [];
    if ys == [] {
      assert xs + ys == xs;
    } else {
      var front := ys[..|ys| - 1];
      assert (xs + ys)[..|xs + ys| - 1] == xs + front;
      LibraryLeavesInOrder(xs, front, p, library);
    }
  }

  /** What a library removal keeps: everything else, in order, and nothing of the library. */
  lemma {:induction false} LibraryRemovalExactly(patterns: seq<Pattern>, library: string, q: Pattern)
    ensures var kept := Changed(patterns, DeregisterLibrary(library));
            multiset(kept)[q] == if q.library == library then 0 else multiset(patterns)[q]
    decreases |patterns|
  {
    if patterns != [] {
      var front, last := patterns[..|patterns| - 1], patterns[|patterns| - 1];
      assert patterns == front + [last];
      LibraryRemovalExactly(front, library, q);
    }
  }

  /** Removing a library and then one of its names finds nothing more to remove. */
  lemma LibraryGoneByName(patterns: seq<Pattern>, library: string, name: string)
    requires forall q :: q in patterns && q.name == name ==> q.library == library
    ensures var kept := Changed(patterns, DeregisterLibrary(library));
            Changed(kept, Deregister(name)) == kept
  {
    var kept := Changed(patterns, DeregisterLibrary(library));
    forall k | 0 <= k < |kept|
      ensures kept[k].name != name
    {
      LibraryRemovalExactly(patterns, library, kept[k]);
      assert kept[k] in multiset(kept);
      assert kept[k] in multiset(patterns);
    }
    assert FirstNamed(kept, name) == |kept|;
  }
}

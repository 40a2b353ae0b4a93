/** What the block builder does with entry points that are not addresses of the stream. */
module EntryPoints {
  import opened Instructions
  import opened ControlFlow
  import opened BasicBlocks

  /** The sorted leaders of a stream with these entry points, and the index of the stream. */
  ghost predicate Leaders(insts: seq<Instruction>, entries: seq<nat>, leaders: seq<nat>, index: map<nat, nat>) {
    && Ordered(insts) && insts != [] && Indexes(insts, index)
    && (forall a :: a in leaders <==> IsLeader(insts, entries, a))
    && (forall j, k :: 0 <= j < k < |leaders| ==> leaders[j] < leaders[k])
  }

  /** Every block has an instruction; where one has none the builder panics. */
  ghost predicate NoEmptySlice(insts: seq<Instruction>, leaders: seq<nat>, index: map<nat, nat>) {
    forall i {:trigger SliceStart(leaders, index, i)} :: 0 <= i < |leaders| ==>
      SliceStart(leaders, index, i) < SliceEnd(insts, leaders, index, i) <= |insts|
  }

  /** The instructions of the first `n` blocks, one block after the other. */
  function Joined(insts: seq<Instruction>, leaders: seq<nat>, index: map<nat, nat>, n: nat): seq<Instruction>
    requires n <= |leaders|
  {
    if n == 0 then []
    else
      var lo, hi := SliceStart(leaders, index, n - 1), SliceEnd(insts, leaders, index, n - 1);
      Joined(insts, leaders, index, n - 1) + if lo <= hi <= |insts| then insts[lo..hi] else []
  }

  lemma PositionInOrder(insts: seq<Instruction>, entries: seq<nat>, leaders: seq<nat>, index: map<nat, nat>,
                        j: nat, k: nat)
    requires Leaders(insts, entries, leaders, index) && j < k < |leaders|
    requires leaders[j] in index && leaders[k] in index
    ensures index[leaders[j]] < index[leaders[k]] < |insts|
  {
    hide IsLeader;
    AddressOrder(insts, index[leaders[j]], index[leaders[k]]);
  }

  lemma FirstAddress(insts: seq<Instruction>, entries: seq<nat>, leaders: seq<nat>, index: map<nat, nat>)
    returns (k: nat)
    requires Leaders(insts, entries, leaders, index)
    ensures k < |leaders| && leaders[k] == insts[0].address && leaders[k] in index && index[leaders[k]] == 0
  {
    assert IsLeader(insts, entries, insts[0].address);
    hide IsLeader;
    k :| 0 <= k < |leaders| && leaders[k] == insts[0].address;
    assert IsAddress(insts, leaders[k]);
    SameAddress(insts, 0, index[leaders[k]]);
  }

  lemma NotBelow(insts: seq<Instruction>, index: map<nat, nat>, a: nat)
    requires Ordered(insts) && insts != [] && Indexes(insts, index) && a < insts[0].address
    ensures a !in index
  {
    if a in index {
      AddressOrderWeak(insts, 0, index[a]);
    }
  }

  /** The leader below the first address closest to it has an empty slice. */
  lemma EmptyBelow(insts: seq<Instruction>, entries: seq<nat>, leaders: seq<nat>, index: map<nat, nat>)
    requires Leaders(insts, entries, leaders, index) && |leaders| > 0 && leaders[0] != insts[0].address
    ensures !NoEmptySlice(insts, leaders, index)
  {
    var k := FirstAddress(insts, entries, leaders, index);
    hide IsLeader, Indexes;
    assert leaders[k - 1] < insts[0].address;
    NotBelow(insts, index, leaders[k - 1]);
    assert SliceStart(leaders, index, k - 1) == 0 && SliceEnd(insts, leaders, index, k - 1) == 0;
  }

  /** The builder meets an empty block exactly when an entry point lies below the first address. */
  lemma NoEmptySliceExactly(insts: seq<Instruction>, entries: seq<nat>, leaders: seq<nat>, index: map<nat, nat>)
    requires Leaders(insts, entries, leaders, index)
    ensures NoEmptySlice(insts, leaders, index) <==> forall a :: a in entries ==> insts[0].address <= a
  {
    FirstLeaderExactly(insts, entries, leaders, index);
    if leaders[0] == insts[0].address {
      forall i | 0 <= i < |leaders|
        ensures SliceStart(leaders, index, i) < SliceEnd(insts, leaders, index, i) <= |insts|
      {
        SliceNotEmpty(insts, entries, leaders, index, i);
      }
    } else {
      EmptyBelow(insts, entries, leaders, index);
    }
  }

  lemma FirstLeaderExactly(insts: seq<Instruction>, entries: seq<nat>, leaders: seq<nat>, index: map<nat, nat>)
    requires Leaders(insts, entries, leaders, index)
    ensures |leaders| > 0
    ensures leaders[0] == insts[0].address <==> forall a :: a in entries ==> insts[0].address <= a
  {
    var k := FirstAddress(insts, entries, leaders, index);
    if leaders[0] == insts[0].address {
      forall a | a in entries
        ensures insts[0].address <= a
      {
        assert IsLeader(insts, entries, a);
        var j :| 0 <= j < |leaders| && leaders[j] == a;
        assert j == 0 || leaders[0] < leaders[j];
      }
    } else {
      var a := leaders[0];
      assert a in leaders && a < insts[0].address;
      NotBelow(insts, index, a);
      assert a in entries;
    }
  }

  lemma SliceNotEmpty(insts: seq<Instruction>, entries: seq<nat>, leaders: seq<nat>, index: map<nat, nat>, i: nat)
    requires Leaders(insts, entries, leaders, index) && i < |leaders| && leaders[0] == insts[0].address
    ensures SliceStart(leaders, index, i) < SliceEnd(insts, leaders, index, i) <= |insts|
  {
    var k := FirstAddress(insts, entries, leaders, index);
    assert k == 0;
    hide IsLeader;
    if i + 1 < |leaders| && leaders[i + 1] in index {
      PositionInOrder(insts, entries, leaders, index, 0, i + 1);
      if leaders[i] in index {
        PositionInOrder(insts, entries, leaders, index, i, i + 1);
      }
    }
  }

  /** How many of the first `n` leaders are no addresses of the stream. */
  function Foreign(leaders: seq<nat>, index: map<nat, nat>, n: nat): nat
    requires n <= |leaders|
  {
    if n == 0 then 0 else Foreign(leaders, index, n - 1) + if leaders[n - 1] in index then 0 else 1
  }

  /** Each foreign leader makes the blocks longer than the part of the stream they reach. */
  lemma {:induction false} JoinedIsLong(insts: seq<Instruction>, entries: seq<nat>, leaders: seq<nat>,
                                        index: map<nat, nat>, n: nat)
    requires Leaders(insts, entries, leaders, index) && 0 < n <= |leaders|
    requires NoEmptySlice(insts, leaders, index) && leaders[0] == insts[0].address
    ensures |Joined(insts, leaders, index, n)| >= SliceEnd(insts, leaders, index, n - 1) + Foreign(leaders, index, n)
  {
    var k := FirstAddress(insts, entries, leaders, index);
    hide Leaders;
    assert SliceStart(leaders, index, n - 1) < SliceEnd(insts, leaders, index, n - 1) <= |insts|;
    if n > 1 {
      JoinedIsLong(insts, entries, leaders, index, n - 1);
    } else {
      assert Foreign(leaders, index, 1) == 0;
    }
  }

  lemma {:induction false} ForeignIsCounted(leaders: seq<nat>, index: map<nat, nat>, k: nat, n: nat)
    requires k < n <= |leaders| && leaders[k] !in index
    ensures Foreign(leaders, index, n) > 0
  {
    if k < n - 1 {
      ForeignIsCounted(leaders, index, k, n - 1);
    }
  }

  /** How far the stream goes before leader `n`. */
  function UpTo(insts: seq<Instruction>, leaders: seq<nat>, index: map<nat, nat>, n: nat): nat {
    if n < |leaders| && leaders[n] in index then index[leaders[n]] else |insts|
  }

  lemma FirstIsZero(insts: seq<Instruction>, entries: seq<nat>, leaders: seq<nat>, index: map<nat, nat>)
    requires Leaders(insts, entries, leaders, index) && forall a :: a in leaders ==> a in index
    ensures UpTo(insts, leaders, index, 0) == 0
  {
    var k := FirstAddress(insts, entries, leaders, index);
    assert leaders[0] in leaders;
    hide IsLeader;
    if k > 0 {
      PositionInOrder(insts, entries, leaders, index, 0, k);
    }
  }

  /** With every leader an address, the first blocks are the stream up to the next leader. */
  lemma {:induction false} JoinedIsPrefix(insts: seq<Instruction>, leaders: seq<nat>, index: map<nat, nat>, n: nat)
    requires n <= |leaders| && NoEmptySlice(insts, leaders, index) && UpTo(insts, leaders, index, 0) == 0
    requires forall k :: 0 <= k < |leaders| ==> leaders[k] in index
    ensures UpTo(insts, leaders, index, n) <= |insts|
    ensures Joined(insts, leaders, index, n) == insts[..UpTo(insts, leaders, index, n)]
  {
    if n > 0 {
      JoinedIsPrefix(insts, leaders, index, n - 1);
      JoinNext(insts, leaders, index, n - 1);
    }
  }

  lemma JoinNext(insts: seq<Instruction>, leaders: seq<nat>, index: map<nat, nat>, i: nat)
    requires i < |leaders| && leaders[i] in index && NoEmptySlice(insts, leaders, index)
    requires UpTo(insts, leaders, index, i) <= |insts|
    requires Joined(insts, leaders, index, i) == insts[..UpTo(insts, leaders, index, i)]
    ensures UpTo(insts, leaders, index, i + 1) <= |insts|
    ensures Joined(insts, leaders, index, i + 1) == insts[..UpTo(insts, leaders, index, i + 1)]
  {
    var lo, hi := SliceStart(leaders, index, i), SliceEnd(insts, leaders, index, i);
    assert lo < hi <= |insts|;
    JoinedStep(insts, leaders, index, i);
    hide NoEmptySlice, Joined;
    assert insts[..lo] + insts[lo..hi] == insts[..hi];
  }

  lemma JoinedStep(insts: seq<Instruction>, leaders: seq<nat>, index: map<nat, nat>, i: nat)
    requires i < |leaders|
    ensures var lo, hi := SliceStart(leaders, index, i), SliceEnd(insts, leaders, index, i);
            Joined(insts, leaders, index, i + 1) ==
            Joined(insts, leaders, index, i) + if lo <= hi <= |insts| then insts[lo..hi] else []
  {
  }

  /** A leader that is no address can only be an entry point. */
  lemma ForeignIsEntry(insts: seq<Instruction>, entries: seq<nat>, leaders: seq<nat>, index: map<nat, nat>)
    requires Leaders(insts, entries, leaders, index)
    ensures (forall a :: a in leaders ==> a in index) <==> EntriesInStream(insts, entries)
  {
    forall a | a in leaders && a !in index
      ensures a in entries && !IsAddress(insts, a)
    {
      assert IsLeader(insts, entries, a);
    }
    forall a | a in entries
      ensures a in leaders
    {
      assert IsLeader(insts, entries, a);
    }
  }

  /** The blocks are not empty and cut the stream into pieces exactly when every entry point is the
      address of an instruction. */
  lemma CutsStreamExactly(insts: seq<Instruction>, entries: seq<nat>, leaders: seq<nat>, index: map<nat, nat>)
    requires Leaders(insts, entries, leaders, index)
    ensures NoEmptySlice(insts, leaders, index) && Joined(insts, leaders, index, |leaders|) == insts
            <==> EntriesInStream(insts, entries)
  {
    NoEmptySliceExactly(insts, entries, leaders, index);
    FirstLeaderExactly(insts, entries, leaders, index);
    ForeignIsEntry(insts, entries, leaders, index);
    hide NoEmptySlice;
    if EntriesInStream(insts, entries) {
      EntriesNotBelow(insts, entries);
      FirstIsZero(insts, entries, leaders, index);
      JoinedIsPrefix(insts, leaders, index, |leaders|);
    } else if NoEmptySlice(insts, leaders, index) {
      var k :| 0 <= k < |leaders| && leaders[k] !in index;
      ForeignIsCounted(leaders, index, k, |leaders|);
      JoinedIsLong(insts, entries, leaders, index, |leaders|);
    }
  }

  lemma EntriesNotBelow(insts: seq<Instruction>, entries: seq<nat>)
    requires Ordered(insts) && insts != [] && EntriesInStream(insts, entries)
    ensures forall a :: a in entries ==> insts[0].address <= a
  {
    forall a | a in entries
      ensures insts[0].address <= a
    {
      assert IsAddress(insts, a);
      var i :| 0 <= i < |insts| && insts[i].address == a;
      AddressOrderWeak(insts, 0, i);
    }
  }
}

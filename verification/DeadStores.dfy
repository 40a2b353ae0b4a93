/** Dead-store elimination on a block's statements: which assignments survive, and when dropping the
    others cannot be seen by the calls, stores, returns and jumps that remain. */
module DeadStores {
  import opened Text
  import opened Shifts
  import opened Words
  import opened Exprs
  import opened Machine

  /** The names that count as uses: registers in binary operations and call arguments. */
  function Uses(e: Expr): set<string> {
    match e
    case Reg(name) => {name}
    case Op(_, l, r) => Uses(l) + Uses(r)
    case Apply(head, args) => if head.CallHead? then AllUses(args) else {}
    case _ => {}
  }

  function AllUses(es: seq<Expr>): set<string> {
    if es == [] then {} else Uses(es[0]) + AllUses(es[1..])
  }

  lemma {:induction false} NamesAreUsedOrHidden(e: Expr)
    ensures Names(e) == Uses(e) + HiddenNames(e)
  {
    match e
    case Op(_, l, r) =>
      NamesAreUsedOrHidden(l);
      NamesAreUsedOrHidden(r);
    case Apply(head, args) =>
      AllNamesAreUsedOrHidden(args);
    case _ =>
  }

  lemma {:induction false} AllNamesAreUsedOrHidden(es: seq<Expr>)
    ensures AllNames(es) == AllUses(es) + AllHiddenNames(es)
  {
    if es != [] {
      NamesAreUsedOrHidden(es[0]);
      AllNamesAreUsedOrHidden(es[1..]);
    }
  }

  lemma {:induction false} UsesOfAll(es: seq<Expr>, name: string)
    ensures name in AllUses(es) <==> exists i :: 0 <= i < |es| && name in Uses(es[i])
  {
    if es != [] {
      UsesOfAll(es[1..], name);
      if name in AllUses(es[1..]) {
        var i :| 0 <= i < |es[1..]| && name in Uses(es[1..][i]);
        assert es[i + 1] == es[1..][i];
      }
      if i :| 0 < i < |es| && name in Uses(es[i]) {
        assert es[1..][i - 1] == es[i];
      }
    }
  }

  /** What counts as a use: the register itself, below binary operations on either side, and in the
      arguments of calls; never below a sign, a load, an address or a symbol. */
  lemma UsesExactly(e: Expr, name: string)
    ensures match e
            case Reg(r) => name in Uses(e) <==> name == r
            case Op(_, l, r) => name in Uses(e) <==> name in Uses(l) || name in Uses(r)
            case Apply(CallHead(_), args) =>
              name in Uses(e) <==> exists i :: 0 <= i < |args| && name in Uses(args[i])
            case _ => name !in Uses(e)
  {
    if e.Apply? {
      UsesOfAll(e.args, name);
    }
  }

  // ---------------------------------------------------------------- what survives

  predicate Assigns(s: StmtView, name: string) {
    s.kind == SAssign && s.dst == name
  }

  predicate Reads(s: StmtView, name: string) {
    name in Uses(s.value)
  }

  /** The first assignment to `name` at `from` or later; the length when there is none. */
  function NextAssign(ss: seq<StmtView>, name: string, from: nat): (i: nat)
    requires from <= |ss|
    ensures from <= i <= |ss|
    ensures i < |ss| ==> Assigns(ss[i], name)
    ensures forall k {:trigger ss[k]} :: from <= k < i ==> !Assigns(ss[k], name)
    decreases |ss| - from
  {
    if from == |ss| || Assigns(ss[from], name) then from else NextAssign(ss, name, from + 1)
  }

  /** Some statement of `ss[lo..hi]` reads `name`. */
  predicate ReadWithin(ss: seq<StmtView>, name: string, lo: nat, hi: nat) {
    exists k {:trigger ss[k]} :: lo <= k < hi && k < |ss| && Reads(ss[k], name)
  }

  /** The assignments to a name stand or fall with the first one. With a second assignment, some
      statement strictly between the two has to read the name; without, some statement from the
      first assignment on, its own value included. */
  predicate Kept(ss: seq<StmtView>, name: string) {
    var i := NextAssign(ss, name, 0);
    i < |ss| &&
    var j := NextAssign(ss, name, i + 1);
    if j < |ss| then ReadWithin(ss, name, i + 1, j) else ReadWithin(ss, name, i, |ss|)
  }

  /** With a first assignment at `i`, and a second at `j` if there is one, the name is kept exactly when
      a statement strictly between the two uses it; with one assignment only, exactly when that or a
      later statement does. */
  lemma KeptExactly(ss: seq<StmtView>, name: string, i: nat, j: nat)
    requires i < j <= |ss| && ss[i].kind == SAssign && ss[i].dst == name
    requires forall k {:trigger ss[k]} :: 0 <= k < j && k != i ==> !(ss[k].kind == SAssign && ss[k].dst == name)
    requires j < |ss| ==> ss[j].kind == SAssign && ss[j].dst == name
    ensures j < |ss| ==>
              (Kept(ss, name) <==> exists k {:trigger ss[k]} :: i < k < j && name in Uses(ss[k].value))
    ensures j == |ss| ==>
              (Kept(ss, name) <==> exists k {:trigger ss[k]} :: i <= k < |ss| && name in Uses(ss[k].value))
  {
    hide Uses;
    assert Assigns(ss[i], name) && (j < |ss| ==> Assigns(ss[j], name));
    assert NextAssign(ss, name, 0) == i && NextAssign(ss, name, i + 1) == j;
  }

  /** The elements of `ys` are those of `xs` at the positions `pos`, in order. */
  ghost predicate IsSelection<T>(xs: seq<T>, ys: seq<T>, pos: seq<nat>) {
    && |pos| == |ys|
    && (forall p, q {:trigger pos[p], pos[q]} :: 0 <= p < q < |pos| ==> pos[p] < pos[q])
    && forall p {:trigger pos[p]} {:trigger ys[p]} :: 0 <= p < |ys| ==> pos[p] < |xs| && ys[p] == xs[pos[p]]
  }

  lemma SelectMore<T>(xs: seq<T>, x: T, ys: seq<T>, pos: seq<nat>)
    requires IsSelection(xs, ys, pos)
    ensures IsSelection(xs + [x], ys, pos) && IsSelection(xs + [x], ys + [x], pos + [|xs|])
    ensures |xs| !in pos
  {
    forall p | 0 <= p < |ys|
      ensures pos[p] < |xs| && ys[p] == (xs + [x])[pos[p]]
    {
    }
  }

  /** The statements without the assignments to names that are not kept. */
  function Survivors(ss: seq<StmtView>, kept: string -> bool): seq<StmtView> {
    if ss == [] then []
    else
      var front, last := Survivors(ss[..|ss| - 1], kept), ss[|ss| - 1];
      if last.kind == SAssign && !kept(last.dst) then front else front + [last]
  }

  function KeptIn(ss: seq<StmtView>): string -> bool {
    name => Kept(ss, name)
  }

  // ---------------------------------------------------------------- the two marking passes

  /** The statements whose values the first pass looks at. */
  predicate Collected(kind: StatementKind) {
    kind == SCall || kind == SStore || kind == SReturn || kind == SIf || kind == SAssign
  }

  /** Whether `name` is marked used after the first pass over `ss`. */
  predicate Marked(ss: seq<StmtView>, name: string) {
    ss != [] &&
    var last := ss[|ss| - 1];
    (Collected(last.kind) && Reads(last, name)) || (!Assigns(last, name) && Marked(ss[..|ss| - 1], name))
  }

  /** The first pass: the value of anything but a goto or an expression marks the names it uses, and an
      assignment that does not use its own name clears it. */
  lemma MarkedMeans(ss: seq<StmtView>, s: StmtView, name: string)
    ensures !Marked([], name)
    ensures Marked(ss + [s], name) <==>
              || (s.kind != SGoto && s.kind != SExpr && name in Uses(s.value))
              || (!(s.kind == SAssign && s.dst == name) && Marked(ss, name))
  {
    hide Uses;
    assert (ss + [s])[..|ss|] == ss;
  }

  /** What looking ahead from `from` says about an assignment to `name` just before. */
  function Verdict(ss: seq<StmtView>, name: string, from: nat): Option<bool>
    requires from <= |ss|
    decreases |ss| - from
  {
    if from == |ss| then None
    else if Assigns(ss[from], name) then Some(false)
    else if Reads(ss[from], name) then Some(true)
    else Verdict(ss, name, from + 1)
  }

  /** Whether `name` is marked used once the second pass has come back to `i`. */
  predicate Settled(ss: seq<StmtView>, name: string, i: nat)
    requires i <= |ss|
    decreases |ss| - i
  {
    if i == |ss| then Marked(ss, name)
    else if Assigns(ss[i], name) && Verdict(ss, name, i + 1).Some? then Verdict(ss, name, i + 1).value
    else Settled(ss, name, i + 1)
  }

  lemma {:induction false} VerdictExactly(ss: seq<StmtView>, name: string, from: nat)
    requires from <= |ss|
    ensures var j := NextAssign(ss, name, from);
            && (Verdict(ss, name, from) == Some(true) <==> ReadWithin(ss, name, from, j))
            && (Verdict(ss, name, from) == Some(false) <==> j < |ss| && !ReadWithin(ss, name, from, j))
    decreases |ss| - from
  {
    if from < |ss| && !Assigns(ss[from], name) && !Reads(ss[from], name) {
      VerdictExactly(ss, name, from + 1);
      var j := NextAssign(ss, name, from + 1);
      assert ReadWithin(ss, name, from, j) <==> ReadWithin(ss, name, from + 1, j);
    }
  }

  lemma {:induction false} MarkedExactly(ss: seq<StmtView>, name: string, i: nat, n: nat)
    requires i < n <= |ss| && Assigns(ss[i], name)
    requires forall k {:trigger ss[k]} :: i < k < n ==> !Assigns(ss[k], name)
    ensures Marked(ss[..n], name) ==> ReadWithin(ss, name, i, n)
    ensures Reads(ss[i], name) ==> Marked(ss[..n], name)
    decreases n
  {
    var last := ss[..n][n - 1];
    assert last == ss[n - 1] && ss[..n][..n - 1] == ss[..n - 1];
    if i < n - 1 {
      MarkedExactly(ss, name, i, n - 1);
      assert !Assigns(ss[n - 1], name);
    }
  }

  /** From an assignment that has no verdict, nothing further back changes the mark. */
  lemma {:induction false} SettledWithoutAssign(ss: seq<StmtView>, name: string, i: nat, j: nat)
    requires i <= j <= |ss|
    requires forall k {:trigger ss[k]} :: i <= k < j ==> !Assigns(ss[k], name)
    ensures Settled(ss, name, i) == Settled(ss, name, j)
    decreases j - i
  {
    if i < j {
      assert !Assigns(ss[i], name);
      SettledWithoutAssign(ss, name, i + 1, j);
    }
  }

  /** The two passes keep a name exactly when its first assignment is worth keeping. */
  lemma SettledIsKept(ss: seq<StmtView>, name: string)
    requires exists k :: 0 <= k < |ss| && Assigns(ss[k], name)
    ensures Settled(ss, name, 0) <==> Kept(ss, name)
  {
    var i := NextAssign(ss, name, 0);
    var j := NextAssign(ss, name, i + 1);
    SettledWithoutAssign(ss, name, 0, i);
    VerdictExactly(ss, name, i + 1);
    if j == |ss| {
      SettledWithoutAssign(ss, name, i + 1, |ss|);
      MarkedExactly(ss, name, i, |ss|);
      assert ss[..|ss|] == ss;
      assert ReadWithin(ss, name, i, |ss|) <==> Reads(ss[i], name) || ReadWithin(ss, name, i + 1, |ss|);
    }
  }

  lemma {:induction false} SameSurvivors(ss: seq<StmtView>, a: string -> bool, b: string -> bool)
    requires forall k {:trigger ss[k]} :: 0 <= k < |ss| && ss[k].kind == SAssign ==> a(ss[k].dst) == b(ss[k].dst)
    ensures Survivors(ss, a) == Survivors(ss, b)
    decreases |ss|
  {
    if ss != [] {
      assert ss[|ss| - 1].kind == SAssign ==> a(ss[|ss| - 1].dst) == b(ss[|ss| - 1].dst);
      SameSurvivors(ss[..|ss| - 1], a, b);
    }
  }

  // ---------------------------------------------------------------- behaviour

  /** What the outside sees of a statement other than an assignment. */
  datatype Event = Event(
    kind: StatementKind,
    address: nat,
    dst: string,
    func: string,
    lbl: string,
    value: Option<Word>,
    args: seq<Option<Word>>,
    cond: seq<Option<Word>>)

  /** What `s` shows in an environment. */
  function Seen(s: StmtView, env: Env): Event {
    Event(s.kind, s.address, s.dst, s.func, s.lbl, Eval(s.value, env), EvalEach(s.args, env), EvalEach(s.cond, env))
  }

  function EvalEach(es: seq<Expr>, env: Env): (ws: seq<Option<Word>>)
    ensures |ws| == |es| && (es == [] ==> ws == [])
  {
    seq(|es|, i requires 0 <= i < |es| => Eval(es[i], env))
  }

  function Bind(env: Env, name: string, value: Option<Word>): Env {
    env.(reg := n => if n == name then value else env.reg(n))
  }

  function After(ss: seq<StmtView>, env: Env): Env {
    if ss == [] then env
    else
      var before, last := After(ss[..|ss| - 1], env), ss[|ss| - 1];
      if last.kind == SAssign then Bind(before, last.dst, Eval(last.value, before)) else before
  }

  /** Everything but assignments, in order, with the values seen. */
  function Trace(ss: seq<StmtView>, env: Env): seq<Event> {
    if ss == [] then []
    else
      var front, last := ss[..|ss| - 1], ss[|ss| - 1];
      if last.kind == SAssign then Trace(front, env)
      else Trace(front, env) + [Seen(last, After(front, env))]
  }

  predicate EventRefines(e: Event, f: Event) {
    && f == e.(value := f.value, args := f.args, cond := f.cond)
    && SameWhereDefined(e.value, f.value) && SameEach(e.args, f.args) && SameEach(e.cond, f.cond)
  }

  predicate SameEach(xs: seq<Option<Word>>, ys: seq<Option<Word>>) {
    && |ys| == |xs|
    && forall i {:trigger xs[i]} {:trigger ys[i]} :: 0 <= i < |xs| ==> SameWhereDefined(xs[i], ys[i])
  }

  predicate TraceRefines(es: seq<Event>, fs: seq<Event>) {
    |es| == |fs| && forall i {:trigger es[i]} {:trigger fs[i]} :: 0 <= i < |es| ==> EventRefines(es[i], fs[i])
  }

  /** `env'` knows at least what `env` knows about the names outside `stale`. */
  ghost predicate EnvRefines(env: Env, env': Env, stale: set<string>) {
    && env'.apply == env.apply
    && forall n {:trigger env'.reg(n)} {:trigger env.reg(n)} :: n !in stale ==>
         SameWhereDefined(env.reg(n), env'.reg(n))
  }

  lemma {:induction false} EvalMonotone(e: Expr, env: Env, env': Env, stale: set<string>)
    requires EnvRefines(env, env', stale) && Names(e) !! stale
    ensures SameWhereDefined(Eval(e, env), Eval(e, env'))
  {
    hide EvalOp, EvalUnary;
    match e
    case Op(_, l, r) =>
      EvalMonotone(l, env, env', stale);
      EvalMonotone(r, env, env', stale);
    case Unary(_, x) =>
      EvalMonotone(x, env, env', stale);
    case Apply(_, args) =>
      EvalAllMonotone(args, env, env', stale);
    case _ =>
  }

  lemma {:induction false} EvalAllMonotone(es: seq<Expr>, env: Env, env': Env, stale: set<string>)
    requires EnvRefines(env, env', stale) && AllNames(es) !! stale
    ensures SameWhereDefined(EvalAll(es, env), EvalAll(es, env'))
  {
    hide EvalOp, EvalUnary;
    if es != [] {
      EvalMonotone(es[0], env, env', stale);
      EvalAllMonotone(es[1..], env, env', stale);
    }
  }

  /** The names dropped by an assignment in `ss`. */
  function Stale(ss: seq<StmtView>, kept: string -> bool): set<string> {
    set k | 0 <= k < |ss| && ss[k].kind == SAssign && !kept(ss[k].dst) :: ss[k].dst
  }

  /** The names a statement reads, in its value, its arguments or its condition. */
  function StmtNames(s: StmtView): set<string> {
    Names(s.value) + AllNames(s.args) + AllNames(s.cond)
  }

  /** A dropped assignment. */
  predicate Dropped(s: StmtView, kept: string -> bool) {
    s.kind == SAssign && !kept(s.dst)
  }

  /** No statement that stays reads a name after an assignment to it was dropped. */
  ghost predicate NoStaleRead(ss: seq<StmtView>, kept: string -> bool) {
    forall k {:trigger ss[k]} :: 0 <= k < |ss| && !Dropped(ss[k], kept) ==>
      StmtNames(ss[k]) !! Stale(ss[..k], kept)
  }

  lemma NoStaleReadPrefix(ss: seq<StmtView>, kept: string -> bool)
    requires NoStaleRead(ss, kept) && ss != []
    ensures NoStaleRead(ss[..|ss| - 1], kept)
  {
    var front := ss[..|ss| - 1];
    forall k | 0 <= k < |front| && !Dropped(front[k], kept)
      ensures StmtNames(front[k]) !! Stale(front[..k], kept)
    {
      assert front[k] == ss[k] && front[..k] == ss[..k];
    }
  }

  lemma StaleAppend(ss: seq<StmtView>, kept: string -> bool)
    requires ss != []
    ensures var last := ss[|ss| - 1];
            Stale(ss, kept) == Stale(ss[..|ss| - 1], kept)
            + if last.kind == SAssign && !kept(last.dst) then {last.dst} else {}
  {
    var front, last := ss[..|ss| - 1], ss[|ss| - 1];
    forall n | n in Stale(ss, kept)
      ensures n in Stale(front, kept) || (last.kind == SAssign && !kept(last.dst) && n == last.dst)
    {
      var k :| 0 <= k < |ss| && ss[k].kind == SAssign && !kept(ss[k].dst) && ss[k].dst == n;
      if k < |front| {
        assert front[k] == ss[k];
      }
    }
    forall n | n in Stale(front, kept)
      ensures n in Stale(ss, kept)
    {
      var k :| 0 <= k < |front| && front[k].kind == SAssign && !kept(front[k].dst) && front[k].dst == n;
      assert ss[k] == front[k];
    }
    if last.kind == SAssign && !kept(last.dst) {
      assert ss[|ss| - 1].dst in Stale(ss, kept);
    }
  }

  /** Dropping assignments whose names are never read afterwards, and replacing values by ones that
      mean at least as much, leaves every event in place with at least the value it had. */
  lemma {:induction false} OptimizedBehaves(ss: seq<StmtView>, ts: seq<StmtView>, kept: string -> bool, env: Env)
    requires StmtsRefine(ss, ts) && NoStaleRead(ts, kept)
    ensures TraceRefines(Trace(ss, env), Trace(Survivors(ts, kept), env))
    ensures EnvRefines(After(ss, env), After(Survivors(ts, kept), env), Stale(ts, kept))
    decreases |ss|
  {
    if ss != [] {
      var n := |ss| - 1;
      var s, t := ss[n], ts[n];
      assert StmtRefines(s, t);
      assert StmtsRefine(ss[..n], ts[..n]);
      NoStaleReadPrefix(ts, kept);
      OptimizedBehaves(ss[..n], ts[..n], kept, env);
      StaleAppend(ts, kept);
      var before, before' := After(ss[..n], env), After(Survivors(ts[..n], kept), env);
      if !Dropped(t, kept) {
        assert ts[..n + 1] == ts;
        SeenRefines(s, t, before, before', Stale(ts[..n], kept));
        var out := Survivors(ts[..n], kept) + [t];
        assert out[..|out| - 1] == Survivors(ts[..n], kept);
      }
    }
  }

  lemma ValueRefines(e: Expr, f: Expr, env: Env, env': Env, stale: set<string>)
    requires Refines(e, f) && EnvRefines(env, env', stale) && Names(f) !! stale
    ensures SameWhereDefined(Eval(e, env), Eval(f, env'))
  {
    assert SameWhereDefined(Eval(e, env), Eval(f, env));
    EvalMonotone(f, env, env', stale);
  }

  lemma {:induction false} NamesOfMember(es: seq<Expr>, i: nat)
    requires i < |es|
    ensures Names(es[i]) <= AllNames(es) && HiddenNames(es[i]) <= AllNames(es)
    decreases i
  {
    if i > 0 {
      NamesOfMember(es[1..], i - 1);
    } else {
      NamesAreUsedOrHidden(es[0]);
    }
  }

  lemma SeenRefines(s: StmtView, t: StmtView, env: Env, env': Env, stale: set<string>)
    requires StmtRefines(s, t) && EnvRefines(env, env', stale) && StmtNames(t) !! stale
    ensures EventRefines(Seen(s, env), Seen(t, env'))
    ensures SameWhereDefined(Eval(s.value, env), Eval(t.value, env'))
  {
    ValueRefines(s.value, t.value, env, env', stale);
    EachRefines(s.args, t.args, env, env', stale);
    EachRefines(s.cond, t.cond, env, env', stale);
  }

  lemma EachRefines(es: seq<Expr>, fs: seq<Expr>, env: Env, env': Env, stale: set<string>)
    requires AllRefine(es, fs) && EnvRefines(env, env', stale) && AllNames(fs) !! stale
    ensures SameEach(EvalEach(es, env), EvalEach(fs, env'))
  {
    forall i | 0 <= i < |es|
      ensures SameWhereDefined(Eval(es[i], env), Eval(fs[i], env'))
    {
      NamesOfMember(fs, i);
      assert Refines(es[i], fs[i]);
      ValueRefines(es[i], fs[i], env, env', stale);
    }
  }

  // ---------------------------------------------------------------- definitions that reach a read

  /** The assignment a read of `name` after `ss` sees; none when it sees the entry value. */
  function Reaching(ss: seq<StmtView>, name: string): Option<StmtView> {
    if ss == [] then None
    else
      var last := ss[|ss| - 1];
      if Assigns(last, name) then Some(last) else Reaching(ss[..|ss| - 1], name)
  }

  /** Dropping assignments takes the definition from exactly the stale names. */
  lemma {:induction false} ReachingSurvivors(ss: seq<StmtView>, kept: string -> bool, name: string)
    ensures Reaching(Survivors(ss, kept), name) == if name in Stale(ss, kept) then None else Reaching(ss, name)
    ensures name in Stale(ss, kept) <==> !kept(name) && Reaching(ss, name).Some?
    decreases |ss|
  {
    if ss != [] {
      var n := |ss| - 1;
      ReachingSurvivors(ss[..n], kept, name);
      StaleAppend(ss, kept);
      var front := Survivors(ss[..n], kept);
      if !Dropped(ss[n], kept) {
        var out := front + [ss[n]];
        assert Survivors(ss, kept) == out && out[..|front|] == front && out[|out| - 1] == ss[n];
        assert Reaching(out, name) == if Assigns(ss[n], name) then Some(ss[n]) else Reaching(front, name);
      }
      if kept(name) {
        NotStale(ss, kept, name);
      }
    }
  }

  lemma NotStale(ss: seq<StmtView>, kept: string -> bool, name: string)
    requires kept(name)
    ensures name !in Stale(ss, kept)
  {
  }

  /** Statement `k` stays, and each name it reads has the definition it had before. */
  ghost predicate SameReads(ss: seq<StmtView>, kept: string -> bool, k: nat)
    requires k < |ss|
  {
    Dropped(ss[k], kept) ||
    forall name {:trigger Reaching(ss[..k], name)} :: name in StmtNames(ss[k]) ==>
        Reaching(Survivors(ss[..k], kept), name) == Reaching(ss[..k], name)
  }

  /** Every statement that stays reads what it read before exactly when no dropped name is read after
      an assignment to it. */
  lemma SameReadsExactly(ss: seq<StmtView>, kept: string -> bool)
    ensures NoStaleRead(ss, kept) <==>
            forall k {:trigger SameReads(ss, kept, k)} :: 0 <= k < |ss| ==> SameReads(ss, kept, k)
  {
    forall k | 0 <= k < |ss| && !Dropped(ss[k], kept)
      ensures StmtNames(ss[k]) !! Stale(ss[..k], kept) <==> SameReads(ss, kept, k)
    {
      forall name
        ensures Reaching(Survivors(ss[..k], kept), name) == Reaching(ss[..k], name) <==> name !in Stale(ss[..k], kept)
      {
        ReachingSurvivors(ss[..k], kept, name);
      }
      hide Reaching, Survivors, Stale;
    }
    hide Reaching, Survivors, Stale;
    if NoStaleRead(ss, kept) {
      forall k | 0 <= k < |ss|
        ensures SameReads(ss, kept, k)
      {
        assert Dropped(ss[k], kept) || StmtNames(ss[k]) !! Stale(ss[..k], kept);
      }
    } else {
      var k :| 0 <= k < |ss| && !Dropped(ss[k], kept) && !(StmtNames(ss[k]) !! Stale(ss[..k], kept));
      assert !SameReads(ss, kept, k);
    }
  }

  /** At the names the passes drop: every statement that stays reads what it read before exactly when
      no statement reads, after an assignment to it, a name whose first assignment is not worth
      keeping. */
  lemma DroppedNamesExactly(ss: seq<StmtView>)
    ensures NoStaleRead(ss, KeptIn(ss)) <==>
            forall k {:trigger SameReads(ss, KeptIn(ss), k)} :: 0 <= k < |ss| ==> SameReads(ss, KeptIn(ss), k)
  {
    hide NoStaleRead, SameReads, Kept;
    SameReadsExactly(ss, KeptIn(ss));
  }

  // ---------------------------------------------------------------- single assignment

  /** No name is assigned twice. */
  ghost predicate SingleAssignment(ss: seq<StmtView>) {
    forall i, j {:trigger ss[i], ss[j]} :: 0 <= i < j < |ss| && ss[i].kind == SAssign && ss[j].kind == SAssign ==>
        ss[i].dst != ss[j].dst
  }

  /** The names a statement reads without counting as a user: below other operations than registers,
      binary operations and calls, in its arguments, and in its condition. */
  function UncountedNames(s: StmtView): set<string> {
    HiddenNames(s.value) + AllNames(s.args) + AllNames(s.cond)
  }

  /** No assigned name is read without counting. */
  ghost predicate PlainReads(ss: seq<StmtView>) {
    forall i, j {:trigger ss[i], ss[j]} ::
      0 <= i < |ss| && 0 <= j < |ss| && ss[i].kind == SAssign ==> ss[i].dst !in UncountedNames(ss[j])
  }

  lemma AssignedOnce(ss: seq<StmtView>, i: nat, j: nat)
    requires SingleAssignment(ss) && i < j <= |ss|
    requires ss[i].kind == SAssign && (j < |ss| ==> Assigns(ss[j], ss[i].dst))
    ensures j == |ss|
  {
  }

  lemma SingleAssignmentHasNoStaleRead(ss: seq<StmtView>)
    requires SingleAssignment(ss) && PlainReads(ss)
    ensures NoStaleRead(ss, KeptIn(ss))
  {
    var kept := KeptIn(ss);
    forall k, n | 0 <= k < |ss| && n in Stale(ss[..k], kept)
      ensures n !in StmtNames(ss[k])
    {
      var p :| 0 <= p < k && ss[..k][p].kind == SAssign && !kept(ss[..k][p].dst) && ss[..k][p].dst == n;
      assert Assigns(ss[p], n) && n !in UncountedNames(ss[k]);
      var i := NextAssign(ss, n, 0);
      assert i == p by {
        assert ss[i].kind == SAssign && ss[p].kind == SAssign;
      }
      var j := NextAssign(ss, n, i + 1);
      AssignedOnce(ss, i, j);
      assert !ReadWithin(ss, n, i, |ss|);
      assert !Reads(ss[k], n);
      NamesAreUsedOrHidden(ss[k].value);
    }
  }

  /** Simplifying values keeps the two conditions. */
  lemma RefinedStaysPlain(ss: seq<StmtView>, ts: seq<StmtView>)
    requires StmtsRefine(ss, ts)
    ensures SingleAssignment(ss) ==> SingleAssignment(ts)
    ensures PlainReads(ss) ==> PlainReads(ts)
  {
    forall i, j | 0 <= i < |ss| && 0 <= j < |ss|
      ensures ts[i].kind == ss[i].kind && ts[i].dst == ss[i].dst && UncountedNames(ts[j]) <= UncountedNames(ss[j])
    {
      assert StmtRefines(ss[i], ts[i]) && StmtRefines(ss[j], ts[j]);
      AllNamesShrink(ss[j].args, ts[j].args);
      AllNamesShrink(ss[j].cond, ts[j].cond);
    }
  }

  /** Optimizing a block that assigns each name once and reads it plainly: the same calls, stores,
      returns and jumps, in order, each with the value it had, from every starting environment. */
  lemma OptimizeKeepsBehaviour(ss: seq<StmtView>, ts: seq<StmtView>, env: Env)
    requires StmtsRefine(ss, ts) && SingleAssignment(ss) && PlainReads(ss)
    ensures NoStaleRead(ts, KeptIn(ts))
    ensures TraceRefines(Trace(ss, env), Trace(Survivors(ts, KeptIn(ts)), env))
  {
    RefinedStaysPlain(ss, ts);
    SingleAssignmentHasNoStaleRead(ts);
    OptimizedBehaves(ss, ts, KeptIn(ts), env);
  }

  lemma OneMore(ss: seq<StmtView>, s: StmtView, kept: string -> bool, env: Env)
    ensures Survivors(ss + [s], kept) == Survivors(ss, kept) + if s.kind == SAssign && !kept(s.dst) then [] else [s]
    ensures After(ss + [s], env) ==
            if s.kind == SAssign then Bind(After(ss, env), s.dst, Eval(s.value, After(ss, env))) else After(ss, env)
    ensures Trace(ss + [s], env) == Trace(ss, env)
            + if s.kind == SAssign then [] else [Seen(s, After(ss, env))]
  {
    assert (ss + [s])[..|ss|] == ss;
  }

  lemma EmptyBlock(kept: string -> bool, env: Env)
    ensures Survivors([], kept) == [] && After([], env) == env && Trace([], env) == []
  {
  }

  function Plain(kind: StatementKind, dst: string, value: Expr): StmtView {
    StmtView(kind, 0, dst, value, "", [], "", [])
  }

  /** An assignment of two before anything reads the name, and one read only under a negation. */
  const REASSIGNED := [Plain(SAssign, "x", Const(1)), Plain(SAssign, "x", Const(2)), Plain(SReturn, "", Reg("x"))]
  const NEGATED := [Plain(SAssign, "x", Const(5)), Plain(SReturn, "", Unary("-", Reg("x")))]

  lemma ReassignedIsDropped()
    ensures !Kept(REASSIGNED, "x") && PlainReads(REASSIGNED) && !SingleAssignment(REASSIGNED)
  {
    assert NextAssign(REASSIGNED, "x", 0) == 0 && NextAssign(REASSIGNED, "x", 1) == 1;
    assert REASSIGNED[0].dst == REASSIGNED[1].dst;
  }

  lemma NegatedIsDropped()
    ensures !Kept(NEGATED, "x") && SingleAssignment(NEGATED) && !PlainReads(NEGATED)
  {
    assert NextAssign(NEGATED, "x", 0) == 0 && NextAssign(NEGATED, "x", 1) == 2;
    assert NEGATED[0].dst in HiddenNames(NEGATED[1].value);
  }

  lemma OneStatement(s: StmtView, kept: string -> bool, env: Env)
    ensures s.kind != SAssign ==> Survivors([s], kept) == [s] && Trace([s], env) == [Seen(s, env)]
    ensures s.kind == SAssign ==> Trace([s], env) == [] && After([s], env) == Bind(env, s.dst, Eval(s.value, env))
    ensures s.kind == SAssign && !kept(s.dst) ==> Survivors([s], kept) == []
  {
    hide Eval;
    OneMore([], s, kept, env);
    EmptyBlock(kept, env);
    assert [] + [s] == [s];
  }

  lemma AssignThenRead(a: StmtView, b: StmtView, kept: string -> bool, env: Env)
    requires a.kind == SAssign && b.kind != SAssign && !kept(a.dst)
    ensures Survivors([a, b], kept) == [b]
    ensures Trace([a, b], env) == [Seen(b, Bind(env, a.dst, Eval(a.value, env)))]
  {
    hide Eval, Trace, Survivors, After;
    OneStatement(a, kept, env);
    OneMore([a], b, kept, env);
    assert [a] + [b] == [a, b];
  }

  lemma AssignTwiceThenRead(a: StmtView, b: StmtView, c: StmtView, kept: string -> bool, env: Env)
    requires a.kind == b.kind == SAssign && c.kind != SAssign && !kept(a.dst) && !kept(b.dst)
    ensures Survivors([a, b, c], kept) == [c]
    ensures var env1 := Bind(env, a.dst, Eval(a.value, env));
            Trace([a, b, c], env) == [Seen(c, Bind(env1, b.dst, Eval(b.value, env1)))]
  {
    hide Eval, Trace, Survivors, After;
    OneStatement(a, kept, env);
    OneMore([a], b, kept, env);
    OneMore([a, b], c, kept, env);
    assert [a] + [b] == [a, b] && [a, b] + [c] == [a, b, c];
  }

  /** With two assignments and no read between them both go, and a later read is left without. */
  lemma ReassignmentIsLost(env: Env)
    ensures PlainReads(REASSIGNED) && !SingleAssignment(REASSIGNED)
    ensures Survivors(REASSIGNED, KeptIn(REASSIGNED)) == [REASSIGNED[2]]
    ensures Trace(REASSIGNED, env) == [Event(SReturn, 0, "", "", "", Some(2), [], [])]
    ensures Trace([REASSIGNED[2]], env) == [Event(SReturn, 0, "", "", "", env.reg("x"), [], [])]
  {
    ReassignedIsDropped();
    var kept := KeptIn(REASSIGNED);
    assert !kept("x");
    hide Kept, KeptIn, Survivors, After, Trace, PlainReads, SingleAssignment;
    AssignTwiceThenRead(REASSIGNED[0], REASSIGNED[1], REASSIGNED[2], kept, env);
    OneStatement(REASSIGNED[2], kept, env);
  }

  /** A read through a negation does not count, so the only assignment to the name goes. */
  lemma NegatedReadIsLost(env: Env)
    ensures SingleAssignment(NEGATED) && !PlainReads(NEGATED)
    ensures Survivors(NEGATED, KeptIn(NEGATED)) == [NEGATED[1]]
    ensures Trace(NEGATED, env) == [Event(SReturn, 0, "", "", "", Some(Neg(5)), [], [])]
    ensures Trace([NEGATED[1]], env) == [Event(SReturn, 0, "", "", "", Eval(Unary("-", Reg("x")), env), [], [])]
  {
    NegatedIsDropped();
    var kept := KeptIn(NEGATED);
    assert !kept("x");
    hide Kept, KeptIn, Survivors, After, Trace, PlainReads, SingleAssignment, Neg;
    AssignThenRead(NEGATED[0], NEGATED[1], kept, env);
    OneStatement(NEGATED[1], kept, env);
    var env1 := Bind(env, "x", Some(5));
    assert Eval(Reg("x"), env1) == Some(5);
  }

  /** A jump on whether "x" is zero, with its text printed from the two compared values. */
  const TEST := StmtView(SIf, 0, "", Missing, "", [], "0x10", [Reg("x"), Const(0)])
  const TESTED := [Plain(SAssign, "x", Const(5)), TEST]

  lemma TestedIsDropped()
    ensures !Kept(TESTED, "x") && SingleAssignment(TESTED) && !PlainReads(TESTED)
  {
    assert NextAssign(TESTED, "x", 0) == 0 && NextAssign(TESTED, "x", 1) == 2;
    assert AllNames([Reg("x"), Const(0)]) >= Names(Reg("x"));
    assert TESTED[0].dst in AllNames(TESTED[1].cond);
  }

  lemma TestSeen(env: Env)
    ensures Seen(TEST, env) == Event(SIf, 0, "", "", "0x10", None, [], [env.reg("x"), Some(0)])
  {
    assert EvalEach(TEST.cond, env) == [Eval(Reg("x"), env), Eval(Const(0), env)];
  }

  /** A read in a condition does not count, so an assignment made only for a test goes. */
  lemma ConditionReadIsLost(env: Env)
    ensures SingleAssignment(TESTED) && !PlainReads(TESTED)
    ensures Survivors(TESTED, KeptIn(TESTED)) == [TEST]
    ensures Trace(TESTED, env) == [Event(SIf, 0, "", "", "0x10", None, [], [Some(5), Some(0)])]
    ensures Trace([TEST], env) == [Event(SIf, 0, "", "", "0x10", None, [], [env.reg("x"), Some(0)])]
  {
    TestedIsDropped();
    var kept := KeptIn(TESTED);
    assert !kept("x");
    hide Kept, KeptIn, Survivors, After, Trace, PlainReads, SingleAssignment;
    AssignThenRead(TESTED[0], TEST, kept, env);
    OneStatement(TEST, kept, env);
    TestSeen(env);
    TestSeen(Bind(env, "x", Some(5)));
  }
}

/** What one round of the semidominator loop does to the whole state, as facts about values:
    the predecessor scan of a vertex, and the bucket and link bookkeeping around it. */
module SemiLoops {
  import opened FlowGraphs
  import opened DfsTrees
  import opened Semidominators
  import opened LinkForests

  // ---------------------------------------------------------------- predecessor scan

  /** Vertices at or below `bound`, except `w`, still carry themselves as semidominator. */
  ghost predicate SemiUntouched(g: FlowGraph, t: DfsTree, semi: seq<int>, bound: int, w: int)
    requires Sized(g, t) && |semi| == g.Size()
  {
    forall v {:trigger semi[v]} :: t.Reached(v) && t.num[v] <= bound && v != w ==> semi[v] == v
  }

  /** The current guess for `w` is `w` itself or starts a semipath into `w`. */
  ghost predicate Candidate(g: FlowGraph, t: DfsTree, semi: seq<int>, w: int)
    requires Sized(g, t) && |semi| == g.Size() && t.Reached(w)
  {
    && t.Reached(semi[w])
    && t.num[semi[w]] <= t.num[w]
    && (semi[w] == w || StartsSemiPath(g, t, semi[w], w))
  }

  /** While vertex `w` (number `i`) is being processed. */
  ghost predicate Scanning(g: FlowGraph, t: DfsTree, semi: seq<int>, w: int) {
    && IsDfsTree(g, t) && SemiInTree(g, t, semi)
    && t.Reached(w) && t.num[w] > 0
    && SemiAbove(g, t, semi, t.num[w])
    && SemiUntouched(g, t, semi, t.num[w], w)
    && Candidate(g, t, semi, w)
  }

  /** The guess is no larger than what the first `k` predecessors contribute. */
  ghost predicate ScannedPreds(g: FlowGraph, t: DfsTree, semi: seq<int>, w: int, k: int)
    requires Scanning(g, t, semi, w) && |g.pred| == |g.succ|
  {
    forall j {:trigger g.pred[w][j]} :: 0 <= j < k && j < |g.pred[w]| && t.Reached(g.At(g.pred[w][j])) ==>
      BoundsPredecessor(t, semi, t.num[semi[w]], g.At(g.pred[w][j]), w)
  }

  /** `u` is what evaluating `v` gives in the forest linked above `bound`. */
  ghost predicate Evaluates(g: FlowGraph, t: DfsTree, semi: seq<int>, bound: int, v: int, u: int)
    requires IsDfsTree(g, t) && SemiInTree(g, t, semi) && bound >= 0
  {
    && t.Reached(v) && t.Anc(u, v)
    && t.num[u] >= t.num[WalkRoot(g, t, bound, v)]
    && t.num[semi[u]] == WalkMin(g, t, semi, bound, v)
  }

  /** The new guess after looking at a predecessor that evaluates to `u`. */
  function Improve(t: DfsTree, semi: seq<int>, w: int, u: int): seq<int>
    requires |semi| == |t.num| && t.Reached(w) && t.Reached(u) && t.Reached(semi[w]) && t.Reached(semi[u])
  {
    if t.num[semi[u]] < t.num[semi[w]] then semi[w := semi[u]] else semi
  }

  /** A lower value found by evaluating a predecessor really starts a semipath into `w`. */
  lemma ImprovementIsCandidate(g: FlowGraph, t: DfsTree, semi: seq<int>, w: int, v: int, u: int)
    requires Scanning(g, t, semi, w) && g.Edge(v, w)
    requires Evaluates(g, t, semi, t.num[w], v, u)
    requires t.num[semi[u]] < t.num[semi[w]]
    ensures StartsSemiPath(g, t, semi[u], w)
  {
    var i := t.num[w];
    var r := WalkRoot(g, t, i, v);
    WalkRootIsAncestor(g, t, i, v);
    if t.num[u] > i {
      assert IsSemi(g, t, semi[u], u);
      InheritSemiPath(g, t, semi[u], u, v, w);
    } else {
      assert t.num[u] == t.num[r];
      SameNumber(g, t, u, r);
      assert u != w;
      assert semi[u] == u;
      if r == v {
        EdgeIsSemiPath(g, t, v, w);
      } else {
        SameNumberOr(g, t, r, v);
        var c := ChildToward(g, t, r, v);
        assert IsSemi(g, t, semi[c], c);
        SemiIsAncestor(g, t, semi[c], c);
        WalkMinIsLeast(g, t, semi, i, v);
        assert t.num[semi[c]] == t.num[r];
        SameNumber(g, t, semi[c], r);
        InheritSemiPath(g, t, r, c, v, w);
      }
    }
  }

  /** One predecessor: the guess stays sound and now also bounds what this predecessor contributes. */
  lemma ScanPredecessor(g: FlowGraph, t: DfsTree, semi: seq<int>, w: int, v: int, u: int)
    requires Scanning(g, t, semi, w) && g.Edge(v, w)
    requires Evaluates(g, t, semi, t.num[w], v, u)
    ensures Scanning(g, t, Improve(t, semi, w, u), w)
    ensures BoundsPredecessor(t, Improve(t, semi, w, u), t.num[Improve(t, semi, w, u)[w]], v, w)
  {
    var i := t.num[w];
    var semi' := Improve(t, semi, w, u);
    if t.num[semi[u]] < t.num[semi[w]] {
      ImprovementIsCandidate(g, t, semi, w, v, u);
      OnlyGuessChanges(g, t, semi, w, semi[u]);
    }
    WalkMinIsLeast(g, t, semi, i, v);
    WalkRootIsAncestor(g, t, i, v);
    SelfAncestor(g, t, v);
    assert t.num[semi'[w]] <= t.num[semi[u]];
    if t.num[v] < i {
      assert semi[v] == v;
    }
    forall x | t.Anc(x, v) && t.num[x] > i && t.Reached(semi'[x])
      ensures t.num[semi'[w]] <= t.num[semi'[x]]
    {
      assert semi'[x] == semi[x];
      assert t.num[x] >= t.num[WalkRoot(g, t, i, v)];
    }
  }

  lemma OnlyGuessChanges(g: FlowGraph, t: DfsTree, semi: seq<int>, w: int, s: int)
    requires Scanning(g, t, semi, w)
    requires StartsSemiPath(g, t, s, w) && t.Reached(s) && t.num[s] <= t.num[w]
    ensures Scanning(g, t, semi[w := s], w)
  {
    var semi' := semi[w := s];
    forall v | t.Reached(v) && t.num[v] > t.num[w]
      ensures IsSemi(g, t, semi'[v], v)
    {
      assert semi'[v] == semi[v];
      assert IsSemi(g, t, semi[v], v);
    }
  }

  lemma LowerGuessKeepsScanned(g: FlowGraph, t: DfsTree, semi: seq<int>, w: int, u: int, k: int)
    requires Scanning(g, t, semi, w) && |g.pred| == |g.succ| && t.Reached(u)
    requires ScannedPreds(g, t, semi, w, k)
    requires Scanning(g, t, Improve(t, semi, w, u), w)
    ensures ScannedPreds(g, t, Improve(t, semi, w, u), w, k)
  {
    var semi' := Improve(t, semi, w, u);
    forall j | 0 <= j < k && j < |g.pred[w]| && t.Reached(g.At(g.pred[w][j]))
      ensures BoundsPredecessor(t, semi', t.num[semi'[w]], g.At(g.pred[w][j]), w)
    {
      var v := g.At(g.pred[w][j]);
      assert BoundsPredecessor(t, semi, t.num[semi[w]], v, w);
      forall x | t.Anc(x, v) && t.num[x] > t.num[w] && t.Reached(semi'[x])
        ensures t.num[semi'[w]] <= t.num[semi'[x]]
      {
        assert semi'[x] == semi[x];
      }
    }
  }

  /** One turn of the predecessor loop: looking at predecessor number `k`, which evaluates to `u`. */
  lemma ScanStep(g: FlowGraph, t: DfsTree, start: seq<int>, semi: seq<int>, ancestor: seq<int>, best: seq<int>,
                 w: int, k: int, u: int)
    requires |g.pred| == |g.succ| && Scanning(g, t, semi, w) && ScannedPreds(g, t, semi, w, k)
    requires |start| == |semi| && semi == start[w := semi[w]]
    requires Forest(g, t, semi, ancestor, best, t.num[w])
    requires t.Reached(start[w])
    requires 0 <= k < |g.pred[w]| && g.Edge(g.At(g.pred[w][k]), w)
    requires Evaluates(g, t, semi, t.num[w], g.At(g.pred[w][k]), u)
    ensures var semi' := Improve(t, semi, w, u);
            && |semi'| == |start| && semi' == start[w := semi'[w]]
            && Scanning(g, t, semi', w) && ScannedPreds(g, t, semi', w, k + 1)
            && Forest(g, t, semi', ancestor, best, t.num[w])
            && Forest(g, t, start, ancestor, best, t.num[w])
  {
    var semi' := Improve(t, semi, w, u);
    ScanPredecessor(g, t, semi, w, g.At(g.pred[w][k]), u);
    LowerGuessKeepsScanned(g, t, semi, w, u, k);
    ForestIgnoresUnlinked(g, t, semi, ancestor, best, t.num[w], w, semi'[w]);
    ForestIgnoresUnlinked(g, t, semi, ancestor, best, t.num[w], w, start[w]);
    assert semi[w := start[w]] == start;
    assert semi[w := semi'[w]] == semi';
    hide BoundsPredecessor, Forest, SemiAbove;
  }

  /** After all predecessors, the guess is the semidominator. */
  lemma ScanIsComplete(g: FlowGraph, t: DfsTree, semi: seq<int>, w: int)
    requires g.Valid() && Scanning(g, t, semi, w)
    requires ScannedPreds(g, t, semi, w, |g.pred[w]|)
    ensures SemiAbove(g, t, semi, t.num[w] - 1)
    ensures semi[w] != w
  {
    var i := t.num[w];
    forall v | t.Reached(v) && g.Edge(v, w)
      ensures BoundsPredecessor(t, semi, t.num[semi[w]], v, w)
    {
      assert g.PredEdge(v, w);
    }
    assert w != 0;
    ParentIsAncestor(g, t, w);
    assert BoundsPredecessor(t, semi, t.num[semi[w]], t.parent[w], w);
    PredecessorsBoundSemiPaths(g, t, semi, t.num[semi[w]], w);
    forall v | t.Reached(v) && t.num[v] > i - 1
      ensures IsSemi(g, t, semi[v], v)
    {
      SameNumberOr(g, t, v, w);
    }
  }

  // ---------------------------------------------------------------- buckets

  /** Bucket `x` holds processed vertices (numbers above `pb`) whose semidominator is `x` and whose
      tree branch below `x` has not been linked yet (it starts at a number at most `cb`). */
  ghost predicate InBucket(g: FlowGraph, t: DfsTree, semi: seq<int>, pb: int, cb: int, x: int, v: int)
    requires Sized(g, t) && |semi| == g.Size()
  {
    && t.Reached(v) && t.num[v] > pb && semi[v] == x
    && forall c {:trigger t.Anc(c, v)} :: t.Anc(c, v) && t.num[c] > 0 && t.parent[c] == x ==> t.num[c] <= cb
  }

  ghost predicate Buckets(g: FlowGraph, t: DfsTree, semi: seq<int>, bucket: seq<seq<int>>, pb: int, cb: int)
    requires Sized(g, t) && |semi| == g.Size()
  {
    && |bucket| == g.Size()
    && forall x, k {:trigger bucket[x][k]} :: g.HasVertex(x) && 0 <= k < |bucket[x]| ==>
         InBucket(g, t, semi, pb, cb, x, bucket[x][k])
  }

  /** The least semidominator on the tree path from `semi[v]` (exclusive) down to `v`. */
  ghost predicate IsChainMin(t: DfsTree, semi: seq<int>, v: int, d: int)
    requires |semi| == |t.num| == |t.last|
  {
    && t.Reached(v) && t.Reached(semi[v]) && t.Reached(d)
    && (exists u {:trigger semi[u]} :: t.Anc(u, v) && t.num[u] > t.num[semi[v]] && semi[u] == d)
    && forall x {:trigger t.Anc(x, v)} :: t.Anc(x, v) && t.num[x] > t.num[semi[v]] && t.Reached(semi[x]) ==>
         t.num[d] <= t.num[semi[x]]
  }

  /** `d` is that vertex, and everything on that path is numbered above `pb`. */
  ghost predicate Settled(t: DfsTree, semi: seq<int>, pb: int, v: int, d: int)
    requires |semi| == |t.num| == |t.last|
  {
    && IsChainMin(t, semi, v, d)
    && forall x {:trigger t.Anc(x, v)} :: t.Anc(x, v) && t.num[x] > t.num[semi[v]] ==> t.num[x] > pb
  }

  /** Every processed vertex waits in the bucket of its semidominator or has its idom; the others
      have none yet. */
  ghost predicate Idoms(g: FlowGraph, t: DfsTree, semi: seq<int>, bucket: seq<seq<int>>, idom: seq<int>, pb: int)
    requires Sized(g, t) && |semi| == |bucket| == g.Size()
  {
    && |idom| == g.Size()
    && (forall v {:trigger idom[v]} :: t.Reached(v) && t.num[v] > pb && g.HasVertex(semi[v]) ==>
         v in bucket[semi[v]] || Settled(t, semi, pb, v, idom[v]))
    && (forall v {:trigger idom[v]} :: g.HasVertex(v) && t.num[v] <= pb ==> idom[v] == -1)
  }

  /** The state between two rounds: vertices numbered above `i` are done. */
  ghost predicate Round(g: FlowGraph, t: DfsTree, semi: seq<int>, ancestor: seq<int>, best: seq<int>,
                        bucket: seq<seq<int>>, idom: seq<int>, i: int) {
    && g.Valid()
    && 0 <= i < t.count
    && Forest(g, t, semi, ancestor, best, i)
    && SemiAbove(g, t, semi, i)
    && SemiUntouched(g, t, semi, i, -1)
    && Buckets(g, t, semi, bucket, i, i)
    && Idoms(g, t, semi, bucket, idom, i)
  }

  /** A vertex in the bucket of the parent of the vertex just linked lies below that vertex. */
  lemma BucketIsBelow(g: FlowGraph, t: DfsTree, semi: seq<int>, w: int, v: int)
    requires IsDfsTree(g, t) && |semi| == g.Size()
    requires t.Reached(w) && t.num[w] > 0
    requires InBucket(g, t, semi, t.num[w] - 1, t.num[w], t.parent[w], v)
    requires SemiAbove(g, t, semi, t.num[w] - 1)
    ensures t.Anc(w, v) && v != 0 && t.Reached(semi[v])
  {
    var p := t.parent[w];
    assert IsSemi(g, t, semi[v], v);
    SemiIsAncestor(g, t, p, v);
    var c := ChildToward(g, t, p, v);
    ParentIsAncestor(g, t, w);
    ParentIsAncestor(g, t, c);
    assert t.num[c] <= t.num[w] <= t.num[v];
    assert t.Anc(c, w);
  }

  /** Below a vertex that was just linked, walks end at its parent. */
  lemma RootAfterLink(g: FlowGraph, t: DfsTree, w: int, v: int)
    requires IsDfsTree(g, t) && t.Reached(w) && t.num[w] > 0 && t.Anc(w, v)
    ensures WalkRoot(g, t, t.num[w] - 1, v) == t.parent[w]
  {
    var r := WalkRoot(g, t, t.num[w] - 1, v);
    WalkRootIsAncestor(g, t, t.num[w] - 1, v);
    ParentIsAncestor(g, t, w);
    AncestorsOnOneLine(g, t, r, w, v);
    assert t.Anc(r, t.parent[w]);
    AncestorsAreNested(g, t, t.parent[w], w, v);
    SameNumber(g, t, r, t.parent[w]);
  }

  /** What the bucket pass stores for `v`: the chain minimum, in both of its branches. */
  lemma FlushOne(g: FlowGraph, t: DfsTree, semi: seq<int>, w: int, v: int, u: int)
    requires IsDfsTree(g, t) && SemiInTree(g, t, semi)
    requires t.Reached(w) && t.num[w] > 0
    requires SemiAbove(g, t, semi, t.num[w] - 1) && SemiUntouched(g, t, semi, t.num[w] - 1, -1)
    requires InBucket(g, t, semi, t.num[w] - 1, t.num[w], t.parent[w], v)
    requires Evaluates(g, t, semi, t.num[w] - 1, v, u)
    ensures t.Reached(t.parent[w])
    ensures Settled(t, semi, t.num[w] - 1, v, if t.num[semi[u]] < t.num[semi[v]] then semi[u] else t.parent[w])
  {
    var p, i := t.parent[w], t.num[w];
    BucketIsBelow(g, t, semi, w, v);
    ParentIsAncestor(g, t, w);
    assert IsSemi(g, t, semi[v], v);
    SemiIsAncestor(g, t, p, v);
    SelfAncestor(g, t, v);
    WalkRootIsAncestor(g, t, i - 1, v);
    WalkMinIsLeast(g, t, semi, i - 1, v);
    RootAfterLink(g, t, w, v);
    assert semi[p] == p;
    forall x | t.Anc(x, v) && t.num[x] > t.num[p]
      ensures t.num[semi[u]] <= t.num[semi[x]]
    {
    }
    if t.num[semi[u]] < t.num[p] {
      SameNumberOr(g, t, u, p);
      assert t.num[u] > t.num[p];
      assert semi[u] == semi[u];
    } else {
      assert semi[v] == p;
    }
  }

  // ---------------------------------------------------------------- one round

  lemma StartScan(g: FlowGraph, t: DfsTree, semi: seq<int>, ancestor: seq<int>, best: seq<int>, bucket: seq<seq<int>>,
                  idom: seq<int>, w: int)
    requires t.Reached(w) && t.num[w] > 0 && Round(g, t, semi, ancestor, best, bucket, idom, t.num[w])
    ensures Scanning(g, t, semi, w) && ScannedPreds(g, t, semi, w, 0)
  {
    assert semi[w] == w;
  }

  /** A settled vertex and a waiting vertex are untouched by the new semidominator of `w`. */
  lemma SettledKeeps(g: FlowGraph, t: DfsTree, semi: seq<int>, w: int, s: int, v: int, d: int)
    requires Sized(g, t) && |semi| == g.Size() && t.Reached(w) && t.Reached(s)
    requires t.Reached(v) && t.num[v] > t.num[w]
    requires Settled(t, semi, t.num[w], v, d)
    ensures Settled(t, semi[w := s], t.num[w] - 1, v, d)
  {
    var semi' := semi[w := s];
    var u :| t.Anc(u, v) && t.num[u] > t.num[semi[v]] && semi[u] == d;
    assert semi'[u] == d;
    forall x | t.Anc(x, v) && t.num[x] > t.num[semi'[v]]
      ensures t.num[x] > t.num[w] && semi'[x] == semi[x]
    {
    }
  }

  /** Filing `w` under its semidominator. */
  lemma FileInBucket(g: FlowGraph, t: DfsTree, semi0: seq<int>, semi: seq<int>, ancestor: seq<int>, best: seq<int>,
                     bucket: seq<seq<int>>, idom: seq<int>, w: int)
    requires t.Reached(w) && t.num[w] > 0 && Round(g, t, semi0, ancestor, best, bucket, idom, t.num[w])
    requires |semi| == g.Size() && t.Reached(semi[w]) && semi == semi0[w := semi[w]] && semi[w] != w
    requires SemiAbove(g, t, semi, t.num[w] - 1)
    ensures SemiUntouched(g, t, semi, t.num[w] - 1, -1)
    ensures Buckets(g, t, semi, bucket[semi[w] := bucket[semi[w]] + [w]], t.num[w] - 1, t.num[w])
    ensures Idoms(g, t, semi, bucket[semi[w] := bucket[semi[w]] + [w]], idom, t.num[w] - 1)
  {
    var i := t.num[w];
    var bucket' := bucket[semi[w] := bucket[semi[w]] + [w]];
    forall v | t.Reached(v) && t.num[v] <= i - 1
      ensures semi[v] == v
    {
      assert semi0[v] == v;
    }
    forall x, k | g.HasVertex(x) && 0 <= k < |bucket'[x]|
      ensures InBucket(g, t, semi, i - 1, i, x, bucket'[x][k])
    {
      if k < |bucket[x]| {
        assert bucket'[x][k] == bucket[x][k];
        assert InBucket(g, t, semi0, i, i, x, bucket[x][k]);
      }
    }
    forall v | t.Reached(v) && t.num[v] > i - 1 && g.HasVertex(semi[v])
      ensures v in bucket'[semi[v]] || Settled(t, semi, i - 1, v, idom[v])
    {
      SameNumberOr(g, t, v, w);
      if v != w {
        assert v in bucket[semi0[v]] || Settled(t, semi0, i, v, idom[v]);
        if v !in bucket[semi0[v]] {
          SettledKeeps(g, t, semi0, w, semi[w], v, idom[v]);
        }
      }
    }
  }

  /** While the bucket of `w`'s parent is being emptied. */
  ghost predicate Flushing(g: FlowGraph, t: DfsTree, semi: seq<int>, ancestor: seq<int>, best: seq<int>,
                           bucket: seq<seq<int>>, idom: seq<int>, w: int) {
    && g.Valid()
    && t.Reached(w) && t.num[w] > 0
    && Forest(g, t, semi, ancestor, best, t.num[w] - 1)
    && SemiAbove(g, t, semi, t.num[w] - 1)
    && SemiUntouched(g, t, semi, t.num[w] - 1, -1)
    && t.Reached(t.parent[w])
    && Buckets(g, t, semi, bucket, t.num[w] - 1, t.num[w])
    && Idoms(g, t, semi, bucket, idom, t.num[w] - 1)
  }

  ghost predicate Flushed(t: DfsTree, semi: seq<int>, idom: seq<int>, w: int, list: seq<int>, k: int)
    requires |semi| == |t.num| == |t.last| == |idom| && t.Reached(w)
  {
    forall j {:trigger list[j]} :: 0 <= j < k && j < |list| && t.Reached(list[j]) ==>
        Settled(t, semi, t.num[w] - 1, list[j], idom[list[j]])
  }

  lemma FlushStep(g: FlowGraph, t: DfsTree, semi: seq<int>, ancestor: seq<int>, best: seq<int>,
                  bucket: seq<seq<int>>, idom: seq<int>, w: int, k: int, u: int)
    requires Flushing(g, t, semi, ancestor, best, bucket, idom, w)
    requires 0 <= k < |bucket[t.parent[w]]|
    requires Flushed(t, semi, idom, w, bucket[t.parent[w]], k)
    requires Evaluates(g, t, semi, t.num[w] - 1, bucket[t.parent[w]][k], u)
    ensures var v := bucket[t.parent[w]][k];
            t.Reached(v) && t.Reached(u) && t.Reached(semi[u]) && t.Reached(semi[v]) &&
            var d := if t.num[semi[u]] < t.num[semi[v]] then semi[u] else t.parent[w];
            && Flushing(g, t, semi, ancestor, best, bucket, idom[v := d], w)
            && Flushed(t, semi, idom[v := d], w, bucket[t.parent[w]], k + 1)
  {
    var v := bucket[t.parent[w]][k];
    assert InBucket(g, t, semi, t.num[w] - 1, t.num[w], t.parent[w], v);
    FlushOne(g, t, semi, w, v, u);
    hide IsDfsTree, Forest, SemiAbove, SemiUntouched, Buckets, Evaluates, InBucket;
    var d := if t.num[semi[u]] < t.num[semi[v]] then semi[u] else t.parent[w];
    SetIdom(g, t, semi, bucket, idom, t.num[w] - 1, v, d);
  }

  lemma SetIdom(g: FlowGraph, t: DfsTree, semi: seq<int>, bucket: seq<seq<int>>, idom: seq<int>, pb: int, v: int,
                d: int)
    requires Sized(g, t) && |semi| == |bucket| == g.Size() && Idoms(g, t, semi, bucket, idom, pb)
    requires t.Reached(v) && t.num[v] > pb && Settled(t, semi, pb, v, d)
    ensures Idoms(g, t, semi, bucket, idom[v := d], pb)
  {
    hide Settled;
    forall x | t.Reached(x) && t.num[x] > pb && g.HasVertex(semi[x])
      ensures x in bucket[semi[x]] || Settled(t, semi, pb, x, idom[v := d][x])
    {
      assert x in bucket[semi[x]] || Settled(t, semi, pb, x, idom[x]);
    }
  }

  /** Once emptied, the bucket can be cleared and the round is over. */
  lemma EndRound(g: FlowGraph, t: DfsTree, semi: seq<int>, ancestor: seq<int>, best: seq<int>,
                 bucket: seq<seq<int>>, idom: seq<int>, w: int)
    requires Flushing(g, t, semi, ancestor, best, bucket, idom, w)
    requires Flushed(t, semi, idom, w, bucket[t.parent[w]], |bucket[t.parent[w]]|)
    ensures Round(g, t, semi, ancestor, best, bucket[t.parent[w] := []], idom, t.num[w] - 1)
  {
    var i, p := t.num[w], t.parent[w];
    var bucket' := bucket[p := []];
    forall x, k | g.HasVertex(x) && 0 <= k < |bucket'[x]|
      ensures InBucket(g, t, semi, i - 1, i - 1, x, bucket'[x][k])
    {
      var v := bucket[x][k];
      assert InBucket(g, t, semi, i - 1, i, x, v);
      forall c | t.Anc(c, v) && t.num[c] > 0 && t.parent[c] == x
        ensures t.num[c] <= i - 1
      {
        SameNumberOr(g, t, c, w);
      }
    }
    forall v | t.Reached(v) && t.num[v] > i - 1 && g.HasVertex(semi[v])
      ensures v in bucket'[semi[v]] || Settled(t, semi, i - 1, v, idom[v])
    {
      assert v in bucket[semi[v]] || Settled(t, semi, i - 1, v, idom[v]);
    }
  }

  lemma BucketEntry(g: FlowGraph, t: DfsTree, semi: seq<int>, ancestor: seq<int>, best: seq<int>,
                    bucket: seq<seq<int>>, idom: seq<int>, w: int, k: int)
    requires Flushing(g, t, semi, ancestor, best, bucket, idom, w)
    requires 0 <= k < |bucket[t.parent[w]]|
    ensures t.Reached(bucket[t.parent[w]][k]) && |idom| == g.Size()
  {
    assert InBucket(g, t, semi, t.num[w] - 1, t.num[w], t.parent[w], bucket[t.parent[w]][k]);
  }

  lemma FirstRound(g: FlowGraph, t: DfsTree, semi: seq<int>, ancestor: seq<int>, best: seq<int>,
                   bucket: seq<seq<int>>, idom: seq<int>)
    requires g.Valid() && IsDfsTree(g, t)
    requires |semi| == |ancestor| == |best| == |bucket| == |idom| == g.Size()
    requires forall v {:trigger semi[v]} {:trigger best[v]} :: g.HasVertex(v) ==> semi[v] == v && best[v] == v
    requires forall v :: g.HasVertex(v) ==> ancestor[v] == -1 && bucket[v] == [] && idom[v] == -1
    ensures Round(g, t, semi, ancestor, best, bucket, idom, t.count - 1)
  {
  }

  lemma VertexAt(g: FlowGraph, t: DfsTree, semi: seq<int>, ancestor: seq<int>, best: seq<int>, bucket: seq<seq<int>>,
                 idom: seq<int>, i: int)
    requires Round(g, t, semi, ancestor, best, bucket, idom, i)
    ensures Sized(g, t) && t.count <= g.Size()
    ensures t.Reached(t.vertex[i]) && t.num[t.vertex[i]] == i
  {
  }

  /** Filing `w` and linking it to its parent starts the emptying of the parent's bucket. */
  lemma LinkAndFile(g: FlowGraph, t: DfsTree, semi0: seq<int>, semi: seq<int>, ancestor: seq<int>, best: seq<int>,
                    bucket: seq<seq<int>>, idom: seq<int>, w: int)
    requires t.Reached(w) && t.num[w] > 0 && Round(g, t, semi0, ancestor, best, bucket, idom, t.num[w])
    requires |semi| == g.Size() && t.Reached(semi[w]) && semi == semi0[w := semi[w]] && semi[w] != w
    requires SemiAbove(g, t, semi, t.num[w] - 1)
    requires Forest(g, t, semi, ancestor, best, t.num[w])
    ensures Sized(g, t) && |ancestor| == |bucket| == g.Size()
    ensures Flushing(g, t, semi, ancestor[w := t.parent[w]], best, bucket[semi[w] := bucket[semi[w]] + [w]], idom, w)
  {
    FileInBucket(g, t, semi0, semi, ancestor, best, bucket, idom, w);
    LinkKeepsForest(g, t, semi, ancestor, best, t.num[w], w);
    assert t.Reached(t.parent[w]);
  }

  lemma FlushingInRange(g: FlowGraph, t: DfsTree, semi: seq<int>, ancestor: seq<int>, best: seq<int>,
                        bucket: seq<seq<int>>, idom: seq<int>, w: int)
    requires Flushing(g, t, semi, ancestor, best, bucket, idom, w)
    ensures t.Reached(t.parent[w]) && Sized(g, t) && |bucket| == |idom| == |semi| == g.Size()
  {
  }

  // ---------------------------------------------------------------- outcome

  /** `idom` before the closing pass: the chain minimum for every discovered block but the entry. */
  ghost predicate PreFinal(g: FlowGraph, t: DfsTree, semi: seq<int>, idom: seq<int>)
    requires Sized(g, t) && |semi| == g.Size()
  {
    && |idom| == g.Size()
    && (forall v {:trigger idom[v]} :: t.Reached(v) && v != 0 ==> IsChainMin(t, semi, v, idom[v]))
    && (forall v {:trigger idom[v]} :: g.HasVertex(v) && (v == 0 || !t.Reached(v)) ==> idom[v] == -1)
  }

  lemma RoundsAreComplete(g: FlowGraph, t: DfsTree, semi: seq<int>, ancestor: seq<int>, best: seq<int>,
                          bucket: seq<seq<int>>, idom: seq<int>)
    requires Round(g, t, semi, ancestor, best, bucket, idom, 0)
    ensures IsDfsTree(g, t) && |semi| == g.Size()
    ensures SemiExact(g, t, semi) && PreFinal(g, t, semi, idom)
    ensures semi[0] == 0
  {
    forall v | t.Reached(v) && v != 0
      ensures IsChainMin(t, semi, v, idom[v])
    {
      ParentIsAncestor(g, t, v);
      assert IsSemi(g, t, semi[v], v);
      SemiIsAncestor(g, t, semi[v], v);
      if v in bucket[semi[v]] {
        var k :| 0 <= k < |bucket[semi[v]]| && bucket[semi[v]][k] == v;
        assert InBucket(g, t, semi, 0, 0, semi[v], bucket[semi[v]][k]);
        var c := ChildToward(g, t, semi[v], v);
        assert false;
      }
      assert Settled(t, semi, 0, v, idom[v]);
    }
  }
}

/** Value nodes on the heap: shared, rewired in place, and read as expression trees. */
module Values {
  import opened Operands
  import opened Shifts
  import opened Exprs
  import opened Normals

  datatype Kind = KUnknown | KConst | KReg | KOp | KUnary | KLoad | KStore | KAddrOf | KSym | KCall

  /** A node. Only the child links ever change; `rank` bounds the depth of what hangs below. */
  class Value {
    const kind: Kind
    const constant: Word
    const reg: string
    const op: string
    const func: string
    const args: seq<Value>
    const mem: MemRef
    var left: Value?
    var right: Value?
    ghost const rank: nat

    constructor Make(kind: Kind, constant: Word, reg: string, op: string, left: Value?, right: Value?,
                     func: string, args: seq<Value>, mem: MemRef, ghost rank: nat)
      ensures this.kind == kind && this.constant == constant && this.reg == reg && this.op == op
      ensures this.left == left && this.right == right && this.func == func && this.args == args && this.mem == mem
      ensures this.rank == rank
    {
      this.kind, this.constant, this.reg, this.op := kind, constant, reg, op;
      this.left, this.right, this.func, this.args, this.mem := left, right, func, args, mem;
      this.rank := rank;
    }
  }

  // ---------------------------------------------------------------- snapshots

  datatype Links = Links(left: Value?, right: Value?)

  /** The child links of a set of nodes at some moment. */
  type Heap = map<Value, Links>

  ghost function Snap(nodes: set<Value>): Heap
    reads nodes
  {
    map v | v in nodes :: Links(v.left, v.right)
  }

  /** `x` may hang below a node of rank `rank`. */
  ghost predicate Below(h: Heap, x: Value?, rank: nat) {
    x != null ==> x in h && x.rank < rank
  }

  ghost predicate NodeClosed(h: Heap, v: Value)
    requires v in h
  {
    && Below(h, h[v].left, v.rank)
    && Below(h, h[v].right, v.rank)
    && forall i {:trigger v.args[i]} :: 0 <= i < |v.args| ==> v.args[i] in h && v.args[i].rank < v.rank
  }

  /** Links stay inside and lead to lower ranks, so there is no cycle. */
  ghost predicate Closed(h: Heap) {
    forall v {:trigger NodeClosed(h, v)} :: v in h ==> NodeClosed(h, v)
  }

  /** The expression a node stands for. */
  ghost function Tree(h: Heap, v: Value?): Expr
    requires Closed(h) && (v != null ==> v in h)
    decreases if v == null then 0 else v.rank + 1, 0
  {
    if v == null then Missing
    else
      assert NodeClosed(h, v);
      match v.kind
      case KConst => Const(v.constant)
      case KReg => Reg(v.reg)
      case KOp => Op(v.op, Tree(h, h[v].left), Tree(h, h[v].right))
      case KUnary => Unary(v.op, Tree(h, h[v].left))
      case KLoad => Apply(LoadHead(v.mem), [])
      case KAddrOf => Apply(AddrHead(v.mem), Child(h, v))
      case KSym => Apply(SymHead(v.func), Child(h, v))
      case KCall => Apply(CallHead(v.func), Trees(h, v, v.args))
      case KUnknown => Unknown
      case KStore => Unknown
  }

  ghost function Child(h: Heap, v: Value): seq<Expr>
    requires Closed(h) && v in h
    decreases v.rank, 2
  {
    assert NodeClosed(h, v);
    if h[v].left == null then [] else [Tree(h, h[v].left)]
  }

  ghost function Trees(h: Heap, parent: Value, vs: seq<Value>): (es: seq<Expr>)
    requires Closed(h)
    requires forall x :: x in vs ==> x in h && x.rank < parent.rank
    ensures |es| == |vs|
    ensures forall i {:trigger es[i]} {:trigger vs[i]} :: 0 <= i < |vs| ==> vs[i] in h && es[i] == Tree(h, vs[i])
    decreases parent.rank, 1, |vs|
  {
    if vs == [] then [] else [Tree(h, vs[0])] + Trees(h, parent, vs[1..])
  }

  /** What is printed of a node: the tree below it, read off node by node. */
  method Show(v: Value?, ghost nodes: set<Value>) returns (e: Expr)
    requires Closed(Snap(nodes)) && (v != null ==> v in nodes)
    ensures e == Tree(Snap(nodes), v)
    decreases if v == null then 0 else v.rank + 1, 0
  {
    if v == null {
      return Missing;
    }
    assert NodeClosed(Snap(nodes), v);
    match v.kind {
      case KConst => e := Const(v.constant);
      case KReg => e := Reg(v.reg);
      case KOp =>
        var left := Show(v.left, nodes);
        var right := Show(v.right, nodes);
        e := Op(v.op, left, right);
      case KUnary =>
        var left := Show(v.left, nodes);
        e := Unary(v.op, left);
      case KLoad => e := Apply(LoadHead(v.mem), []);
      case KAddrOf =>
        var child := ShowChild(v, nodes);
        e := Apply(AddrHead(v.mem), child);
      case KSym =>
        var child := ShowChild(v, nodes);
        e := Apply(SymHead(v.func), child);
      case KCall =>
        var args := ShowAll(v, v.args, nodes);
        e := Apply(CallHead(v.func), args);
      case KUnknown => e := Unknown;
      case KStore => e := Unknown;
    }
  }

  method ShowChild(v: Value, ghost nodes: set<Value>) returns (es: seq<Expr>)
    requires Closed(Snap(nodes)) && v in nodes
    ensures es == Child(Snap(nodes), v)
    decreases v.rank, 2
  {
    assert NodeClosed(Snap(nodes), v);
    es := [];
    if v.left != null {
      var e := Show(v.left, nodes);
      es := [e];
    }
  }

  method ShowAll(parent: Value, vs: seq<Value>, ghost nodes: set<Value>) returns (es: seq<Expr>)
    requires Closed(Snap(nodes))
    requires forall x :: x in vs ==> x in nodes && x.rank < parent.rank
    ensures es == Trees(Snap(nodes), parent, vs)
    decreases parent.rank, 1, |vs|
  {
    es := [];
    if vs != [] {
      var first := Show(vs[0], nodes);
      var rest := ShowAll(parent, vs[1..], nodes);
      es := [first] + rest;
    }
  }

  /** Every node of `h` still means at least what it meant, and has the normal form it had. */
  ghost predicate Preserves(h: Heap, h': Heap)
    requires Closed(h) && Closed(h')
  {
    forall x: Value {:trigger Tree(h, x)} {:trigger Tree(h', x)} {:trigger x in h'} :: x in h ==>
        x in h' && Rewrites(Tree(h, x), Tree(h', x))
  }

  lemma PreservesTransitive(h: Heap, h': Heap, h'': Heap)
    requires Closed(h) && Closed(h') && Closed(h'')
    requires Preserves(h, h') && Preserves(h', h'')
    ensures Preserves(h, h'')
  {
    forall x: Value | x in h
      ensures x in h'' && Rewrites(Tree(h, x), Tree(h'', x))
    {
      assert x in h' && Rewrites(Tree(h, x), Tree(h', x));
      assert x in h'' && Rewrites(Tree(h', x), Tree(h'', x));
      RewritesTransitive(Tree(h, x), Tree(h', x), Tree(h'', x));
    }
  }

  /** `h'` agrees with `h` on every node of rank below `rank`. */
  ghost predicate AgreeBelow(h: Heap, h': Heap, rank: nat) {
    forall x: Value {:trigger x in h'} :: x in h && x.rank < rank ==> x in h' && h'[x] == h[x]
  }

  /** Changes above do not show below. */
  lemma {:induction false} TreeLocal(h: Heap, h': Heap, rank: nat, v: Value?)
    requires Closed(h) && Closed(h') && AgreeBelow(h, h', rank)
    requires v != null ==> v in h && v.rank < rank
    ensures v != null ==> v in h'
    ensures Tree(h, v) == Tree(h', v)
    decreases if v == null then 0 else v.rank + 1
  {
    if v != null {
      assert NodeClosed(h, v);
      assert v in h' && h'[v] == h[v];
      TreeLocal(h, h', rank, h[v].left);
      TreeLocal(h, h', rank, h[v].right);
      forall i | 0 <= i < |v.args|
        ensures Tree(h, v.args[i]) == Tree(h', v.args[i])
      {
        assert v.args[i] in h && v.args[i].rank < v.rank;
        TreeLocal(h, h', rank, v.args[i]);
      }
      if v.kind == KCall {
        assert forall x :: x in v.args ==> x in h' && x.rank < v.rank by {
          assert NodeClosed(h', v);
        }
        assert Trees(h, v, v.args) == Trees(h', v, v.args);
      }
    }
  }

  /** Rewiring one node so that it means at least what it meant keeps the meaning of every node. */
  lemma {:induction false} RewireKeeps(h: Heap, w: Value, links: Links, x: Value)
    requires Closed(h) && w in h && Closed(h[w := links])
    requires Rewrites(Tree(h, w), Tree(h[w := links], w))
    requires x in h
    ensures Rewrites(Tree(h, x), Tree(h[w := links], x))
    decreases x.rank
  {
    var h' := h[w := links];
    if x != w {
      assert NodeClosed(h, x) && h'[x] == h[x];
      if h[x].left != null {
        RewireKeeps(h, w, links, h[x].left);
      }
      if h[x].right != null {
        RewireKeeps(h, w, links, h[x].right);
      }
      forall i | 0 <= i < |x.args|
        ensures x.args[i] in h && Rewrites(Tree(h, x.args[i]), Tree(h', x.args[i]))
      {
        RewireKeeps(h, w, links, x.args[i]);
      }
      SameShapeRewrites(h, h', x);
    }
  }

  /** A node whose links did not change means at least what it meant if its children do. */
  lemma SameShapeRewrites(h: Heap, h': Heap, x: Value)
    requires Closed(h) && Closed(h') && x in h && x in h'
    requires NodeClosed(h, x) && NodeClosed(h', x)
    requires (h[x].left == null <==> h'[x].left == null)
    requires Rewrites(Tree(h, h[x].left), Tree(h', h'[x].left))
    requires Rewrites(Tree(h, h[x].right), Tree(h', h'[x].right))
    requires forall i {:trigger x.args[i]} :: 0 <= i < |x.args| ==>
               x.args[i] in h && x.args[i] in h' && Rewrites(Tree(h, x.args[i]), Tree(h', x.args[i]))
    ensures Rewrites(Tree(h, x), Tree(h', x))
  {
    match x.kind
    case KOp => OpRewrites(x.op, Tree(h, h[x].left), Tree(h, h[x].right), Tree(h', h'[x].left),
                             Tree(h', h'[x].right));
    case KUnary => UnaryRewrites(x.op, Tree(h, h[x].left), Tree(h', h'[x].left));
    case KAddrOf => ApplyRewrites(AddrHead(x.mem), Child(h, x), Child(h', x));
    case KSym => ApplyRewrites(SymHead(x.func), Child(h, x), Child(h', x));
    case KCall =>
      var es, fs := Trees(h, x, x.args), Trees(h', x, x.args);
      forall i | 0 <= i < |es|
        ensures Rewrites(es[i], fs[i])
      {
        assert es[i] == Tree(h, x.args[i]) && fs[i] == Tree(h', x.args[i]);
      }
      ApplyRewrites(CallHead(x.func), es, fs);
    case _ =>
  }

  lemma RewirePreserves(h: Heap, w: Value, links: Links)
    requires Closed(h) && w in h && Closed(h[w := links])
    requires Rewrites(Tree(h, w), Tree(h[w := links], w))
    ensures Preserves(h, h[w := links])
  {
    forall x: Value | x in h
      ensures Rewrites(Tree(h, x), Tree(h[w := links], x))
    {
      RewireKeeps(h, w, links, x);
    }
  }

  lemma RewireCloses(h: Heap, w: Value, links: Links)
    requires Closed(h) && w in h
    requires Below(h, links.left, w.rank) && Below(h, links.right, w.rank)
    ensures Closed(h[w := links])
  {
    var h' := h[w := links];
    forall v | v in h'
      ensures NodeClosed(h', v)
    {
      assert NodeClosed(h, v);
    }
  }

  /** A new node over existing ones, arguments included, changes no meaning. */
  lemma AddNode(h: Heap, n: Value, links: Links)
    requires Closed(h) && n !in h
    requires Below(h, links.left, n.rank) && Below(h, links.right, n.rank)
    requires forall i {:trigger n.args[i]} :: 0 <= i < |n.args| ==> Below(h, n.args[i], n.rank)
    ensures Closed(h[n := links]) && Preserves(h, h[n := links])
    ensures forall x: Value {:trigger Tree(h, x)} {:trigger Tree(h[n := links], x)} :: x in h ==>
              Tree(h[n := links], x) == Tree(h, x)
  {
    var h' := h[n := links];
    forall v | v in h'
      ensures NodeClosed(h', v)
    {
      if v != n {
        assert NodeClosed(h, v);
      }
    }
    forall x: Value | x in h
      ensures Tree(h', x) == Tree(h, x)
    {
      TreeLocal(h, h', x.rank + 1, x);
    }
    hide Tree;
    forall x: Value | x in h
      ensures Rewrites(Tree(h, x), Tree(h', x))
    {
      RewritesSelf(Tree(h, x));
    }
  }

  // ---------------------------------------------------------------- what is simple stays

  /** Nodes that are simple keep their skeleton. */
  ghost predicate KeepsSimple(h: Heap, h': Heap)
    requires Closed(h) && Closed(h')
  {
    forall x: Value {:trigger Tree(h, x)} {:trigger Tree(h', x)} {:trigger x in h'} :: x in h && Simple(Tree(h, x)) ==>
      x in h' && Skeleton(Tree(h', x)) == Skeleton(Tree(h, x))
  }

  lemma KeepsSimpleTransitive(h: Heap, h': Heap, h'': Heap)
    requires Closed(h) && Closed(h') && Closed(h'')
    requires KeepsSimple(h, h') && KeepsSimple(h', h'')
    ensures KeepsSimple(h, h'')
  {
    forall x: Value | x in h && Simple(Tree(h, x))
      ensures x in h'' && Skeleton(Tree(h'', x)) == Skeleton(Tree(h, x))
    {
      assert x in h' && Skeleton(Tree(h', x)) == Skeleton(Tree(h, x));
      SimpleIsAboutSkeleton(Tree(h, x));
      SimpleIsAboutSkeleton(Tree(h', x));
    }
  }

  /** Rewiring a node that is not simple changes no simple node. */
  lemma {:induction false} RewireSparesSimple(h: Heap, w: Value, links: Links, x: Value)
    requires Closed(h) && w in h && Closed(h[w := links])
    requires !Simple(Tree(h, w))
    requires x in h && Simple(Tree(h, x))
    ensures Skeleton(Tree(h[w := links], x)) == Skeleton(Tree(h, x))
    decreases x.rank
  {
    var h' := h[w := links];
    assert x != w && NodeClosed(h, x) && h'[x] == h[x];
    match x.kind
    case KOp =>
      if h[x].left != null {
        RewireSparesSimple(h, w, links, h[x].left);
      }
      if h[x].right != null {
        RewireSparesSimple(h, w, links, h[x].right);
      }
    case KUnary =>
      if h[x].left != null {
        RewireSparesSimple(h, w, links, h[x].left);
      }
    case _ =>
  }

  lemma RewireKeepsSimple(h: Heap, w: Value, links: Links)
    requires Closed(h) && w in h && Closed(h[w := links])
    requires links == h[w] || !Simple(Tree(h, w))
    ensures KeepsSimple(h, h[w := links])
  {
    if links == h[w] {
      assert h[w := links] == h;
    } else {
      forall x: Value | x in h && Simple(Tree(h, x))
        ensures Skeleton(Tree(h[w := links], x)) == Skeleton(Tree(h, x))
      {
        RewireSparesSimple(h, w, links, x);
      }
    }
  }
}

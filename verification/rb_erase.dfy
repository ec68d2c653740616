/**
 Removing a node: __rb_erase_augmented and rb_erase.
 */
module RbRemove {
  import opened RbModel
  import opened RbLinks
  import opened RbRecolor

  /** The path `inner`, inside the hole of `outer`. */
  function Append(inner: Ctx, outer: Ctx): Ctx {
    if inner.Top? then outer else inner.(up := Append(inner.up, outer))
  }

  lemma {:induction false} AppendShape(h: Heap, root: RbNode?, inner: Ctx, outer: Ctx, t: Tree)
    ensures Shape(h, root, Append(inner, outer), t) <==> Shape(h, root, outer, Plug(inner, t))
    ensures All(Append(inner, outer), t) == All(outer, Plug(inner, t))
    ensures Seq(Append(inner, outer), t) == Seq(outer, Plug(inner, t))
    decreases inner
  {
    hide Shape, All, Seq;
    if inner.Hole? {
      ShapeUp(h, root, Append(inner, outer), t);
      SeqUp(Append(inner, outer), t);
      AppendShape(h, root, inner.up, outer, Mk(inner.side, inner.color, t, inner.node, inner.sib));
    }
  }

  /** The colour rules do not depend on which node stands where. */
  lemma {:induction false} AppendOk(inner: Ctx, o: Ctx, o': Ctx, bh: nat)
    requires o.Hole? && o'.Hole? && o' == o.(node := o'.node)
    requires CtxOk(Append(inner, o), bh)
    ensures CtxOk(Append(inner, o'), bh)
    decreases inner
  {
    if inner.Hole? {
      AppendOk(inner.up, o, o', if inner.color == Red then bh else bh + 1);
    }
  }

  lemma LeafFacts(h: Heap, p: RbNode?)
    ensures Nodes(Leaf) == {} && Proper(Leaf) && In(h, Leaf, p) && Inorder(Leaf) == []
  {
  }

  /** A node with at most one child is taken out, and the child takes its place with colour `c'`. */
  lemma {:induction false} Lifted(h: Heap, h': Heap, root: RbNode?, root': RbNode?, ctx: Ctx, s: Side,
                                  c: Color, n: RbNode, x: Tree, c': Color)
    requires Shape(h, root, ctx, Mk(s, c, Leaf, n, x))
    requires SameBut(h, h', n, Root(x), Parent(ctx), null)
    requires x.Node? && x.node in h && x.node in h' ==> h'[x.node] == h[x.node].(parent := Parent(ctx), color := c')
    requires ctx.Hole? && ctx.node in h && ctx.node in h' ==> h'[ctx.node] == SetKid(h[ctx.node], ctx.side, Root(x))
    requires root' == if ctx.Top? then Root(x) else root
    ensures var x' := if x.Leaf? then Leaf else x.(color := c');
            && Shape(h', root', ctx, x')
            && All(ctx, x') == All(ctx, Mk(s, c, Leaf, n, x)) - {n}
            && Seq(ctx, x') == Before(ctx) + Inorder(x) + After(ctx)
            && n !in All(ctx, x')
  {
    assert x.Node? ==> Inorder(x.(color := c')) == Inorder(x);
    hide Nodes, CtxNodes, In, CtxIn, Proper, CtxProper, Inorder;
    NodeFacts(h, root, ctx, s, c, Leaf, n, x);
    MkParts(s, c, Leaf, n, x);
    if x.Node? {
      Recolored(h, h', x, n, Parent(ctx), c', n, x.node, Parent(ctx));
    }
    assert Nodes(Leaf) == {} && Proper(Leaf) && In(h', Leaf, Parent(ctx)) by { LeafFacts(h', Parent(ctx)); }
    CtxKept(h, h', ctx, n, Root(x), root, root', n, Root(x), null);
  }

  /** The cells once node `s` is put in the place of `n`. */
  ghost predicate ReplacedCells(h: Heap, h': Heap, root: RbNode?, root': RbNode?, ctx: Ctx,
                                c: Color, l: RbNode?, n: RbNode, r: RbNode?, s: RbNode) {
    && h'.Keys == h.Keys && s in h && h'[s] == Cell(Parent(ctx), c, l, r)
    && (forall m :: m in h && m != n && m != s && m != l && m != r && m != Parent(ctx) ==> h'[m] == h[m])
    && (l != null && l in h ==> h'[l] == h[l].(parent := s))
    && (r != null && r in h ==> h'[r] == h[r].(parent := s))
    && (ctx.Hole? && ctx.node in h ==> h'[ctx.node] == SetKid(h[ctx.node], ctx.side, s))
    && root' == if ctx.Top? then s else root
  }

  /** Node `s` is put in the place of `n`. */
  lemma {:induction false} Replaced(h: Heap, h': Heap, root: RbNode?, root': RbNode?, ctx: Ctx,
                                    c: Color, l: Tree, n: RbNode, r: Tree, s: RbNode)
    requires Shape(h, root, ctx, Node(c, l, n, r)) && s !in All(ctx, Node(c, l, n, r))
    requires ReplacedCells(h, h', root, root', ctx, c, Root(l), n, Root(r), s)
    ensures Shape(h', root', ctx, Node(c, l, s, r))
    ensures All(ctx, Node(c, l, s, r)) == All(ctx, Node(c, l, n, r)) - {n} + {s}
  {
    hide CtxNodes, In, CtxIn, Proper, CtxProper, Nodes;
    NodeFacts(h, root, ctx, L, c, l, n, r);
    InNodes(h, l, n);
    InNodes(h, r, n);
    CtxInNodes(h, ctx, n, root);
    MkParts(L, c, l, n, r);
    MkParts(L, c, l, s, r);
    InMoved(h, h', l, n, s);
    InMoved(h, h', r, n, s);
    CtxMoved(h, h', ctx, n, s, root, root');
    InParts(h', L, c, l, s, r, Parent(ctx));
  }

  /** The successor's right child, as it is left behind: black if there is one. */
  function LeftBehind(x: Tree): Tree {
    if x.Leaf? then Leaf else x.(color := Black)
  }

  /** The pointers once node `n` has been replaced by its successor `s`, found at `inner` under its right child. */
  ghost predicate SplicedHeap(h: Heap, h': Heap, ctx: Ctx, c: Color, l: Tree, n: RbNode, inner: Ctx, s: RbNode,
                              x: Tree, child: RbNode)
  {
    && h'.Keys == h.Keys && s in h && l.Node? && l.node in h && child in h
    && h'[s] == Cell(Parent(ctx), c, l.node, if inner.Top? then Root(x) else child)
    && h'[l.node] == h[l.node].(parent := s)
    && (ctx.Hole? ==> ctx.node in h && h'[ctx.node] == SetKid(h[ctx.node], ctx.side, s))
    && (x.Node? ==>
          x.node in h && h'[x.node] == h[x.node].(parent := if inner.Top? then s else inner.node, color := Black))
    && (inner.Hole? ==>
          && inner.node in h && h'[inner.node].left == Root(x) && h'[child].parent == s
          && (inner.node == child ==> h'[child] == h[child].(parent := s, left := Root(x)))
          && (inner.node != child ==>
              h'[child] == h[child].(parent := s) && h'[inner.node] == h[inner.node].(left := Root(x))))
    && (forall m :: m in h && m != n && m != s && m != l.node && m != Parent(ctx) && m != Root(x) ==>
           (inner.Hole? ==> m != child && m != inner.node) ==> h'[m] == h[m])
  }

  lemma {:induction false} PlugRoot(inner: Ctx, t: Tree, t': Tree)
    requires Root(t) == Root(t') || inner.Hole?
    ensures Root(Plug(inner, t)) == Root(Plug(inner, t'))
    ensures inner.Hole? ==> Plug(inner, t).Node?
    decreases inner
  {
    if inner.Hole? {
      PlugRoot(inner.up, Mk(inner.side, inner.color, t, inner.node, inner.sib),
               Mk(inner.side, inner.color, t', inner.node, inner.sib));
    }
  }

  /** Every node of the tree around the hole is a node of the tree. */
  lemma {:induction false} AppendNodes(inner: Ctx, outer: Ctx)
    ensures CtxNodes(Append(inner, outer)) == CtxNodes(inner) + CtxNodes(outer)
    decreases inner
  {
    if inner.Hole? { AppendNodes(inner.up, outer); }
  }

  /** The heap once the successor alone has been taken out. */
  ghost function TakenOut(h: Heap, n: RbNode, inner: Ctx, x: Tree): Heap
    requires (if inner.Top? then n else inner.node) in h && (x.Node? ==> x.node in h)
  {
    var p := if inner.Top? then n else inner.node;
    var h0 := h[p := SetKid(h[p], if inner.Top? then R else inner.side, Root(x))];
    if x.Leaf? then h0 else h0[x.node := h0[x.node].(parent := p, color := Black)]
  }

  lemma {:induction false} Names(h: Heap, root: RbNode?, ctx: Ctx, c: Color, l: Tree, n: RbNode,
                                 inner: Ctx, sc: Color, s: RbNode, x: Tree)
    requires Shape(h, root, ctx, Node(c, l, n, Plug(inner, Node(sc, Leaf, s, x))))
    ensures var cs, t := Append(inner, Hole(R, c, n, l, ctx)), Node(c, l, n, Plug(inner, Node(sc, Leaf, s, x)));
            && Shape(h, root, cs, Node(sc, Leaf, s, x)) && All(cs, Node(sc, Leaf, s, x)) == All(ctx, t)
               && s in All(ctx, t)
            && cs.Hole? && cs.node == (if inner.Top? then n else inner.node)
               && cs.side == (if inner.Top? then R else inner.side)
            && cs.node in h && (x.Node? ==> x.node in h) && s in h
    ensures s != n && s != Root(x) && n != Root(x)
    ensures inner.Hole? ==> inner.node != s && inner.node != n && inner.node != Root(x)
  {
    var u, o, t := Plug(inner, Node(sc, Leaf, s, x)), Hole(R, c, n, l, ctx), Node(sc, Leaf, s, x);
    var cs := Append(inner, o);
    ShapeUp(h, root, o, u);
    AppendShape(h, root, inner, o, t);
    if inner.Hole? { AppendNodes(inner.up, o); }
    NodeFacts(h, root, cs, L, sc, Leaf, s, x);
    MkParts(L, sc, Leaf, s, x);
    assert n in CtxNodes(cs) && s in All(cs, t);
  }

  lemma {:induction false} SplicedOut(h: Heap, root: RbNode?, ctx: Ctx, c: Color, l: Tree, n: RbNode,
                                      inner: Ctx, sc: Color, s: RbNode, x: Tree)
    requires Shape(h, root, ctx, Node(c, l, n, Plug(inner, Node(sc, Leaf, s, x))))
    ensures (if inner.Top? then n else inner.node) in h && (x.Node? ==> x.node in h) && s in h
    ensures s != n && s != Root(x) && n != Root(x) && (inner.Hole? ==> inner.node != s && inner.node != n)
    ensures var t, b := Node(c, l, n, Plug(inner, Node(sc, Leaf, s, x))), Plug(inner, LeftBehind(x));
            Shape(TakenOut(h, n, inner, x), root, ctx, Node(c, l, n, b))
            && s !in All(ctx, Node(c, l, n, b)) && All(ctx, Node(c, l, n, b)) == All(ctx, t) - {s} && s in All(ctx, t)
  {
    hide Shape, Seq, Nodes, CtxNodes, All;
    var u, b := Plug(inner, Node(sc, Leaf, s, x)), LeftBehind(x);
    var o := Hole(R, c, n, l, ctx);
    var cs := Append(inner, o);
    Names(h, root, ctx, c, l, n, inner, sc, s, x);
    var h1 := TakenOut(h, n, inner, x);
    assert x.Node? ==> h1[x.node] == h[x.node].(parent := Parent(cs), color := Black);
    assert SameBut(h, h1, s, Root(x), Parent(cs), null);
    Lifted(h, h1, root, root, cs, L, sc, s, x, Black);
    AppendShape(h1, root, inner, o, b);
    ShapeUp(h1, root, o, Plug(inner, b));
  }

  lemma {:induction false} SplicedCells(h: Heap, h': Heap, root: RbNode?, root': RbNode?, ctx: Ctx, c: Color, l: Tree,
                                        n: RbNode,
                                        inner: Ctx, s: RbNode, x: Tree, child: RbNode, b: RbNode?)
    requires (if inner.Top? then n else inner.node) in h && (x.Node? ==> x.node in h)
    requires s != n && s != Root(x) && n != Root(x)
             && (inner.Hole? ==> inner.node != s && inner.node != n && inner.side == L)
    requires b == if inner.Hole? then child else Root(x)
    requires var h1 := TakenOut(h, n, inner, x);
             && n in h1 && h1[n] == MkCell(Parent(ctx), c, L, Root(l), b)
             && (l.Node? ==> l.node in h1 && h1[l.node].parent == n && l.node != b)
             && (b != null ==> b in h1 && h1[b].parent == n)
             && (ctx.Hole? ==> ctx.node in h1 && ctx.node != n && ctx.node != b && ctx.node != Root(l))
    requires SplicedHeap(h, h', ctx, c, l, n, inner, s, x, child)
    requires root' == if ctx.Top? then s else root
    ensures ReplacedCells(TakenOut(h, n, inner, x), h', root, root', ctx, c, Root(l), n, b, s)
  {
  }

  lemma PlugTop(t: Tree)
    ensures Plug(Top, t) == t
  {
  }

  lemma {:induction false} SplicedIn(h: Heap, h': Heap, root: RbNode?, root': RbNode?, ctx: Ctx, c: Color, l: Tree,
                                     n: RbNode,
                                     inner: Ctx, sc: Color, s: RbNode, x: Tree, child: RbNode)
    requires var u, b := Plug(inner, Node(sc, Leaf, s, x)), Plug(inner, LeftBehind(x));
             && (if inner.Top? then n else inner.node) in h && (x.Node? ==> x.node in h)
             && s != n && s != Root(x) && n != Root(x) && (inner.Hole? ==> inner.node != s && inner.node != n)
             && Shape(TakenOut(h, n, inner, x), root, ctx, Node(c, l, n, b))
             && s !in All(ctx, Node(c, l, n, b)) && (inner.Hole? ==> Root(b) == child && inner.side == L)
    requires SplicedHeap(h, h', ctx, c, l, n, inner, s, x, child)
    requires root' == if ctx.Top? then s else root
    ensures var b := Plug(inner, LeftBehind(x));
            Shape(h', root', ctx, Node(c, l, s, b))
              && All(ctx, Node(c, l, s, b)) == All(ctx, Node(c, l, n, b)) - {n} + {s}
  {
    var b := Plug(inner, LeftBehind(x));
    var h1 := TakenOut(h, n, inner, x);
    NodeFacts(h1, root, ctx, L, c, l, n, b);
    hide Shape, All, Seq, Plug, SplicedHeap, ReplacedCells, TakenOut;
    if inner.Top? { PlugTop(LeftBehind(x)); }
    SplicedCells(h, h', root, root', ctx, c, l, n, inner, s, x, child, Root(b));
    Replaced(h1, h', root, root', ctx, c, l, n, b, s);
  }

  lemma {:induction false} Spliced(h: Heap, h': Heap, root: RbNode?, root': RbNode?, ctx: Ctx, c: Color, l: Tree,
                                   n: RbNode,
                                   inner: Ctx, sc: Color, s: RbNode, x: Tree, child: RbNode)
    requires var u := Plug(inner, Node(sc, Leaf, s, x));
             Shape(h, root, ctx, Node(c, l, n, u)) && Root(u) == child
    requires inner.Hole? ==> inner.side == L
    requires SplicedHeap(h, h', ctx, c, l, n, inner, s, x, child)
    requires root' == if ctx.Top? then s else root
    ensures var r, t := Append(inner, Hole(R, c, s, l, ctx)), Node(c, l, n, Plug(inner, Node(sc, Leaf, s, x)));
            Shape(h', root', r, LeftBehind(x)) && All(r, LeftBehind(x)) == All(ctx, t) - {n}
  {
    hide Shape, All, Seq;
    var u, b := Plug(inner, Node(sc, Leaf, s, x)), LeftBehind(x);
    SplicedOut(h, root, ctx, c, l, n, inner, sc, s, x);
    if inner.Hole? { PlugRoot(inner, Node(sc, Leaf, s, x), b); }
    SplicedIn(h, h', root, root', ctx, c, l, n, inner, sc, s, x, child);
    var o' := Hole(R, c, s, l, ctx);
    ShapeUp(h', root', o', Plug(inner, b));
    AppendShape(h', root', inner, o', b);
  }

  /** What the colour rules say of a node with at most one child. */
  lemma {:induction false} OneChild(ctx: Ctx, s: Side, c: Color, n: RbNode, x: Tree, bh: nat)
    requires Ok(Mk(s, c, Leaf, n, x), bh) && CtxOk(ctx, bh) && Edge(ctx, Mk(s, c, Leaf, n, x))
    ensures x.Node? ==> c == Black && bh == 1 && Ok(x.(color := Black), 1)
    ensures x.Leaf? && c == Red ==> bh == 0
    ensures x.Leaf? && c == Black ==> bh == 1
    ensures Ok(Leaf, 0) && IsBlack(Leaf) && RB(Leaf)
  {
    OkMk(s, c, Leaf, n, x, bh);
  }

  /** What is left after a removal: a whole tree, or an empty subtree under `rebalance` that is one black node short. */
  ghost predicate Erased(h: Heap, root: RbNode?, rebalance: RbNode?, ctx: Ctx, t: Tree) {
    && Shape(h, root, ctx, t)
    && (rebalance == null ==> ctx.Top? && RB(t))
    && (rebalance != null ==> ctx.Hole? && ctx.node == rebalance && t.Leaf? && CtxOk(ctx, 1))
  }

  /** The tree is whole when the removed node was red or left a child, or was the root. */
  lemma {:induction false} Finish(h: Heap, root: RbNode?, ctx: Ctx, t: Tree, bh: nat) returns (r: Tree)
    requires Shape(h, root, ctx, t) && CtxOk(ctx, bh) && IsBlack(t)
    requires Ok(t, bh) || (t.Leaf? && ctx.Top?)
    ensures Shape(h, root, Top, r) && RB(r) && All(Top, r) == All(ctx, t) && Seq(Top, r) == Seq(ctx, t)
  {
    if Ok(t, bh) {
      r := Whole(h, root, ctx, t, bh);
      TopSeq(r);
    } else {
      r := Leaf;
    }
  }

  /** Case 1, for either side: the node has no child on side `s`; `child` is its other child, if any. */
  method EraseOneChild(node: RbNode, child: RbNode?, root: RbRoot, ghost ns: set<RbNode>,
                       ghost ctx: Ctx, ghost s: Side, ghost c: Color, ghost x: Tree, ghost bh: nat)
    returns (rebalance: RbNode?, ghost c': Ctx, ghost t': Tree)
    requires Shape(Snap(ns), root.node, ctx, Mk(s, c, Leaf, node, x)) && child == Root(x)
    requires Ok(Mk(s, c, Leaf, node, x), bh) && CtxOk(ctx, bh) && Edge(ctx, Mk(s, c, Leaf, node, x))
    modifies root, ns
    ensures Erased(Snap(ns), root.node, rebalance, c', t')
    ensures All(c', t') == All(ctx, Mk(s, c, Leaf, node, x)) - {node}
    ensures Seq(c', t') == Before(ctx) + Inorder(x) + After(ctx)
  {
    hide Shape, Snap, Nodes, CtxNodes, In, CtxIn, Proper, CtxProper, All, Seq, Ok, CtxOk, RB, Plug, Inorder, Edge;
    ghost var h, r0 := Snap(ns), root.node;
    NodeFacts(h, r0, ctx, s, c, Leaf, node, x);
    OneChild(ctx, s, c, node, x, bh);
    var parent, color := node.parent, node.color;
    ChangeChild(node, child, parent, root);
    if child != null {
      child.parent, child.color := parent, color;
      rebalance := null;
    } else {
      rebalance := if color == Black then parent else null;
    }
    ghost var x' := if x.Leaf? then Leaf else x.(color := c);
    Lifted(h, Snap(ns), r0, root.node, ctx, s, c, node, x, c);
    c', t' := ctx, x';
    if rebalance == null {
      c' := Top;
      t' := Finish(Snap(ns), root.node, ctx, x', bh);
    }
  }

  /** The search for the successor: `t` is the subtree in hand, at `inner` under the right child `u`. */
  ghost predicate Searching(h: Heap, root: RbNode?, outer: Ctx, u: Tree, inner: Ctx, t: Tree, bh: nat) {
    && Shape(h, root, Append(inner, outer), t) && Plug(inner, t) == u && Before(inner) == []
    && CtxOk(Append(inner, outer), bh) && Ok(t, bh) && Edge(Append(inner, outer), t)
  }

  lemma {:induction false} SearchStart(h: Heap, root: RbNode?, outer: Ctx, u: Tree, bh: nat)
    requires Shape(h, root, outer, u) && u.Node? && CtxOk(outer, bh) && Ok(u, bh) && Edge(outer, u)
    ensures Searching(h, root, outer, u, Top, u, bh) && u.node in h && h[u.node].left == Root(u.left)
  {
    Above(h, root, outer, u);
  }

  /** One step to the left. */
  lemma {:induction false} SearchStep(h: Heap, root: RbNode?, outer: Ctx, u: Tree, inner: Ctx, t: Tree, bh: nat)
    returns (bh': nat)
    requires Searching(h, root, outer, u, inner, t, bh) && t.Node? && t.left.Node?
    ensures Searching(h, root, outer, u, Hole(L, t.color, t.node, t.right, inner), t.left, bh')
    ensures t.left.node in h && h[t.left.node].left == Root(t.left.left)
  {
    hide Shape, Nodes, CtxNodes;
    var i' := Hole(L, t.color, t.node, t.right, inner);
    bh' := if t.color == Red then bh else bh - 1;
    ShapeUp(h, root, Append(i', outer), t.left);
    Above(h, root, Append(i', outer), t.left);
  }

  lemma SearchEnd(h: Heap, root: RbNode?, outer: Ctx, u: Tree, inner: Ctx, t: Tree, bh: nat)
    requires Searching(h, root, outer, u, inner, t, bh)
    ensures Plug(inner, t) == u && Before(inner) == [] && CtxOk(Append(inner, outer), bh) && Ok(t, bh)
    ensures Shape(h, root, Append(inner, outer), t)
  {
  }

  /** The leftmost node under `child`, which has a left child: the do-while loop of case 3. */
  method FindSuccessor(child: RbNode, ghost root: RbNode?, ghost ns: set<RbNode>, ghost outer: Ctx, ghost u: Tree,
                       ghost bh0: nat)
    returns (parent: RbNode, successor: RbNode, ghost inner: Ctx, ghost t: Tree, ghost bh: nat)
    requires Shape(Snap(ns), root, outer, u) && u.Node? && u.node == child && u.left.Node?
    requires CtxOk(outer, bh0) && Ok(u, bh0) && Edge(outer, u)
    ensures Plug(inner, t) == u && inner.Hole? && inner.node == parent && inner.side == L && Before(inner) == []
    ensures t.Node? && t.left.Leaf? && t.node == successor
    ensures CtxOk(Append(inner, outer), bh) && Ok(t, bh)
    ensures Shape(Snap(ns), root, Append(inner, outer), t)
  {
    hide Snap, Searching, Shape, CtxOk, Ok, Edge, Plug, Before, Append;
    ghost var h := Snap(ns);
    SearchStart(h, root, outer, u, bh0);
    var tmp: RbNode? := child.left;
    parent, successor := child, child;
    inner, t, bh := Top, u, bh0;
    while tmp != null
      invariant Searching(h, root, outer, u, inner, t, bh) && t.Node? && t.node == successor && tmp == Root(t.left)
      invariant inner.Top? ==> t == u
      invariant inner.Hole? ==> inner.node == parent && inner.side == L
      decreases t
    {
      parent := successor;
      successor := tmp;
      bh := SearchStep(h, root, outer, u, inner, t, bh);
      inner, t := Hole(L, t.color, t.node, t.right, inner), t.left;
      tmp := tmp.left;
    }
    SearchEnd(h, root, outer, u, inner, t, bh);
  }

  lemma OverRight(ctx: Ctx, t: Tree, bh: nat)
    requires t.Node? && Ok(t, bh) && CtxOk(ctx, bh) && Edge(ctx, t)
    ensures t.color == Black ==> bh > 0
    ensures var bu := if t.color == Red then bh else bh - 1;
            CtxOk(Hole(R, t.color, t.node, t.left, ctx), bu) && Ok(t.right, bu)
    ensures Edge(Hole(R, t.color, t.node, t.left, ctx), t.right)
  {
  }

  /** The part common to cases 2 and 3: the successor takes the node's place. */
  method TakePlace(node: RbNode, successor: RbNode, child2: RbNode?, parent: RbNode, root: RbRoot)
    returns (rebalance: RbNode?)
    requires node != successor && node.left != null && node.left != successor && node.left != node
             && node.left != node.parent
    requires node.parent != node && node.parent != successor
    requires child2 != null ==> child2 != node && child2 != successor && child2 != node.left && child2 != node.parent
    modifies root, successor`left, successor`parent, successor`color, node.left`parent, node.parent, child2
    ensures successor.left == node.left && node.left.parent == successor
    ensures successor.parent == old(node.parent) && successor.color == old(node.color)
    ensures root.node == if old(node.parent) == null then successor else old(root.node)
    ensures var p := old(node.parent); p != null ==>
              && p.parent == old(node.parent.parent) && p.color == old(node.parent.color)
              && (if old(node.parent.left) == node then p.left == successor && p.right == old(node.parent.right)
                  else p.right == successor && p.left == old(node.parent.left))
    ensures child2 != null ==>
              child2.parent == parent && child2.color == Black && child2.left == old(child2.left)
              && child2.right == old(child2.right)
    ensures rebalance == if child2 == null && old(successor.color) == Black then parent else null
  {
    var tmp := node.left;
    successor.left := tmp;
    tmp.parent := successor;
    var pcParent, pcColor := node.parent, node.color;
    tmp := pcParent;
    ChangeChild(node, successor, tmp, root);
    if child2 != null {
      successor.parent, successor.color := pcParent, pcColor;
      child2.parent, child2.color := parent, Black;
      rebalance := null;
    } else {
      var pc2 := successor.color;
      successor.parent, successor.color := pcParent, pcColor;
      rebalance := if pc2 == Black then parent else null;
    }
  }

  /** TakePlace as a change of the heap, for a node that stands in the focus of a tree. */
  ghost predicate Taken(h: Heap, h': Heap, ctx: Ctx, n: RbNode, s: RbNode, l: RbNode, child2: RbNode?, parent: RbNode) {
    && SameBut(h, h', s, l, Parent(ctx), child2)
    && n in h && s in h && s in h' && h'[s] == Cell(Parent(ctx), h[n].color, l, h[s].right)
    && l in h && l in h' && h'[l] == h[l].(parent := s)
    && (ctx.Hole? ==> ctx.node in h && ctx.node in h' && h'[ctx.node] == SetKid(h[ctx.node], ctx.side, s))
    && (child2 != null ==> child2 in h && child2 in h' && h'[child2] == h[child2].(parent := parent, color := Black))
  }

  method TakePlaceIn(node: RbNode, successor: RbNode, child2: RbNode?, parent: RbNode, root: RbRoot,
                     ghost ns: set<RbNode>,
                     ghost ctx: Ctx) returns (rebalance: RbNode?)
    requires node in ns && successor in ns && node != successor && node.parent == Parent(ctx)
    requires node.left != null && node.left in ns && node.left != successor && node.left != node
             && node.left != Parent(ctx)
    requires ctx.Hole? ==>
               ctx.node in ns && ctx.node != node && ctx.node != successor && (ctx.node.left == node <==> ctx.side == L)
    requires child2 != null ==>
               child2 in ns && child2 != node && child2 != successor && child2 != node.left && child2 != Parent(ctx)
    modifies root, ns
    ensures Taken(old(Snap(ns)), Snap(ns), ctx, node, successor, old(node.left), child2, parent)
    ensures root.node == if ctx.Top? then successor else old(root.node)
    ensures rebalance == if child2 == null && old(successor.color) == Black then parent else null
  {
    hide Snap;
    rebalance := TakePlace(node, successor, child2, parent, root);
  }

  /** The first stores of case 3. */
  ghost predicate DeepStored(h: Heap, h': Heap, parent: RbNode, s: RbNode, child: RbNode, child2: RbNode?) {
    && SameBut(h, h', parent, s, child, null)
    && s in h && s in h' && h'[s] == h[s].(right := child)
    && parent in h && parent in h' && child in h && child in h'
    && (if parent == child then h'[child] == h[child].(parent := s, left := child2)
        else h'[child] == h[child].(parent := s) && h'[parent] == h[parent].(left := child2))
  }

  method StoreDeep(parent: RbNode, successor: RbNode, child: RbNode, ghost ns: set<RbNode>) returns (child2: RbNode?)
    requires parent in ns && successor in ns && child in ns && parent != successor && child != successor
    modifies ns
    ensures child2 == old(successor.right)
    ensures DeepStored(old(Snap(ns)), Snap(ns), parent, successor, child, child2)
  {
    hide Snap;
    child2 := successor.right;
    parent.left := child2;
    successor.right := child;
    child.parent := successor;
  }

  /** What TakePlace reads after the first stores. */
  lemma DeepReads(h: Heap, h1: Heap, n: RbNode, l: RbNode, ctx: Ctx, parent: RbNode, s: RbNode, child: RbNode,
                  child2: RbNode?)
    requires DeepStored(h, h1, parent, s, child, child2) && n in h && l in h && n != parent && n != s && n != child
    requires ctx.Hole? ==> ctx.node in h && ctx.node != parent && ctx.node != s && ctx.node != child
    ensures n in h1 && h1[n] == h[n] && l in h1 && s in h1 && h1[s].color == h[s].color
    ensures ctx.Hole? ==> ctx.node in h1 && h1[ctx.node] == h[ctx.node]
    ensures child2 != null && child2 in h ==> child2 in h1
  {
  }

  lemma {:induction false} DeepSpliced(h: Heap, h1: Heap, h2: Heap, ctx: Ctx, c: Color, l: Tree, n: RbNode,
                                       inner: Ctx, sc: Color, s: RbNode, x: Tree, child: RbNode)
    requires inner.Hole? && inner.side == L && l.Node? && DeepStored(h, h1, inner.node, s, child, Root(x))
    requires Taken(h1, h2, ctx, n, s, l.node, Root(x), inner.node)
    requires n in h && n != s && n != inner.node && n != child && h[n].color == c && inner.node != s && child != s
    requires Root(x) != s && Root(x) != inner.node && Root(x) != child && l.node != inner.node && l.node != child
             && l.node != s
    requires Parent(ctx) != inner.node && Parent(ctx) != child && Parent(ctx) != s && Parent(ctx) != l.node
    requires x.Node? ==> x.node in h && x.node != l.node && x.node != Parent(ctx)
    ensures SplicedHeap(h, h2, ctx, c, l, n, inner, s, x, child)
  {
  }

  lemma AboveHole(h: Heap, root: RbNode?, ctx: Ctx, t: Tree)
    requires Shape(h, root, ctx, t) && ctx.Hole?
    ensures ctx.node in h && h[ctx.node] == MkCell(Parent(ctx.up), ctx.color, ctx.side, Root(t), Root(ctx.sib))
  {
  }

  lemma {:induction false} PlugNodes(inner: Ctx, t: Tree)
    ensures Nodes(Plug(inner, t)) == Nodes(t) + CtxNodes(inner)
    decreases inner
  {
    if inner.Hole? {
      MkParts(inner.side, inner.color, t, inner.node, inner.sib);
      PlugNodes(inner.up, Mk(inner.side, inner.color, t, inner.node, inner.sib));
    }
  }

  /** The root of a tree with a path in it is a node of the path. */
  lemma {:induction false} PlugTop2(inner: Ctx, t: Tree)
    requires inner.Hole?
    ensures Root(Plug(inner, t)) in CtxNodes(inner)
    decreases inner
  {
    if inner.up.Hole? {
      PlugTop2(inner.up, Mk(inner.side, inner.color, t, inner.node, inner.sib));
    }
  }

  /** What the heap holds at the nodes that a splice touches, which are all different. */
  lemma {:induction false} Apart(h: Heap, root: RbNode?, ctx: Ctx, c: Color, l: Tree, n: RbNode,
                                 inner: Ctx, sc: Color, s: RbNode, x: Tree, child: RbNode)
    requires Shape(h, root, ctx, Node(c, l, n, Plug(inner, Node(sc, Leaf, s, x)))) && l.Node?
    requires Root(Plug(inner, Node(sc, Leaf, s, x))) == child
    ensures n in h && h[n] == Cell(Parent(ctx), c, l.node, child)
    ensures s in h && h[s] == Cell(if inner.Top? then n else inner.node, sc, null, Root(x))
    ensures child in h && l.node in h && h[child].parent == n && (inner.Top? ==> child == s)
    ensures inner.Hole? ==>
              var above := if inner.up.Top? then n else inner.up.node;
              inner.node in h && h[inner.node] == MkCell(above, inner.color, inner.side, s, Root(inner.sib))
    ensures inner.Hole? ==>
              inner.node != s && inner.node != n && inner.node != Root(x) && inner.node != l.node
              && inner.node != Parent(ctx)
    ensures inner.Hole? ==> child != s && child != Root(x)
    ensures x.Node? ==> x.node in h && x.node != s && x.node != n && x.node != l.node && x.node != Parent(ctx)
    ensures s != n && s != l.node && s != Parent(ctx) && n != l.node && n != Parent(ctx) && n != child
    ensures child != l.node && child != Parent(ctx) && l.node != Parent(ctx)
    ensures ctx.Hole? ==> ctx.node in h && (h[ctx.node].left == n <==> ctx.side == L)
  {
    var cs, t, u := Append(inner, Hole(R, c, n, l, ctx)), Node(sc, Leaf, s, x), Plug(inner, Node(sc, Leaf, s, x));
    NodeFacts(h, root, ctx, L, c, l, n, u);
    Names(h, root, ctx, c, l, n, inner, sc, s, x);
    NodeFacts(h, root, cs, L, sc, Leaf, s, x);
    PlugNodes(inner, t);
    MkParts(L, sc, Leaf, s, x);
    if inner.Hole? {
      PlugRoot(inner, t, Leaf);
      assert Root(inner.sib) != null ==> Root(inner.sib) in CtxNodes(inner);
      PlugTop2(inner, t);
      AboveHole(h, root, cs, t);
    }
  }

  /** Case 2: the successor is the node's right child. */
  method EraseRightIsSuccessor(node: RbNode, successor: RbNode, root: RbRoot, ghost ns: set<RbNode>,
                               ghost ctx: Ctx, ghost c: Color, ghost l: Tree, ghost sc: Color,
                                   ghost x: Tree) returns (rebalance: RbNode?)
    requires Shape(Snap(ns), root.node, ctx, Node(c, l, node, Node(sc, Leaf, successor, x))) && l.Node?
    modifies root, ns
    ensures SplicedHeap(old(Snap(ns)), Snap(ns), ctx, c, l, node, Top, successor, x, successor)
    ensures root.node == if ctx.Top? then successor else old(root.node)
    ensures rebalance == if x.Leaf? && sc == Black then successor else null
  {
    PlugTop(Node(sc, Leaf, successor, x));
    Apart(Snap(ns), root.node, ctx, c, l, node, Top, sc, successor, x, successor);
    hide Shape, Snap, Nodes, CtxNodes, In, CtxIn, Proper, CtxProper, All, Seq, Plug, Append;
    var parent, child2 := successor, successor.right;
    rebalance := TakePlace(node, successor, child2, parent, root);
  }

  /** Case 3: the successor is leftmost under the node's right child. */
  method EraseSuccessorDeep(node: RbNode, child: RbNode, parent: RbNode, successor: RbNode, root: RbRoot,
                            ghost ns: set<RbNode>,
                            ghost ctx: Ctx, ghost c: Color, ghost l: Tree, ghost inner: Ctx, ghost sc: Color,
                                ghost x: Tree) returns (rebalance: RbNode?)
    requires Shape(Snap(ns), root.node, ctx, Node(c, l, node, Plug(inner, Node(sc, Leaf, successor, x)))) && l.Node?
    requires inner.Hole? && inner.side == L && inner.node == parent
             && Root(Plug(inner, Node(sc, Leaf, successor, x))) == child
    modifies root, ns
    ensures SplicedHeap(old(Snap(ns)), Snap(ns), ctx, c, l, node, inner, successor, x, child)
    ensures root.node == if ctx.Top? then successor else old(root.node)
    ensures rebalance == if x.Leaf? && sc == Black then parent else null
  {
    hide Shape, Snap, SplicedHeap, Plug, DeepStored, Taken;
    ghost var h, r0, x2 := Snap(ns), root.node, Root(x);
    Apart(h, r0, ctx, c, l, node, inner, sc, successor, x, child);
    var child2 := StoreDeep(parent, successor, child, ns);
    ghost var h1 := Snap(ns);
    DeepReads(h, h1, node, l.node, ctx, parent, successor, child, x2);
    rebalance := TakePlaceIn(node, successor, child2, parent, root, ns, ctx);
    DeepSpliced(h, h1, Snap(ns), ctx, c, l, node, inner, sc, successor, x, child);
  }

  /** What the colour rules say of the node below which nothing lies on the left. */
  lemma SuccessorColors(ctx: Ctx, sc: Color, s: RbNode, x: Tree, bh: nat)
    requires Ok(Node(sc, Leaf, s, x), bh) && CtxOk(ctx, bh)
    ensures IsBlack(LeftBehind(x))
    ensures x.Node? || sc == Red ==> Ok(LeftBehind(x), bh)
    ensures x.Leaf? && sc == Black ==> CtxOk(ctx, 1)
  {
  }

  lemma SplicedParts(ctx: Ctx, c: Color, l: Tree, sc: Color, s: RbNode, x: Tree)
    ensures Inorder(LeftBehind(x)) == Inorder(x) && Inorder(Node(sc, Leaf, s, x)) == [s] + Inorder(x)
    ensures var o := Hole(R, c, s, l, ctx); Before(o) == Before(ctx) + Inorder(l) + [s] && After(o) == After(ctx)
  {
  }

  lemma SeqIs(ctx: Ctx, t: Tree)
    ensures Seq(ctx, t) == Before(ctx) + Inorder(t) + After(ctx)
  {
  }

  lemma Regrouped(a: seq<RbNode>, s: RbNode, b: seq<RbNode>, c: seq<RbNode>)
    ensures (a + [s]) + b + c == a + ([s] + b) + c
  {
  }

  /** Taking out the successor shortens the in-order sequence on its left end. */
  lemma {:induction false} SplicedSeq(ctx: Ctx, c: Color, l: Tree, n: RbNode, inner: Ctx, sc: Color, s: RbNode, x: Tree)
    requires Before(inner) == []
    ensures var r := Append(inner, Hole(R, c, s, l, ctx));
            Seq(r, LeftBehind(x)) == Before(ctx) + Inorder(l) + Inorder(Plug(inner, Node(sc, Leaf, s, x))) + After(ctx)
  {
    hide Inorder, Before, After, Seq, Plug, Shape, All, Append, LeftBehind;
    var b, t, o := LeftBehind(x), Node(sc, Leaf, s, x), Hole(R, c, s, l, ctx);
    SplicedParts(ctx, c, l, sc, s, x);
    AppendShape(map[], null, inner, o, b);
    PlugSeq(inner, b);
    PlugSeq(inner, t);
    SeqIs(o, Plug(inner, b));
    SeqIs(inner, b);
    SeqIs(inner, t);
    assert Inorder(Plug(inner, t)) == [s] + Inorder(Plug(inner, b));
    Regrouped(Before(ctx) + Inorder(l), s, Inorder(Plug(inner, b)), After(ctx));
  }

  lemma AppendParent(inner: Ctx, outer: Ctx)
    requires outer.Hole?
    ensures Append(inner, outer).Hole? && Append(inner, outer).node == if inner.Top? then outer.node else inner.node
    ensures Append(Top, outer) == outer && Before(Top) == []
  {
  }

  /** The tree after a splice. */
  lemma {:induction false} SpliceDone(h: Heap, h': Heap, root: RbNode?, root': RbNode?, ctx: Ctx, c: Color, l: Tree,
                                      n: RbNode,
                                      inner: Ctx, sc: Color, s: RbNode, x: Tree, child: RbNode, bh: nat,
                                          rebalance: RbNode?)
    returns (c': Ctx, t': Tree)
    requires var u := Plug(inner, Node(sc, Leaf, s, x)); Shape(h, root, ctx, Node(c, l, n, u)) && Root(u) == child
    requires (inner.Hole? ==> inner.side == L) && Before(inner) == []
             && SplicedHeap(h, h', ctx, c, l, n, inner, s, x, child)
    requires root' == if ctx.Top? then s else root
    requires Ok(Node(sc, Leaf, s, x), bh) && CtxOk(Append(inner, Hole(R, c, n, l, ctx)), bh)
    requires rebalance == if x.Leaf? && sc == Black then (if inner.Top? then s else inner.node) else null
    ensures Erased(h', root', rebalance, c', t')
    ensures var u := Plug(inner, Node(sc, Leaf, s, x));
            All(c', t') == All(ctx, Node(c, l, n, u)) - {n}
              && Seq(c', t') == Before(ctx) + Inorder(l) + Inorder(u) + After(ctx)
  {
    hide Shape, All, Seq, RB, Inorder, Ok, CtxOk, Plug, Append, Before, After, SplicedHeap;
    var o := Hole(R, c, s, l, ctx);
    Spliced(h, h', root, root', ctx, c, l, n, inner, sc, s, x, child);
    SplicedSeq(ctx, c, l, n, inner, sc, s, x);
    AppendOk(inner, Hole(R, c, n, l, ctx), o, bh);
    c', t' := Append(inner, o), LeftBehind(x);
    SuccessorColors(c', sc, s, x, bh);
    AppendParent(inner, o);
    if rebalance == null {
      t' := Finish(h', root', c', t', bh);
      c' := Top;
    }
  }

  /** Cases 2 and 3: the node has both children. */
  method EraseTwoChildren(node: RbNode, child: RbNode, root: RbRoot, ghost ns: set<RbNode>,
                          ghost ctx: Ctx, ghost t: Tree, ghost bh: nat)
    returns (rebalance: RbNode?, ghost c': Ctx, ghost t': Tree)
    requires Shape(Snap(ns), root.node, ctx, t) && t.Node? && t.node == node && t.left.Node? && t.right.Node?
             && t.right.node == child
    requires Ok(t, bh) && CtxOk(ctx, bh) && Edge(ctx, t)
    modifies root, ns
    ensures Erased(Snap(ns), root.node, rebalance, c', t')
    ensures All(c', t') == All(ctx, t) - {node}
    ensures Seq(c', t') == Before(ctx) + Inorder(t.left) + Inorder(t.right) + After(ctx)
  {
    hide Shape, Snap, Nodes, CtxNodes, In, CtxIn, Proper, CtxProper, All, Seq, RB, Inorder, Edge, Ok, CtxOk, Plug,
         Append, Before, After, SplicedHeap;
    ghost var h, r0, c, l, u := Snap(ns), root.node, t.color, t.left, t.right;
    ghost var o := Hole(R, c, node, l, ctx);
    ShapeUp(h, r0, o, u);
    OverRight(ctx, t, bh);
    Above(h, r0, o, u);
    ghost var inner, st, sb := Top, u, if c == Red then bh else bh - 1;
    PlugTop(u);
    var successor, parent := child, child;
    if child.left == null {
      AppendParent(Top, o);
      rebalance := EraseRightIsSuccessor(node, successor, root, ns, ctx, c, l, u.color, u.right);
    } else {
      parent, successor, inner, st, sb := FindSuccessor(child, r0, ns, o, u, sb);
      rebalance := EraseSuccessorDeep(node, child, parent, successor, root, ns, ctx, c, l, inner, st.color, st.right);
    }
    c', t' := SpliceDone(h, Snap(ns), r0, root.node, ctx, c, l, node, inner, st.color, successor, st.right, child, sb,
                         rebalance);
  }

  /** __rb_erase_augmented */
  method RbEraseAugmented(node: RbNode, root: RbRoot, ghost ns: set<RbNode>, ghost ctx: Ctx, ghost t: Tree,
                          ghost bh: nat)
    returns (rebalance: RbNode?, ghost c': Ctx, ghost t': Tree)
    requires Shape(Snap(ns), root.node, ctx, t) && t.Node? && t.node == node
    requires Ok(t, bh) && CtxOk(ctx, bh) && Edge(ctx, t)
    modifies root, ns
    ensures Erased(Snap(ns), root.node, rebalance, c', t')
    ensures All(c', t') == All(ctx, t) - {node}
    ensures Seq(c', t') == Before(ctx) + Inorder(t.left) + Inorder(t.right) + After(ctx)
  {
    hide Shape, Snap, Nodes, CtxNodes, In, CtxIn, Proper, CtxProper, All, Seq, RB, Edge, Ok, CtxOk, Before, After;
    NodeFacts(Snap(ns), root.node, ctx, L, t.color, t.left, node, t.right);
    LeafFacts(Snap(ns), null);
    var child, tmp := node.right, node.left;
    if tmp == null {
      rebalance, c', t' := EraseOneChild(node, child, root, ns, ctx, L, t.color, t.right, bh);
      assert Before(ctx) + Inorder(Leaf) == Before(ctx);
    } else if child == null {
      rebalance, c', t' := EraseOneChild(node, tmp, root, ns, ctx, R, t.color, t.left, bh);
      assert Before(ctx) + Inorder(t.left) + Inorder(Leaf) == Before(ctx) + Inorder(t.left);
    } else {
      rebalance, c', t' := EraseTwoChildren(node, child, root, ns, ctx, t, bh);
    }
  }

  /** Where the node is in the tree. */
  lemma EraseStart(h: Heap, root: RbNode?, tree: Tree, node: RbNode) returns (ctx: Ctx, t: Tree, bh: nat, i: nat)
    requires Shape(h, root, Top, tree) && RB(tree) && node in Nodes(tree)
    ensures Shape(h, root, ctx, t) && t.Node? && t.node == node && Ok(t, bh) && CtxOk(ctx, bh) && Edge(ctx, t)
    ensures All(ctx, t) == Nodes(tree) && i < |Inorder(tree)| && Inorder(tree)[i] == node
    ensures Before(ctx) + Inorder(t.left) + Inorder(t.right) + After(ctx) == Inorder(tree)[..i] + Inorder(tree)[i + 1..]
  {
    ctx, t, bh := Locate(h, root, Top, tree, node, Height(tree));
    hide Shape, Ok, CtxOk, Edge, Inorder, Before, After, All, Seq;
    TopSeq(tree);
    TopNodes(tree);
    i := FocusAt(ctx, t);
  }

  lemma SeqLeaf(ctx: Ctx)
    ensures Seq(ctx, Leaf) == Before(ctx) + After(ctx)
  {
  }

  /** rb_erase: `tree` is the whole tree, `r` what remains of it. */
  method RbErase(node: RbNode, root: RbRoot, ghost ns: set<RbNode>, ghost tree: Tree) returns (ghost r: Tree)
    requires Shape(Snap(ns), root.node, Top, tree) && RB(tree) && node in Nodes(tree)
    modifies root, ns
    ensures Shape(Snap(ns), root.node, Top, r) && RB(r) && Nodes(r) == Nodes(tree) - {node}
    ensures exists i ::
              0 <= i < |Inorder(tree)| && Inorder(tree)[i] == node
              && Inorder(r) == Inorder(tree)[..i] + Inorder(tree)[i + 1..]
  {
    hide Shape, Snap, Nodes, CtxNodes, In, CtxIn, Proper, CtxProper, All, Seq, RB, Inorder, Edge, Ok, CtxOk, Before,
         After;
    ghost var ctx, t, bh, i := EraseStart(Snap(ns), root.node, tree, node);
    ghost var s := Inorder(tree);
    var rebalance;
    ghost var c', t';
    rebalance, c', t' := RbEraseAugmented(node, root, ns, ctx, t, bh);
    r := t';
    if rebalance != null {
      r := RbEraseColor(rebalance, root, c', ns);
      SeqLeaf(c');
    }
    TopSeq(r);
    TopNodes(r);
    assert Inorder(r) == s[..i] + s[i + 1..];
  }
}

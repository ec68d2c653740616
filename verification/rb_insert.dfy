/**
 Rebalancing after a red node has been linked at a leaf position: __rb_insert.
 */
module RbInsert {
  import opened RbModel
  import opened RbLinks
  import opened RbTurn

  /** The heap once the stores that case 2 leaves to case 3 are made: `p` as the `s`-side child of `g`. */
  ghost function Pend(s: Side, h: Heap, g: RbNode, p: RbNode): Heap
    requires g in h && p in h && g != p
  {
    h[g := SetKid(h[g], s, p)][p := h[p].(parent := g)]
  }

  /** The grandparent's subtree after case 1. */
  ghost function Flipped(ctx: Ctx, t: Tree): Tree
    requires ctx.Hole? && ctx.up.Hole? && ctx.up.sib.Node?
  {
    Mk(ctx.up.side, Red, Mk(ctx.side, Black, t, ctx.node, ctx.sib), ctx.up.node, ctx.up.sib.(color := Black))
  }

  ghost predicate FlipCells(h: Heap, h': Heap, u: RbNode, p: RbNode, g: RbNode) {
    && SameBut(h, h', u, p, g, null)
    && u in h && u in h' && h'[u] == h[u].(parent := g, color := Black)
    && p in h && p in h' && h'[p] == h[p].(parent := g, color := Black)
    && g in h && g in h' && h'[g] == h[g].(color := Red)
  }

  /** The stores of case 1. */
  method StoreFlips(tmp: RbNode, parent: RbNode, gparent: RbNode, ghost ns: set<RbNode>)
    requires tmp in ns && parent in ns && gparent in ns && tmp != parent && tmp != gparent && parent != gparent
    modifies ns
    ensures FlipCells(old(Snap(ns)), Snap(ns), tmp, parent, gparent) && gparent.parent == old(gparent.parent)
  {
    hide Snap;
    tmp.parent, tmp.color := gparent, Black;
    parent.parent, parent.color := gparent, Black;
    gparent.parent, gparent.color := gparent.parent, Red;
  }

  lemma {:induction false} FlipDone(h: Heap, h': Heap, root: RbNode?, up: Ctx, s: Side, p: Tree, g: RbNode, u: Tree)
    requires Shape(h, root, up, Mk(s, Black, p, g, u)) && p.Node? && u.Node? && FlipCells(h, h', u.node, p.node, g)
    ensures var r := Mk(s, Red, p.(color := Black), g, u.(color := Black));
            Shape(h', root, up, r) && All(up, r) == All(up, Mk(s, Black, p, g, u))
  {
    hide Nodes, CtxNodes, In, CtxIn, Proper, CtxProper;
    NodeFacts(h, root, up, s, Black, p, g, u);
    Recolored(h, h', p, g, g, Black, p.node, u.node, g);
    Recolored(h, h', u, g, g, Black, p.node, u.node, g);
    CtxStays(h, h', up, g, root, p.node, u.node, g);
    MkParts(s, Red, p.(color := Black), g, u.(color := Black));
    MkParts(s, Black, p, g, u);
    InParts(h', s, Red, p.(color := Black), g, u.(color := Black), Parent(up));
  }

  lemma FlippedSeq(ctx: Ctx, t: Tree)
    requires ctx.Hole? && ctx.up.Hole? && ctx.up.sib.Node?
    ensures Seq(ctx.up.up, Flipped(ctx, t)) == Seq(ctx, t)
  {
    var p, u := Mk(ctx.side, ctx.color, t, ctx.node, ctx.sib), ctx.up.sib;
    var p' := Mk(ctx.side, Black, t, ctx.node, ctx.sib);
    SeqUp(ctx, t);
    SeqUp(ctx.up, p);
    assert Inorder(p') == Inorder(p) && Inorder(u.(color := Black)) == Inorder(u);
    assert Inorder(Flipped(ctx, t)) == Inorder(Mk(ctx.up.side, ctx.up.color, p, ctx.up.node, u));
  }

  /** Case 1: color flips. */
  method ColorFlip(tmp: RbNode, parent: RbNode, gparent: RbNode, ghost root: RbNode?, ghost ns: set<RbNode>,
                   ghost ctx: Ctx, ghost t: Tree)
    requires Shape(Snap(ns), root, ctx, t) && ctx.Hole? && ctx.up.Hole? && ctx.up.color == Black && ctx.color == Red
    requires parent == ctx.node && gparent == ctx.up.node && ctx.up.sib.Node? && ctx.up.sib.node == tmp
    modifies ns
    ensures Shape(Snap(ns), root, ctx.up.up, Flipped(ctx, t)) && gparent.parent == Parent(ctx.up.up)
    ensures All(ctx.up.up, Flipped(ctx, t)) == All(ctx, t)
    ensures Seq(ctx.up.up, Flipped(ctx, t)) == Seq(ctx, t)
  {
    hide Snap, Shape, Nodes, CtxNodes, In, CtxIn, Proper, CtxProper, Inorder, Seq, All, FlipCells;
    ghost var h, p := Snap(ns), Mk(ctx.side, Red, t, parent, ctx.sib);
    Grand(h, root, ctx, t);
    StoreFlips(tmp, parent, gparent, ns);
    FlipDone(h, Snap(ns), root, ctx.up.up, ctx.up.side, p, gparent, ctx.up.sib);
    FlippedSeq(ctx, t);
  }

  /** What case 3 reads of the heap that case 2 has pending stores for. */
  lemma PendReads(s: Side, h: Heap, up: Ctx, a: Tree, p: RbNode, b: Tree, g: RbNode, u: Tree)
    requires g in h && p in h && g != p
             && Turnable(Pend(s, h, g, p), up, s, Black, Red, Root(a), p, Root(b), g, Root(u))
    ensures b.Node? ==> b.node in h && b.node != g && b.node != p
  {
  }

  lemma PendChildren(s: Side, h: Heap, h1: Heap, ctx: Ctx, a: RbNode?, p: RbNode, b: RbNode?, g: RbNode, u: RbNode?)
    requires g in h && p in h && g != p && Turnable(Pend(s, h, g, p), ctx, s, Black, Red, a, p, b, g, u)
    requires Moved(h, h1, s, p, b, g, null, L)
    requires b != null && b in h ==> Pend(s, h, g, p)[b].color == Black
    ensures ChildrenSet(Pend(s, h, g, p), h1, ctx, s, Black, a, p, b, g, u)
  {
  }

  /** Around case 2: the red node `y` below the red parent `x`, which hangs below the grandparent. */
  lemma {:induction false} ParentReads(h: Heap, root: RbNode?, up: Ctx, s: Side, gparent: RbNode, u: Tree,
                                       c: Tree, y: RbNode, b: Tree, x: RbNode, a: Tree)
    requires Shape(h, root, up, Mk(s.Other(), Black, Mk(s, Red, Mk(s, Red, c, y, b), x, a), gparent, u)) && IsBlack(b)
    ensures var g := Hole(s.Other(), Black, gparent, u, up);
            && Shape(h, root, g, Mk(s, Red, Mk(s, Red, c, y, b), x, a))
            && Turnable(h, g, s, Red, Red, Root(c), y, Root(b), x, Root(a))
    ensures b.Node? ==> b.node in h && h[b.node].color == Black
  {
    hide Shape, Turnable, Nodes;
    var g, o := Hole(s.Other(), Black, gparent, u, up), Mk(s, Red, Mk(s, Red, c, y, b), x, a);
    ShapeUp(h, root, g, o);
    Cells(h, root, g, s, Red, Red, c, y, b, x, a);
  }

  lemma MovedReads(h: Heap, h1: Heap, s: Side, y: RbNode, b: RbNode?, x: RbNode, c: RbNode?, g: Ctx, a: RbNode?)
    requires g.Hole? && Turnable(h, g, s, Red, Red, c, y, b, x, a) && Moved(h, h1, s, y, b, x, null, L)
    ensures y in h1 && x in h1 && y != x && g.node in h1 && g.node != y && g.node != x && KidOf(h1[y], s) == c
  {
  }

  /** Case 2 with its last store, and those it leaves to case 3. */
  lemma ParentStored(h: Heap, h1: Heap, h2: Heap, g: Ctx, s: Side, c: RbNode?, y: RbNode, b: RbNode?, x: RbNode,
                     a: RbNode?)
    requires g.Hole? && g.side == s.Other() && Turnable(h, g, s, Red, Red, c, y, b, x, a)
             && Moved(h, h1, s, y, b, x, null, L)
    requires b != null && b in h ==> h[b].color == Black
    requires SameBut(h1, h2, x, null, null, null) && x in h1 && x in h2 && h2[x] == h1[x].(parent := y, color := Red)
    ensures g.node in h2 && y in h2 && g.node != y && KidOf(h2[y], s) == c
    ensures forall root :: TurnedCells(h, Pend(g.side, h2, g.node, y), root, root, g, s, c, y, b, x, a, Red, Red)
  {
  }

  lemma {:induction false} ParentDone(h: Heap, h': Heap, root: RbNode?, up: Ctx, s: Side, gparent: RbNode, u: Tree,
                                      c: Tree, y: RbNode, b: Tree, x: RbNode, a: Tree)
    requires var g := Hole(s.Other(), Black, gparent, u, up);
             && Shape(h, root, g, Mk(s, Red, Mk(s, Red, c, y, b), x, a))
             && TurnedCells(h, h', root, root, g, s, Root(c), y, Root(b), x, Root(a), Red, Red)
    ensures var o, o' := Mk(s, Red, Mk(s, Red, c, y, b), x, a), Mk(s, Red, c, y, Mk(s, Red, b, x, a));
            var r, r' := Mk(s.Other(), Black, o, gparent, u), Mk(s.Other(), Black, o', gparent, u);
            Shape(h', root, up, r') && Seq(up, r') == Seq(up, r) && Nodes(r') == Nodes(r)
  {
    hide Shape, TurnedCells, Nodes, Inorder, Seq;
    var g := Hole(s.Other(), Black, gparent, u, up);
    var o, o' := Mk(s, Red, Mk(s, Red, c, y, b), x, a), Mk(s, Red, c, y, Mk(s, Red, b, x, a));
    Rotated(h, h', root, root, g, s, Red, Red, c, y, b, x, a, Red, Red);
    ShapeUp(h', root, g, o');
    SeqUp(g, o);
    SeqUp(g, o');
    MkParts(s.Other(), Black, o, gparent, u);
    MkParts(s.Other(), Black, o', gparent, u);
  }

  /** Case 2 for a left child: left rotate at parent. */
  method RotateLeftAtParent(node: RbNode, parent: RbNode, ghost gparent: RbNode, ghost root: RbNode?,
                            ghost ns: set<RbNode>, ghost up: Ctx,
                            ghost a: Tree, ghost b: Tree, ghost c: Tree, ghost u: Tree)
    requires Shape(Snap(ns), root, up, Node(Black, Node(Red, a, parent, Node(Red, b, node, c)), gparent, u))
    requires IsBlack(b)
    modifies ns
    ensures node in ns && gparent in ns && node != gparent
    ensures Shape(Pend(L, Snap(ns), gparent, node), root, up,
                  Node(Black, Node(Red, Node(Red, a, parent, b), node, c), gparent, u))
    ensures node.right == Root(c)
    ensures Seq(up, Node(Black, Node(Red, Node(Red, a, parent, b), node, c), gparent, u))
         == Seq(up, Node(Black, Node(Red, a, parent, Node(Red, b, node, c)), gparent, u))
    ensures Nodes(Node(Black, Node(Red, Node(Red, a, parent, b), node, c), gparent, u))
         == Nodes(Node(Black, Node(Red, a, parent, Node(Red, b, node, c)), gparent, u))
  {
    hide Snap, Shape, Nodes, CtxNodes, In, CtxIn, Proper, CtxProper, Inorder, Seq, All, Turnable, TurnedCells,
         ChildrenSet, ParentsSet, Moved, Pend;
    ghost var h, g := Snap(ns), Hole(L, Black, gparent, u, up);
    ParentReads(h, root, up, R, gparent, u, c, node, b, parent, a);
    Reads(h, g, R, Red, Red, Root(c), node, Root(b), parent, Root(a));
    var tmp := node.left;
    TurnLeft(parent, node, tmp, ns);
    ghost var h1 := Snap(ns);
    MovedReads(h, h1, R, node, Root(b), parent, Root(c), g, Root(a));
    parent.parent, parent.color := node, Red;
    ParentStored(h, h1, Snap(ns), g, R, Root(c), node, Root(b), parent, Root(a));
    ParentDone(h, Pend(L, Snap(ns), gparent, node), root, up, R, gparent, u, c, node, b, parent, a);
  }

  /** Case 3 for a left child: right rotate at gparent. */
  method RotateRightAtGparent(parent: RbNode, gparent: RbNode, tmp: RbNode?, root: RbRoot, ghost ns: set<RbNode>,
                              ghost up: Ctx, ghost a: Tree, ghost b: Tree, ghost u: Tree)
    requires gparent in ns && parent in ns && gparent != parent
    requires Shape(Pend(L, Snap(ns), gparent, parent), root.node, up, Node(Black, Node(Red, a, parent, b), gparent, u))
    requires tmp == Root(b) && IsBlack(b)
    modifies root, ns
    ensures Shape(Snap(ns), root.node, up, Node(Black, a, parent, Node(Red, b, gparent, u)))
    ensures Nodes(Node(Black, a, parent, Node(Red, b, gparent, u)))
            == Nodes(Node(Black, Node(Red, a, parent, b), gparent, u))
    ensures Seq(up, Node(Black, a, parent, Node(Red, b, gparent, u)))
            == Seq(up, Node(Black, Node(Red, a, parent, b), gparent, u))
  {
    hide Snap, Shape, Nodes, CtxNodes, In, CtxIn, Proper, CtxProper, Inorder, Seq, All, Turnable, TurnedCells,
         ChildrenSet, ParentsSet, Moved, Pend;
    ghost var h, r0 := Snap(ns), root.node;
    ghost var v := Pend(L, h, gparent, parent);
    Cells(v, r0, up, L, Black, Red, a, parent, b, gparent, u);
    PendReads(L, h, up, a, parent, b, gparent, u);
    TurnRight(gparent, parent, tmp, ns);
    ghost var h1 := Snap(ns);
    PendChildren(L, h, h1, up, Root(a), parent, Root(b), gparent, Root(u));
    Placed(v, h1, up, L, Black, Red, Root(a), parent, Root(b), gparent, Root(u));
    TakeParent(gparent, parent, root, Red, ns, up);
    TurnDone(v, h1, Snap(ns), r0, root.node, up, L, Black, Red, a, parent, b, gparent, u, Red);
  }

  /** Case 2 for a right child: right rotate at parent. */
  method RotateRightAtParent(node: RbNode, parent: RbNode, ghost gparent: RbNode, ghost root: RbNode?,
                            ghost ns: set<RbNode>, ghost up: Ctx,
                            ghost a: Tree, ghost b: Tree, ghost c: Tree, ghost u: Tree)
    requires Shape(Snap(ns), root, up, Node(Black, u, gparent, Node(Red, Node(Red, c, node, b), parent, a)))
    requires IsBlack(b)
    modifies ns
    ensures node in ns && gparent in ns && node != gparent
    ensures Shape(Pend(R, Snap(ns), gparent, node), root, up,
                  Node(Black, u, gparent, Node(Red, c, node, Node(Red, b, parent, a))))
    ensures node.left == Root(c)
    ensures Seq(up, Node(Black, u, gparent, Node(Red, c, node, Node(Red, b, parent, a))))
         == Seq(up, Node(Black, u, gparent, Node(Red, Node(Red, c, node, b), parent, a)))
    ensures Nodes(Node(Black, u, gparent, Node(Red, c, node, Node(Red, b, parent, a))))
         == Nodes(Node(Black, u, gparent, Node(Red, Node(Red, c, node, b), parent, a)))
  {
    hide Snap, Shape, Nodes, CtxNodes, In, CtxIn, Proper, CtxProper, Inorder, Seq, All, Turnable, TurnedCells,
         ChildrenSet, ParentsSet, Moved, Pend;
    ghost var h, g := Snap(ns), Hole(R, Black, gparent, u, up);
    ParentReads(h, root, up, L, gparent, u, c, node, b, parent, a);
    Reads(h, g, L, Red, Red, Root(c), node, Root(b), parent, Root(a));
    var tmp := node.right;
    TurnRight(parent, node, tmp, ns);
    ghost var h1 := Snap(ns);
    MovedReads(h, h1, L, node, Root(b), parent, Root(c), g, Root(a));
    parent.parent, parent.color := node, Red;
    ParentStored(h, h1, Snap(ns), g, L, Root(c), node, Root(b), parent, Root(a));
    ParentDone(h, Pend(R, Snap(ns), gparent, node), root, up, L, gparent, u, c, node, b, parent, a);
  }

  /** Case 3 for a right child: left rotate at gparent. */
  method RotateLeftAtGparent(parent: RbNode, gparent: RbNode, tmp: RbNode?, root: RbRoot, ghost ns: set<RbNode>,
                              ghost up: Ctx, ghost a: Tree, ghost b: Tree, ghost u: Tree)
    requires gparent in ns && parent in ns && gparent != parent
    requires Shape(Pend(R, Snap(ns), gparent, parent), root.node, up, Node(Black, u, gparent, Node(Red, b, parent, a)))
    requires tmp == Root(b) && IsBlack(b)
    modifies root, ns
    ensures Shape(Snap(ns), root.node, up, Node(Black, Node(Red, u, gparent, b), parent, a))
    ensures Nodes(Node(Black, Node(Red, u, gparent, b), parent, a))
            == Nodes(Node(Black, u, gparent, Node(Red, b, parent, a)))
    ensures Seq(up, Node(Black, Node(Red, u, gparent, b), parent, a))
            == Seq(up, Node(Black, u, gparent, Node(Red, b, parent, a)))
  {
    hide Snap, Shape, Nodes, CtxNodes, In, CtxIn, Proper, CtxProper, Inorder, Seq, All, Turnable, TurnedCells,
         ChildrenSet, ParentsSet, Moved, Pend;
    ghost var h, r0 := Snap(ns), root.node;
    ghost var v := Pend(R, h, gparent, parent);
    Cells(v, r0, up, R, Black, Red, a, parent, b, gparent, u);
    PendReads(R, h, up, a, parent, b, gparent, u);
    TurnLeft(gparent, parent, tmp, ns);
    ghost var h1 := Snap(ns);
    PendChildren(R, h, h1, up, Root(a), parent, Root(b), gparent, Root(u));
    Placed(v, h1, up, R, Black, Red, Root(a), parent, Root(b), gparent, Root(u));
    TakeParent(gparent, parent, root, Red, ns, up);
    TurnDone(v, h1, Snap(ns), r0, root.node, up, R, Black, Red, a, parent, b, gparent, u, Red);
  }

  /** The colours after case 3, with and without case 2 before it. */
  lemma SideOk(s: Side, sib: Tree, t: Tree, node: RbNode, parent: RbNode, gparent: RbNode, u: Tree, bh: nat)
    requires t.Node? && Ok(t, bh) && Ok(sib, bh) && Ok(u, bh) && t.color == Red && IsBlack(sib) && IsBlack(u)
    requires node == t.node && IsBlack(t.left) && IsBlack(t.right) && Ok(t.left, bh) && Ok(t.right, bh)
    ensures Ok(Mk(s, Black, t, parent, Mk(s, Red, sib, gparent, u)), bh + 1)
    ensures Ok(Mk(s, Black, Mk(s, Red, sib, parent, Kid(t, s)), node, Mk(s, Red, Kid(t, s.Other()), gparent, u)),
               bh + 1)
  {
  }

  /** What the colour rules say about a red node under a red parent. */
  lemma RedPair(ctx: Ctx, t: Tree, bh: nat)
    requires t.Node? && t.color == Red && Ok(t, bh) && CtxOk(ctx, bh) && ctx.Hole? && ctx.color == Red
    ensures ctx.up.Hole? && ctx.up.color == Black && IsBlack(ctx.sib) && IsBlack(t.left) && IsBlack(t.right)
    ensures Ok(t.left, bh) && Ok(t.right, bh) && Ok(ctx.sib, bh) && Ok(ctx.up.sib, bh) && CtxOk(ctx.up.up, bh + 1)
    ensures !IsBlack(ctx.up.sib) ==>
              var p := Mk(ctx.side, Black, t, ctx.node, ctx.sib);
              var u := ctx.up.sib.(color := Black);
              Flipped(ctx, t) == Mk(ctx.up.side, Red, p, ctx.up.node, u) && Ok(Flipped(ctx, t), bh + 1)
  {
  }

  lemma PendSame(s: Side, h: Heap, g: RbNode, p: RbNode)
    requires g in h && p in h && g != p
    requires h[p].parent == g && h[g] == SetKid(h[g], s, p)
    ensures Pend(s, h, g, p) == h
  {
  }

  /** Cases 2 and 3 when parent is a left child. */
  method RotateLeftSide(node0: RbNode, parent0: RbNode, gparent: RbNode, root: RbRoot, ghost ns: set<RbNode>,
                        ghost ctx: Ctx, ghost t: Tree, ghost bh: nat) returns (ghost r: Tree)
    requires Shape(Snap(ns), root.node, ctx, t) && t.Node? && t.color == Red && Ok(t, bh) && CtxOk(ctx, bh)
    requires ctx.Hole? && ctx.color == Red && ctx.up.Hole? && ctx.up.side == L && IsBlack(ctx.up.sib)
    requires node0 == t.node && parent0 == ctx.node && gparent == ctx.up.node
    modifies root, ns
    ensures Shape(Snap(ns), root.node, Top, r) && RB(r) && All(Top, r) == All(ctx, t)
    ensures Inorder(r) == Seq(ctx, t)
  {
    hide Snap, Shape, Nodes, CtxNodes, In, CtxIn, Proper, CtxProper, Inorder, Plug, RB;
    var node, parent := node0, parent0;
    ghost var h := Snap(ns);
    Above(h, root.node, ctx, t);
    Grand(h, root.node, ctx, t);
    RedPair(ctx, t, bh);
    ghost var up, sib, u, a, b := ctx.up.up, ctx.sib, ctx.up.sib, t.left, t.right;
    var tmp := parent.right;
    if node == tmp {
      RotateLeftAtParent(node, parent, gparent, root.node, ns, up, sib, a, b, u);
      a := Node(Red, sib, parent, a);
      parent := node;
      tmp := node.right;
    } else {
      PendSame(L, h, gparent, parent);
      a, b := t, sib;
    }
    RotateRightAtGparent(parent, gparent, tmp, root, ns, up, a, b, u);
    SideOk(L, sib, t, node0, parent0, gparent, u, bh);
    r := Whole(Snap(ns), root.node, up, Node(Black, a, parent, Node(Red, b, gparent, u)), bh + 1);
  }

  /** Cases 2 and 3 when parent is a right child. */
  method RotateRightSide(node0: RbNode, parent0: RbNode, gparent: RbNode, root: RbRoot, ghost ns: set<RbNode>,
                         ghost ctx: Ctx, ghost t: Tree, ghost bh: nat) returns (ghost r: Tree)
    requires Shape(Snap(ns), root.node, ctx, t) && t.Node? && t.color == Red && Ok(t, bh) && CtxOk(ctx, bh)
    requires ctx.Hole? && ctx.color == Red && ctx.up.Hole? && ctx.up.side == R && IsBlack(ctx.up.sib)
    requires node0 == t.node && parent0 == ctx.node && gparent == ctx.up.node
    modifies root, ns
    ensures Shape(Snap(ns), root.node, Top, r) && RB(r) && All(Top, r) == All(ctx, t)
    ensures Inorder(r) == Seq(ctx, t)
  {
    hide Snap, Shape, Nodes, CtxNodes, In, CtxIn, Proper, CtxProper, Inorder, Plug, RB;
    var node, parent := node0, parent0;
    ghost var h := Snap(ns);
    Above(h, root.node, ctx, t);
    Grand(h, root.node, ctx, t);
    RedPair(ctx, t, bh);
    ghost var up, sib, u, a, b := ctx.up.up, ctx.sib, ctx.up.sib, t.right, t.left;
    var tmp := parent.left;
    if node == tmp {
      RotateRightAtParent(node, parent, gparent, root.node, ns, up, sib, a, b, u);
      a := Node(Red, a, parent, sib);
      parent := node;
      tmp := node.left;
    } else {
      PendSame(R, h, gparent, parent);
      a, b := t, sib;
    }
    RotateLeftAtGparent(parent, gparent, tmp, root, ns, up, a, b, u);
    SideOk(R, sib, t, node0, parent0, gparent, u, bh);
    r := Whole(Snap(ns), root.node, up, Node(Black, Node(Red, u, gparent, b), parent, a), bh + 1);
  }

  /** What the code reads of the nodes around a red node's red parent. */
  lemma Uncle(h: Heap, root: RbNode?, ctx: Ctx, t: Tree)
    requires Shape(h, root, ctx, t) && ctx.Hole? && ctx.up.Hole?
    ensures ctx.node in h && h[ctx.node].parent == ctx.up.node && ctx.up.node in h
    ensures ctx.node != Root(ctx.up.sib)
    ensures ctx.up.side == L ==> h[ctx.up.node].right == Root(ctx.up.sib)
    ensures ctx.up.side == R ==> h[ctx.up.node].right == ctx.node && h[ctx.up.node].left == Root(ctx.up.sib)
    ensures ctx.up.sib.Node? ==> ctx.up.sib.node in h && h[ctx.up.sib.node].color == ctx.up.sib.color
  {
    Grand(h, root, ctx, t);
  }

  /** The three cases when parent is a left child. After case 1 the loop goes on at the grandparent. */
  method ParentIsLeft(node: RbNode, parent: RbNode, gparent: RbNode, root: RbRoot, ghost ns: set<RbNode>,
                      ghost ctx: Ctx, ghost t: Tree, ghost bh: nat) returns (again: bool, ghost r: Tree)
    requires Shape(Snap(ns), root.node, ctx, t) && t.Node? && t.color == Red && Ok(t, bh) && CtxOk(ctx, bh)
    requires ctx.Hole? && ctx.color == Red && ctx.up.Hole? && ctx.up.side == L
    requires node == t.node && parent == ctx.node && gparent == ctx.up.node
    modifies root, ns
    ensures again ==> Shape(Snap(ns), root.node, ctx.up.up, r) && r.Node? && r.color == Red && r.node == gparent
    ensures again ==> Ok(r, bh + 1) && CtxOk(ctx.up.up, bh + 1) && gparent.parent == Parent(ctx.up.up)
    ensures again ==> All(ctx.up.up, r) == All(ctx, t) && Seq(ctx.up.up, r) == Seq(ctx, t)
    ensures !again ==>
              Shape(Snap(ns), root.node, Top, r) && RB(r) && All(Top, r) == All(ctx, t) && Inorder(r) == Seq(ctx, t)
  {
    hide All, Snap, Shape, Nodes, CtxNodes, In, CtxIn, Proper, CtxProper, Inorder, Seq, Plug, RB, Ok, CtxOk, SetKid,
         MkCell;
    RedPair(ctx, t, bh);
    Uncle(Snap(ns), root.node, ctx, t);
    var tmp := gparent.right;
    if tmp != null && tmp.color == Red {
      ColorFlip(tmp, parent, gparent, root.node, ns, ctx, t);
      again, r := true, Flipped(ctx, t);
    } else {
      again := false;
      r := RotateLeftSide(node, parent, gparent, root, ns, ctx, t, bh);
    }
  }

  /** The three cases when parent is a right child. After case 1 the loop goes on at the grandparent. */
  method ParentIsRight(node: RbNode, parent: RbNode, gparent: RbNode, root: RbRoot, ghost ns: set<RbNode>,
                      ghost ctx: Ctx, ghost t: Tree, ghost bh: nat) returns (again: bool, ghost r: Tree)
    requires Shape(Snap(ns), root.node, ctx, t) && t.Node? && t.color == Red && Ok(t, bh) && CtxOk(ctx, bh)
    requires ctx.Hole? && ctx.color == Red && ctx.up.Hole? && ctx.up.side == R
    requires node == t.node && parent == ctx.node && gparent == ctx.up.node
    modifies root, ns
    ensures again ==> Shape(Snap(ns), root.node, ctx.up.up, r) && r.Node? && r.color == Red && r.node == gparent
    ensures again ==> Ok(r, bh + 1) && CtxOk(ctx.up.up, bh + 1) && gparent.parent == Parent(ctx.up.up)
    ensures again ==> All(ctx.up.up, r) == All(ctx, t) && Seq(ctx.up.up, r) == Seq(ctx, t)
    ensures !again ==>
              Shape(Snap(ns), root.node, Top, r) && RB(r) && All(Top, r) == All(ctx, t) && Inorder(r) == Seq(ctx, t)
  {
    hide All, Snap, Shape, Nodes, CtxNodes, In, CtxIn, Proper, CtxProper, Inorder, Seq, Plug, RB, Ok, CtxOk, SetKid,
         MkCell;
    RedPair(ctx, t, bh);
    Uncle(Snap(ns), root.node, ctx, t);
    var tmp := gparent.left;
    if tmp != null && tmp.color == Red {
      ColorFlip(tmp, parent, gparent, root.node, ns, ctx, t);
      again, r := true, Flipped(ctx, t);
    } else {
      again := false;
      r := RotateRightSide(node, parent, gparent, root, ns, ctx, t, bh);
    }
  }

  lemma RootBlack(h: Heap, h': Heap, root: RbNode?, t: Tree, bh: nat)
    requires t.Node? && Shape(h, root, Top, t) && SameBut(h, h', t.node, null, null, null)
    requires t.color == Red && Ok(t, bh)
    requires t.node in h' && h'[t.node] == h[t.node].(parent := null, color := Black)
    ensures Shape(h', root, Top, t.(color := Black)) && All(Top, t.(color := Black)) == All(Top, t)
    ensures Seq(Top, t.(color := Black)) == Seq(Top, t)
    ensures Ok(t.(color := Black), bh + 1) && CtxOk(Top, bh + 1)
  {
    Recolored(h, h', t, null, null, Black, t.node, null, null);
  }

  /** rb_insert_color: `node0` is red and has just been linked into the hole of `c0`. */
  method RbInsertColor(node0: RbNode, root: RbRoot, ghost c0: Ctx, ghost ns: set<RbNode>) returns (ghost r: Tree)
    requires Shape(Snap(ns), root.node, c0, Node(Red, Leaf, node0, Leaf)) && CtxOk(c0, 0)
    requires ns == {node0} + CtxNodes(c0)
    modifies root, ns
    ensures Shape(Snap(ns), root.node, Top, r) && RB(r) && All(Top, r) == ns
    ensures Inorder(r) == Before(c0) + [node0] + After(c0)
  {
    ghost var t := Node(Red, Leaf, node0, Leaf);
    Single(c0, node0, Red);
    hide All, Snap, Shape, Nodes, CtxNodes, In, CtxIn, Proper, CtxProper, Inorder, Seq, Plug, RB, Ok, CtxOk, SetKid,
         Mk, MkCell;
    var node: RbNode, parent := node0, node0.parent;
    ghost var ctx, bh := c0, 0;
    Above(Snap(ns), root.node, ctx, t);
    while true
      invariant Shape(Snap(ns), root.node, ctx, t) && parent == Parent(ctx)
      invariant t.Node? && t.node == node && t.color == Red && Ok(t, bh) && CtxOk(ctx, bh)
      invariant All(ctx, t) == ns && Seq(ctx, t) == Before(c0) + [node0] + After(c0)
      decreases ctx
    {
      ghost var h := Snap(ns);
      Above(h, root.node, ctx, t);
      if parent == null {
        node.parent, node.color := null, Black;
        RootBlack(h, Snap(ns), root.node, t, bh);
        r := Whole(Snap(ns), root.node, Top, t.(color := Black), bh + 1);
        break;
      } else if parent.color == Black {
        r := Whole(h, root.node, ctx, t, bh);
        break;
      }
      RedPair(ctx, t, bh);
      Uncle(h, root.node, ctx, t);
      var gparent := parent.parent;
      var again;
      if parent != gparent.right {
        again, r := ParentIsLeft(node, parent, gparent, root, ns, ctx, t, bh);
      } else {
        again, r := ParentIsRight(node, parent, gparent, root, ns, ctx, t, bh);
      }
      if !again { break; }
      ctx, t, bh := ctx.up.up, r, bh + 1;
      node := gparent;
      parent := node.parent;
    }
  }
}

/**
 Rebalancing after a black node has been removed: ____rb_erase_color.

 The subtree in the hole is one black node short. `t` is that subtree and `bh` the black height the
 tree around the hole calls for.
 */
module RbRecolor {
  import opened RbModel
  import opened RbLinks
  import opened RbTurn

  /** The heap once case 4 has stored `sibling` as parent's child and made `tmp1` its black child. */
  ghost function Pend4(h: Heap, parent: RbNode, sibling: RbNode, tmp1: RbNode): Heap
    requires sibling in h && tmp1 in h
  {
    var h1 := h[sibling := h[sibling].(parent := parent)];
    h1[tmp1 := h1[tmp1].(parent := sibling, color := Black)]
  }

  /** The stores of case 4 up to the rotation of the parents. */
  ghost predicate Flips(h: Heap, h': Heap, s: Side, far: RbNode, y: RbNode, b: RbNode?, x: RbNode) {
    && SameBut(h, h', x, y, far, b)
    && x in h && x in h' && h'[x] == SetKid(h[x], s, b)
    && y in h && y in h' && h'[y] == SetKid(h[y], s.Other(), x)
    && far in h && far in h' && h'[far] == h[far].(parent := y, color := Black)
    && (b != null ==> b in h && b in h' && h'[b] == h[b].(parent := x))
  }

  method StoreParentLeft(parent: RbNode, sibling: RbNode, tmp1: RbNode, ghost ns: set<RbNode>, ghost b: RbNode?)
    requires parent in ns && sibling in ns && tmp1 in ns && parent != sibling && sibling != tmp1 && parent != tmp1
    requires b == sibling.left && (b != null ==> b in ns && b != parent && b != sibling && b != tmp1)
    modifies ns
    ensures Flips(old(Snap(ns)), Snap(ns), R, tmp1, sibling, b, parent)
  {
    hide Snap;
    var tmp2 := sibling.left;
    parent.right := tmp2;
    sibling.left := parent;
    tmp1.parent, tmp1.color := sibling, Black;
    if tmp2 != null {
      tmp2.parent := parent;
    }
  }

  method StoreParentRight(parent: RbNode, sibling: RbNode, tmp1: RbNode, ghost ns: set<RbNode>, ghost b: RbNode?)
    requires parent in ns && sibling in ns && tmp1 in ns && parent != sibling && sibling != tmp1 && parent != tmp1
    requires b == sibling.right && (b != null ==> b in ns && b != parent && b != sibling && b != tmp1)
    modifies ns
    ensures Flips(old(Snap(ns)), Snap(ns), L, tmp1, sibling, b, parent)
  {
    hide Snap;
    var tmp2 := sibling.right;
    parent.left := tmp2;
    sibling.right := parent;
    tmp1.parent, tmp1.color := sibling, Black;
    if tmp2 != null {
      tmp2.parent := parent;
    }
  }

  /** Kid pointers are stored already where case 3 leaves stores to case 4. */
  lemma PendReads(h: Heap, parent: RbNode, sibling: RbNode, tmp1: RbNode)
    requires sibling in h && tmp1 in h && sibling != tmp1
    ensures var v := Pend4(h, parent, sibling, tmp1);
            v.Keys == h.Keys && forall n :: n in h ==> v[n].left == h[n].left && v[n].right == h[n].right
  {
  }

  lemma FlipsChildren(h: Heap, h1: Heap, ctx: Ctx, s: Side, cx: Color, cy: Color,
                      far: RbNode, y: RbNode, b: RbNode?, x: RbNode, c: RbNode?)
    requires y in h && far in h && y != far && Turnable(Pend4(h, x, y, far), ctx, s, cx, cy, far, y, b, x, c)
    requires Flips(h, h1, s, far, y, b, x)
    ensures ChildrenSet(Pend4(h, x, y, far), h1, ctx, s, cx, far, y, b, x, c)
  {
  }

  /** The stores of case 3 when node is a left child. */
  method StoreNephewLeft(parent: RbNode, sibling: RbNode, tmp2: RbNode, ghost ns: set<RbNode>)
    requires parent in ns && sibling in ns && tmp2 in ns && parent != sibling && parent != tmp2 && sibling != tmp2
    requires var b := tmp2.right; b != null ==> b in ns && b != parent && b != sibling && b != tmp2
    modifies ns
    ensures Moved(old(Snap(ns)), Snap(ns), L, tmp2, old(tmp2.right), sibling, parent, R)
  {
    hide Snap;
    var tmp1 := tmp2.right;
    sibling.left := tmp1;
    tmp2.right := sibling;
    parent.right := tmp2;
    if tmp1 != null {
      tmp1.parent, tmp1.color := sibling, Black;
    }
  }

  /** The stores of case 3 when node is a right child. */
  method StoreNephewRight(parent: RbNode, sibling: RbNode, tmp2: RbNode, ghost ns: set<RbNode>)
    requires parent in ns && sibling in ns && tmp2 in ns && parent != sibling && parent != tmp2 && sibling != tmp2
    requires var b := tmp2.left; b != null ==> b in ns && b != parent && b != sibling && b != tmp2
    modifies ns
    ensures Moved(old(Snap(ns)), Snap(ns), R, tmp2, old(tmp2.left), sibling, parent, L)
  {
    hide Snap;
    var tmp1 := tmp2.left;
    sibling.right := tmp1;
    tmp2.left := sibling;
    parent.left := tmp2;
    if tmp1 != null {
      tmp1.parent, tmp1.color := sibling, Black;
    }
  }

  /** Around case 3: the red nephew `y` below its black parent `x`, which hangs below `parent`. */
  lemma {:induction false} NephewReads(h: Heap, root: RbNode?, up: Ctx, s: Side, c: Color, t: Tree, parent: RbNode,
                                       a: Tree, y: RbNode, b: Tree, x: RbNode, far: Tree)
    requires IsBlack(b)
    requires Shape(h, root, up, Mk(s, c, t, parent, Mk(s, Black, Mk(s, Red, a, y, b), x, far)))
    ensures Shape(h, root, Hole(s.Other(), c, parent, t, up), Mk(s, Black, Mk(s, Red, a, y, b), x, far))
    ensures Turnable(h, Hole(s.Other(), c, parent, t, up), s, Black, Red, Root(a), y, Root(b), x, Root(far))
    ensures b.Node? ==> b.node in h && h[b.node].color == Black
  {
    hide Shape, Turnable, Nodes;
    var g, o := Hole(s.Other(), c, parent, t, up), Mk(s, Black, Mk(s, Red, a, y, b), x, far);
    assert Mk(s.Other(), c, o, parent, t) == Mk(s, c, t, parent, o);
    ShapeUp(h, root, g, o);
    Cells(h, root, g, s, Black, Red, a, y, b, x, far);
  }

  lemma MovedNephew(h: Heap, h1: Heap, g: Ctx, s: Side, a: RbNode?, y: RbNode, b: RbNode?, x: RbNode, far: RbNode?)
    requires g.Hole? && g.side == s.Other() && Turnable(h, g, s, Black, Red, a, y, b, x, far)
    requires Moved(h, h1, s, y, b, x, g.node, g.side) && (b != null && b in h ==> h[b].color == Black)
    ensures y in h1 && x in h1 && y != x
    ensures forall root :: TurnedCells(h, Pend4(h1, g.node, y, x), root, root, g, s, a, y, b, x, far, Black, Red)
  {
  }

  /** What case 4 reads after case 3. */
  lemma NephewStored(h1: Heap, s: Side, y: RbNode, a: RbNode?, h: Heap, g: Ctx, b: RbNode?, x: RbNode, far: RbNode?)
    requires g.Hole? && g.side == s.Other() && Turnable(h, g, s, Black, Red, a, y, b, x, far)
    requires Moved(h, h1, s, y, b, x, g.node, g.side)
    ensures g.node in h1 && KidOf(h1[g.node], g.side) == y
    ensures y in h1 && KidOf(h1[y], s.Other()) == x && KidOf(h1[y], s) == a
  {
  }

  lemma {:induction false} NephewDone(h: Heap, h': Heap, root: RbNode?, up: Ctx, s: Side, c: Color, t: Tree,
                                      parent: RbNode,
                                      a: Tree, y: RbNode, b: Tree, x: RbNode, far: Tree)
    requires var g := Hole(s.Other(), c, parent, t, up);
             && Shape(h, root, g, Mk(s, Black, Mk(s, Red, a, y, b), x, far))
             && TurnedCells(h, h', root, root, g, s, Root(a), y, Root(b), x, Root(far), Black, Red)
    ensures var o, o' := Mk(s, Black, Mk(s, Red, a, y, b), x, far), Mk(s, Red, a, y, Mk(s, Black, b, x, far));
            var r, r' := Mk(s, c, t, parent, o), Mk(s, c, t, parent, o');
            Shape(h', root, up, r') && Seq(up, r') == Seq(up, r) && All(up, r') == All(up, r)
  {
    hide Shape, TurnedCells, Nodes, Inorder, Seq;
    var g := Hole(s.Other(), c, parent, t, up);
    var o, o' := Mk(s, Black, Mk(s, Red, a, y, b), x, far), Mk(s, Red, a, y, Mk(s, Black, b, x, far));
    assert Mk(s.Other(), c, o, parent, t) == Mk(s, c, t, parent, o);
    assert Mk(s.Other(), c, o', parent, t) == Mk(s, c, t, parent, o');
    Rotated(h, h', root, root, g, s, Black, Red, a, y, b, x, far, Black, Red);
    ShapeUp(h', root, g, o');
    SeqUp(g, o);
    SeqUp(g, o');
    MkParts(s, c, t, parent, o);
    MkParts(s, c, t, parent, o');
  }

  /** Case 1 when node is a left child: left rotate at parent. */
  method RedSiblingLeft(parent: RbNode, sibling: RbNode, root: RbRoot, ghost ns: set<RbNode>,
                        ghost up: Ctx, ghost t: Tree, ghost sl: Tree, ghost sr: Tree) returns (tmp1: RbNode)
    requires Shape(Snap(ns), root.node, up, Node(Black, t, parent, Node(Red, sl, sibling, sr)))
    requires sl.Node? && sl.color == Black
    modifies root, ns
    ensures tmp1 == sl.node
    ensures var r := Node(Black, Node(Red, t, parent, sl), sibling, sr);
            var o := Node(Black, t, parent, Node(Red, sl, sibling, sr));
            Shape(Snap(ns), root.node, up, r) && Seq(up, r) == Seq(up, o) && All(up, r) == All(up, o)
  {
    hide Snap, Shape, Nodes, CtxNodes, In, CtxIn, Proper, CtxProper, Inorder, Seq, All, Turnable, TurnedCells,
         ChildrenSet, ParentsSet, Moved;
    ghost var h, r0 := Snap(ns), root.node;
    Cells(h, r0, up, R, Black, Red, sr, sibling, sl, parent, t);
    Reads(h, up, R, Black, Red, Root(sr), sibling, Root(sl), parent, Root(t));
    tmp1 := sibling.left;
    TurnLeft(parent, sibling, tmp1, ns);
    ghost var h1 := Snap(ns);
    MovedChildren(h, h1, up, R, Black, Red, Root(sr), sibling, Root(sl), parent, Root(t));
    Placed(h, h1, up, R, Black, Red, Root(sr), sibling, Root(sl), parent, Root(t));
    TakeParent(parent, sibling, root, Red, ns, up);
    TurnDone(h, h1, Snap(ns), r0, root.node, up, R, Black, Red, sr, sibling, sl, parent, t, Red);
  }

  /** Case 3 when node is a left child: right rotate at sibling. */
  method RedNephewLeft(parent: RbNode, sibling: RbNode, tmp2: RbNode, ghost root: RbNode?, ghost ns: set<RbNode>,
                       ghost up: Ctx, ghost c: Color, ghost t: Tree, ghost a: Tree, ghost b: Tree, ghost sr: Tree)
    requires Shape(Snap(ns), root, up, Node(c, t, parent, Node(Black, Node(Red, a, tmp2, b), sibling, sr)))
    requires IsBlack(b)
    modifies ns
    ensures tmp2 in ns && sibling in ns && parent in ns && parent.right == tmp2 && tmp2.right == sibling
    ensures tmp2 != sibling && tmp2.left == Root(a)
    ensures var r := Node(c, t, parent, Node(Red, a, tmp2, Node(Black, b, sibling, sr)));
            var o := Node(c, t, parent, Node(Black, Node(Red, a, tmp2, b), sibling, sr));
            Shape(Pend4(Snap(ns), parent, tmp2, sibling), root, up, r) && Seq(up, r) == Seq(up, o)
              && All(up, r) == All(up, o)
  {
    hide Snap, Shape, Nodes, CtxNodes, In, CtxIn, Proper, CtxProper, Inorder, Seq, All, Turnable, TurnedCells, Moved,
         Pend4;
    ghost var h, g := Snap(ns), Hole(R, c, parent, t, up);
    NephewReads(h, root, up, L, c, t, parent, a, tmp2, b, sibling, sr);
    Reads(h, g, L, Black, Red, Root(a), tmp2, Root(b), sibling, Root(sr));
    StoreNephewLeft(parent, sibling, tmp2, ns);
    ghost var h1 := Snap(ns);
    MovedNephew(h, h1, g, L, Root(a), tmp2, Root(b), sibling, Root(sr));
    NephewStored(h1, L, tmp2, Root(a), h, g, Root(b), sibling, Root(sr));
    NephewDone(h, Pend4(h1, parent, tmp2, sibling), root, up, L, c, t, parent, a, tmp2, b, sibling, sr);
  }

  /** Case 4 when node is a left child: left rotate at parent and colour flips. */
  method RotateParentLeft(parent: RbNode, sibling: RbNode, tmp1: RbNode, root: RbRoot, ghost ns: set<RbNode>,
                          ghost up: Ctx, ghost c: Color, ghost cs: Color, ghost t: Tree, ghost b: Tree, ghost a: Tree)
    requires sibling in ns && tmp1 in ns && sibling != tmp1 && a.Node? && a.node == tmp1 && a.color == Black
    requires Shape(Pend4(Snap(ns), parent, sibling, tmp1), root.node, up, Node(c, t, parent, Node(cs, b, sibling, a)))
    modifies root, ns
    ensures var r := Node(c, Node(Black, t, parent, b), sibling, a);
            var o := Node(c, t, parent, Node(cs, b, sibling, a));
            Shape(Snap(ns), root.node, up, r) && Seq(up, r) == Seq(up, o) && All(up, r) == All(up, o)
  {
    hide Snap, Shape, Nodes, CtxNodes, In, CtxIn, Proper, CtxProper, Inorder, Seq, All, Turnable, TurnedCells,
         ChildrenSet, ParentsSet, Moved, Pend4, Flips;
    ghost var h, r0 := Snap(ns), root.node;
    ghost var v := Pend4(h, parent, sibling, tmp1);
    Cells(v, r0, up, R, c, cs, a, sibling, b, parent, t);
    Reads(v, up, R, c, cs, tmp1, sibling, Root(b), parent, Root(t));
    PendReads(h, parent, sibling, tmp1);
    StoreParentLeft(parent, sibling, tmp1, ns, Root(b));
    ghost var h1 := Snap(ns);
    FlipsChildren(h, h1, up, R, c, cs, tmp1, sibling, Root(b), parent, Root(t));
    Placed(v, h1, up, R, c, cs, tmp1, sibling, Root(b), parent, Root(t));
    TakeParent(parent, sibling, root, Black, ns, up);
    TurnDone(v, h1, Snap(ns), r0, root.node, up, R, c, cs, a, sibling, b, parent, t, Black);
  }

  /** Case 1 when node is a right child: right rotate at parent. */
  method RedSiblingRight(parent: RbNode, sibling: RbNode, root: RbRoot, ghost ns: set<RbNode>,
                        ghost up: Ctx, ghost t: Tree, ghost sr: Tree, ghost sl: Tree) returns (tmp1: RbNode)
    requires Shape(Snap(ns), root.node, up, Node(Black, Node(Red, sl, sibling, sr), parent, t))
    requires sr.Node? && sr.color == Black
    modifies root, ns
    ensures tmp1 == sr.node
    ensures var r := Node(Black, sl, sibling, Node(Red, sr, parent, t));
            var o := Node(Black, Node(Red, sl, sibling, sr), parent, t);
            Shape(Snap(ns), root.node, up, r) && Seq(up, r) == Seq(up, o) && All(up, r) == All(up, o)
  {
    hide Snap, Shape, Nodes, CtxNodes, In, CtxIn, Proper, CtxProper, Inorder, Seq, All, Turnable, TurnedCells,
         ChildrenSet, ParentsSet, Moved;
    ghost var h, r0 := Snap(ns), root.node;
    Cells(h, r0, up, L, Black, Red, sl, sibling, sr, parent, t);
    Reads(h, up, L, Black, Red, Root(sl), sibling, Root(sr), parent, Root(t));
    tmp1 := sibling.right;
    TurnRight(parent, sibling, tmp1, ns);
    ghost var h1 := Snap(ns);
    MovedChildren(h, h1, up, L, Black, Red, Root(sl), sibling, Root(sr), parent, Root(t));
    Placed(h, h1, up, L, Black, Red, Root(sl), sibling, Root(sr), parent, Root(t));
    TakeParent(parent, sibling, root, Red, ns, up);
    TurnDone(h, h1, Snap(ns), r0, root.node, up, L, Black, Red, sl, sibling, sr, parent, t, Red);
  }

  /** Case 3 when node is a right child: left rotate at sibling. */
  method RedNephewRight(parent: RbNode, sibling: RbNode, tmp2: RbNode, ghost root: RbNode?, ghost ns: set<RbNode>,
                       ghost up: Ctx, ghost c: Color, ghost t: Tree, ghost a: Tree, ghost b: Tree, ghost sl: Tree)
    requires Shape(Snap(ns), root, up, Node(c, Node(Black, sl, sibling, Node(Red, b, tmp2, a)), parent, t))
    requires IsBlack(b)
    modifies ns
    ensures tmp2 in ns && sibling in ns && parent in ns && parent.left == tmp2 && tmp2.left == sibling
    ensures tmp2 != sibling && tmp2.right == Root(a)
    ensures var r := Node(c, Node(Red, Node(Black, sl, sibling, b), tmp2, a), parent, t);
            var o := Node(c, Node(Black, sl, sibling, Node(Red, b, tmp2, a)), parent, t);
            Shape(Pend4(Snap(ns), parent, tmp2, sibling), root, up, r) && Seq(up, r) == Seq(up, o)
              && All(up, r) == All(up, o)
  {
    hide Snap, Shape, Nodes, CtxNodes, In, CtxIn, Proper, CtxProper, Inorder, Seq, All, Turnable, TurnedCells, Moved,
         Pend4;
    ghost var h, g := Snap(ns), Hole(L, c, parent, t, up);
    NephewReads(h, root, up, R, c, t, parent, a, tmp2, b, sibling, sl);
    Reads(h, g, R, Black, Red, Root(a), tmp2, Root(b), sibling, Root(sl));
    StoreNephewRight(parent, sibling, tmp2, ns);
    ghost var h1 := Snap(ns);
    MovedNephew(h, h1, g, R, Root(a), tmp2, Root(b), sibling, Root(sl));
    NephewStored(h1, R, tmp2, Root(a), h, g, Root(b), sibling, Root(sl));
    NephewDone(h, Pend4(h1, parent, tmp2, sibling), root, up, R, c, t, parent, a, tmp2, b, sibling, sl);
  }

  /** Case 4 when node is a right child: right rotate at parent and colour flips. */
  method RotateParentRight(parent: RbNode, sibling: RbNode, tmp1: RbNode, root: RbRoot, ghost ns: set<RbNode>,
                          ghost up: Ctx, ghost c: Color, ghost cs: Color, ghost t: Tree, ghost b: Tree, ghost a: Tree)
    requires sibling in ns && tmp1 in ns && sibling != tmp1 && a.Node? && a.node == tmp1 && a.color == Black
    requires Shape(Pend4(Snap(ns), parent, sibling, tmp1), root.node, up, Node(c, Node(cs, a, sibling, b), parent, t))
    modifies root, ns
    ensures var r := Node(c, a, sibling, Node(Black, b, parent, t));
            var o := Node(c, Node(cs, a, sibling, b), parent, t);
            Shape(Snap(ns), root.node, up, r) && Seq(up, r) == Seq(up, o) && All(up, r) == All(up, o)
  {
    hide Snap, Shape, Nodes, CtxNodes, In, CtxIn, Proper, CtxProper, Inorder, Seq, All, Turnable, TurnedCells,
         ChildrenSet, ParentsSet, Moved, Pend4, Flips;
    ghost var h, r0 := Snap(ns), root.node;
    ghost var v := Pend4(h, parent, sibling, tmp1);
    Cells(v, r0, up, L, c, cs, a, sibling, b, parent, t);
    Reads(v, up, L, c, cs, tmp1, sibling, Root(b), parent, Root(t));
    PendReads(h, parent, sibling, tmp1);
    StoreParentRight(parent, sibling, tmp1, ns, Root(b));
    ghost var h1 := Snap(ns);
    FlipsChildren(h, h1, up, L, c, cs, tmp1, sibling, Root(b), parent, Root(t));
    Placed(v, h1, up, L, c, cs, tmp1, sibling, Root(b), parent, Root(t));
    TakeParent(parent, sibling, root, Black, ns, up);
    TurnDone(v, h1, Snap(ns), r0, root.node, up, L, c, cs, a, sibling, b, parent, t, Black);
  }

  /** A subtree one black node short of what the tree around the hole calls for. */
  predicate Short(ctx: Ctx, t: Tree, bh: nat) {
    bh > 0 && IsBlack(t) && Ok(t, bh - 1) && CtxOk(ctx, bh)
  }

  /** What the code reads around the hole. */
  lemma {:induction false} Around(h: Heap, root: RbNode?, ctx: Ctx, t: Tree)
    requires Shape(h, root, ctx, t) && ctx.Hole?
    ensures ctx.node in h && h[ctx.node] == MkCell(Parent(ctx.up), ctx.color, ctx.side, Root(t), Root(ctx.sib))
    ensures var s := ctx.sib; s.Node? ==>
              && s.node in h && h[s.node] == Cell(ctx.node, s.color, Root(s.left), Root(s.right)) && s.node != Root(t)
              && (s.left.Node? ==> s.left.node in h && h[s.left.node].color == s.left.color && s.left.node != s.node)
              && (s.right.Node? ==>
                  s.right.node in h && h[s.right.node].color == s.right.color && s.right.node != s.node)
    ensures var o := Mk(ctx.side, ctx.color, t, ctx.node, ctx.sib);
            Shape(h, root, ctx.up, o) && All(ctx.up, o) == All(ctx, t) && Seq(ctx.up, o) == Seq(ctx, t)
  {
    assert t.Node? ==> t.node in Nodes(t);
    var s := ctx.sib;
    if s.Node? {
      assert s.node in CtxNodes(ctx);
      assert In(h, s.left, s.node) && In(h, s.right, s.node);
      assert s.left.Node? ==> s.left.node in Nodes(s.left);
      assert s.right.Node? ==> s.right.node in Nodes(s.right);
    }
    ShapeUp(h, root, ctx, t);
    SeqUp(ctx, t);
  }

  /** The tree around the hole after case 1: near's child is the new sibling. */
  function Turned(ctx: Ctx): Ctx
    requires ctx.Hole? && ctx.sib.Node?
  {
    Hole(ctx.side, Red, ctx.node, Kid(ctx.sib, ctx.side),
         Hole(ctx.side, Black, ctx.sib.node, Kid(ctx.sib, ctx.side.Other()), ctx.up))
  }

  lemma {:induction false} OkMk(s: Side, c: Color, a: Tree, n: RbNode, b: Tree, bh: nat)
    ensures Ok(Mk(s, c, a, n, b), bh) <==>
            if c == Red then IsBlack(a) && IsBlack(b) && Ok(a, bh) && Ok(b, bh)
            else bh > 0 && Ok(a, bh - 1) && Ok(b, bh - 1)
  {
  }

  /** What the colour rules say next to a subtree that is one black node short. */
  lemma {:induction false} Deficit(ctx: Ctx, t: Tree, bh: nat)
    requires Short(ctx, t, bh) && ctx.Hole?
    ensures ctx.sib.Node?
    ensures ctx.color == Red ==> ctx.sib.color == Black && TopIsBlack(ctx.up) && CtxOk(ctx.up, bh)
    ensures ctx.color == Black ==> CtxOk(ctx.up, bh + 1)
    ensures ctx.sib.color == Red ==>
              && Short(Turned(ctx), t, bh)
              && ctx.sib.left.Node? && ctx.sib.left.color == Black && ctx.sib.right.Node?
                 && ctx.sib.right.color == Black
    ensures ctx.sib.color == Black && IsBlack(ctx.sib.left) && IsBlack(ctx.sib.right) ==>
              var r := Mk(ctx.side, Black, t, ctx.node, ctx.sib.(color := Red));
              Ok(r, bh) && (ctx.color == Black ==> if ctx.up.Top? then RB(r) else Short(ctx.up, r, bh + 1))
  {
    var r := Mk(ctx.side, Black, t, ctx.node, ctx.sib.(color := Red));
    OkMk(ctx.side, Black, t, ctx.node, ctx.sib.(color := Red), bh);
    if ctx.sib.Node? && ctx.sib.color == Red {
      assert Ok(ctx.sib, bh) && Ok(ctx.sib.left, bh) && Ok(ctx.sib.right, bh);
    }
    if ctx.up.Top? && Ok(r, bh) { OkHeight(r, bh); }
  }

  /** The subtree that case 4 leaves meets the colour rules, with and without case 3 before it. */
  lemma {:induction false} NephewColors(ctx: Ctx, t: Tree, bh: nat)
    requires Short(ctx, t, bh) && ctx.Hole? && ctx.sib.Node? && ctx.sib.color == Black
    ensures var s, near, far, x := ctx.side, Kid(ctx.sib, ctx.side), Kid(ctx.sib, ctx.side.Other()),
                                   if ctx.color == Red then bh else bh + 1;
            && (!IsBlack(far) ==>
                  Ok(Mk(s, ctx.color, Mk(s, Black, t, ctx.node, near), ctx.sib.node, far.(color := Black)), x))
            && (IsBlack(far) && !IsBlack(near) ==>
                  && IsBlack(near.left) && IsBlack(near.right)
                  && Ok(Mk(s, ctx.color, Mk(s, Black, t, ctx.node, Kid(near, s)), near.node,
                           Mk(s, Black, Kid(near, s.Other()), ctx.sib.node, far)), x))
  {
    var s, near, far := ctx.side, Kid(ctx.sib, ctx.side), Kid(ctx.sib, ctx.side.Other());
    var x := if ctx.color == Red then bh else bh + 1;
    assert ctx.sib == Mk(s, Black, near, ctx.sib.node, far);
    assert Ok(near, bh - 1) && Ok(far, bh - 1);
    if !IsBlack(far) {
      OkMk(s, Black, t, ctx.node, near, bh);
      OkMk(s, Black, far.left, far.node, far.right, bh);
      OkMk(s, ctx.color, Mk(s, Black, t, ctx.node, near), ctx.sib.node, far.(color := Black), x);
    } else if !IsBlack(near) {
      var a, b := Mk(s, Black, t, ctx.node, Kid(near, s)), Mk(s, Black, Kid(near, s.Other()), ctx.sib.node, far);
      OkMk(s, Black, t, ctx.node, Kid(near, s), bh);
      OkMk(s, Black, Kid(near, s.Other()), ctx.sib.node, far, bh);
      OkMk(s, ctx.color, a, near.node, b, x);
    }
  }

  /** The cells of the far nephew made black, as case 4 does. */
  lemma {:induction false} BlackNephewIn(h: Heap, h': Heap, root: RbNode?, up: Ctx, s: Side, c: Color, t: Tree,
                                         parent: RbNode,
                                         cs: Color, near: Tree, n: RbNode, far: Tree)
    requires Shape(h, root, up, Mk(s, c, t, parent, Mk(s, cs, near, n, far))) && far.Node?
    requires SameBut(h, h', far.node, n, null, null) && (n in h && n in h' ==> h'[n] == h[n])
    requires far.node in h && far.node in h' ==> h'[far.node] == h[far.node].(parent := n, color := Black)
    ensures var sib' := Mk(s, cs, near, n, far.(color := Black));
            In(h', Mk(s, c, t, parent, sib'), Parent(up)) && CtxIn(h', up, parent, root)
  {
    hide Nodes, CtxNodes, In, CtxIn, Proper, CtxProper, Inorder;
    var far' := far.(color := Black);
    var sib' := Mk(s, cs, near, n, far');
    assert Mk(s.Other(), c, Mk(s.Other(), cs, far, n, near), parent, t) == Mk(s, c, t, parent, Mk(s, cs, near, n, far));
    Facts(h, root, up, s.Other(), c, cs, far, n, near, parent, t);
    MkParts(s, cs, near, n, far);
    MkParts(s, c, t, parent, Mk(s, cs, near, n, far));
    Recolored(h, h', far, n, n, Black, far.node, n, null);
    Kept(h, h', near, n, n, far.node, n, null, null);
    Kept(h, h', t, parent, parent, far.node, n, null, null);
    CtxStays(h, h', up, parent, root, far.node, n, null);
    InParts(h', s, cs, near, n, far', parent);
    InParts(h', s, c, t, parent, sib', Parent(up));
  }

  lemma NephewSeq(s: Side, c: Color, a: Tree, n: RbNode, b: Tree, b': Tree)
    requires Inorder(b) == Inorder(b')
    ensures Inorder(Mk(s, c, a, n, b)) == Inorder(Mk(s, c, a, n, b'))
  {
  }

  lemma {:induction false} BlackNephewParts(s: Side, c: Color, t: Tree, parent: RbNode, cs: Color, near: Tree,
                                            n: RbNode, far: Tree)
    requires far.Node?
    ensures var o, o' := Mk(s, c, t, parent, Mk(s, cs, near, n, far)),
            Mk(s, c, t, parent, Mk(s, cs, near, n, far.(color := Black)));
            Nodes(o') == Nodes(o) && Inorder(o') == Inorder(o) && (Proper(o) ==> Proper(o')) && Root(o') == Root(o)
  {
    var far', sib, sib' := far.(color := Black), Mk(s, cs, near, n, far), Mk(s, cs, near, n, far.(color := Black));
    assert Inorder(far') == Inorder(far) && Nodes(far') == Nodes(far) && (Proper(far) ==> Proper(far'));
    hide Nodes, Proper, Inorder;
    NephewSeq(s, cs, near, n, far, far');
    NephewSeq(s, c, t, parent, sib, sib');
    MkParts(s, cs, near, n, far);
    MkParts(s, cs, near, n, far');
    MkParts(s, c, t, parent, sib);
    MkParts(s, c, t, parent, sib');
  }

  /** The far nephew made black, as case 4 does. */
  lemma {:induction false} BlackNephew(h: Heap, root: RbNode?, up: Ctx, s: Side, c: Color, t: Tree, parent: RbNode,
                                       sib: Tree)
    requires Shape(h, root, up, Mk(s, c, t, parent, sib)) && sib.Node? && Kid(sib, s.Other()).Node?
    ensures var far := Kid(sib, s.Other());
            var o := Mk(s, c, t, parent, Mk(s, sib.color, Kid(sib, s), sib.node, far.(color := Black)));
            && sib.node in h && far.node in h && sib.node != far.node
            && Shape(Pend4(h, parent, sib.node, far.node), root, up, o)
            && All(up, o) == All(up, Mk(s, c, t, parent, sib)) && Seq(up, o) == Seq(up, Mk(s, c, t, parent, sib))
  {
    hide Nodes, CtxNodes, In, CtxIn, Proper, CtxProper, Inorder;
    var near, far := Kid(sib, s), Kid(sib, s.Other());
    assert sib == Mk(s, sib.color, near, sib.node, far);
    assert Mk(s.Other(), c, Mk(s.Other(), sib.color, far, sib.node, near), parent, t) == Mk(s, c, t, parent, sib);
    Facts(h, root, up, s.Other(), c, sib.color, far, sib.node, near, parent, t);
    BlackNephewIn(h, Pend4(h, parent, sib.node, far.node), root, up, s, c, t, parent, sib.color, near, sib.node, far);
    BlackNephewParts(s, c, t, parent, sib.color, near, sib.node, far);
  }

  ghost predicate FlipCells(h: Heap, h': Heap, parent: RbNode, sibling: RbNode) {
    && SameBut(h, h', sibling, parent, null, null)
    && sibling in h && sibling in h' && h'[sibling] == h[sibling].(parent := parent, color := Red)
    && parent in h && parent in h' && h'[parent] == h[parent].(color := Black)
  }

  /** The stores of case 2. */
  method StoreFlip(parent: RbNode, sibling: RbNode, ghost ns: set<RbNode>) returns (again: bool)
    requires parent in ns && sibling in ns && parent != sibling
    modifies ns
    ensures again <==> old(parent.color) == Black
    ensures FlipCells(old(Snap(ns)), Snap(ns), parent, sibling)
  {
    hide Snap;
    sibling.parent, sibling.color := parent, Red;
    again := true;
    if parent.color == Red {
      parent.color := Black;
      again := false;
    }
  }

  lemma {:induction false} FlipDone(h: Heap, h': Heap, root: RbNode?, up: Ctx, s: Side, c: Color, t: Tree,
                                    parent: RbNode, b: Tree)
    requires Shape(h, root, up, Mk(s, c, t, parent, b)) && b.Node? && FlipCells(h, h', parent, b.node)
    ensures var r := Mk(s, Black, t, parent, b.(color := Red));
            Shape(h', root, up, r) && All(up, r) == All(up, Mk(s, c, t, parent, b))
  {
    hide Nodes, CtxNodes, In, CtxIn, Proper, CtxProper;
    var b' := b.(color := Red);
    NodeFacts(h, root, up, s, c, t, parent, b);
    Recolored(h, h', b, parent, parent, Red, b.node, parent, null);
    Kept(h, h', t, parent, parent, b.node, parent, null, null);
    CtxStays(h, h', up, parent, root, b.node, parent, null);
    MkParts(s, c, t, parent, b);
    MkParts(s, Black, t, parent, b');
    InParts(h', s, Black, t, parent, b', Parent(up));
  }

  lemma {:induction false} FlipSeq(ctx: Ctx, t: Tree)
    requires ctx.Hole? && ctx.sib.Node?
    ensures var r, o := Mk(ctx.side, Black, t, ctx.node, ctx.sib.(color := Red)),
            Mk(ctx.side, ctx.color, t, ctx.node, ctx.sib);
            Inorder(r) == Inorder(o) && Seq(ctx.up, r) == Seq(ctx.up, o)
  {
    assert Inorder(ctx.sib.(color := Red)) == Inorder(ctx.sib);
  }

  /** Case 2: sibling color flip, and the parent made black if it was red. */
  method SiblingFlip(parent: RbNode, sibling: RbNode, ghost root: RbNode?, ghost ns: set<RbNode>,
                     ghost ctx: Ctx, ghost t: Tree) returns (again: bool)
    requires Shape(Snap(ns), root, ctx, t) && ctx.Hole? && ctx.node == parent && ctx.sib.Node?
             && ctx.sib.node == sibling
    modifies ns
    ensures again <==> ctx.color == Black
    ensures var r := Mk(ctx.side, Black, t, parent, ctx.sib.(color := Red));
            Shape(Snap(ns), root, ctx.up, r) && All(ctx.up, r) == All(ctx, t) && Seq(ctx.up, r) == Seq(ctx, t)
  {
    hide Snap, Shape, Nodes, CtxNodes, In, CtxIn, Proper, CtxProper, Inorder, Seq, All, FlipCells;
    ghost var h := Snap(ns);
    Around(h, root, ctx, t);
    again := StoreFlip(parent, sibling, ns);
    FlipDone(h, Snap(ns), root, ctx.up, ctx.side, ctx.color, t, parent, ctx.sib);
    FlipSeq(ctx, t);
  }

  /** Cases 2 to 4 when node is a left child and its sibling is black. */
  method BlackSiblingLeft(parent: RbNode, sibling0: RbNode, root: RbRoot, ghost ns: set<RbNode>,
                          ghost ctx: Ctx, ghost t: Tree, ghost bh: nat) returns (again: bool, ghost r: Tree)
    requires Shape(Snap(ns), root.node, ctx, t) && ctx.Hole? && ctx.side == L && ctx.node == parent
    requires Short(ctx, t, bh) && ctx.sib.Node? && ctx.sib.node == sibling0 && ctx.sib.color == Black
    modifies root, ns
    ensures again ==>
              Shape(Snap(ns), root.node, ctx.up, r) && r.Node? && r.node == parent && parent.parent == Parent(ctx.up)
    ensures again ==> ctx.color == Black
    ensures again ==> All(ctx.up, r) == All(ctx, t) && Seq(ctx.up, r) == Seq(ctx, t)
    ensures again ==> if ctx.up.Top? then RB(r) else Short(ctx.up, r, bh + 1)
    ensures !again ==>
              Shape(Snap(ns), root.node, Top, r) && RB(r) && All(Top, r) == All(ctx, t) && Inorder(r) == Seq(ctx, t)
  {
    hide All, Snap, Shape, Nodes, CtxNodes, In, CtxIn, Proper, CtxProper, Inorder, Seq, Plug, RB, Ok, CtxOk, Short,
         Pend4;
    ghost var h, up, c, s := Snap(ns), ctx.up, ctx.color, ctx.sib;
    Around(h, root.node, ctx, t);
    Deficit(ctx, t, bh);
    NephewColors(ctx, t, bh);
    var sibling := sibling0;
    var tmp1 := sibling.right;
    if tmp1 == null || tmp1.color == Black {
      var tmp2 := sibling.left;
      if tmp2 == null || tmp2.color == Black {
        again := SiblingFlip(parent, sibling, root.node, ns, ctx, t);
        r := Node(Black, t, parent, s.(color := Red));
        if !again {
          r := Whole(Snap(ns), root.node, up, r, bh);
        } else {
          Above(Snap(ns), root.node, up, r);
        }
        return;
      }
      RedNephewLeft(parent, sibling, tmp2, root.node, ns, up, c, t, s.left.left, s.left.right, s.right);
      s := Node(Red, s.left.left, tmp2, Node(Black, s.left.right, sibling, s.right));
      tmp1 := sibling;
      sibling := tmp2;
      assert Ok(Node(c, Node(Black, t, parent, s.left), sibling, s.right), if c == Red then bh else bh + 1);
    } else {
      BlackNephew(h, root.node, up, L, c, t, parent, s);
      s := s.(right := s.right.(color := Black));
      assert Ok(Node(c, Node(Black, t, parent, s.left), sibling, s.right), if c == Red then bh else bh + 1);
    }
    again := false;
    RotateParentLeft(parent, sibling, tmp1, root, ns, up, c, s.color, t, s.left, s.right);
    r := Whole(Snap(ns), root.node, up, Node(c, Node(Black, t, parent, s.left), sibling, s.right),
               if c == Red then bh else bh + 1);
  }

  lemma {:induction false} TurnedShape(h: Heap, root: RbNode?, ctx: Ctx, t: Tree)
    requires ctx.Hole? && ctx.sib.Node?
    requires var r := Mk(ctx.side, Black, Mk(ctx.side, Red, t, ctx.node, Kid(ctx.sib, ctx.side)), ctx.sib.node,
                         Kid(ctx.sib, ctx.side.Other()));
             Shape(h, root, ctx.up, r) && All(ctx.up, r) == All(ctx, t) && Seq(ctx.up, r) == Seq(ctx, t)
    ensures Shape(h, root, Turned(ctx), t) && All(Turned(ctx), t) == All(ctx, t) && Seq(Turned(ctx), t) == Seq(ctx, t)
  {
    hide Shape, All, Seq;
    var c := Turned(ctx);
    var r := Mk(ctx.side, Red, t, ctx.node, Kid(ctx.sib, ctx.side));
    ShapeUp(h, root, c, t);
    ShapeUp(h, root, c.up, r);
    SeqUp(c, t);
    SeqUp(c.up, r);
  }

  /** One turn of the loop when node is a left child. */
  method NodeIsLeft(parent: RbNode, root: RbRoot, ghost ns: set<RbNode>, ghost ctx: Ctx, ghost t: Tree, ghost bh: nat)
    returns (again: bool, ghost r: Tree)
    requires Shape(Snap(ns), root.node, ctx, t) && ctx.Hole? && ctx.side == L && ctx.node == parent
    requires Short(ctx, t, bh)
    modifies root, ns
    ensures again ==>
              Shape(Snap(ns), root.node, ctx.up, r) && r.Node? && r.node == parent && parent.parent == Parent(ctx.up)
    ensures again ==> All(ctx.up, r) == All(ctx, t) && Seq(ctx.up, r) == Seq(ctx, t)
    ensures again ==> if ctx.up.Top? then RB(r) else Short(ctx.up, r, bh + 1)
    ensures !again ==>
              Shape(Snap(ns), root.node, Top, r) && RB(r) && All(Top, r) == All(ctx, t) && Inorder(r) == Seq(ctx, t)
  {
    hide All, Snap, Shape, Nodes, CtxNodes, In, CtxIn, Proper, CtxProper, Inorder, Seq, Plug, RB, Ok, CtxOk, Short;
    ghost var s := ctx.sib;
    Around(Snap(ns), root.node, ctx, t);
    Deficit(ctx, t, bh);
    var sibling := parent.right;
    if sibling.color == Red {
      sibling := RedSiblingLeft(parent, sibling, root, ns, ctx.up, t, s.left, s.right);
      ghost var c' := Turned(ctx);
      TurnedShape(Snap(ns), root.node, ctx, t);
      again, r := BlackSiblingLeft(parent, sibling, root, ns, c', t, bh);
    } else {
      again, r := BlackSiblingLeft(parent, sibling, root, ns, ctx, t, bh);
    }
  }

  /** Cases 2 to 4 when node is a right child and its sibling is black. */
  method BlackSiblingRight(parent: RbNode, sibling0: RbNode, root: RbRoot, ghost ns: set<RbNode>,
                          ghost ctx: Ctx, ghost t: Tree, ghost bh: nat) returns (again: bool, ghost r: Tree)
    requires Shape(Snap(ns), root.node, ctx, t) && ctx.Hole? && ctx.side == R && ctx.node == parent
    requires Short(ctx, t, bh) && ctx.sib.Node? && ctx.sib.node == sibling0 && ctx.sib.color == Black
    modifies root, ns
    ensures again ==>
              Shape(Snap(ns), root.node, ctx.up, r) && r.Node? && r.node == parent && parent.parent == Parent(ctx.up)
    ensures again ==> ctx.color == Black
    ensures again ==> All(ctx.up, r) == All(ctx, t) && Seq(ctx.up, r) == Seq(ctx, t)
    ensures again ==> if ctx.up.Top? then RB(r) else Short(ctx.up, r, bh + 1)
    ensures !again ==>
              Shape(Snap(ns), root.node, Top, r) && RB(r) && All(Top, r) == All(ctx, t) && Inorder(r) == Seq(ctx, t)
  {
    hide All, Snap, Shape, Nodes, CtxNodes, In, CtxIn, Proper, CtxProper, Inorder, Seq, Plug, RB, Ok, CtxOk, Short,
         Pend4;
    ghost var h, up, c, s := Snap(ns), ctx.up, ctx.color, ctx.sib;
    Around(h, root.node, ctx, t);
    Deficit(ctx, t, bh);
    NephewColors(ctx, t, bh);
    var sibling := sibling0;
    var tmp1 := sibling.left;
    if tmp1 == null || tmp1.color == Black {
      var tmp2 := sibling.right;
      if tmp2 == null || tmp2.color == Black {
        again := SiblingFlip(parent, sibling, root.node, ns, ctx, t);
        r := Node(Black, s.(color := Red), parent, t);
        if !again {
          r := Whole(Snap(ns), root.node, up, r, bh);
        } else {
          Above(Snap(ns), root.node, up, r);
        }
        return;
      }
      RedNephewRight(parent, sibling, tmp2, root.node, ns, up, c, t, s.right.right, s.right.left, s.left);
      s := Node(Red, Node(Black, s.left, sibling, s.right.left), tmp2, s.right.right);
      tmp1 := sibling;
      sibling := tmp2;
      assert Ok(Node(c, s.left, sibling, Node(Black, s.right, parent, t)), if c == Red then bh else bh + 1);
    } else {
      BlackNephew(h, root.node, up, R, c, t, parent, s);
      s := s.(left := s.left.(color := Black));
      assert Ok(Node(c, s.left, sibling, Node(Black, s.right, parent, t)), if c == Red then bh else bh + 1);
    }
    again := false;
    RotateParentRight(parent, sibling, tmp1, root, ns, up, c, s.color, t, s.right, s.left);
    r := Whole(Snap(ns), root.node, up, Node(c, s.left, sibling, Node(Black, s.right, parent, t)),
               if c == Red then bh else bh + 1);
  }

  /** One turn of the loop when node is a right child. */
  method NodeIsRight(parent: RbNode, root: RbRoot, ghost ns: set<RbNode>, ghost ctx: Ctx, ghost t: Tree, ghost bh: nat)
    returns (again: bool, ghost r: Tree)
    requires Shape(Snap(ns), root.node, ctx, t) && ctx.Hole? && ctx.side == R && ctx.node == parent
    requires Short(ctx, t, bh)
    modifies root, ns
    ensures again ==>
              Shape(Snap(ns), root.node, ctx.up, r) && r.Node? && r.node == parent && parent.parent == Parent(ctx.up)
    ensures again ==> All(ctx.up, r) == All(ctx, t) && Seq(ctx.up, r) == Seq(ctx, t)
    ensures again ==> if ctx.up.Top? then RB(r) else Short(ctx.up, r, bh + 1)
    ensures !again ==>
              Shape(Snap(ns), root.node, Top, r) && RB(r) && All(Top, r) == All(ctx, t) && Inorder(r) == Seq(ctx, t)
  {
    hide All, Snap, Shape, Nodes, CtxNodes, In, CtxIn, Proper, CtxProper, Inorder, Seq, Plug, RB, Ok, CtxOk, Short;
    ghost var s := ctx.sib;
    Around(Snap(ns), root.node, ctx, t);
    Deficit(ctx, t, bh);
    var sibling := parent.left;
    if sibling.color == Red {
      sibling := RedSiblingRight(parent, sibling, root, ns, ctx.up, t, s.right, s.left);
      ghost var c' := Turned(ctx);
      TurnedShape(Snap(ns), root.node, ctx, t);
      again, r := BlackSiblingRight(parent, sibling, root, ns, c', t, bh);
    } else {
      again, r := BlackSiblingRight(parent, sibling, root, ns, ctx, t, bh);
    }
  }

  /**
   ____rb_erase_color: `parent0` has a child subtree, the empty one in the hole of `c0`, that is one
   black node short.
   */
  method RbEraseColor(parent0: RbNode, root: RbRoot, ghost c0: Ctx, ghost ns: set<RbNode>) returns (ghost r: Tree)
    requires Shape(Snap(ns), root.node, c0, Leaf) && CtxOk(c0, 1)
    requires c0.Hole? && parent0 == c0.node
    modifies root, ns
    ensures Shape(Snap(ns), root.node, Top, r) && RB(r) && All(Top, r) == All(c0, Leaf)
    ensures Inorder(r) == Before(c0) + After(c0)
  {
    ghost var ctx, t, bh := c0, Leaf, 1;
    assert Short(c0, Leaf, 1) && Seq(c0, Leaf) == Before(c0) + After(c0);
    hide All, Snap, Shape, Nodes, CtxNodes, In, CtxIn, Proper, CtxProper, Inorder, Seq, Plug, RB, Ok, CtxOk, Short,
         Mk, SetKid;
    var node: RbNode?, parent := null, parent0;
    while true
      invariant Shape(Snap(ns), root.node, ctx, t) && ctx.Hole? && parent == ctx.node && node == Root(t)
      invariant Short(ctx, t, bh)
      invariant All(ctx, t) == All(c0, Leaf) && Seq(ctx, t) == Before(c0) + After(c0)
      decreases ctx
    {
      Around(Snap(ns), root.node, ctx, t);
      Deficit(ctx, t, bh);
      var again;
      if node != parent.right {
        again, r := NodeIsLeft(parent, root, ns, ctx, t, bh);
      } else {
        again, r := NodeIsRight(parent, root, ns, ctx, t, bh);
      }
      if !again { break; }
      node := parent;
      if node.parent == null {
        TopSeq(r);
        break;
      }
      parent := node.parent;
      ctx, t, bh := ctx.up, r, bh + 1;
    }
  }
}

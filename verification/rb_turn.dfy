/**
 The stores of a rotation, seen as changes of the heap: the pointer code of the rebalancing loops is
 proved against cells here, and the trees that the cells stand for follow.
 */
module RbTurn {
  import opened RbModel
  import opened RbLinks

  /** The first stores of a rotation: `b` moves from `y` to `x`, and `x` below `y`. */
  ghost predicate ChildrenSet(h: Heap, h': Heap, ctx: Ctx, s: Side, cx: Color,
                              a: RbNode?, y: RbNode, b: RbNode?, x: RbNode, c: RbNode?) {
    && SameBut(h, h', x, y, b, null)
    && x in h' && h'[x] == MkCell(Parent(ctx), cx, s, b, c)
    && y in h' && h'[y] == MkCell(h'[y].parent, h'[y].color, s, a, x)
    && (b != null ==> b in h && b in h' && h'[b] == h[b].(parent := x))
  }

  /** The last stores: `y` takes over the parent and the colour of `x`. */
  ghost predicate ParentsSet(h: Heap, h': Heap, root: RbNode?, root': RbNode?, ctx: Ctx, y: RbNode, x: RbNode,
                             color: Color) {
    && SameBut(h, h', x, y, Parent(ctx), null)
    && x in h && x in h' && h'[x] == h[x].(parent := y, color := color)
    && y in h && y in h' && h'[y] == h[y].(parent := Parent(ctx), color := h[x].color)
    && (ctx.Hole? ==> ctx.node in h && ctx.node in h' && h'[ctx.node] == SetKid(h[ctx.node], ctx.side, y))
    && root' == if ctx.Top? then y else root
  }

  /** As the code makes the first stores, with `b` black, and perhaps with `y` stored below the parent `p` too. */
  ghost predicate Moved(h: Heap, h': Heap, s: Side, y: RbNode, b: RbNode?, x: RbNode, p: RbNode?, ps: Side) {
    && SameBut(h, h', x, y, b, p)
    && x in h && x in h' && h'[x] == SetKid(h[x], s, b)
    && y in h && y in h' && h'[y] == SetKid(h[y], s.Other(), x)
    && (b != null ==> b in h && b in h' && h'[b] == h[b].(parent := x, color := Black))
    && (p != null ==> p in h && p in h' && h'[p] == SetKid(h[p], ps, y))
  }

  /** The first stores of a left rotation at `x`. */
  method TurnLeft(x: RbNode, y: RbNode, b: RbNode?, ghost ns: set<RbNode>)
    requires x in ns && y in ns && x != y && (b != null ==> b in ns && b != x && b != y)
    modifies ns
    ensures Moved(old(Snap(ns)), Snap(ns), R, y, b, x, null, L)
  {
    hide Snap;
    x.right := b;
    y.left := x;
    if b != null {
      b.parent, b.color := x, Black;
    }
  }

  /** The first stores of a right rotation at `x`. */
  method TurnRight(x: RbNode, y: RbNode, b: RbNode?, ghost ns: set<RbNode>)
    requires x in ns && y in ns && x != y && (b != null ==> b in ns && b != x && b != y)
    modifies ns
    ensures Moved(old(Snap(ns)), Snap(ns), L, y, b, x, null, L)
  {
    hide Snap;
    x.left := b;
    y.right := x;
    if b != null {
      b.parent, b.color := x, Black;
    }
  }

  /** __rb_rotate_set_parents for a node that stands in the focus of a tree. */
  method TakeParent(old_: RbNode, new_: RbNode, root: RbRoot, color: Color, ghost ns: set<RbNode>, ghost ctx: Ctx)
    requires old_ in ns && new_ in ns && old_ != new_ && old_.parent == Parent(ctx)
    requires ctx.Hole? ==>
               ctx.node in ns && ctx.node != old_ && ctx.node != new_ && (ctx.node.left == old_ <==> ctx.side == L)
    modifies root, ns
    ensures ParentsSet(old(Snap(ns)), Snap(ns), old(root.node), root.node, ctx, new_, old_, color)
  {
    hide Snap;
    RotateSetParents(old_, new_, root, color);
  }

  function KidOf(c: Cell, s: Side): RbNode? {
    if s == L then c.left else c.right
  }

  /** What the code reads around a rotation. */
  lemma Reads(h: Heap, ctx: Ctx, s: Side, cx: Color, cy: Color, a: RbNode?, y: RbNode, b: RbNode?, x: RbNode,
              c: RbNode?)
    requires Turnable(h, ctx, s, cx, cy, a, y, b, x, c)
    ensures x in h && y in h && x != y && KidOf(h[y], s.Other()) == b
    ensures b != null ==> b in h && b != x && b != y && b != a
    ensures a != null ==> a in h && a != x && a != y
    ensures ctx.Hole? ==> ctx.node in h && ctx.node != x && ctx.node != y && ctx.node != a && ctx.node != b
  {
  }

  /** What the last stores read after the first ones. */
  lemma Placed(h: Heap, h1: Heap, ctx: Ctx, s: Side, cx: Color, cy: Color, a: RbNode?, y: RbNode, b: RbNode?,
               x: RbNode, c: RbNode?)
    requires Turnable(h, ctx, s, cx, cy, a, y, b, x, c) && ChildrenSet(h, h1, ctx, s, cx, a, y, b, x, c)
    ensures x in h1 && y in h1 && x != y && h1[x].parent == Parent(ctx)
    ensures ctx.Hole? ==>
              ctx.node in h1 && ctx.node != x && ctx.node != y && (h1[ctx.node].left == x <==> ctx.side == L)
  {
  }

  lemma StoresTurn(h: Heap, h1: Heap, h2: Heap, root: RbNode?, root': RbNode?, ctx: Ctx, s: Side, cx: Color, cy: Color,
                   a: RbNode?, y: RbNode, b: RbNode?, x: RbNode, c: RbNode?, color: Color)
    requires Turnable(h, ctx, s, cx, cy, a, y, b, x, c) && ChildrenSet(h, h1, ctx, s, cx, a, y, b, x, c)
    requires ParentsSet(h1, h2, root, root', ctx, y, x, color)
    ensures TurnedCells(h, h2, root, root', ctx, s, a, y, b, x, c, color, cx)
  {
  }

  lemma MovedChildren(h: Heap, h1: Heap, ctx: Ctx, s: Side, cx: Color, cy: Color,
                      a: RbNode?, y: RbNode, b: RbNode?, x: RbNode, c: RbNode?)
    requires Turnable(h, ctx, s, cx, cy, a, y, b, x, c) && Moved(h, h1, s, y, b, x, null, L)
    requires b != null && b in h ==> h[b].color == Black
    ensures ChildrenSet(h, h1, ctx, s, cx, a, y, b, x, c)
  {
  }

  /** All stores of a rotation together, on the trees. */
  lemma TurnDone(h: Heap, h1: Heap, h2: Heap, root: RbNode?, root': RbNode?, ctx: Ctx, s: Side, cx: Color, cy: Color,
                 a: Tree, y: RbNode, b: Tree, x: RbNode, c: Tree, color: Color)
    requires Shape(h, root, ctx, Mk(s, cx, Mk(s, cy, a, y, b), x, c))
    requires ChildrenSet(h, h1, ctx, s, cx, Root(a), y, Root(b), x, Root(c))
    requires ParentsSet(h1, h2, root, root', ctx, y, x, color)
    ensures var r, o := Mk(s, cx, a, y, Mk(s, color, b, x, c)), Mk(s, cx, Mk(s, cy, a, y, b), x, c);
            && Shape(h2, root', ctx, r) && Seq(ctx, r) == Seq(ctx, o)
            && Nodes(r) == Nodes(o) && All(ctx, r) == All(ctx, o)
  {
    hide Shape, Nodes, Seq, ChildrenSet, ParentsSet, Turnable, TurnedCells;
    Cells(h, root, ctx, s, cx, cy, a, y, b, x, c);
    StoresTurn(h, h1, h2, root, root', ctx, s, cx, cy, Root(a), y, Root(b), x, Root(c), color);
    Rotated(h, h2, root, root', ctx, s, cx, cy, a, y, b, x, c, color, cx);
  }
}

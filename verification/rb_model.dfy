/**
 Red-black trees as the kernel stores them: nodes that point at their parent and at their two
 children, seen through a functional tree.

 A `Tree` names the nodes in their places. A `Ctx` is a tree with one hole (a path from the hole up
 to the root). `Shape` says that the pointers stored in the nodes are exactly those that the tree
 around the hole and the subtree in the hole call for, so every rebalancing step is a small change
 next to the hole.
 */
module RbModel {

  datatype Color = Red | Black

  datatype Side = L | R {
    function Other(): Side {
      if L? then R else L
    }
  }

  /** struct rb_node. The parent pointer and the colour, one word in the source, are two fields. */
  class RbNode {
    var parent: RbNode?
    var color: Color
    var left: RbNode?
    var right: RbNode?

    /** rb_init_node: an empty node is red and its own parent. */
    constructor ()
      ensures parent == this && color == Red && left == null && right == null
    {
      parent, color, left, right := this, Red, null, null;
    }
  }

  /** struct rb_root. */
  class RbRoot {
    var node: RbNode?

    constructor ()
      ensures node == null
    {
      node := null;
    }
  }

  datatype Tree = Leaf | Node(color: Color, left: Tree, node: RbNode, right: Tree)

  datatype Ctx = Top | Hole(side: Side, color: Color, node: RbNode, sib: Tree, up: Ctx)

  /** The node whose `s`-side child is `near` and whose other child is `far`. */
  function Mk(s: Side, c: Color, near: Tree, n: RbNode, far: Tree): Tree {
    if s == L then Node(c, near, n, far) else Node(c, far, n, near)
  }

  function Kid(t: Tree, s: Side): Tree
    requires t.Node?
  {
    if s == L then t.left else t.right
  }

  function Root(t: Tree): RbNode? {
    if t.Leaf? then null else t.node
  }

  function Parent(ctx: Ctx): RbNode? {
    if ctx.Top? then null else ctx.node
  }

  ghost function Nodes(t: Tree): set<RbNode> {
    if t.Leaf? then {} else Nodes(t.left) + {t.node} + Nodes(t.right)
  }

  ghost function CtxNodes(ctx: Ctx): set<RbNode> {
    if ctx.Top? then {} else {ctx.node} + Nodes(ctx.sib) + CtxNodes(ctx.up)
  }

  ghost function Inorder(t: Tree): seq<RbNode> {
    if t.Leaf? then [] else Inorder(t.left) + [t.node] + Inorder(t.right)
  }

  /** The in-order nodes before the hole. */
  ghost function Before(ctx: Ctx): seq<RbNode> {
    if ctx.Top? then []
    else if ctx.side == L then Before(ctx.up)
    else Before(ctx.up) + Inorder(ctx.sib) + [ctx.node]
  }

  /** The in-order nodes after the hole. */
  ghost function After(ctx: Ctx): seq<RbNode> {
    if ctx.Top? then []
    else if ctx.side == L then [ctx.node] + Inorder(ctx.sib) + After(ctx.up)
    else After(ctx.up)
  }

  /** All nodes of the tree that `t` in the hole makes. */
  ghost function All(ctx: Ctx, t: Tree): set<RbNode> {
    Nodes(t) + CtxNodes(ctx)
  }

  ghost function Seq(ctx: Ctx, t: Tree): seq<RbNode> {
    Before(ctx) + Inorder(t) + After(ctx)
  }

  function Plug(ctx: Ctx, t: Tree): Tree {
    if ctx.Top? then t else Plug(ctx.up, Mk(ctx.side, ctx.color, t, ctx.node, ctx.sib))
  }

  // ---------- the stored pointers ----------

  datatype Cell = Cell(parent: RbNode?, color: Color, left: RbNode?, right: RbNode?)

  type Heap = map<RbNode, Cell>

  /** What the nodes of `ns` hold at this moment. */
  ghost function Snap(ns: set<RbNode>): (h: Heap)
    reads ns
    ensures h.Keys == ns
    ensures forall n :: n in ns ==> h[n] == Cell(n.parent, n.color, n.left, n.right)
  {
    map n | n in ns :: Cell(n.parent, n.color, n.left, n.right)
  }

  ghost function MkCell(p: RbNode?, c: Color, s: Side, near: RbNode?, far: RbNode?): Cell {
    if s == L then Cell(p, c, near, far) else Cell(p, c, far, near)
  }

  ghost function SetKid(c: Cell, s: Side, k: RbNode?): Cell {
    if s == L then c.(left := k) else c.(right := k)
  }

  /** The heap holds tree `t`, whose root's parent pointer is `p`. */
  ghost predicate In(h: Heap, t: Tree, p: RbNode?) {
    t.Node? ==>
      && t.node in h
      && h[t.node] == Cell(p, t.color, Root(t.left), Root(t.right))
      && In(h, t.left, t.node)
      && In(h, t.right, t.node)
  }

  /** The heap holds the tree around the hole; `kid` is stored at the hole and `root` in the rb_root. */
  ghost predicate CtxIn(h: Heap, ctx: Ctx, kid: RbNode?, root: RbNode?) {
    if ctx.Top? then root == kid
    else
      && ctx.node in h
      && h[ctx.node] == MkCell(Parent(ctx.up), ctx.color, ctx.side, kid, Root(ctx.sib))
      && In(h, ctx.sib, ctx.node)
      && CtxIn(h, ctx.up, ctx.node, root)
  }

  /** No node occurs twice. */
  ghost predicate Proper(t: Tree) {
    t.Node? ==>
      && t.node !in Nodes(t.left) && t.node !in Nodes(t.right)
      && Nodes(t.left) !! Nodes(t.right)
      && Proper(t.left) && Proper(t.right)
  }

  ghost predicate CtxProper(ctx: Ctx) {
    ctx.Hole? ==>
      && ctx.node !in Nodes(ctx.sib) && ctx.node !in CtxNodes(ctx.up)
      && Nodes(ctx.sib) !! CtxNodes(ctx.up)
      && Proper(ctx.sib) && CtxProper(ctx.up)
  }

  ghost predicate Shape(h: Heap, root: RbNode?, ctx: Ctx, t: Tree) {
    && Proper(t) && CtxProper(ctx) && Nodes(t) !! CtxNodes(ctx)
    && In(h, t, Parent(ctx)) && CtxIn(h, ctx, Root(t), root)
  }

  /** The two heaps differ at most at the four nodes. */
  ghost predicate SameBut(h: Heap, h': Heap, i: RbNode?, j: RbNode?, k: RbNode?, l: RbNode?) {
    && h'.Keys == h.Keys
    && forall n :: n in h ==> n == i || n == j || n == k || n == l || h'[n] == h[n]
  }

  // ---------- colour rules ----------

  predicate IsBlack(t: Tree) {
    t.Leaf? || t.color == Black
  }

  /** Black height `bh` on every path, and no red node with a red child. */
  predicate Ok(t: Tree, bh: nat) {
    if t.Leaf? then bh == 0
    else if t.color == Red then IsBlack(t.left) && IsBlack(t.right) && Ok(t.left, bh) && Ok(t.right, bh)
    else bh > 0 && Ok(t.left, bh - 1) && Ok(t.right, bh - 1)
  }

  predicate TopIsBlack(ctx: Ctx) {
    ctx.Hole? && ctx.color == Black
  }

  /** A subtree of black height `bh` in the hole meets the colour rules, its root's own edge apart. */
  predicate CtxOk(ctx: Ctx, bh: nat) {
    ctx.Hole? ==>
      && Ok(ctx.sib, bh)
      && (if ctx.color == Red
          then IsBlack(ctx.sib) && TopIsBlack(ctx.up) && CtxOk(ctx.up, bh)
          else CtxOk(ctx.up, bh + 1))
  }

  /** The edge above `t` does not join two red nodes, and a root is black. */
  predicate Edge(ctx: Ctx, t: Tree) {
    IsBlack(t) || TopIsBlack(ctx)
  }

  function Height(t: Tree): nat {
    if t.Leaf? then 0 else Height(t.left) + if t.color == Black then 1 else 0
  }

  /** The red-black rules 2, 4 and 5 of the source's header comment. */
  predicate RB(t: Tree) {
    IsBlack(t) && Ok(t, Height(t))
  }

  // ---------- lemmas ----------

  lemma {:induction false} OkHeight(t: Tree, bh: nat)
    requires Ok(t, bh)
    ensures Height(t) == bh
  {
    if t.Node? { OkHeight(t.left, if t.color == Red then bh else bh - 1); }
  }

  lemma {:induction false} PlugOk(ctx: Ctx, t: Tree, bh: nat)
    requires CtxOk(ctx, bh) && Ok(t, bh)
    requires IsBlack(t) || TopIsBlack(ctx)
    ensures RB(Plug(ctx, t))
    decreases ctx
  {
    if ctx.Top? {
      OkHeight(t, bh);
    } else {
      PlugOk(ctx.up, Mk(ctx.side, ctx.color, t, ctx.node, ctx.sib), if ctx.color == Red then bh else bh + 1);
    }
  }

  lemma MkSeq(s: Side, c: Color, a: Tree, n: RbNode, b: Tree)
    ensures Inorder(Mk(s, c, a, n, b)) == if s == L then Inorder(a) + [n] + Inorder(b)
            else Inorder(b) + [n] + Inorder(a)
  {
  }

  lemma Beside(ctx: Ctx)
    requires ctx.Hole?
    ensures Before(ctx) == if ctx.side == L then Before(ctx.up) else Before(ctx.up) + Inorder(ctx.sib) + [ctx.node]
    ensures After(ctx) == if ctx.side == L then [ctx.node] + Inorder(ctx.sib) + After(ctx.up) else After(ctx.up)
  {
  }

  lemma Inward(p: seq<RbNode>, a: seq<RbNode>, n: RbNode, b: seq<RbNode>, q: seq<RbNode>)
    ensures p + a + ([n] + b + q) == p + (a + [n] + b) + q
  {
  }

  lemma Outward(p: seq<RbNode>, b: seq<RbNode>, n: RbNode, a: seq<RbNode>, q: seq<RbNode>)
    ensures (p + b + [n]) + a + q == p + (b + [n] + a) + q
  {
  }

  lemma Regroup(a: seq<RbNode>, x: RbNode, b: seq<RbNode>, y: RbNode, c: seq<RbNode>)
    ensures a + [x] + (b + [y] + c) == (a + [x] + b) + [y] + c
  {
  }

  lemma {:induction false} SeqUp(ctx: Ctx, t: Tree)
    requires ctx.Hole?
    ensures Seq(ctx, t) == Seq(ctx.up, Mk(ctx.side, ctx.color, t, ctx.node, ctx.sib))
  {
    MkSeq(ctx.side, ctx.color, t, ctx.node, ctx.sib);
    Beside(ctx);
    hide Inorder, Mk, Before, After;
    if ctx.side == L {
      Inward(Before(ctx.up), Inorder(t), ctx.node, Inorder(ctx.sib), After(ctx.up));
    } else {
      Outward(Before(ctx.up), Inorder(ctx.sib), ctx.node, Inorder(t), After(ctx.up));
    }
  }

  lemma {:induction false} PlugSeq(ctx: Ctx, t: Tree)
    ensures Inorder(Plug(ctx, t)) == Seq(ctx, t)
    decreases ctx
  {
    if ctx.Hole? {
      PlugSeq(ctx.up, Mk(ctx.side, ctx.color, t, ctx.node, ctx.sib));
      SeqUp(ctx, t);
    }
  }

  lemma {:induction false} Single(ctx: Ctx, n: RbNode, c: Color)
    ensures All(ctx, Node(c, Leaf, n, Leaf)) == {n} + CtxNodes(ctx)
    ensures Seq(ctx, Node(c, Leaf, n, Leaf)) == Before(ctx) + [n] + After(ctx)
    ensures c == Red ==> Ok(Node(c, Leaf, n, Leaf), 0)
  {
    assert Inorder(Leaf) == [] && Nodes(Leaf) == {};
    assert Inorder(Node(c, Leaf, n, Leaf)) == [n] && Nodes(Node(c, Leaf, n, Leaf)) == {n};
  }

  lemma {:induction false} MkParts(s: Side, c: Color, a: Tree, n: RbNode, b: Tree)
    ensures Nodes(Mk(s, c, a, n, b)) == Nodes(a) + {n} + Nodes(b)
    ensures Root(Mk(s, c, a, n, b)) == n
    ensures Proper(Mk(s, c, a, n, b)) <==>
            n !in Nodes(a) && n !in Nodes(b) && Nodes(a) !! Nodes(b) && Proper(a) && Proper(b)
  {
  }

  lemma {:induction false} InParts(h: Heap, s: Side, c: Color, a: Tree, n: RbNode, b: Tree, p: RbNode?)
    ensures In(h, Mk(s, c, a, n, b), p) <==>
            n in h && h[n] == MkCell(p, c, s, Root(a), Root(b)) && In(h, a, n) && In(h, b, n)
  {
  }

  /** Moving the focus from the hole to the node above it, and back. */
  lemma {:induction false} ShapeUp(h: Heap, root: RbNode?, ctx: Ctx, t: Tree)
    requires ctx.Hole?
    ensures Shape(h, root, ctx, t) <==> Shape(h, root, ctx.up, Mk(ctx.side, ctx.color, t, ctx.node, ctx.sib))
    ensures All(ctx, t) == All(ctx.up, Mk(ctx.side, ctx.color, t, ctx.node, ctx.sib))
  {
    var s, c, n, sib := ctx.side, ctx.color, ctx.node, ctx.sib;
    MkParts(s, c, t, n, sib);
    InParts(h, s, c, t, n, sib, Parent(ctx.up));
  }

  lemma {:induction false} PlugShape(h: Heap, root: RbNode?, ctx: Ctx, t: Tree)
    requires Shape(h, root, ctx, t)
    ensures Shape(h, root, Top, Plug(ctx, t))
    ensures Nodes(Plug(ctx, t)) == All(ctx, t)
    decreases ctx
  {
    if ctx.Hole? {
      ShapeUp(h, root, ctx, t);
      PlugShape(h, root, ctx.up, Mk(ctx.side, ctx.color, t, ctx.node, ctx.sib));
    }
  }

  lemma InNodes(h: Heap, t: Tree, p: RbNode?)
    requires In(h, t, p)
    ensures Nodes(t) <= h.Keys
  {
  }

  /** A subtree whose nodes are untouched, but whose root is given parent `q`, stays in the heap. */
  lemma {:induction false} InMoved(h: Heap, h': Heap, t: Tree, p: RbNode?, q: RbNode?)
    requires In(h, t, p) && Proper(t)
    requires forall n :: n in Nodes(t) && n != Root(t) ==> n in h' && n in h && h'[n] == h[n]
    requires t.Node? ==> t.node in h' && h'[t.node] == h[t.node].(parent := q)
    ensures In(h', t, q)
  {
    if t.Node? {
      InMoved(h, h', t.left, t.node, t.node);
      InMoved(h, h', t.right, t.node, t.node);
    }
  }

  /** As InMoved, where `h'` is known to differ from `h` at four nodes at most. */
  lemma {:induction false} Kept(h: Heap, h': Heap, t: Tree, p: RbNode?, q: RbNode?,
                                i: RbNode?, j: RbNode?, k: RbNode?, l: RbNode?)
    requires In(h, t, p) && Proper(t) && SameBut(h, h', i, j, k, l)
    requires i !in Nodes(t) || i == Root(t)
    requires j !in Nodes(t) || j == Root(t)
    requires k !in Nodes(t) || k == Root(t)
    requires l !in Nodes(t) || l == Root(t)
    requires t.Node? && t.node in h' && t.node in h ==> h'[t.node] == h[t.node].(parent := q)
    ensures In(h', t, q)
  {
    InNodes(h, t, p);
    InMoved(h, h', t, p, q);
  }

  /** As InMoved, with the root recoloured too. */
  lemma {:induction false} InRecolored(h: Heap, h': Heap, t: Tree, p: RbNode?, q: RbNode?, c: Color)
    requires In(h, t, p) && Proper(t) && t.Node?
    requires forall n :: n in Nodes(t) && n != Root(t) ==> n in h' && n in h && h'[n] == h[n]
    requires t.node in h' && h'[t.node] == h[t.node].(parent := q, color := c)
    ensures In(h', t.(color := c), q)
  {
    InMoved(h, h', t.left, t.node, t.node);
    InMoved(h, h', t.right, t.node, t.node);
  }

  /** As Kept, with the root recoloured too. */
  lemma {:induction false} Recolored(h: Heap, h': Heap, t: Tree, p: RbNode?, q: RbNode?, c: Color,
                                     i: RbNode?, j: RbNode?, k: RbNode?)
    requires In(h, t, p) && Proper(t) && t.Node? && SameBut(h, h', i, j, k, null)
    requires i !in Nodes(t) || i == Root(t)
    requires j !in Nodes(t) || j == Root(t)
    requires k !in Nodes(t) || k == Root(t)
    requires t.node in h && t.node in h' ==> h'[t.node] == h[t.node].(parent := q, color := c)
    ensures In(h', t.(color := c), q)
    ensures Proper(t.(color := c)) && Nodes(t.(color := c)) == Nodes(t)
  {
    InNodes(h, t, p);
    InRecolored(h, h', t, p, q, c);
  }

  lemma {:induction false} CtxSame(h: Heap, h': Heap, ctx: Ctx, k: RbNode?, root: RbNode?)
    requires CtxIn(h, ctx, k, root)
    requires forall n :: n in CtxNodes(ctx) ==> n in h' && n in h && h'[n] == h[n]
    requires CtxProper(ctx)
    ensures CtxIn(h', ctx, k, root)
  {
    if ctx.Hole? {
      InMoved(h, h', ctx.sib, ctx.node, ctx.node);
      CtxSame(h, h', ctx.up, ctx.node, root);
    }
  }

  /** Storing another child at the hole. */
  lemma {:induction false} CtxMoved(h: Heap, h': Heap, ctx: Ctx, k: RbNode?, k': RbNode?, root: RbNode?, root': RbNode?)
    requires CtxIn(h, ctx, k, root) && CtxProper(ctx)
    requires forall n :: n in CtxNodes(ctx) && n != Parent(ctx) ==> n in h' && n in h && h'[n] == h[n]
    requires ctx.Hole? ==> ctx.node in h' && h'[ctx.node] == SetKid(h[ctx.node], ctx.side, k')
    requires root' == if ctx.Top? then k' else root
    ensures CtxIn(h', ctx, k', root')
  {
    if ctx.Hole? {
      InMoved(h, h', ctx.sib, ctx.node, ctx.node);
      CtxSame(h, h', ctx.up, ctx.node, root);
    }
  }

  lemma CtxInNodes(h: Heap, ctx: Ctx, k: RbNode?, root: RbNode?)
    requires CtxIn(h, ctx, k, root)
    ensures CtxNodes(ctx) <= h.Keys
    decreases ctx
  {
    if ctx.Hole? {
      InNodes(h, ctx.sib, ctx.node);
      CtxInNodes(h, ctx.up, ctx.node, root);
    }
  }

  /** As CtxMoved, where `h'` is known to differ from `h` at few nodes. */
  lemma {:induction false} CtxKept(h: Heap, h': Heap, ctx: Ctx, k: RbNode?, k': RbNode?, root: RbNode?, root': RbNode?,
                                   i: RbNode?, j: RbNode?, l: RbNode?)
    requires CtxIn(h, ctx, k, root) && CtxProper(ctx)
    requires SameBut(h, h', i, j, l, Parent(ctx))
    requires i !in CtxNodes(ctx) && j !in CtxNodes(ctx) && l !in CtxNodes(ctx)
    requires ctx.Hole? && ctx.node in h && ctx.node in h' ==> h'[ctx.node] == SetKid(h[ctx.node], ctx.side, k')
    requires root' == if ctx.Top? then k' else root
    ensures CtxIn(h', ctx, k', root')
  {
    CtxInNodes(h, ctx, k, root);
    CtxMoved(h, h', ctx, k, k', root, root');
  }

  /** The tree around the hole, where `h'` differs from `h` at few nodes, all elsewhere. */
  lemma {:induction false} CtxStays(h: Heap, h': Heap, ctx: Ctx, k: RbNode?, root: RbNode?,
                                    i: RbNode?, j: RbNode?, l: RbNode?)
    requires CtxIn(h, ctx, k, root) && CtxProper(ctx) && SameBut(h, h', i, j, l, null)
    requires i !in CtxNodes(ctx) && j !in CtxNodes(ctx) && l !in CtxNodes(ctx)
    ensures CtxIn(h', ctx, k, root)
  {
    CtxInNodes(h, ctx, k, root);
    CtxSame(h, h', ctx, k, root);
  }

  /** What the heap holds at a node in focus. */
  lemma {:induction false} NodeFacts(h: Heap, root: RbNode?, ctx: Ctx, s: Side, c: Color, a: Tree, n: RbNode, b: Tree)
    requires Shape(h, root, ctx, Mk(s, c, a, n, b))
    ensures n in h && h[n] == MkCell(Parent(ctx), c, s, Root(a), Root(b))
    ensures In(h, a, n) && In(h, b, n) && Proper(a) && Proper(b)
    ensures CtxIn(h, ctx, n, root) && CtxProper(ctx)
    ensures n !in Nodes(a) && n !in Nodes(b) && n !in CtxNodes(ctx)
    ensures Nodes(a) !! Nodes(b) && Nodes(a) !! CtxNodes(ctx) && Nodes(b) !! CtxNodes(ctx)
    ensures a.Node? ==> a.node in h && h[a.node] == Cell(n, a.color, Root(a.left), Root(a.right)) && a.node in Nodes(a)
    ensures b.Node? ==> b.node in h && h[b.node] == Cell(n, b.color, Root(b.left), Root(b.right)) && b.node in Nodes(b)
    ensures ctx.Hole? ==> ctx.node in h && ctx.node in CtxNodes(ctx) && (h[ctx.node].left == n <==> ctx.side == L)
  {
    MkParts(s, c, a, n, b);
    InParts(h, s, c, a, n, b, Parent(ctx));
    if ctx.Hole? {
      assert ctx.sib.Node? ==> ctx.sib.node in CtxNodes(ctx);
    }
  }

  /** What the heap holds at and around a node and its `s`-side child. */
  lemma {:induction false} Facts(h: Heap, root: RbNode?, ctx: Ctx, s: Side,
                                 cx: Color, cy: Color, a: Tree, y: RbNode, b: Tree, x: RbNode, c: Tree)
    requires Shape(h, root, ctx, Mk(s, cx, Mk(s, cy, a, y, b), x, c))
    ensures x in h && y in h && h[x] == MkCell(Parent(ctx), cx, s, y, Root(c))
            && h[y] == MkCell(x, cy, s, Root(a), Root(b))
    ensures In(h, a, y) && y !in Nodes(a) && x !in Nodes(a)
    ensures In(h, b, y) && y !in Nodes(b) && x !in Nodes(b)
    ensures In(h, c, x) && x !in Nodes(c) && y !in Nodes(c) && x != y
    ensures a.Node? ==> a.node in h && h[a.node] == Cell(y, a.color, Root(a.left), Root(a.right))
    ensures b.Node? ==> b.node in h && h[b.node] == Cell(y, b.color, Root(b.left), Root(b.right))
    ensures c.Node? ==> c.node in h && h[c.node] == Cell(x, c.color, Root(c.left), Root(c.right))
    ensures Proper(a) && Proper(b) && Proper(c)
    ensures Nodes(a) !! Nodes(b) && Nodes(a) !! Nodes(c) && Nodes(b) !! Nodes(c)
    ensures (a.Node? ==> a.node in Nodes(a)) && (b.Node? ==> b.node in Nodes(b)) && (c.Node? ==> c.node in Nodes(c))
    ensures x !in CtxNodes(ctx) && y !in CtxNodes(ctx) && Root(b) !in CtxNodes(ctx)
    ensures ctx.Hole? ==> ctx.node in h && ctx.node in CtxNodes(ctx) && (h[ctx.node].left == x <==> ctx.side == L)
    ensures ctx.Hole? ==> ctx.node !in Nodes(a) && ctx.node !in Nodes(b) && ctx.node !in Nodes(c)
  {
    var t := Mk(s, cy, a, y, b);
    MkParts(s, cx, t, x, c);
    MkParts(s, cy, a, y, b);
    InParts(h, s, cx, t, x, c, Parent(ctx));
    InParts(h, s, cy, a, y, b, x);
    if ctx.Hole? {
      assert ctx.sib.Node? ==> ctx.sib.node in CtxNodes(ctx);
    }
  }

  /** The cells that pointer code reads around `x` and its `s`-side child `y`, whose children are `a` and `b`. */
  ghost predicate Turnable(h: Heap, ctx: Ctx, s: Side, cx: Color, cy: Color, a: RbNode?, y: RbNode, b: RbNode?,
                           x: RbNode, c: RbNode?) {
    && x in h && y in h && x != y && h[x] == MkCell(Parent(ctx), cx, s, y, c) && h[y] == MkCell(x, cy, s, a, b)
    && (a != null ==> a in h && h[a].parent == y && a != x && a != y && a != b)
    && (b != null ==> b in h && h[b].parent == y && b != x && b != y)
    && (ctx.Hole? ==>
          && ctx.node in h && (h[ctx.node].left == x <==> ctx.side == L)
          && ctx.node != x && ctx.node != y && ctx.node != a && ctx.node != b)
  }

  /** The stores of a rotation there: `y` takes the place of `x`, and `x` becomes its other child. */
  ghost predicate TurnedCells(h: Heap, h': Heap, root: RbNode?, root': RbNode?, ctx: Ctx, s: Side,
                              a: RbNode?, y: RbNode, b: RbNode?, x: RbNode, c: RbNode?, cx: Color, cy: Color) {
    && SameBut(h, h', x, y, b, Parent(ctx))
    && x in h' && h'[x] == MkCell(y, cx, s, b, c) && y in h' && h'[y] == MkCell(Parent(ctx), cy, s, a, x)
    && (b != null ==> b in h && b in h' && h'[b] == h[b].(parent := x))
    && (ctx.Hole? ==> ctx.node in h && ctx.node in h' && h'[ctx.node] == SetKid(h[ctx.node], ctx.side, y))
    && root' == if ctx.Top? then y else root
  }

  /** The part of Facts that pointer code needs. */
  lemma {:induction false} Cells(h: Heap, root: RbNode?, ctx: Ctx, s: Side,
                                 cx: Color, cy: Color, a: Tree, y: RbNode, b: Tree, x: RbNode, c: Tree)
    requires Shape(h, root, ctx, Mk(s, cx, Mk(s, cy, a, y, b), x, c))
    ensures Turnable(h, ctx, s, cx, cy, Root(a), y, Root(b), x, Root(c))
    ensures a.Node? ==> a.node in h && h[a.node].color == a.color
    ensures b.Node? ==> b.node in h && h[b.node].color == b.color
  {
    hide Shape, In, CtxIn, Proper, CtxProper, Nodes, CtxNodes;
    Facts(h, root, ctx, s, cx, cy, a, y, b, x, c);
  }

  lemma {:induction false} RotatedProper(ctx: Ctx, s: Side, cx: Color, cy: Color, a: Tree, y: RbNode, b: Tree,
                                         x: RbNode, c: Tree, cx': Color, cy': Color)
    requires Proper(Mk(s, cx, Mk(s, cy, a, y, b), x, c))
    ensures Proper(Mk(s, cy', a, y, Mk(s, cx', b, x, c)))
    ensures Nodes(Mk(s, cy', a, y, Mk(s, cx', b, x, c))) == Nodes(Mk(s, cx, Mk(s, cy, a, y, b), x, c))
  {
    var t, t' := Mk(s, cy, a, y, b), Mk(s, cx', b, x, c);
    hide Nodes, Proper;
    MkParts(s, cx, t, x, c);
    MkParts(s, cy, a, y, b);
    MkParts(s, cx', b, x, c);
    MkParts(s, cy', a, y, t');
  }

  lemma {:induction false} RotatedIn(h: Heap, h': Heap, ctx: Ctx, s: Side,
                                     cx: Color, cy: Color, a: Tree, y: RbNode, b: Tree, x: RbNode, c: Tree,
                                     cx': Color, cy': Color, root: RbNode?)
    requires Shape(h, root, ctx, Mk(s, cx, Mk(s, cy, a, y, b), x, c))
    requires SameBut(h, h', x, y, Root(b), Parent(ctx))
    requires x in h' && h'[x] == MkCell(y, cx', s, Root(b), Root(c))
    requires y in h' && h'[y] == MkCell(Parent(ctx), cy', s, Root(a), x)
    requires b.Node? ==> b.node in h && b.node in h' && h'[b.node] == h[b.node].(parent := x)
    ensures In(h', Mk(s, cy', a, y, Mk(s, cx', b, x, c)), Parent(ctx))
  {
    hide Shape, Nodes, CtxNodes, In, CtxIn, Proper, CtxProper;
    var t' := Mk(s, cx', b, x, c);
    Facts(h, root, ctx, s, cx, cy, a, y, b, x, c);
    Kept(h, h', a, y, y, x, y, Root(b), Parent(ctx));
    Kept(h, h', b, y, x, x, y, Root(b), Parent(ctx));
    Kept(h, h', c, x, x, x, y, Root(b), Parent(ctx));
    InParts(h', s, cx', b, x, c, y);
    InParts(h', s, cy', a, y, t', Parent(ctx));
  }

  lemma {:induction false} RotatedSeq(s: Side, cx: Color, cy: Color, a: Tree, y: RbNode, b: Tree, x: RbNode, c: Tree,
                                      cx': Color, cy': Color)
    ensures Inorder(Mk(s, cy', a, y, Mk(s, cx', b, x, c))) == Inorder(Mk(s, cx, Mk(s, cy, a, y, b), x, c))
  {
    MkSeq(s, cy', a, y, Mk(s, cx', b, x, c));
    MkSeq(s, cx', b, x, c);
    MkSeq(s, cx, Mk(s, cy, a, y, b), x, c);
    MkSeq(s, cy, a, y, b);
    hide Inorder, Mk;
    if s == L {
      Regroup(Inorder(a), y, Inorder(b), x, Inorder(c));
    } else {
      Regroup(Inorder(c), x, Inorder(b), y, Inorder(a));
    }
  }

  /** A rotation. The colours of the two nodes are free. */
  lemma {:induction false} Rotated(h: Heap, h': Heap, root: RbNode?, root': RbNode?, ctx: Ctx, s: Side,
                                   cx: Color, cy: Color, a: Tree, y: RbNode, b: Tree, x: RbNode, c: Tree,
                                   cx': Color, cy': Color)
    requires Shape(h, root, ctx, Mk(s, cx, Mk(s, cy, a, y, b), x, c))
    requires TurnedCells(h, h', root, root', ctx, s, Root(a), y, Root(b), x, Root(c), cx', cy')
    ensures Shape(h', root', ctx, Mk(s, cy', a, y, Mk(s, cx', b, x, c)))
    ensures Seq(ctx, Mk(s, cy', a, y, Mk(s, cx', b, x, c))) == Seq(ctx, Mk(s, cx, Mk(s, cy, a, y, b), x, c))
    ensures Nodes(Mk(s, cy', a, y, Mk(s, cx', b, x, c))) == Nodes(Mk(s, cx, Mk(s, cy, a, y, b), x, c))
  {
    hide Nodes, CtxNodes, In, CtxIn, Proper, CtxProper, Inorder;
    Facts(h, root, ctx, s, cx, cy, a, y, b, x, c);
    RotatedIn(h, h', ctx, s, cx, cy, a, y, b, x, c, cx', cy', root);
    CtxKept(h, h', ctx, x, y, root, root', x, y, Root(b));
    RotatedProper(ctx, s, cx, cy, a, y, b, x, c, cx', cy');
    RotatedSeq(s, cx, cy, a, y, b, x, c, cx', cy');
  }

  /** What the heap holds above a subtree that is two levels or more below the root. */
  lemma {:induction false} Grand(h: Heap, root: RbNode?, ctx: Ctx, t: Tree)
    requires Shape(h, root, ctx, t) && ctx.Hole? && ctx.up.Hole?
    ensures ctx.node in h && h[ctx.node] == MkCell(ctx.up.node, ctx.color, ctx.side, Root(t), Root(ctx.sib))
    ensures ctx.up.node in h
    ensures h[ctx.up.node] == MkCell(Parent(ctx.up.up), ctx.up.color, ctx.up.side, ctx.node, Root(ctx.up.sib))
    ensures ctx.node != ctx.up.node && ctx.node != Root(ctx.up.sib) && ctx.up.node != Root(ctx.up.sib)
    ensures t.Node? ==> t.node != Root(ctx.sib)
    ensures ctx.sib.Node? ==> ctx.sib.node in h && h[ctx.sib.node].color == ctx.sib.color
    ensures ctx.up.sib.Node? ==> ctx.up.sib.node in h && h[ctx.up.sib.node].color == ctx.up.sib.color
    ensures var p := Mk(ctx.side, ctx.color, t, ctx.node, ctx.sib);
            var g := Mk(ctx.up.side, ctx.up.color, p, ctx.up.node, ctx.up.sib);
            && Shape(h, root, ctx.up.up, g)
            && All(ctx.up.up, g) == All(ctx, t)
            && Seq(ctx.up.up, g) == Seq(ctx, t)
  {
    var p := Mk(ctx.side, ctx.color, t, ctx.node, ctx.sib);
    assert ctx.up.sib.Node? ==> ctx.up.sib.node in CtxNodes(ctx.up) && ctx.up.sib.node in Nodes(ctx.up.sib);
    assert t.Node? ==> t.node in Nodes(t);
    assert ctx.sib.Node? ==> ctx.sib.node in CtxNodes(ctx);
    ShapeUp(h, root, ctx, t);
    ShapeUp(h, root, ctx.up, p);
    SeqUp(ctx, t);
    SeqUp(ctx.up, p);
  }

  /** The colour of the node above the hole. */
  lemma {:induction false} Above(h: Heap, root: RbNode?, ctx: Ctx, t: Tree)
    requires Shape(h, root, ctx, t)
    ensures t.Node? ==>
              t.node in h && h[t.node] == Cell(Parent(ctx), t.color, Root(t.left), Root(t.right)) && t.node in Nodes(t)
    ensures ctx.Hole? ==> ctx.node in h && ctx.node in CtxNodes(ctx)
    ensures ctx.Hole? ==> h[ctx.node] == MkCell(Parent(ctx.up), ctx.color, ctx.side, Root(t), Root(ctx.sib))
    ensures ctx.Hole? ==> h[ctx.node].color == ctx.color && h[ctx.node].parent == Parent(ctx.up)
    ensures ctx.Hole? && t.Node? ==> t.node != Root(ctx.sib) && t.node != ctx.node
    ensures ctx.Top? ==> root == Root(t)
  {
    if ctx.Hole? {
      assert ctx.sib.Node? ==> ctx.sib.node in CtxNodes(ctx);
    }
  }

  /** The whole tree, once the colour rules hold at the hole. */
  lemma {:induction false} Whole(h: Heap, root: RbNode?, ctx: Ctx, t: Tree, bh: nat) returns (r: Tree)
    requires Shape(h, root, ctx, t) && CtxOk(ctx, bh) && Ok(t, bh)
    requires IsBlack(t) || TopIsBlack(ctx)
    ensures r == Plug(ctx, t)
    ensures Shape(h, root, Top, r) && RB(r)
    ensures All(Top, r) == All(ctx, t) && Inorder(r) == Seq(ctx, t)
  {
    r := Plug(ctx, t);
    PlugShape(h, root, ctx, t);
    PlugOk(ctx, t, bh);
    PlugSeq(ctx, t);
  }

  /** Only the nodes of the tree matter. */
  lemma {:induction false} ShapeSame(h: Heap, h': Heap, root: RbNode?, ctx: Ctx, t: Tree)
    requires Shape(h, root, ctx, t)
    requires forall n :: n in All(ctx, t) && n in h ==> n in h' && h'[n] == h[n]
    ensures Shape(h', root, ctx, t)
  {
    InNodes(h, t, Parent(ctx));
    CtxInNodes(h, ctx, Root(t), root);
    assert t.Node? ==> t.node in Nodes(t);
    InMoved(h, h', t, Parent(ctx), Parent(ctx));
    CtxSame(h, h', ctx, Root(t), root);
  }

  /** One step down from the focus keeps the shape and the colour rules. */
  lemma {:induction false} Down(h: Heap, root: RbNode?, ctx: Ctx, t: Tree, bh: nat, s: Side) returns (bh': nat)
    requires Shape(h, root, ctx, t) && t.Node? && CtxOk(ctx, bh) && Ok(t, bh) && Edge(ctx, t)
    ensures var c := Hole(s, t.color, t.node, Kid(t, s.Other()), ctx);
            && Shape(h, root, c, Kid(t, s)) && CtxOk(c, bh') && Ok(Kid(t, s), bh') && Edge(c, Kid(t, s))
            && All(c, Kid(t, s)) == All(ctx, t) && Seq(c, Kid(t, s)) == Seq(ctx, t)
  {
    var c := Hole(s, t.color, t.node, Kid(t, s.Other()), ctx);
    bh' := if t.color == Red then bh else bh - 1;
    assert Mk(s, t.color, Kid(t, s), t.node, Kid(t, s.Other())) == t;
    ShapeUp(h, root, c, Kid(t, s));
    SeqUp(c, Kid(t, s));
  }

  lemma TopSeq(t: Tree)
    ensures Seq(Top, t) == Inorder(t)
  {
  }

  lemma TopNodes(t: Tree)
    ensures All(Top, t) == Nodes(t)
  {
  }

  lemma {:induction false} InorderIn(t: Tree, n: RbNode)
    ensures n in Inorder(t) <==> n in Nodes(t)
  {
    if t.Node? {
      InorderIn(t.left, n);
      InorderIn(t.right, n);
    }
  }

  ghost predicate NoDup(s: seq<RbNode>) {
    forall i, j :: 0 <= i < j < |s| ==> s[i] != s[j]
  }

  lemma NoDupJoin(a: seq<RbNode>, n: RbNode, b: seq<RbNode>)
    requires NoDup(a) && NoDup(b) && n !in a && n !in b && forall x :: x in a ==> x !in b
    ensures NoDup(a + [n] + b)
  {
    var s := a + [n] + b;
    forall i, j | 0 <= i < j < |s| ensures s[i] != s[j] {
      assert if i < |a| then s[i] == a[i] && s[i] in a else i == |a| || (s[i] == b[i - |a| - 1] && s[i] in b);
      assert if j < |a| then s[j] == a[j] && s[j] in a else j == |a| || (s[j] == b[j - |a| - 1] && s[j] in b);
    }
  }

  /** The in-order sequence lists every node once. */
  lemma {:induction false} InorderNodes(t: Tree)
    ensures forall n :: n in Inorder(t) <==> n in Nodes(t)
    ensures Proper(t) ==> NoDup(Inorder(t))
  {
    forall n ensures n in Inorder(t) <==> n in Nodes(t) { InorderIn(t, n); }
    if t.Node? && Proper(t) {
      InorderNodes(t.left);
      InorderNodes(t.right);
      InorderIn(t.left, t.node);
      InorderIn(t.right, t.node);
      forall n | n in Inorder(t.left) ensures n !in Inorder(t.right) {
        InorderIn(t.left, n);
        InorderIn(t.right, n);
      }
      NoDupJoin(Inorder(t.left), t.node, Inorder(t.right));
    }
  }

  /** Finding a node of the tree. */
  lemma {:induction false} Locate(h: Heap, root: RbNode?, c0: Ctx, t0: Tree, n: RbNode, bh0: nat)
    returns (ctx: Ctx, t: Tree, bh: nat)
    requires Shape(h, root, c0, t0) && n in Nodes(t0)
    requires CtxOk(c0, bh0) && Ok(t0, bh0) && Edge(c0, t0)
    ensures Shape(h, root, ctx, t) && t.Node? && t.node == n
    ensures CtxOk(ctx, bh) && Ok(t, bh) && Edge(ctx, t)
    ensures All(ctx, t) == All(c0, t0) && Seq(ctx, t) == Seq(c0, t0)
    decreases t0
  {
    if t0.node == n {
      ctx, t, bh := c0, t0, bh0;
    } else {
      var s := if n in Nodes(t0.left) then L else R;
      var near, far, c := Kid(t0, s), Kid(t0, s.Other()), Hole(s, t0.color, t0.node, Kid(t0, s.Other()), c0);
      assert Mk(s, t0.color, near, t0.node, far) == t0;
      ShapeUp(h, root, c, near);
      SeqUp(c, near);
      ctx, t, bh := Locate(h, root, c, near, n, if t0.color == Red then bh0 else bh0 - 1);
    }
  }

  lemma Middle(p: seq<RbNode>, a: seq<RbNode>, n: RbNode, b: seq<RbNode>, q: seq<RbNode>)
    ensures var s := p + (a + [n] + b) + q;
            var i := |p + a|;
            i < |s| && s[i] == n && s[..i] == p + a && s[i + 1..] == b + q && s[..i] + s[i + 1..] == p + a + b + q
  {
    assert p + (a + [n] + b) + q == (p + a) + [n] + (b + q);
  }

  /** Where the node in focus stands in the in-order sequence. */
  lemma {:induction false} FocusAt(ctx: Ctx, t: Tree) returns (i: nat)
    requires t.Node?
    ensures var s := Seq(ctx, t);
            && i == |Before(ctx)| + |Inorder(t.left)| && i < |s| && s[i] == t.node
            && s[..i] == Before(ctx) + Inorder(t.left) && s[i + 1..] == Inorder(t.right) + After(ctx)
            && s[..i] + s[i + 1..] == Before(ctx) + Inorder(t.left) + Inorder(t.right) + After(ctx)
  {
    assert Inorder(t) == Inorder(t.left) + [t.node] + Inorder(t.right);
    i := |Before(ctx) + Inorder(t.left)|;
    hide Inorder, Before, After;
    Middle(Before(ctx), Inorder(t.left), t.node, Inorder(t.right), After(ctx));
  }

  lemma LeafSeq(ctx: Ctx)
    ensures Seq(ctx, Leaf) == Before(ctx) + After(ctx) && All(ctx, Leaf) == CtxNodes(ctx)
  {
  }
}

/**
 How deep a red-black tree is: the guarantee that the header comment of rbtree.c derives from its rules.
 */
module RbDepth {
  import opened Arith
  import opened RbModel

  /** The number of nodes above the hole. */
  function Depth(ctx: Ctx): nat {
    if ctx.Top? then 0 else 1 + Depth(ctx.up)
  }

  /** No path is longer than twice the number of black nodes on it. */
  lemma {:induction false} DepthBound(ctx: Ctx, t: Tree, bh: nat)
    requires CtxOk(ctx, bh) && Ok(t, bh) && Edge(ctx, t)
    ensures Depth(ctx) + 2 * bh + (if TopIsBlack(ctx) then 1 else 0) <= 2 * Height(Plug(ctx, t))
    decreases ctx
  {
    if ctx.Top? {
      OkHeight(t, bh);
    } else {
      var up := Mk(ctx.side, ctx.color, t, ctx.node, ctx.sib);
      DepthBound(ctx.up, up, if ctx.color == Red then bh else bh + 1);
    }
  }

  /** A subtree has at least 2^bh - 1 nodes. */
  lemma {:induction false} NodesBound(t: Tree, bh: nat)
    requires Proper(t) && Ok(t, bh)
    ensures |Nodes(t)| + 1 >= Pow2(bh)
  {
    if t.Node? {
      var b := if t.color == Red then bh else bh - 1;
      NodesBound(t.left, b);
      NodesBound(t.right, b);
      assert |Nodes(t)| == |Nodes(t.left)| + 1 + |Nodes(t.right)|;
    }
  }

  lemma {:induction false} Pow2Mono(a: nat, b: nat)
    requires a <= b
    ensures Pow2(a) <= Pow2(b)
  {
    if a < b { Pow2Mono(a, b - 1); }
  }

  lemma {:induction false} Pow2Double(a: nat)
    ensures Pow2(2 * a) == Pow2(a) * Pow2(a)
  {
    if a > 0 { Pow2Double(a - 1); }
  }

  lemma Squares(a: nat, b: nat)
    requires a <= b
    ensures a * a <= b * b
  {
    MulLe(a, b, a);
    MulLe(a, b, b);
  }

  /** So in a tree of n nodes every node has at most 2 log2(n + 1) nodes above it. */
  lemma LogDepth(h: Heap, root: RbNode?, ctx: Ctx, t: Tree, bh: nat)
    requires Shape(h, root, ctx, t) && CtxOk(ctx, bh) && Ok(t, bh) && Edge(ctx, t)
    ensures var n := |All(ctx, t)|; Pow2(Depth(ctx)) <= (n + 1) * (n + 1)
  {
    hide Nodes, CtxNodes, Pow2, In, CtxIn, CtxProper, Plug;
    var n, whole := |All(ctx, t)|, Plug(ctx, t);
    var b := Height(whole);
    DepthBound(ctx, t, bh);
    PlugOk(ctx, t, bh);
    PlugShape(h, root, ctx, t);
    NodesBound(whole, b);
    Pow2Mono(Depth(ctx), 2 * b);
    Pow2Double(b);
    Squares(Pow2(b), n + 1);
  }
}

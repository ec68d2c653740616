/**
 Walking a tree in order: rb_first and rb_next.
 */
module RbWalk {
  import opened RbModel

  /** rb_first */
  method RbFirst(root: RbRoot, ghost ns: set<RbNode>, ghost tree: Tree) returns (r: RbNode?)
    requires Shape(Snap(ns), root.node, Top, tree)
    ensures r == if tree.Leaf? then null else Inorder(tree)[0]
  {
    var n := root.node;
    if n == null { return null; }
    ghost var t, p := tree, null;
    while n.left != null
      invariant n != null && t.Node? && n == t.node && In(Snap(ns), t, p)
      invariant Inorder(t)[0] == Inorder(tree)[0]
      decreases t
    {
      p, t := t.node, t.left;
      n := n.left;
    }
    assert Inorder(t)[0] == n;
    return n;
  }

  /** The node that follows the focus in order. */
  ghost function Follower(ctx: Ctx, t: Tree): RbNode?
    requires t.Node?
  {
    var s := Inorder(t.right) + After(ctx);
    if s == [] then null else s[0]
  }

  /** RB_EMPTY_NODE: the node is in no tree. */
  predicate IsEmptyNode(n: RbNode)
    reads n
  {
    n.parent == n && n.color == Red
  }

  /** rb_next, for an empty node or one in focus. */
  method RbNextAt(node0: RbNode, ghost root: RbNode?, ghost ns: set<RbNode>, ghost c0: Ctx, ghost t0: Tree)
    returns (r: RbNode?)
    requires IsEmptyNode(node0) || (Shape(Snap(ns), root, c0, t0) && t0.Node? && t0.node == node0)
    ensures r == if IsEmptyNode(node0) then null else Follower(c0, t0)
  {
    var node: RbNode := node0;
    if IsEmptyNode(node) { return null; }
    NodeFacts(Snap(ns), root, c0, L, t0.color, t0.left, node0, t0.right);
    if node.right != null {
      node := node.right;
      ghost var t, p := t0.right, node0;
      while node.left != null
        invariant t.Node? && node == t.node && In(Snap(ns), t, p)
        invariant Inorder(t)[0] == Inorder(t0.right)[0]
        decreases t
      {
        p, t := t.node, t.left;
        node := node.left;
      }
      return node;
    }
    var parent := node.parent;
    ghost var ctx, t := c0, t0;
    while parent != null && node == parent.right
      invariant Shape(Snap(ns), root, ctx, t) && t.Node? && t.node == node && parent == Parent(ctx) == node.parent
      invariant After(ctx) == After(c0)
      decreases ctx
    {
      Above(Snap(ns), root, ctx, t);
      ShapeUp(Snap(ns), root, ctx, t);
      ctx, t := ctx.up, Mk(ctx.side, ctx.color, t, ctx.node, ctx.sib);
      node := parent;
      Above(Snap(ns), root, ctx, t);
      parent := node.parent;
    }
    Above(Snap(ns), root, ctx, t);
    return parent;
  }

  /** A node in a tree is not its own parent. */
  lemma InParent(h: Heap, root: RbNode?, ctx: Ctx, t: Tree)
    requires Shape(h, root, ctx, t) && t.Node?
    ensures t.node in h && h[t.node].parent == Parent(ctx) != t.node
  {
  }

  /** rb_next, for node `i` of the whole tree: the next node in order, or null at the end. */
  method RbNext(node: RbNode, ghost root: RbNode?, ghost ns: set<RbNode>, ghost tree: Tree, ghost i: nat)
    returns (r: RbNode?)
    requires Shape(Snap(ns), root, Top, tree) && RB(tree) && i < |Inorder(tree)| && Inorder(tree)[i] == node
    ensures r == if i + 1 < |Inorder(tree)| then Inorder(tree)[i + 1] else null
  {
    ghost var s := Inorder(tree);
    InorderNodes(tree);
    assert s[i] in s;
    ghost var ctx, t, bh := Locate(Snap(ns), root, Top, tree, node, Height(tree));
    ghost var k := FocusAt(ctx, t);
    TopSeq(tree);
    InParent(Snap(ns), root, ctx, t);
    hide Inorder, Before, After, Shape, In, CtxIn, Nodes, CtxNodes, Proper, CtxProper, RB, Ok, CtxOk, Edge, Snap;
    assert i == k;
    r := RbNextAt(node, root, ns, ctx, t);
    assert s[k + 1..] == Inorder(t.right) + After(ctx);
    assert k + 1 < |s| ==> s[k + 1..][0] == s[k + 1];
  }
}

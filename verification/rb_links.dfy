/**
 The pointer helpers of the red-black tree: rb_link_node, __rb_change_child and
 __rb_rotate_set_parents.
 */
module RbLinks {
  import opened RbModel

  /** A `struct rb_node **`: the place that holds a child pointer. */
  datatype Link = AtRoot | LeftOf(n: RbNode) | RightOf(n: RbNode)

  /** The pointer stored at a link. */
  function Load(link: Link, root: RbRoot): RbNode?
    reads root, match link case AtRoot => {} case LeftOf(n) => {n} case RightOf(n) => {n}
  {
    match link
    case AtRoot => root.node
    case LeftOf(n) => n.left
    case RightOf(n) => n.right
  }

  /** __rb_change_child */
  method ChangeChild(old_: RbNode, new_: RbNode?, parent: RbNode?, root: RbRoot)
    modifies root, parent
    ensures root.node == if parent == null then new_ else old(root.node)
    ensures parent != null ==> parent.parent == old(parent.parent) && parent.color == old(parent.color)
    ensures parent != null ==>
              if old(parent.left) == old_ then parent.left == new_ && parent.right == old(parent.right)
              else parent.right == new_ && parent.left == old(parent.left)
  {
    if parent != null {
      if parent.left == old_ {
        parent.left := new_;
      } else {
        parent.right := new_;
      }
    } else {
      root.node := new_;
    }
  }

  /** __rb_rotate_set_parents */
  method RotateSetParents(old_: RbNode, new_: RbNode, root: RbRoot, color: Color)
    requires old_ != new_ && old_.parent != old_ && old_.parent != new_
    modifies root, old_`parent, old_`color, new_`parent, new_`color, old_.parent
    ensures new_.parent == old(old_.parent) && new_.color == old(old_.color)
    ensures old_.parent == new_ && old_.color == color
    ensures root.node == if old(old_.parent) == null then new_ else old(root.node)
    ensures var p := old(old_.parent);
            p != null ==> p.parent == old(p.parent) && p.color == old(p.color)
    ensures var p := old(old_.parent);
            p != null ==>
              if old(p.left) == old_ then p.left == new_ && p.right == old(p.right)
              else p.right == new_ && p.left == old(p.left)
  {
    var parent := old_.parent;
    new_.parent, new_.color := old_.parent, old_.color;
    old_.parent, old_.color := new_, color;
    ChangeChild(old_, new_, parent, root);
  }

  /** The place of the hole. */
  function LinkOf(ctx: Ctx): Link {
    if ctx.Top? then AtRoot else if ctx.side == L then LeftOf(ctx.node) else RightOf(ctx.node)
  }

  lemma Linked(h: Heap, h': Heap, root: RbNode?, root': RbNode?, ctx: Ctx, n: RbNode)
    requires Shape(h, root, ctx, Leaf) && n !in CtxNodes(ctx) && SameBut(h, h', n, Parent(ctx), null, null)
    requires n in h' && h'[n] == Cell(Parent(ctx), Red, null, null)
    requires ctx.Hole? && ctx.node in h && ctx.node in h' ==> h'[ctx.node] == SetKid(h[ctx.node], ctx.side, n)
    requires root' == if ctx.Top? then n else root
    ensures Shape(h', root', ctx, Node(Red, Leaf, n, Leaf))
  {
    CtxKept(h, h', ctx, null, n, root, root', n, null, null);
  }

  /** rb_link_node: the node becomes a red leaf at `link`. */
  method RbLinkNode(node: RbNode, parent: RbNode?, link: Link, root: RbRoot, ghost ns: set<RbNode>, ghost ctx: Ctx)
    requires Shape(Snap(ns), root.node, ctx, Leaf) && ns == CtxNodes(ctx) && node !in ns
    requires parent == Parent(ctx) && link == LinkOf(ctx)
    modifies node, root, ns
    ensures Shape(Snap(ns + {node}), root.node, ctx, Node(Red, Leaf, node, Leaf))
  {
    ghost var ms, r0 := ns + {node}, root.node;
    ghost var h := Snap(ms);
    assert All(ctx, Leaf) == ns;
    ShapeSame(Snap(ns), h, root.node, ctx, Leaf);
    Above(h, root.node, ctx, Leaf);
    hide Shape, Snap, Nodes, CtxNodes, CtxIn, CtxProper;
    node.parent, node.color := parent, Red;
    node.left, node.right := null, null;
    match link {
      case AtRoot => root.node := node;
      case LeftOf(p) => p.left := node;
      case RightOf(p) => p.right := node;
    }
    Linked(h, Snap(ms), r0, root.node, ctx, node);
  }

  /** What a link at the hole holds. */
  lemma LoadAt(root: RbRoot, ns: set<RbNode>, ctx: Ctx, t: Tree)
    requires Shape(Snap(ns), root.node, ctx, t)
    ensures Load(LinkOf(ctx), root) == Root(t)
    ensures ctx.Hole? ==> ctx.node in ns
    ensures t.Node? ==> t.node in ns && t.node in All(ctx, t)
  {
    Above(Snap(ns), root.node, ctx, t);
  }

  /** A focus that a descent from the root can reach. */
  ghost predicate Focus(root: RbRoot, ns: set<RbNode>, s: seq<RbNode>, ctx: Ctx, t: Tree, bh: nat)
    reads root, ns
  {
    && Shape(Snap(ns), root.node, ctx, t) && CtxOk(ctx, bh) && Ok(t, bh) && Edge(ctx, t)
    && All(ctx, t) == ns && Seq(ctx, t) == s
    && Load(LinkOf(ctx), root) == Root(t)
  }

  /**
   A descent that goes left exactly at the nodes of `lefts`: the last node passed on the left is not
   in `lefts`, the first one passed on the right is.
   */
  ghost predicate Descent(root: RbRoot, ns: set<RbNode>, s: seq<RbNode>, lefts: set<RbNode>,
                          link: Link, parent: RbNode?, leftmost: bool, ctx: Ctx, t: Tree, bh: nat)
    reads root, ns
  {
    && Focus(root, ns, s, ctx, t, bh)
    && link == LinkOf(ctx) && parent == Parent(ctx) && Load(link, root) == Root(t)
    && (leftmost <==> Before(ctx) == [])
    && (Before(ctx) != [] ==> Before(ctx)[|Before(ctx)| - 1] !in lefts)
    && (After(ctx) != [] ==> After(ctx)[0] in lefts)
    && (t.Node? ==> t.node in ns)
  }

  lemma DescentStart(root: RbRoot, t: Tree, lefts: set<RbNode>)
    requires Shape(Snap(Nodes(t)), root.node, Top, t) && RB(t)
    ensures Descent(root, Nodes(t), Inorder(t), lefts, AtRoot, null, true, Top, t, Height(t))
  {
    LoadAt(root, Nodes(t), Top, t);
  }

  lemma DescentLeft(root: RbRoot, ns: set<RbNode>, s: seq<RbNode>, lefts: set<RbNode>,
                    link: Link, parent: RbNode?, leftmost: bool, ctx: Ctx, t: Tree, bh: nat) returns (c: Ctx, bh': nat)
    requires Descent(root, ns, s, lefts, link, parent, leftmost, ctx, t, bh) && t.Node? && t.node in lefts
    ensures Descent(root, ns, s, lefts, LeftOf(t.node), t.node, leftmost, c, t.left, bh')
  {
    c := Hole(L, t.color, t.node, t.right, ctx);
    bh' := Down(Snap(ns), root.node, ctx, t, bh, L);
    LoadAt(root, ns, c, t.left);
  }

  lemma DescentRight(root: RbRoot, ns: set<RbNode>, s: seq<RbNode>, lefts: set<RbNode>,
                     link: Link, parent: RbNode?, leftmost: bool, ctx: Ctx, t: Tree, bh: nat) returns (c: Ctx, bh': nat)
    requires Descent(root, ns, s, lefts, link, parent, leftmost, ctx, t, bh) && t.Node? && t.node !in lefts
    ensures Descent(root, ns, s, lefts, RightOf(t.node), t.node, false, c, t.right, bh')
  {
    c := Hole(R, t.color, t.node, t.left, ctx);
    bh' := Down(Snap(ns), root.node, ctx, t, bh, R);
    LoadAt(root, ns, c, t.right);
  }

  /** The bottom of a descent: the place of a new node. */
  lemma DescentEnd(root: RbRoot, ns: set<RbNode>, s: seq<RbNode>, lefts: set<RbNode>,
                   link: Link, parent: RbNode?, leftmost: bool, ctx: Ctx, bh: nat)
    requires Descent(root, ns, s, lefts, link, parent, leftmost, ctx, Leaf, bh)
    ensures Shape(Snap(ns), root.node, ctx, Leaf) && CtxOk(ctx, 0) && CtxNodes(ctx) == ns
            && Before(ctx) + After(ctx) == s
    ensures link == LinkOf(ctx) && parent == Parent(ctx) && (leftmost <==> Before(ctx) == [])
    ensures Before(ctx) != [] ==> s[|Before(ctx)| - 1] !in lefts
    ensures After(ctx) != [] ==> s[|Before(ctx)|] in lefts
  {
    LeafSeq(ctx);
  }

  lemma Loaded(root: RbRoot, ns: set<RbNode>, s: seq<RbNode>, lefts: set<RbNode>,
               link: Link, parent: RbNode?, leftmost: bool, ctx: Ctx, t: Tree, bh: nat)
    requires Descent(root, ns, s, lefts, link, parent, leftmost, ctx, t, bh)
    ensures Load(link, root) == Root(t) && (t.Node? ==> t.node in ns)
  {
  }
}

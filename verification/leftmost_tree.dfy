/**
 A red-black tree with its leftmost node cached, as the run queue and the timer tree keep it
 (struct cfs_rq, struct timer_root).
 */
module LeftmostTree {
  import opened RbModel
  import opened RbLinks
  import opened RbInsert
  import opened RbRemove
  import opened RbWalk
  import opened SeqOps

  ghost function First(s: seq<RbNode>): RbNode? {
    if s == [] then null else s[0]
  }

  lemma ErasedOrder(s: seq<RbNode>, r: seq<RbNode>, k: nat)
    requires NoDup(s) && k < |s|
    requires exists i :: 0 <= i < |s| && s[i] == s[k] && r == s[..i] + s[i + 1..]
    ensures r == Removed(s, k)
  {
  }

  lemma ShapeShrinks(h: Heap, h': Heap, root: RbNode?, t: Tree)
    requires Shape(h, root, Top, t) && forall n :: n in Nodes(t) && n in h ==> n in h' && h'[n] == h[n]
    ensures Shape(h', root, Top, t)
  {
    ShapeSame(h, h', root, Top, t);
  }

  lemma ShapeProper(h: Heap, root: RbNode?, t: Tree)
    requires Shape(h, root, Top, t)
    ensures Proper(t)
  {
  }

  class CachedTree {
    const root: RbRoot
    var leftmost: RbNode?
    ghost var tree: Tree

    /** The pointers, the colour rules and the cached leftmost node, whatever the keys are. */
    ghost predicate Linked()
      reads `leftmost, `tree, root, Nodes(tree)
    {
      && Shape(Snap(Nodes(tree)), root.node, Top, tree) && RB(tree)
      && leftmost == First(Inorder(tree))
    }

    /** The nodes in order. */
    ghost function Order(): seq<RbNode>
      reads `tree
    {
      Inorder(tree)
    }

    constructor ()
      ensures tree == Leaf && Linked() && fresh(root)
    {
      var r := new RbRoot();
      root, leftmost, tree := r, null, Leaf;
    }

    /** The new tree, once the pointers are in place. */
    ghost method Adopt(t: Tree, s: seq<RbNode>)
      requires Shape(Snap(Nodes(t)), root.node, Top, t) && RB(t)
      requires Inorder(t) == s && leftmost == First(s)
      modifies this`tree
      ensures Linked() && tree == t
    {
      hide Shape, RB, Snap, Nodes, Inorder;
      ghost var h := Snap(Nodes(t));
      tree := t;
      assert Snap(Nodes(t)) == h;
    }

    /**
     The end of an insertion: the leftmost cache, rb_link_node and rb_insert_color. A first node's
     cache may be stale.
     */
    method LinkAt(node: RbNode, link: Link, parent: RbNode?, isLeftmost: bool, ghost ctx: Ctx)
      requires (Linked() || tree == Leaf) && node !in Nodes(tree)
      requires Shape(Snap(Nodes(tree)), root.node, ctx, Leaf) && CtxOk(ctx, 0) && CtxNodes(ctx) == Nodes(tree)
      requires Before(ctx) + After(ctx) == Order()
      requires link == LinkOf(ctx) && parent == Parent(ctx) && (isLeftmost <==> Before(ctx) == [])
      modifies this, root, Nodes(tree), node
      ensures Linked() && Nodes(tree) == old(Nodes(tree)) + {node}
      ensures var k := |Before(ctx)|; k <= |old(Order())| && Order() == Inserted(old(Order()), k, node)
    {
      ghost var s, ns, k := Order(), Nodes(tree), |Before(ctx)|;
      assert isLeftmost || leftmost == First(s);
      InsertedBetween(s, Before(ctx), node, After(ctx));
      hide Shape, RB, Snap, Nodes, Inorder, Before, After, CtxOk, CtxNodes, All, Inserted, Linked;
      if isLeftmost {
        leftmost := node;
      }
      RbLinkNode(node, parent, link, root, ns, ctx);
      ghost var r := RbInsertColor(node, root, ctx, ns + {node});
      TopNodes(r);
      Adopt(r, Inserted(s, k, node));
    }

    /** A first node, which the cache may name already. */
    method LinkFirst(node: RbNode)
      requires tree == Leaf && root.node == null
      modifies this, root, node
      ensures Linked() && Order() == [node] && leftmost == node
    {
      LinkAt(node, AtRoot, null, true, Top);
    }

    lemma NodeAt(k: nat)
      requires Linked() && k < |Order()|
      ensures Order()[k] in Nodes(tree) && NoDup(Order())
    {
      InorderNodes(tree);
      InorderIn(tree, Order()[k]);
      ShapeProper(Snap(Nodes(tree)), root.node, tree);
    }

    /** The cache moves on from a node that is to go. */
    method SkipNode(node: RbNode, ghost k: nat)
      requires Linked() && k < |Order()| && Order()[k] == node
      modifies `leftmost
      ensures leftmost == First(Removed(Order(), k))
      ensures Shape(Snap(Nodes(tree)), root.node, Top, tree) && RB(tree) && node in Nodes(tree) && NoDup(Order())
    {
      ghost var s := Order();
      NodeAt(k);
      assert leftmost == First(s);
      assert (if k == 0 then (if 1 < |s| then s[1] else null) else leftmost) == First(Removed(s, k));
      assert leftmost == node <==> k == 0;
      hide Shape, RB, Snap, Nodes, Inorder, Removed;
      ghost var h := Snap(Nodes(tree));
      if leftmost == node {
        var next := RbNext(node, root.node, Nodes(tree), tree, 0);
        leftmost := next;
      }
      assert Snap(Nodes(tree)) == h;
    }

    lemma OrderIs()
      ensures Order() == Inorder(tree)
    {
    }

    /** dequeue_se and del_timer: the leftmost cache moves on by rb_next before rb_erase. */
    method Delete(node: RbNode, ghost k: nat)
      requires Linked() && k < |Order()| && Order()[k] == node
      modifies this, root, Nodes(tree)
      ensures Linked() && Nodes(tree) == old(Nodes(tree)) - {node}
      ensures Order() == Removed(old(Order()), k)
    {
      hide Shape, RB, Snap, Nodes, Inorder, Removed, Linked, Order;
      ghost var s, ns, t := Order(), Nodes(tree), tree;
      SkipNode(node, k);
      ghost var r := RbErase(node, root, ns, t);
      OrderIs();
      ErasedOrder(s, Inorder(r), k);
      ShapeShrinks(Snap(ns), Snap(Nodes(r)), root.node, r);
      Adopt(r, Removed(s, k));
      OrderIs();
    }

    /** rb_next on a node of the tree. */
    method Next(node: RbNode, ghost i: nat) returns (r: RbNode?)
      requires Linked() && i < |Order()| && Order()[i] == node
      ensures r == if i + 1 < |Order()| then Order()[i + 1] else null
    {
      r := RbNext(node, root.node, Nodes(tree), tree, i);
    }

    lemma NodeIn(n: RbNode)
      ensures n in Order() <==> n in Nodes(tree)
    {
      InorderIn(tree, n);
    }

    lemma OrderNodes()
      requires Linked()
      ensures NoDup(Order()) && leftmost == First(Order())
      ensures forall i :: 0 <= i < |Order()| ==> Order()[i] in Nodes(tree)
    {
      InorderNodes(tree);
      ShapeProper(Snap(Nodes(tree)), root.node, tree);
      forall i | 0 <= i < |Order()| ensures Order()[i] in Nodes(tree) { NodeAt(i); }
    }

    lemma StartDescent(lefts: set<RbNode>)
      requires Linked()
      ensures Descent(root, Nodes(tree), Order(), lefts, AtRoot, null, true, Top, tree, Height(tree))
    {
      DescentStart(root, tree, lefts);
    }
  }

  /** The entities of a queue embed the nodes of a tree, in order; `owner` is container_of. */
  ghost predicate InOrder<E>(owner: map<RbNode, E>, s: seq<RbNode>, q: seq<E>) {
    |q| == |s| && forall i :: 0 <= i < |q| ==> s[i] in owner && owner[s[i]] == q[i]
  }

  lemma InsertOrder<E>(owner: map<RbNode, E>, s: seq<RbNode>, q: seq<E>, k: nat, n: RbNode, e: E)
    requires InOrder(owner, s, q) && k <= |q| && n in owner && owner[n] == e
    ensures InOrder(owner, Inserted(s, k, n), Inserted(q, k, e))
  {
  }

  lemma RemoveOrder<E>(owner: map<RbNode, E>, s: seq<RbNode>, q: seq<E>, k: nat)
    requires InOrder(owner, s, q) && k < |q|
    ensures InOrder(owner, Removed(s, k), Removed(q, k))
  {
  }
}

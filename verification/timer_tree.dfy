/**
 The timer tree: insert_timer, del_timer and update_timer_tree (ktimer.c).
 */
module TimerTree {
  import opened Edf
  import opened LeftmostTree
  import opened RbLinks
  import opened RbModel
  import opened SchedTask
  import opened SeqOps

  datatype TimerType = OneshotTimer | SchedTimer | RealtimeTimer

  /** struct timer_struct with its embedded run_node. */
  class Timer {
    var tc: nat
    var intvl: nat
    var kind: TimerType
    var pt: Task
    const node: RbNode

    constructor (tc: nat, kind: TimerType, pt: Task)
      ensures this.tc == tc && intvl == tc && this.kind == kind && this.pt == pt && fresh(node)
    {
      var n := new RbNode();
      this.tc, intvl, this.kind, this.pt, node := tc, tc, kind, pt, n;
    }
  }

  predicate Owners(timerOf: map<RbNode, Timer>) {
    forall n :: n in timerOf ==> timerOf[n].node == n
  }

  /** struct timer_root */
  class TimerRoot {
    const rb: CachedTree
    /** container_of: the timer that embeds a run_node. */
    const timerOf: map<RbNode, Timer>
    /** MIN_TIME_INT, get_ticks_per_sec() >> 10 */
    const least: nat
    ghost var order: seq<Timer>

    ghost predicate Linked()
      reads `order, rb, rb.root, Nodes(rb.tree)
    {
      rb.Linked() && least < U32 && Owners(timerOf) && InOrder(timerOf, rb.Order(), order)
    }

    ghost predicate Owned(t: Timer) {
      t.node in timerOf && timerOf[t.node] == t
    }

    ghost function Keys(): (keys: seq<nat>)
      reads `order, order
      ensures |keys| == |order| && forall i :: 0 <= i < |keys| ==> keys[i] == order[i].tc
    {
      var o := order;
      seq(|o|, i requires 0 <= i < |o| reads o => o[i].tc)
    }

    /** init_timertree */
    constructor (timers: map<RbNode, Timer>, least: nat)
      requires Owners(timers) && least < U32
      ensures timerOf == timers && this.least == least && order == [] && Linked() && fresh(rb) && fresh(rb.root)
    {
      var t := new CachedTree();
      rb, timerOf, this.least, order := t, timers, least, [];
    }

    lemma TimerFacts()
      requires Linked()
      ensures Nodes(rb.tree) <= timerOf.Keys && |rb.Order()| == |order| && NoDup(rb.Order())
      ensures rb.leftmost == if order == [] then null else order[0].node
      ensures forall i :: 0 <= i < |order| ==>
                order[i].node == rb.Order()[i] && rb.Order()[i] in timerOf && timerOf[rb.Order()[i]] == order[i]
                  && order[i].node in Nodes(rb.tree)
      ensures forall i, j :: 0 <= i < j < |order| ==> order[i] != order[j]
      ensures Owners(timerOf)
    {
      rb.OrderNodes();
      hide CachedTree.Linked, Nodes, CachedTree.Order;
      forall n | n in Nodes(rb.tree) ensures n in timerOf {
        rb.NodeIn(n);
      }
    }

    /** The descent of insert_timer: equal keys go right. */
    method FindPlace(value: nat) returns (link: Link, parent: RbNode?, isLeftmost: bool, ghost ctx: Ctx)
      requires Linked()
      ensures Shape(Snap(Nodes(rb.tree)), rb.root.node, ctx, Leaf) && CtxOk(ctx, 0) && CtxNodes(ctx) == Nodes(rb.tree)
      ensures Before(ctx) + After(ctx) == rb.Order()
      ensures link == LinkOf(ctx) && parent == Parent(ctx) && (isLeftmost <==> Before(ctx) == [])
      ensures |Before(ctx)| <= |order|
      ensures Before(ctx) != [] ==> order[|Before(ctx)| - 1].tc <= value
      ensures After(ctx) != [] ==> |Before(ctx)| < |order| && order[|Before(ctx)|].tc > value
    {
      hide Descent, Shape, RB, Snap, Nodes, Inorder, Before, After, CtxOk, Ok, CachedTree.Linked, Height, CtxNodes;
      TimerFacts();
      ghost var ns, s, root := Nodes(rb.tree), rb.Order(), rb.root;
      ghost var lefts := set n | n in ns && timerOf[n].tc > value;
      link, parent, isLeftmost := AtRoot, null, true;
      ghost var t, bh := rb.tree, Height(rb.tree);
      ctx := Top;
      rb.StartDescent(lefts);
      while Load(link, rb.root) != null
        invariant Descent(root, ns, s, lefts, link, parent, isLeftmost, ctx, t, bh)
        decreases t
      {
        Loaded(root, ns, s, lefts, link, parent, isLeftmost, ctx, t, bh);
        ghost var p := parent;
        parent := Load(link, rb.root);
        var entry := timerOf[parent];
        if entry.tc > value {
          ctx, bh := DescentLeft(root, ns, s, lefts, link, p, isLeftmost, ctx, t, bh);
          link, t := LeftOf(parent), t.left;
        } else {
          ctx, bh := DescentRight(root, ns, s, lefts, link, p, isLeftmost, ctx, t, bh);
          link, t, isLeftmost := RightOf(parent), t.right, false;
        }
      }
      Loaded(root, ns, s, lefts, link, parent, isLeftmost, ctx, t, bh);
      DescentEnd(root, ns, s, lefts, link, parent, isLeftmost, ctx, bh);
    }

    lemma QueuedNode(t: Timer)
      requires Linked() && Owned(t)
      ensures t in order <==> t.node in Nodes(rb.tree)
    {
      TimerFacts();
      rb.NodeIn(t.node);
    }

    /** insert_timer */
    method InsertTimer(t: Timer) returns (ghost k: nat)
      requires Linked() && Owned(t) && t !in order
      modifies this, rb, rb.root, Nodes(rb.tree), t.node
      ensures Linked() && Nodes(rb.tree) == old(Nodes(rb.tree)) + {t.node}
      ensures k <= |old(order)| && order == Inserted(old(order), k, t)
      ensures k > 0 ==> old(order)[k - 1].tc <= t.tc
      ensures k < |old(order)| ==> old(order)[k].tc > t.tc
    {
      hide CachedTree.Linked, Inserted, Shape, Snap, Nodes, CtxOk, CtxNodes, CachedTree.Order, Before, After;
      TimerFacts();
      QueuedNode(t);
      var link, parent, isLeftmost;
      ghost var ctx;
      link, parent, isLeftmost, ctx := FindPlace(t.tc);
      k := |Before(ctx)|;
      InsertOrder(timerOf, rb.Order(), order, k, t.node, t);
      rb.LinkAt(t.node, link, parent, isLeftmost, ctx);
      order := Inserted(order, k, t);
    }

    /** del_timer */
    method DelTimer(t: Timer) returns (ghost k: nat)
      requires Linked() && t in order
      modifies this, rb, rb.root, Nodes(rb.tree)
      ensures Linked() && Nodes(rb.tree) == old(Nodes(rb.tree)) - {t.node}
      ensures k < |old(order)| && old(order)[k] == t && order == Removed(old(order), k)
    {
      hide CachedTree.Linked, Removed, Nodes, CachedTree.Order;
      TimerFacts();
      k :| k < |order| && order[k] == t;
      RemoveOrder(timerOf, rb.Order(), order, k);
      rb.Delete(t.node, k);
      order := Removed(order, k);
    }

    /** The end of update_timer_tree: the leftmost timer is deleted and inserted again. */
    method Requeue() returns (ghost k: nat)
      requires Linked() && order != []
      modifies this, rb, rb.root, Nodes(rb.tree)
      ensures Linked()
      ensures k < |old(order)| && order == Inserted(old(order)[1..], k, old(order)[0])
      ensures k > 0 ==> old(order)[k].tc <= old(order)[0].tc
      ensures k + 1 < |old(order)| ==> old(order)[0].tc <= old(order)[k + 1].tc
    {
      hide CachedTree.Linked, Nodes, CachedTree.Order;
      TimerFacts();
      ghost var q := order;
      var pct := timerOf[rb.leftmost];
      ghost var i := DelTimer(pct);
      assert i == 0 && Removed(q, 0) == q[1..];
      QueuedNode(pct);
      k := InsertTimer(pct);
    }

    /** The store that update_timer_tree makes to each timer. */
    method RewriteKey(pct: Timer, isLeftmost: bool, elapsed: nat)
      requires pct.tc < U32 && elapsed < U32 && least < U32
      modifies pct`tc
      ensures pct.tc == if isLeftmost && pct.pt.done then pct.intvl else Aged(old(pct.tc), elapsed, least)
    {
      if isLeftmost {
        if pct.pt.done {
          pct.tc := pct.intvl;
        } else {
          var temp := Sub32(pct.tc, elapsed);
          if temp < least {
            pct.tc := least;
          } else {
            pct.tc := temp;
          }
        }
      } else {
        var temp := Sub32(pct.tc, elapsed);
        if temp < least {
          pct.tc := least;
        } else {
          pct.tc := temp;
        }
      }
    }

    /** The loop of update_timer_tree. */
    method RewriteKeys(elapsed: nat)
      requires Linked() && order != [] && elapsed < U32
      requires forall i :: 0 <= i < |order| ==> order[i].tc < U32
      modifies order`tc
      ensures Linked()
      ensures Keys() == Rewritten(old(Keys()), elapsed, least, old(order[0].pt.done), old(order[0].intvl))
    {
      hide CachedTree.Linked, Nodes, CachedTree.Order;
      TimerFacts();
      ghost var s, q, keys, i := rb.Order(), order, Keys(), 0;
      ghost var r := Rewritten(keys, elapsed, least, order[0].pt.done, order[0].intvl);
      var pcur: RbNode? := rb.leftmost;
      while pcur != null
        invariant i <= |q| && pcur == if i < |q| then s[i] else null
        invariant forall j :: 0 <= j < |q| ==> q[j].tc == if j < i then r[j] else keys[j]
        decreases |q| - i
      {
        RewriteKey(timerOf[pcur], pcur == rb.leftmost, elapsed);
        pcur := rb.Next(pcur, i);
        i := i + 1;
      }
    }

    /**
     update_timer_tree: every key is rewritten once, in tree order, and the leftmost timer then goes to
     its new place.
     */
    method UpdateTimerTree(elapsed: nat) returns (ghost k: nat)
      requires Linked() && order != [] && elapsed < U32
      requires forall i :: 0 <= i < |order| ==> order[i].tc < U32
      modifies this, rb, rb.root, Nodes(rb.tree), order`tc
      ensures Linked()
      ensures k < |old(order)| && order == Inserted(old(order)[1..], k, old(order)[0])
      ensures var r := Rewritten(old(Keys()), elapsed, least, old(order[0].pt.done), old(order[0].intvl));
              && Keys() == Inserted(r[1..], k, r[0])
              && (k > 0 ==> r[k] <= r[0]) && (k + 1 < |r| ==> r[0] <= r[k + 1])
    {
      hide CachedTree.Linked, Nodes, CachedTree.Order, Rewritten;
      RewriteKeys(elapsed);
      ghost var r := Keys();
      k := Requeue();
      assert Keys() == Inserted(r[1..], k, r[0]);
    }
  }
}

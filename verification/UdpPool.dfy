// The pool of gnss_udp_server/zy_mempool.c: nodes are taken from the head of one ring and put behind the
// head of the other, case by case on the two counts.
module UdpPool {
  import opened Rings

  /** s with x behind its head. */
  ghost function Behind(s: seq<Node>, x: Node): (r: seq<Node>)
    ensures |r| == |s| + 1 && x in r
  {
    if s == [] then [x] else [s[0], x] + s[1..]
  }

  /** The first node of a ring is its head; every later one comes second, ahead of those that came before it. */
  lemma BehindOrder(s: seq<Node>, x: Node)
    ensures s == [] ==> Behind(s, x) == [x]
    ensures s != [] ==> Behind(s, x)[0] == s[0] && Behind(s, x)[1] == x && Behind(s, x)[2..] == s[1..]
  {
  }

  lemma BehindElements(s: seq<Node>, x: Node)
    ensures Elements(Behind(s, x)) == Elements(s) + {x}
  {
    if s == [] {
      assert Behind(s, x) == [x] + s;
    }
    ElementsInsert(Behind(s, x), s, x);
  }

  lemma BehindApart(s: seq<Node>, x: Node, t: seq<Node>)
    requires Apart(s, t) && x !in t
    ensures Apart(Behind(s, x), t) && Apart(t, Behind(s, x))
  {
    BehindElements(s, x);
    forall y | y in t
      ensures y !in Behind(s, x)
    {
      assert y !in Elements(s) + {x};
    }
  }

  lemma GetElements(f: seq<Node>, u: seq<Node>, x: Node)
    requires Ring(f) && f != [] && f[0] == x
    ensures RemoveAt(f, 0) == f[1..]
    ensures GetStep(Allocator(Elements(f), Elements(u)), Allocator(Elements(f[1..]), Elements(Behind(u, x))), x)
  {
    ElementsRemove(f, 0);
    BehindElements(u, x);
    assert RemoveAt(f, 0) == f[1..];
  }

  lemma ReturnElements(f: seq<Node>, u: seq<Node>, x: Node, k: nat)
    requires Ring(u) && k < |u| && u[k] == x
    ensures ReturnStep(Allocator(Elements(f), Elements(u)),
      Allocator(Elements(Behind(f, x)), Elements(RemoveAt(u, k))), x)
  {
    ElementsRemove(u, k);
    BehindElements(f, x);
  }

  class Pool {
    var maxcount: int
    var usecount: int
    var freecount: int
    var nodelist: Node?
    var freelist: Node?
    var uselist: Node?
    ghost var Free: seq<Node>
    ghost var Use: seq<Node>

    /** A head pointer means something only while its ring has nodes. */
    ghost predicate Rings()
      reads this, Free`next, Free`last, Use`next, Use`last
    {
      && Ring(Free) && Ring(Use) && Apart(Free, Use)
      && freecount == |Free| && usecount == |Use|
      && (|Free| > 0 ==> freelist == Free[0])
      && (|Use| > 0 ==> uselist == Use[0])
    }

    ghost predicate Valid()
      reads this, Free`next, Free`last, Use`next, Use`last
    {
      Rings() && maxcount == |Free| + |Use| && maxcount >= 1
    }

    ghost function View(): Allocator
      reads this
    {
      Allocator(Elements(Free), Elements(Use))
    }

    constructor (memnode_number: int)
      requires memnode_number >= 1
      ensures Valid() && fresh(Free) && |Free| == memnode_number && Use == []
    {
      maxcount, freecount, usecount := memnode_number, memnode_number, 0;
      nodelist, freelist, uselist := null, null, null;
      Free, Use := [], [];
      new;
      var block := Calloc(memnode_number);
      nodelist := block[0];
      freelist := block[0];
      LinkBlock(block, false);
      Free := block;
    }

    /** Unlink the head of the free ring; the pointer then moves on, even when nothing is left. */
    method TakeFree() returns (memnode: Node)
      requires Rings() && freecount >= 1
      modifies `freecount, `freelist, `Free, Free`next, Free`last
      ensures Rings() && memnode == old(Free)[0] && Free == RemoveAt(old(Free), 0)
      ensures memnode !in Free && memnode !in Use
    {
      hide Ring;
      ghost var f, u := Free, Use;
      RingLink(f, 0);
      ApartSymmetric(f, u);
      ApartTail(f, u, 0);
      memnode := freelist;
      Unlink(freelist, f, 0);
      freelist := freelist.next;
      freecount := freecount - 1;
      Free := RemoveAt(f, 0);
      RingKept(u);
    }

    /** Take the only free node without touching its links. */
    method TakeOnlyFree() returns (memnode: Node)
      requires Rings() && freecount == 1
      modifies `freecount, `freelist, `Free
      ensures Rings() && memnode == old(Free)[0] && Free == RemoveAt(old(Free), 0)
      ensures memnode !in Free && memnode !in Use
    {
      hide Ring;
      ApartTail(Free, Use, 0);
      memnode := freelist;
      freelist := null;
      freecount := freecount - 1;
      Free := RemoveAt(Free, 0);
      assert Free == [];
      EmptyRing();
    }

    /** Start the in-use ring, or put the node behind its head. */
    method PutUse(memnode: Node)
      requires Rings() && memnode !in Free && memnode !in Use
      modifies `usecount, `uselist, `Use, Use`next, Use`last, memnode`next, memnode`last
      ensures Rings() && Use == Behind(old(Use), memnode)
    {
      hide Ring;
      ghost var f, u := Free, Use;
      ApartSymmetric(f, u);
      BehindApart(u, memnode, f);
      if usecount == 0 {
        uselist := memnode;
        LinkAlone(memnode);
      } else {
        LinkAfter(memnode, uselist, u);
      }
      usecount := usecount + 1;
      Use := Behind(u, memnode);
      RingKept(f);
    }

    /** Unlink node k of the in-use ring. */
    method TakeUsed(usenode: Node, ghost k: nat)
      requires Rings() && k < |Use| && Use[k] == usenode
      modifies `usecount, `uselist, `Use, Use`next, Use`last
      ensures Rings() && Use == RemoveAt(old(Use), k)
      ensures usenode !in Free && usenode !in Use
    {
      hide Ring;
      ghost var f, u := Free, Use;
      RingLink(u, k);
      ApartSymmetric(f, u);
      ApartTail(u, f, k);
      Unlink(usenode, u, k);
      if usenode == uselist {
        uselist := uselist.next;
      }
      usecount := usecount - 1;
      Use := RemoveAt(u, k);
      RingKept(f);
    }

    /** Drop the only in-use node without touching its links. */
    method TakeOnlyUsed(usenode: Node)
      requires Rings() && usecount == 1 && Use[0] == usenode
      modifies `usecount, `uselist, `Use
      ensures Rings() && Use == RemoveAt(old(Use), 0)
      ensures usenode !in Free && usenode !in Use
    {
      hide Ring;
      ApartSymmetric(Free, Use);
      ApartTail(Use, Free, 0);
      uselist := null;
      usecount := usecount - 1;
      Use := RemoveAt(Use, 0);
      assert Use == [];
      EmptyRing();
    }

    /** Start the free ring, or put the node behind its head. */
    method PutFree(usenode: Node)
      requires Rings() && usenode !in Free && usenode !in Use
      modifies `freecount, `freelist, `Free, Free`next, Free`last, usenode`next, usenode`last
      ensures Rings() && Free == Behind(old(Free), usenode)
    {
      hide Ring;
      ghost var f, u := Free, Use;
      BehindApart(f, usenode, u);
      if freecount == 0 {
        freelist := usenode;
        LinkAlone(usenode);
      } else {
        LinkAfter(usenode, freelist, f);
      }
      freecount := freecount + 1;
      Free := Behind(f, usenode);
      RingKept(u);
    }

    /** The head of the free ring, taken out of it by the case the two counts select. */
    method PickFree() returns (memnode: Node?)
      requires Rings() && freecount + usecount >= 1
      modifies `freecount, `freelist, `Free, Free`next, Free`last
      ensures Rings() && (memnode == null <==> |old(Free)| == 0)
      ensures memnode == null ==> Free == old(Free)
      ensures memnode != null ==> memnode == old(Free)[0] && Free == RemoveAt(old(Free), 0)
      ensures memnode != null ==> memnode !in Free && memnode !in Use
    {
      hide Ring;
      if usecount == 0 || freecount > 1 {
        memnode := TakeFree();
      } else if freecount == 1 {
        memnode := TakeOnlyFree();
      } else {
        memnode := null;
      }
    }

    /** Move the head of the free ring behind the head of the in-use ring. */
    method GetNode() returns (ok: bool, freenode: Node?)
      requires Valid()
      modifies this, Free`next, Free`last, Use`next, Use`last
      ensures Valid() && maxcount == old(maxcount)
      ensures ok <==> |old(Free)| > 0
      ensures ok ==> freenode == old(Free)[0] && Free == old(Free)[1..] && Use == Behind(old(Use), freenode)
      ensures ok ==> GetStep(old(View()), View(), freenode)
      ensures !ok ==> Free == old(Free) && Use == old(Use)
    {
      hide Ring, Apart, GetStep, Elements, Behind;
      ghost var f, u := Free, Use;
      if freecount > 0 {
        GetElements(f, u, f[0]);
      }
      var memnode := PickFree();
      if memnode == null {
        return false, null;
      }
      PutUse(memnode);
      return true, memnode;
    }

    /** Move an in-use node behind the head of the free ring. */
    method ReturnNode(usenode: Node, ghost k: nat)
      requires Valid() && k < |Use| && Use[k] == usenode
      modifies this, Free`next, Free`last, Use`next, Use`last
      ensures Valid() && maxcount == old(maxcount)
      ensures Use == RemoveAt(old(Use), k) && Free == Behind(old(Free), usenode)
      ensures ReturnStep(old(View()), View(), usenode)
    {
      hide Ring, Apart, ReturnStep, Elements, Behind;
      ghost var f, u := Free, Use;
      ReturnElements(f, u, usenode, k);
      if freecount == 0 {
        TakeUsed(usenode, k);
      } else if usecount == 1 {
        TakeOnlyUsed(usenode);
      } else {
        TakeUsed(usenode, k);
      }
      PutFree(usenode);
    }

    /** One request; giving back a node that is not held cannot happen and does nothing here. */
    method ServeOne(request: Request, held0: seq<Node>, ghost t0: seq<Allocator>, ghost all: set<Node>)
      returns (held: seq<Node>, ghost t: seq<Allocator>)
      requires Valid() && Served(t0, all, held0, View())
      modifies this, Free`next, Free`last, Use`next, Use`last
      ensures Valid() && maxcount == old(maxcount) && Served(t, all, held, View())
      ensures request.Get? ==> (if |held0| < maxcount then |held| == |held0| + 1 && held0 <= held else held == held0)
      ensures request.GiveBack? ==> held == if request.i < |held0| then RemoveAt(held0, request.i) else held0
    {
      hide Ring, Apart, GetStep, ReturnStep, Served, Elements, Distinct;
      held, t := held0, t0;
      ghost var a := View();
      HeldCounts(t0, all, held0);
      match request
      case Get =>
        var ok, x := GetNode();
        if ok {
          held, t := held0 + [x], t0 + [View()];
          ServedGet(t0, all, held0, a, View(), x);
        }
      case GiveBack(i) =>
        if i < |held0| {
          ghost var k := HeldInUse(t0, all, held0, i);
          ReturnNode(held0[i], k);
          held, t := RemoveAt(held0, i), t0 + [View()];
          ServedReturn(t0, all, held0, a, View(), i);
        }
    }

    lemma HeldCounts(t: seq<Allocator>, all: set<Node>, held: seq<Node>)
      requires Valid() && Served(t, all, held, View())
      ensures Partition(View(), all) && |held| + |Free| == maxcount && |held| == |Use|
    {
      hide Run;
      ServedPartition(t, all, held, View());
      DistinctSize(held);
      DistinctSize(Use);
    }

    lemma HeldInUse(t: seq<Allocator>, all: set<Node>, held: seq<Node>, i: nat) returns (k: nat)
      requires Served(t, all, held, View()) && i < |held|
      ensures k < |Use| && Use[k] == held[i]
    {
      hide Run;
      assert held[i] in Elements(held);
      k :| 0 <= k < |Use| && Use[k] == held[i];
    }

    /**
     * Any requests, on a pool with all nodes free: no two clients ever hold the same node, and free and held nodes
     * are all nodes of the pool.
     */
    method Serve(requests: seq<Request>) returns (held: seq<Node>, ghost t: seq<Allocator>)
      requires Valid() && Use == []
      modifies this, Free`next, Free`last
      ensures Valid() && maxcount == old(maxcount) && Served(t, old(Elements(Free)), held, View())
      ensures Partition(View(), old(Elements(Free))) && |held| + freecount == maxcount
    {
      hide Ring, Apart, GetStep, ReturnStep, Served, Run;
      ghost var all, nodes := Elements(Free), Free;
      assert Elements(Use) == {};
      ServedStart(all);
      held, t := [], [View()];
      HeldCounts(t, all, held);
      for j := 0 to |requests|
        invariant Valid() && maxcount == old(maxcount) && Served(t, all, held, View()) && Partition(View(), all)
      {
        AllKnown(all, nodes);
        held, t := ServeOne(requests[j], held, t, all);
        HeldCounts(t, all, held);
      }
      HeldCounts(t, all, held);
    }

    lemma AllKnown(all: set<Node>, nodes: seq<Node>)
      requires Partition(View(), all) && all == Elements(nodes)
      ensures forall i :: 0 <= i < |Free| ==> Free[i] in nodes
      ensures forall i :: 0 <= i < |Use| ==> Use[i] in nodes
    {
      forall i | 0 <= i < |Free|
        ensures Free[i] in nodes
      {
        assert Free[i] in View().free + View().use;
      }
      forall i | 0 <= i < |Use|
        ensures Use[i] in nodes
      {
        assert Use[i] in View().free + View().use;
      }
    }
  }
}

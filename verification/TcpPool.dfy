// The pool of tcp_channel_server/zy_mempool.c and gnss_service_list/zy_mempool.c: nodes moved between the
// heads of two rings. The first file allocates them one by one, the second as a block.
module TcpPool {
  import opened Rings

  lemma AppendApart(s: seq<Node>, x: Node, t: seq<Node>)
    requires Apart(s, t) && x !in t
    ensures Apart(s + [x], t)
  {
  }

  lemma GetElements(f: seq<Node>, u: seq<Node>, x: Node)
    requires Ring(f) && f != [] && f[0] == x
    ensures GetStep(Allocator(Elements(f), Elements(u)), Allocator(Elements(f[1..]), Elements([x] + u)), x)
  {
    ElementsRemove(f, 0);
    ElementsInsert([x] + u, u, x);
    assert RemoveAt(f, 0) == f[1..];
  }

  lemma ReturnElements(f: seq<Node>, u: seq<Node>, x: Node, k: nat)
    requires Ring(u) && k < |u| && u[k] == x
    ensures ReturnStep(Allocator(Elements(f), Elements(u)), Allocator(Elements([x] + f), Elements(RemoveAt(u, k))), x)
  {
    ElementsRemove(u, k);
    ElementsInsert([x] + f, f, x);
  }

  class Pool {
    var maxcount: int
    var usecount: int
    var freecount: int
    var nodelist: Node?
    var freelist: Node?
    var uselist: Node?
    ghost var Free: seq<Node>
    ghost var Use: seq<Node>

    /** Both rings are well formed, share no node, and their counts and heads are right. */
    ghost predicate Rings()
      reads this, Free`next, Free`last, Use`next, Use`last
    {
      && Ring(Free) && Ring(Use) && Apart(Free, Use)
      && freecount == |Free| && usecount == |Use|
      && (freelist == if |Free| == 0 then null else Free[0])
      && (uselist == if |Use| == 0 then null else Use[0])
    }

    ghost predicate Valid()
      reads this, Free`next, Free`last, Use`next, Use`last
    {
      Rings() && maxcount == |Free| + |Use|
    }

    ghost function View(): Allocator
      reads this
    {
      Allocator(Elements(Free), Elements(Use))
    }

    constructor (memnode_number: int)
      requires memnode_number >= 0
      ensures Valid() && fresh(Free) && |Free| == memnode_number && Use == []
      ensures nodelist == freelist
      ensures forall i :: 0 <= i < |Free| ==> Free[i].nodeID == i
    {
      maxcount, freecount, usecount := 0, 0, 0;
      nodelist, freelist, uselist := null, null, null;
      Free, Use := [], [];
      new;
      EmptyRing();
      AddNodes(memnode_number);
      nodelist := freelist;
    }

    /** gnss_service_list: the same pool, its nodes allocated as one block and linked by index. */
    constructor FromBlock(memnode_number: int)
      requires memnode_number >= 0
      ensures Valid() && fresh(Free) && |Free| == memnode_number && Use == []
      ensures nodelist == freelist
      ensures forall i :: 0 <= i < |Free| ==> Free[i].nodeID == i
    {
      maxcount, freecount, usecount := memnode_number, memnode_number, 0;
      nodelist, freelist, uselist := null, null, null;
      Free, Use := [], [];
      new;
      var block := Calloc(memnode_number);
      if memnode_number > 0 {
        nodelist := block[0];
        freelist := block[0];
        LinkBlock(block, true);
      }
      Free := block;
    }

    /** The loop of the constructor, on an empty pool. */
    method AddNodes(memnode_number: nat)
      requires Valid() && Free == [] && Use == []
      modifies this
      ensures Valid() && fresh(Free) && |Free| == memnode_number && Use == []
      ensures forall i :: 0 <= i < |Free| ==> Free[i].nodeID == i
    {
      hide Ring, Apart;
      for i := 0 to memnode_number
        invariant Valid() && fresh(Free) && |Free| == i && Use == []
        invariant forall k :: 0 <= k < |Free| ==> Free[k].nodeID == k
      {
        NewNode();
      }
    }

    /** Allocate a node and append it to the free ring. */
    method NewNode()
      requires Valid()
      modifies this, Free`next, Free`last
      ensures Valid() && Use == old(Use) && |Free| == |old(Free)| + 1 && Free[..|old(Free)|] == old(Free)
      ensures fresh(Free[|old(Free)|]) && Free[|old(Free)|].nodeID == old(if freecount <= 0 then 0 else maxcount)
    {
      hide Ring, Apart;
      var memnode := new Node();
      AppendFree(memnode);
    }

    /** Number the node and link it behind the last free one. */
    method AppendFree(memnode: Node)
      requires Valid() && memnode !in Free && memnode !in Use
      modifies `maxcount, `freecount, `freelist, `Free, Free`next, Free`last, memnode
      ensures Valid() && Free == old(Free) + [memnode]
      ensures memnode.nodeID == old(if freecount <= 0 then 0 else maxcount)
    {
      hide Ring, Apart;
      ghost var f, u := Free, Use;
      ApartSymmetric(f, u);
      AppendApart(f, memnode, u);
      if freecount <= 0 {
        freelist := memnode;
        LinkAlone(memnode);
        memnode.nodeID := 0;
        maxcount := maxcount + 1;
        freecount := 1;
        assert f + [memnode] == [memnode];
      } else {
        LinkBefore(memnode, freelist, f);
        memnode.nodeID := maxcount;
        maxcount := maxcount + 1;
        freecount := freecount + 1;
      }
      Free := f + [memnode];
      RingKept(u);
    }

    /** Take the head off the free ring. */
    method TakeFree() returns (memnode: Node)
      requires Rings() && freecount >= 1
      modifies `freecount, `freelist, `Free, Free`next, Free`last
      ensures Rings() && memnode == old(Free)[0] && Free == old(Free)[1..]
      ensures memnode !in Free && memnode !in Use
    {
      hide Ring, Apart;
      ghost var f, u := Free, Use;
      HeadLink(f);
      ApartSymmetric(f, u);
      ApartTail(f, u, 0);
      assert RemoveAt(f, 0) == f[1..];
      memnode := freelist;
      freecount := freecount - 1;
      if freecount == 0 {
        freelist := null;
        EmptyRing();
        assert f[1..] == [];
      } else {
        Unlink(freelist, f, 0);
        freelist := freelist.next;
      }
      Free := f[1..];
      RingKept(u);
    }

    /** Put a detached node at the head of the in-use ring. */
    method PutUse(memnode: Node)
      requires Rings() && memnode !in Free && memnode !in Use
      modifies `usecount, `uselist, `Use, Use`next, Use`last, memnode`next, memnode`last
      ensures Rings() && Use == [memnode] + old(Use)
    {
      hide Ring;
      ghost var f, u := Free, Use;
      if usecount == 0 {
        uselist := memnode;
        LinkAlone(memnode);
        assert [memnode] + u == [memnode];
      } else {
        LinkBefore(memnode, uselist, u);
        uselist := memnode;
      }
      usecount := usecount + 1;
      Use := [memnode] + u;
      RingKept(f);
    }

    /** Take node k off the in-use ring. */
    method TakeUsed(usenode: Node, ghost k: nat)
      requires Rings() && k < |Use| && Use[k] == usenode
      modifies `usecount, `uselist, `Use, Use`next, Use`last
      ensures Rings() && Use == RemoveAt(old(Use), k)
      ensures usenode !in Free && usenode !in Use
    {
      hide Ring, Apart;
      ghost var f, u := Free, Use;
      RingLink(u, k);
      ApartSymmetric(f, u);
      ApartTail(u, f, k);
      usecount := usecount - 1;
      if usecount == 0 {
        uselist := null;
        EmptyRing();
        assert RemoveAt(u, k) == [];
      } else {
        Unlink(usenode, u, k);
        if uselist == usenode {
          uselist := uselist.next;
        }
      }
      Use := RemoveAt(u, k);
      RingKept(f);
    }

    /** Put a detached node at the head of the free ring. */
    method PutFree(usenode: Node)
      requires Rings() && usenode !in Free && usenode !in Use
      modifies `freecount, `freelist, `Free, Free`next, Free`last, usenode`next, usenode`last
      ensures Rings() && Free == [usenode] + old(Free)
    {
      hide Ring;
      ghost var f, u := Free, Use;
      ApartSymmetric(f, u);
      if freecount == 0 {
        freelist := usenode;
        LinkAlone(usenode);
        assert [usenode] + f == [usenode];
      } else {
        LinkBefore(usenode, freelist, f);
        freelist := usenode;
      }
      freecount := freecount + 1;
      Free := [usenode] + f;
      RingKept(u);
    }

    /** Move the head of the free ring to the head of the in-use ring. */
    method GetNode() returns (ok: bool, freenode: Node?)
      requires Valid()
      modifies this, Free`next, Free`last, Use`next, Use`last
      ensures Valid() && maxcount == old(maxcount)
      ensures ok <==> |old(Free)| > 0
      ensures ok ==> freenode == old(Free)[0] && Free == old(Free)[1..] && Use == [freenode] + old(Use)
      ensures ok ==> GetStep(old(View()), View(), freenode)
      ensures !ok ==> Free == old(Free) && Use == old(Use)
    {
      hide Ring, Apart, GetStep, Elements;
      if freecount >= 1 {
        GetElements(Free, Use, Free[0]);
        var memnode := TakeFree();
        PutUse(memnode);
        return true, memnode;
      } else {
        return false, null;
      }
    }

    /** Move an in-use node to the head of the free ring. */
    method ReturnNode(usenode: Node, ghost k: nat)
      requires Valid() && k < |Use| && Use[k] == usenode
      modifies this, Free`next, Free`last, Use`next, Use`last
      ensures Valid() && maxcount == old(maxcount)
      ensures Use == RemoveAt(old(Use), k) && Free == [usenode] + old(Free)
      ensures ReturnStep(old(View()), View(), usenode)
    {
      hide Ring, Apart, ReturnStep, Elements;
      ReturnElements(Free, Use, usenode, k);
      TakeUsed(usenode, k);
      PutFree(usenode);
    }

    /** One request; giving back a node that is not held cannot happen and does nothing here. */
    method ServeOne(request: Request, held0: seq<Node>, ghost t0: seq<Allocator>, ghost all: set<Node>)
      returns (held: seq<Node>, ghost t: seq<Allocator>)
      requires Valid() && Served(t0, all, held0, View())
      modifies this, Free`next, Free`last, Use`next, Use`last
      ensures Valid() && maxcount == old(maxcount) && Served(t, all, held, View())
      ensures request.Get? ==> (if |held0| < maxcount then |held| == |held0| + 1 && held0 <= held else held == held0)
      ensures request.GiveBack? ==> held == if request.i < |held0| then RemoveAt(held0, request.i) else held0
    {
      hide Ring, Apart, GetStep, ReturnStep, Served, Elements, Distinct;
      held, t := held0, t0;
      ghost var a := View();
      HeldCounts(t0, all, held0);
      match request
      case Get =>
        var ok, x := GetNode();
        if ok {
          held, t := held0 + [x], t0 + [View()];
          ServedGet(t0, all, held0, a, View(), x);
        }
      case GiveBack(i) =>
        if i < |held0| {
          ghost var k := HeldInUse(t0, all, held0, i);
          ReturnNode(held0[i], k);
          held, t := RemoveAt(held0, i), t0 + [View()];
          ServedReturn(t0, all, held0, a, View(), i);
        }
    }

    lemma HeldCounts(t: seq<Allocator>, all: set<Node>, held: seq<Node>)
      requires Valid() && Served(t, all, held, View())
      ensures Partition(View(), all) && |held| + |Free| == maxcount && |held| == |Use|
    {
      hide Run;
      ServedPartition(t, all, held, View());
      DistinctSize(held);
      DistinctSize(Use);
    }

    lemma HeldInUse(t: seq<Allocator>, all: set<Node>, held: seq<Node>, i: nat) returns (k: nat)
      requires Served(t, all, held, View()) && i < |held|
      ensures k < |Use| && Use[k] == held[i]
    {
      hide Run;
      assert held[i] in Elements(held);
      k :| 0 <= k < |Use| && Use[k] == held[i];
    }

    /**
     * Any requests, on a pool with all nodes free: no two clients ever hold the same node, and free and held nodes
     * are all nodes of the pool.
     */
    method Serve(requests: seq<Request>) returns (held: seq<Node>, ghost t: seq<Allocator>)
      requires Valid() && Use == []
      modifies this, Free`next, Free`last
      ensures Valid() && maxcount == old(maxcount) && Served(t, old(Elements(Free)), held, View())
      ensures Partition(View(), old(Elements(Free))) && |held| + freecount == maxcount
    {
      hide Ring, Apart, GetStep, ReturnStep, Served, Run;
      ghost var all, nodes := Elements(Free), Free;
      assert Elements(Use) == {};
      ServedStart(all);
      held, t := [], [View()];
      HeldCounts(t, all, held);
      for j := 0 to |requests|
        invariant Valid() && maxcount == old(maxcount) && Served(t, all, held, View()) && Partition(View(), all)
      {
        AllKnown(all, nodes);
        held, t := ServeOne(requests[j], held, t, all);
        HeldCounts(t, all, held);
      }
      HeldCounts(t, all, held);
    }

    lemma AllKnown(all: set<Node>, nodes: seq<Node>)
      requires Partition(View(), all) && all == Elements(nodes)
      ensures forall i :: 0 <= i < |Free| ==> Free[i] in nodes
      ensures forall i :: 0 <= i < |Use| ==> Use[i] in nodes
    {
      forall i | 0 <= i < |Free|
        ensures Free[i] in nodes
      {
        assert Free[i] in View().free + View().use;
      }
      forall i | 0 <= i < |Use|
        ensures Use[i] in nodes
      {
        assert Use[i] in View().free + View().use;
      }
    }
  }
}

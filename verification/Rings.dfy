// Circular doubly linked lists whose links live inside the nodes, and the pointer assignments that
// the three zy_mempool.c files make on them.
module Rings {

  /** zy_mempoolnode_t, with the descriptor of the peer it is embedded in. */
  class Node {
    var last: Node?
    var next: Node?
    var nodeID: int
    var socket_fd: int

    constructor ()
      ensures last == null && next == null && nodeID == 0 && socket_fd == 0
    {
      last, next, nodeID, socket_fd := null, null, 0, 0;
    }
  }

  function Succ(i: int, n: int): (j: int)
    ensures 0 <= i < n ==> 0 <= j < n
  {
    if i + 1 == n then 0 else i + 1
  }

  function Pred(i: int, n: int): (j: int)
    ensures 0 <= i < n ==> 0 <= j < n
  {
    if i == 0 then n - 1 else i - 1
  }

  ghost predicate Distinct(s: seq<Node>) {
    forall i, j :: 0 <= i < j < |s| ==> s[i] != s[j]
  }

  /** s lists a well-formed ring, starting at s[0]. */
  ghost predicate Ring(s: seq<Node>)
    reads s`next, s`last
  {
    && Distinct(s)
    && (forall i {:trigger s[i].next} :: 0 <= i < |s| ==> s[i].next == s[Succ(i, |s|)])
    && (forall i {:trigger s[i].last} :: 0 <= i < |s| ==> s[i].last == s[Pred(i, |s|)])
  }

  /** The two sequences share no node. */
  ghost predicate Apart(s: seq<Node>, t: seq<Node>) {
    forall i :: 0 <= i < |s| ==> s[i] !in t
  }

  lemma ApartSymmetric(s: seq<Node>, t: seq<Node>)
    requires Apart(s, t)
    ensures Apart(t, s)
  {
  }

  lemma ApartTail(s: seq<Node>, t: seq<Node>, k: nat)
    requires Apart(s, t) && k < |s| && Distinct(s)
    ensures Apart(RemoveAt(s, k), t) && s[k] !in RemoveAt(s, k) && s[k] !in t
    ensures Apart(t, RemoveAt(s, k))
  {
  }

  /** A ring whose links were not touched is still a ring. */
  twostate lemma RingKept(s: seq<Node>)
    requires old(Ring(s)) && forall i :: 0 <= i < |s| ==> s[i].next == old(s[i].next) && s[i].last == old(s[i].last)
    ensures Ring(s)
  {
  }

  function RemoveAt(s: seq<Node>, k: nat): (r: seq<Node>)
    requires k < |s|
    ensures |r| == |s| - 1
    ensures forall i :: 0 <= i < |r| ==> r[i] == if i < k then s[i] else s[i + 1]
  {
    s[..k] + s[k + 1..]
  }

  ghost function Elements(s: seq<Node>): set<Node> {
    set x | x in s
  }

  lemma ElementsRemove(s: seq<Node>, k: nat)
    requires k < |s| && Distinct(s)
    ensures Elements(RemoveAt(s, k)) == Elements(s) - {s[k]}
  {
    var r := RemoveAt(s, k);
    forall x | x in Elements(s) - {s[k]}
      ensures x in r
    {
      var i :| 0 <= i < |s| && s[i] == x;
      assert r[if i < k then i else i - 1] == x;
    }
  }

  lemma ElementsInsert(s: seq<Node>, t: seq<Node>, x: Node)
    requires s == [x] + t || s == t + [x] || (|t| > 0 && s == [t[0], x] + t[1..])
    ensures Elements(s) == Elements(t) + {x}
  {
    forall y
      ensures y in s <==> y in t || y == x
    {
      if y in t {
        var i :| 0 <= i < |t| && t[i] == y;
        assert s == [x] + t ==> s[i + 1] == y;
        assert s == t + [x] ==> s[i] == y;
        assert |t| > 0 && s == [t[0], x] + t[1..] ==> s[if i == 0 then 0 else i + 1] == y;
      }
      if y == x {
        assert s == t + [x] ==> s[|t|] == x;
        assert s == [x] + t ==> s[0] == x;
        assert |t| > 0 && s == [t[0], x] + t[1..] ==> s[1] == x;
      }
    }
  }

  lemma EmptyRing()
    ensures Ring([])
  {
  }

  /** The neighbours of node k, and where it sits. */
  lemma RingLink(s: seq<Node>, k: nat)
    requires Ring(s) && k < |s|
    ensures Distinct(s) && s[k].next == s[Succ(k, |s|)] && s[k].last == s[Pred(k, |s|)]
    ensures s[0] == s[k] ==> k == 0
  {
  }

  lemma HeadLink(s: seq<Node>)
    requires Ring(s) && |s| > 0
    ensures Distinct(s) && s[0].next == s[Succ(0, |s|)]
  {
  }

  /** x->last->next = x->next; x->next->last = x->last; on the only node of a ring this changes nothing. */
  method Unlink(x: Node, ghost s: seq<Node>, ghost k: nat)
    requires Ring(s) && k < |s| && s[k] == x
    modifies s`next, s`last
    ensures Ring(RemoveAt(s, k))
    ensures x.next == old(x.next) && x.last == old(x.last)
  {
    ghost var n := |s|;
    ghost var pi, qi := Pred(k, n), Succ(k, n);
    var p, q := x.last, x.next;
    assert p == s[pi] && q == s[qi];
    p.next := q;
    q.last := p;
    forall i | 0 <= i < n && i != k
      ensures s[i].next == s[if i == pi then qi else Succ(i, n)]
    {
      assert s[i] == p <==> i == pi;
    }
    forall i | 0 <= i < n && i != k
      ensures s[i].last == s[if i == qi then pi else Pred(i, n)]
    {
      assert s[i] == q <==> i == qi;
    }
    if n >= 2 {
      RingWithout(s, k);
    } else {
      EmptyRing();
      assert RemoveAt(s, k) == [];
    }
  }

  lemma RingWithout(s: seq<Node>, k: nat)
    requires k < |s| && |s| >= 2 && Distinct(s)
    requires forall i {:trigger s[i].next} :: 0 <= i < |s| && i != k ==>
      s[i].next == s[if i == Pred(k, |s|) then Succ(k, |s|) else Succ(i, |s|)]
    requires forall i {:trigger s[i].last} :: 0 <= i < |s| && i != k ==>
      s[i].last == s[if i == Succ(k, |s|) then Pred(k, |s|) else Pred(i, |s|)]
    ensures Ring(RemoveAt(s, k))
  {
    hide Succ, Pred;
    var n, r := |s|, RemoveAt(s, k);
    forall i | 0 <= i < n - 1
      ensures r[i].next == r[Succ(i, n - 1)] && r[i].last == r[Pred(i, n - 1)]
    {
      hide Distinct;
      var o := if i < k then i else i + 1;
      assert r[i] == s[o];
      RemovedSucc(k, n, i);
      RemovedPred(k, n, i);
    }
  }

  /** Indices around a removed element. */
  lemma RemovedSucc(k: int, n: int, i: int)
    requires 0 <= k < n && n >= 2 && 0 <= i < n - 1
    ensures var o, j := if i < k then i else i + 1, Succ(i, n - 1);
      (if j < k then j else j + 1) == (if o == Pred(k, n) then Succ(k, n) else Succ(o, n))
  {
  }

  lemma RemovedPred(k: int, n: int, i: int)
    requires 0 <= k < n && n >= 2 && 0 <= i < n - 1
    ensures var o, j := if i < k then i else i + 1, Pred(i, n - 1);
      (if j < k then j else j + 1) == (if o == Succ(k, n) then Pred(k, n) else Pred(o, n))
  {
  }

  /** x goes between the last node and the head of the ring. */
  method LinkBefore(x: Node, head: Node, ghost s: seq<Node>)
    requires Ring(s) && |s| >= 1 && head == s[0] && x !in s
    modifies s`next, s`last, x`next, x`last
    ensures Ring([x] + s) && Ring(s + [x])
  {
    ghost var n := |s|;
    var tail := head.last;
    assert tail == s[n - 1];
    x.last := tail;
    x.next := head;
    tail.next := x;
    head.last := x;
    forall i | 0 <= i < n
      ensures s[i].next == if i == n - 1 then x else s[i + 1]
      ensures s[i].last == if i == 0 then x else s[i - 1]
    {
      assert (s[i] == tail <==> i == n - 1) && (s[i] == head <==> i == 0);
    }
    RingWithLast(s, x);
    Rotate(s, x);
  }

  lemma RingWithLast(s: seq<Node>, x: Node)
    requires |s| >= 1 && Distinct(s) && x !in s && x.last == s[|s| - 1] && x.next == s[0]
    requires forall i {:trigger s[i].next} :: 0 <= i < |s| ==> s[i].next == if i == |s| - 1 then x else s[i + 1]
    requires forall i {:trigger s[i].last} :: 0 <= i < |s| ==> s[i].last == if i == 0 then x else s[i - 1]
    ensures Ring(s + [x])
  {
    var n, t := |s|, s + [x];
    forall i | 0 <= i < n + 1
      ensures t[i].next == t[Succ(i, n + 1)] && t[i].last == t[Pred(i, n + 1)]
    {
      if i < n {
        assert t[i] == s[i];
      }
    }
  }

  /** A ring is the same ring from any starting point. */
  lemma Rotate(s: seq<Node>, x: Node)
    requires Ring(s + [x])
    ensures Ring([x] + s)
  {
    hide Succ, Pred;
    var n := |s|;
    var r, t := [x] + s, s + [x];
    RotateDistinct(s, x);
    forall i | 0 <= i < n + 1
      ensures r[i].next == r[Succ(i, n + 1)] && r[i].last == r[Pred(i, n + 1)]
    {
      hide Distinct;
      var o := Pred(i, n + 1);
      RotateAt(s, x, i);
      RotateAt(s, x, Succ(i, n + 1));
      RotateAt(s, x, o);
      SuccPred(i, n + 1);
      assert t[o].next == t[Succ(o, n + 1)] && t[o].last == t[Pred(o, n + 1)];
    }
  }

  lemma SuccPred(i: int, n: int)
    requires 0 <= i < n
    ensures Succ(Pred(i, n), n) == i == Pred(Succ(i, n), n)
  {
  }

  lemma RotateAt(s: seq<Node>, x: Node, i: nat)
    requires i <= |s|
    ensures ([x] + s)[i] == (s + [x])[Pred(i, |s| + 1)]
  {
  }

  lemma RotateDistinct(s: seq<Node>, x: Node)
    requires Distinct(s + [x])
    ensures Distinct([x] + s)
  {
    forall i, j | 0 <= i < j < |s| + 1
      ensures ([x] + s)[i] != ([x] + s)[j]
    {
      RotateAt(s, x, i);
      RotateAt(s, x, j);
    }
  }

  /** x goes right behind the head of the ring. */
  method LinkAfter(x: Node, head: Node, ghost s: seq<Node>)
    requires Ring(s) && |s| >= 1 && head == s[0] && x !in s
    modifies s`next, s`last, x`next, x`last
    ensures Ring([s[0], x] + s[1..])
  {
    ghost var n := |s|;
    var second := head.next;
    assert second == s[Succ(0, n)];
    x.last := head;
    x.next := second;
    second.last := x;
    head.next := x;
    forall i | 0 <= i < n
      ensures s[i].next == if i == 0 then x else s[Succ(i, n)]
      ensures s[i].last == if i == Succ(0, n) then x else s[Pred(i, n)]
    {
      assert (s[i] == head <==> i == 0) && (s[i] == second <==> i == Succ(0, n));
    }
    RingWithSecond(s, x);
  }

  lemma RingWithSecond(s: seq<Node>, x: Node)
    requires |s| >= 1 && Distinct(s) && x !in s && x.last == s[0] && x.next == s[Succ(0, |s|)]
    requires forall i {:trigger s[i].next} :: 0 <= i < |s| ==> s[i].next == if i == 0 then x else s[Succ(i, |s|)]
    requires forall i {:trigger s[i].last} :: 0 <= i < |s| ==>
      s[i].last == if i == Succ(0, |s|) then x else s[Pred(i, |s|)]
    ensures Ring([s[0], x] + s[1..])
  {
    var n, r := |s|, [s[0], x] + s[1..];
    forall i | 0 <= i < n + 1
      ensures r[i].next == r[Succ(i, n + 1)] && r[i].last == r[Pred(i, n + 1)]
    {
      if i != 1 {
        var o := if i == 0 then 0 else i - 1;
        assert r[i] == s[o];
      }
    }
  }

  /** x->last = x; x->next = x; */
  method LinkAlone(x: Node)
    modifies x`next, x`last
    ensures Ring([x])
  {
    x.last := x;
    x.next := x;
  }

  /** calloc of n nodes. */
  method Calloc(n: nat) returns (block: seq<Node>)
    ensures |block| == n && fresh(block) && Distinct(block)
    ensures forall i :: 0 <= i < n ==> block[i].nodeID == 0
  {
    block := [];
    for i := 0 to n
      invariant |block| == i && fresh(block) && Distinct(block)
      invariant forall j :: 0 <= j < i ==> block[j].nodeID == 0
    {
      var node := new Node();
      block := block + [node];
    }
  }

  lemma NextIndex(i: nat, n: nat)
    requires i < n
    ensures (i + 1) % n == Succ(i, n) == if i + 1 == n then 0 else i + 1
  {
    if i + 1 < n {
      assert (i + 1) % n == i + 1;
    }
  }

  lemma PrevIndex(i: nat, n: nat)
    requires i < n
    ensures Pred(i, n) == if i == 0 then n - 1 else i - 1
  {
  }

  /** Link a block of nodes into a ring by index arithmetic, following the links just made. */
  method LinkBlock(block: seq<Node>, numbered: bool)
    requires |block| >= 1 && Distinct(block)
    modifies block`next, block`last, block`nodeID
    ensures Ring(block)
    ensures forall i :: 0 <= i < |block| ==> block[i].nodeID == if numbered then i else old(block[i].nodeID)
  {
    hide Succ, Pred;
    var n := |block|;
    var freenode := block[0];
    for i := 0 to n
      invariant freenode == block[if i == n then 0 else i]
      invariant forall j {:trigger block[j].next} :: 0 <= j < i ==> block[j].next == block[Succ(j, n)]
      invariant forall j {:trigger block[j].last} :: 0 <= j < i ==> block[j].last == block[Pred(j, n)]
      invariant forall j :: 0 <= j < n ==> block[j].nodeID == if numbered && j < i then j else old(block[j].nodeID)
    {
      NextIndex(i, n);
      PrevIndex(i, n);
      freenode.next := block[(i + 1) % n];
      freenode.last := block[if i == 0 then n - 1 else i - 1];
      if numbered {
        freenode.nodeID := i;
      }
      freenode := freenode.next;
    }
  }

  // ---------- the allocator every pool implements ----------

  datatype Allocator = Allocator(free: set<Node>, use: set<Node>)

  ghost predicate GetStep(a: Allocator, a': Allocator, x: Node) {
    x in a.free && a' == Allocator(a.free - {x}, a.use + {x})
  }

  ghost predicate ReturnStep(a: Allocator, a': Allocator, x: Node) {
    x in a.use && a' == Allocator(a.free + {x}, a.use - {x})
  }

  /** Free and in-use nodes partition a fixed set of nodes. */
  ghost predicate Partition(a: Allocator, all: set<Node>) {
    a.free !! a.use && a.free + a.use == all
  }

  ghost predicate Step(a: Allocator, a': Allocator) {
    exists x :: x in a.free + a.use && (GetStep(a, a', x) || ReturnStep(a, a', x))
  }

  /** A run of gets and returns. */
  ghost predicate Run(t: seq<Allocator>) {
    |t| > 0 && forall i {:trigger t[i]} :: 0 < i < |t| ==> Step(t[i - 1], t[i])
  }

  lemma StepKeepsPartition(a: Allocator, a': Allocator, all: set<Node>)
    requires Step(a, a') && Partition(a, all)
    ensures Partition(a', all)
  {
  }

  lemma PartitionSize(a: Allocator, all: set<Node>)
    requires Partition(a, all)
    ensures |a.free| + |a.use| == |all|
  {
  }

  /** Over any run of gets and returns no node is lost, duplicated or shared. */
  lemma {:induction false} RunKeepsPartition(t: seq<Allocator>, all: set<Node>)
    requires Run(t) && Partition(t[0], all)
    ensures Partition(t[|t| - 1], all)
    ensures |t[|t| - 1].free| + |t[|t| - 1].use| == |all|
  {
    hide Step, Partition;
    var n := |t|;
    if n > 1 {
      RunKeepsPartition(t[..n - 1], all);
      StepKeepsPartition(t[n - 2], t[n - 1], all);
    }
    PartitionSize(t[n - 1], all);
  }

  /** Two gets without a return in between hand out different nodes. */
  lemma GetsDiffer(a: Allocator, b: Allocator, c: Allocator, x: Node, y: Node)
    requires GetStep(a, b, x) && GetStep(b, c, y) && a.free !! a.use
    ensures x != y && {x, y} <= c.use && x !in c.free && y !in c.free
  {
  }

  // ---------- clients of a pool ----------

  /** What a pool's clients ask for: another node, or to give back the node they have held i-th longest. */
  datatype Request = Get | GiveBack(i: nat)

  /**
   * t is the run that began with all nodes free and led to a; held are the nodes handed out and not given back, each
   * to one client only.
   */
  ghost predicate Served(t: seq<Allocator>, all: set<Node>, held: seq<Node>, a: Allocator) {
    && Run(t) && t[0] == Allocator(all, {}) && t[|t| - 1] == a
    && Distinct(held) && Elements(held) == a.use
  }

  lemma ServedStart(all: set<Node>)
    ensures Served([Allocator(all, {})], all, [], Allocator(all, {}))
  {
  }

  lemma RunExtends(t: seq<Allocator>, a: Allocator)
    requires Run(t) && Step(t[|t| - 1], a)
    ensures Run(t + [a])
  {
    hide Step;
    var t' := t + [a];
    forall i | 0 < i < |t'|
      ensures Step(t'[i - 1], t'[i])
    {
      if i < |t| {
        assert t'[i - 1] == t[i - 1] && t'[i] == t[i];
      }
    }
  }

  lemma StepOf(a: Allocator, a': Allocator, x: Node)
    requires GetStep(a, a', x) || ReturnStep(a, a', x)
    ensures Step(a, a')
  {
  }

  lemma ServedPartition(t: seq<Allocator>, all: set<Node>, held: seq<Node>, a: Allocator)
    requires Served(t, all, held, a)
    ensures Partition(a, all) && |held| + |a.free| == |all|
  {
    hide Step;
    RunKeepsPartition(t, all);
    DistinctSize(held);
  }

  lemma {:induction false} DistinctSize(s: seq<Node>)
    requires Distinct(s)
    ensures |Elements(s)| == |s|
  {
    if s == [] {
      assert Elements(s) == {};
    } else {
      var n := |s| - 1;
      DistinctSize(s[..n]);
      assert s == s[..n] + [s[n]];
      ElementsInsert(s, s[..n], s[n]);
    }
  }

  lemma ServedGet(t: seq<Allocator>, all: set<Node>, held: seq<Node>, a: Allocator, a': Allocator, x: Node)
    requires Served(t, all, held, a) && GetStep(a, a', x)
    ensures Served(t + [a'], all, held + [x], a')
  {
    StepOf(a, a', x);
    hide Step;
    ServedPartition(t, all, held, a);
    RunExtends(t, a');
    ElementsInsert(held + [x], held, x);
    assert x !in Elements(held);
  }

  lemma ServedReturn(t: seq<Allocator>, all: set<Node>, held: seq<Node>, a: Allocator, a': Allocator, i: nat)
    requires Served(t, all, held, a) && i < |held| && ReturnStep(a, a', held[i])
    ensures Served(t + [a'], all, RemoveAt(held, i), a')
  {
    StepOf(a, a', held[i]);
    hide Step;
    RunExtends(t, a');
    ElementsRemove(held, i);
  }
}

// send_all_tcpclient_msg of tcp_channel_server/zy_protocol.c: one write to every connected peer, while the
// peers whose write failed are moved off the ring that is being walked.
module Broadcast {
  import opened Rings
  import opened TcpPool

  /** The first i peers whose write delivered something, in ring order. */
  ghost function Kept(s: seq<Node>, results: seq<int>, i: nat): (r: seq<Node>)
    requires i <= |s| && i <= |results|
    ensures |r| <= i
  {
    if i == 0 then []
    else if results[i - 1] < 1 then Kept(s, results, i - 1)
    else Kept(s, results, i - 1) + [s[i - 1]]
  }

  /** The first i peers whose write failed, latest first. */
  ghost function Dropped(s: seq<Node>, results: seq<int>, i: nat): (r: seq<Node>)
    requires i <= |s| && i <= |results|
  {
    if i == 0 then []
    else if results[i - 1] < 1 then [s[i - 1]] + Dropped(s, results, i - 1)
    else Dropped(s, results, i - 1)
  }

  /** A peer whose write delivered something stays, behind exactly the earlier survivors. */
  lemma {:induction false} KeptAt(s: seq<Node>, results: seq<int>, a: nat, i: nat)
    requires a < i <= |s| && i <= |results| && results[a] >= 1
    ensures |Kept(s, results, a)| < |Kept(s, results, i)| && Kept(s, results, i)[|Kept(s, results, a)|] == s[a]
  {
    if a + 1 < i {
      KeptAt(s, results, a, i - 1);
    }
  }

  /** A peer whose write failed is dropped, ahead of exactly the earlier failures. */
  lemma {:induction false} DroppedAt(s: seq<Node>, results: seq<int>, a: nat, i: nat)
    requires a < i <= |s| && i <= |results| && results[a] < 1
    ensures var d := Dropped(s, results, i); var p := |d| - 1 - |Dropped(s, results, a)|;
      0 <= p && d[p] == s[a]
  {
    if a + 1 < i {
      DroppedAt(s, results, a, i - 1);
    }
  }

  /** With KeptAt and DroppedAt: nobody else is in either list. */
  lemma {:induction false} KeptAndDroppedCount(s: seq<Node>, results: seq<int>, i: nat)
    requires i <= |s| && i <= |results|
    ensures |Kept(s, results, i)| + |Dropped(s, results, i)| == i
  {
    if i > 0 {
      KeptAndDroppedCount(s, results, i - 1);
    }
  }

  lemma KeptStep(s: seq<Node>, results: seq<int>, i: nat, u: seq<Node>, free: seq<Node>)
    requires i < |s| && i < |results| && u == Kept(s, results, i) + s[i..]
    ensures var k := |Kept(s, results, i)|;
      && k < |u| && u[k] == s[i]
      && (i + 1 < |s| ==> u[Succ(k, |u|)] == s[i + 1])
      && (if results[i] < 1 then RemoveAt(u, k) else u) == Kept(s, results, i + 1) + s[i + 1..]
      && Dropped(s, results, i + 1) + free == (if results[i] < 1 then [s[i]] else []) + (Dropped(s, results, i) + free)
  {
    var k := |Kept(s, results, i)|;
    if results[i] < 1 {
      assert RemoveAt(u, k) == Kept(s, results, i) + s[i + 1..];
    } else {
      assert s[i..] == [s[i]] + s[i + 1..];
    }
  }

  /** The descriptors of the failed writes among the first i. */
  function Failures(writes: seq<int>, results: seq<int>, i: nat): seq<int>
    requires i <= |writes| && i <= |results|
  {
    if i == 0 then []
    else if results[i - 1] < 1 then Failures(writes, results, i - 1) + [writes[i - 1]]
    else Failures(writes, results, i - 1)
  }

  lemma TakeNext(s: seq<int>, i: nat)
    requires i < |s|
    ensures s[..i] + [s[i]] == s[..i + 1]
  {
  }

  /** The descriptors of the peers, in ring order. */
  ghost function Descriptors(s: seq<Node>): (fds: seq<int>)
    reads s`socket_fd
    ensures |fds| == |s| && forall j :: 0 <= j < |s| ==> fds[j] == s[j].socket_fd
  {
    if s == [] then [] else [s[0].socket_fd] + Descriptors(s[1..])
  }

  /** The descriptors after the first i writes: a failed peer is marked with -1. */
  ghost function Marked(fds: seq<int>, results: seq<int>, i: nat): (r: seq<int>)
    requires i <= |fds| <= |results|
    ensures |r| == |fds|
  {
    seq(|fds|, j requires 0 <= j < |fds| => if j < i && results[j] < 1 then -1 else fds[j])
  }

  lemma MarkedStep(s: seq<Node>, fds: seq<int>, results: seq<int>, i: nat)
    requires i < |s| == |fds| <= |results|
    requires s[i].socket_fd == if results[i] < 1 then -1 else fds[i]
    requires forall j :: 0 <= j < |s| && j != i ==> s[j].socket_fd == Marked(fds, results, i)[j]
    ensures Descriptors(s) == Marked(fds, results, i + 1)
  {
  }

  /** The pool's nodes are among those it had when the walk began. */
  ghost predicate Within(pool: Pool, s: seq<Node>, free: seq<Node>)
    reads pool
  {
    && (forall i :: 0 <= i < |pool.Use| ==> pool.Use[i] in s)
    && (forall i :: 0 <= i < |pool.Free| ==> pool.Free[i] in s || pool.Free[i] in free)
  }

  /** The walk after i writes, over the ring s it found, with the free ring and descriptors it found. */
  ghost predicate Walked(pool: Pool, s: seq<Node>, free: seq<Node>, fds: seq<int>, results: seq<int>, i: nat)
    reads pool, pool.Free`next, pool.Free`last, pool.Use`next, pool.Use`last, s`socket_fd
  {
    && pool.Valid() && Within(pool, s, free) && Distinct(s)
    && i <= |s| == |fds| <= |results|
    && pool.Use == Kept(s, results, i) + s[i..]
    && pool.Free == Dropped(s, results, i) + free
    && Descriptors(s) == Marked(fds, results, i)
  }

  lemma WalkStart(pool: Pool, results: seq<int>)
    requires pool.Valid() && |results| >= pool.usecount
    ensures pool.usecount == |pool.Use| && (pool.usecount > 0 ==> pool.uselist == pool.Use[0])
    ensures Walked(pool, pool.Use, pool.Free, Descriptors(pool.Use), results, 0)
  {
    hide Ring, Descriptors;
    assert Kept(pool.Use, results, 0) + pool.Use[0..] == pool.Use;
    assert Dropped(pool.Use, results, 0) + pool.Free == pool.Free;
    assert Marked(Descriptors(pool.Use), results, 0) == Descriptors(pool.Use);
    RingDistinct(pool.Use);
  }

  lemma WalkBounds(pool: Pool, results: seq<int>)
    requires pool.Valid() && |results| >= pool.usecount
    ensures |pool.Use| <= |results| && Failures(Descriptors(pool.Use), results, 0) == []
    ensures Descriptors(pool.Use)[..|pool.Use|] == Descriptors(pool.Use)
  {
  }

  lemma RingDistinct(s: seq<Node>)
    requires Ring(s)
    ensures Distinct(s)
  {
  }

  /** The i-th write: it goes to peer; step to the successor, and drop a peer that failed. */
  method SendOne(pool: Pool, peer: Node, result: int, ghost s: seq<Node>, ghost free: seq<Node>,
                 ghost fds: seq<int>, ghost results: seq<int>, ghost i: nat)
    returns (next: Node, fd: int)
    requires Walked(pool, s, free, fds, results, i)
    requires i < |s| && s[i] == peer && results[i] == result
    modifies pool, s`next, s`last, s`socket_fd, free`next, free`last
    ensures pool.maxcount == old(pool.maxcount) && fd == fds[i]
    ensures i + 1 < |s| ==> next == s[i + 1]
    ensures Walked(pool, s, free, fds, results, i + 1)
  {
    hide Ring, Pool.Valid, Kept, Dropped, Within, RemoveAt;
    ghost var k := |Kept(s, results, i)|;
    KeptStep(s, results, i, pool.Use, free);
    next, fd := SendAndStep(pool, peer, result, k, s, free);
    assert fds[i] == Marked(fds, results, i)[i];
    MarkedStep(s, fds, results, i);
  }

  /** Write to the k-th peer of the ring, step to its successor, and drop it if the write failed. */
  method SendAndStep(pool: Pool, peer: Node, result: int, ghost k: nat, ghost s: seq<Node>, ghost free: seq<Node>)
    returns (next: Node, fd: int)
    requires pool.Valid() && k < |pool.Use| && pool.Use[k] == peer
    requires Within(pool, s, free)
    modifies pool, s`next, s`last, s`socket_fd, free`next, free`last
    ensures pool.Valid() && Within(pool, s, free) && pool.maxcount == old(pool.maxcount)
    ensures next == old(pool.Use)[Succ(k, |old(pool.Use)|)]
    ensures fd == old(peer.socket_fd) && peer.socket_fd == if result < 1 then -1 else fd
    ensures forall x :: x in s && x != peer ==> x.socket_fd == old(x.socket_fd)
    ensures pool.Use == if result < 1 then RemoveAt(old(pool.Use), k) else old(pool.Use)
    ensures pool.Free == (if result < 1 then [peer] else []) + old(pool.Free)
  {
    hide Ring;
    RingLink(pool.Use, k);
    fd := peer.socket_fd;
    next := peer.next;
    if result < 1 {
      peer.socket_fd := -1;
      pool.ReturnNode(peer, k);
    }
  }

  lemma FailuresStep(fds: seq<int>, results: seq<int>, i: nat)
    requires i < |fds| <= |results|
    ensures Failures(fds, results, i + 1) == Failures(fds, results, i) + if results[i] < 1 then [fds[i]] else []
  {
  }

  /** The loop over the ring: results[i] is what the i-th write returns. */
  method SendToAll(pool: Pool, results: seq<int>) returns (writes: seq<int>, closes: seq<int>)
    requires pool.Valid() && |results| >= pool.usecount
    modifies pool, pool.Free`next, pool.Free`last, pool.Use`next, pool.Use`last, pool.Use`socket_fd
    ensures Walked(pool, old(pool.Use), old(pool.Free), writes, results, |old(pool.Use)|)
    ensures pool.maxcount == old(pool.maxcount)
    ensures |writes| <= |results| && writes == old(Descriptors(pool.Use))
    ensures closes == Failures(writes, results, |writes|)
  {
    hide *;
    ghost var s, free, fds := pool.Use, pool.Free, Descriptors(pool.Use);
    WalkStart(pool, results);
    WalkBounds(pool, results);
    writes, closes := [], [];
    var n := pool.usecount;
    var peer := pool.uselist;
    for i := 0 to n
      invariant pool.maxcount == old(pool.maxcount)
      invariant i < n ==> peer == s[i]
      invariant writes == fds[..i] && closes == Failures(fds, results, i)
      invariant Walked(pool, s, free, fds, results, i)
    {
      TakeNext(fds, i);
      FailuresStep(fds, results, i);
      var fd;
      peer, fd := SendOne(pool, peer, results[i], s, free, fds, results, i);
      writes := writes + [fd];
      if results[i] < 1 {
        closes := closes + [fd];
      }
    }
  }

  /** Nothing is sent when there is nothing to send. */
  method SendAllTcpClientMsg(pool: Pool, len: int, results: seq<int>) returns (writes: seq<int>, closes: seq<int>)
    requires pool.Valid() && |results| >= pool.usecount
    modifies pool, pool.Free`next, pool.Free`last, pool.Use`next, pool.Use`last, pool.Use`socket_fd
    ensures pool.Valid() && pool.maxcount == old(pool.maxcount)
    ensures |old(pool.Use)| <= |results|
    ensures len <= 0 ==>
      && writes == [] && closes == [] && pool.Use == old(pool.Use) && pool.Free == old(pool.Free)
      && Descriptors(pool.Use) == old(Descriptors(pool.Use))
    ensures len > 0 ==>
      && writes == old(Descriptors(pool.Use))
      && pool.Use == Kept(old(pool.Use), results, |old(pool.Use)|)
      && pool.Free == Dropped(old(pool.Use), results, |old(pool.Use)|) + old(pool.Free)
      && Descriptors(old(pool.Use)) == Marked(writes, results, |writes|)
      && closes == Failures(writes, results, |writes|)
  {
    if len > 0 {
      hide Pool.Valid, Within, Kept, Dropped, Marked, Descriptors, Failures, Rings.Distinct, Ring;
      writes, closes := SendToAll(pool, results);
    } else {
      writes, closes := [], [];
    }
  }
}

/** The LRU list of the buffer cache (xv6/bio.c) as a value: an array of buffers threaded by
    prev and next into a ring through a list head. */
module BufferRing {
  import opened Basics

  const NBUF := 30
  /** The list head sits after the buffers in the same array. */
  const HEAD := NBUF

  type Block = seq<int>

  datatype Buf = Buf(valid: bool, dirty: bool, dev: int, blockno: int, refcnt: int, locked: bool,
                     prev: int, next: int, data: Block)

  /** Node i of the ring: the head at both ends, the buffers of order in between. */
  function Node(order: seq<int>, i: int): int {
    if 0 <= i < |order| then order[i] else HEAD
  }

  /** Nodes i - 1 and i point to each other. */
  ghost predicate Linked(bufs: seq<Buf>, order: seq<int>, i: int) {
    var a, b := Node(order, i - 1), Node(order, i);
    && 0 <= a < |bufs| && 0 <= b < |bufs|
    && bufs[a].next == b && bufs[b].prev == a
  }

  /** The links form one ring: the head, then the buffers of order, most recent first. */
  ghost predicate Ring(bufs: seq<Buf>, order: seq<int>) {
    && |bufs| == NBUF + 1
    && Distinct(order)
    && (forall i | 0 <= i < |order| :: 0 <= order[i] < NBUF)
    && (forall i | 0 <= i <= |order| :: Linked(bufs, order, i))
  }

  /** What the links say around place i of the ring. */
  lemma RingAround(bufs: seq<Buf>, order: seq<int>, i: nat)
    requires Ring(bufs, order) && i <= |order|
    ensures |bufs| == NBUF + 1 && (i < |order| ==> 0 <= order[i] < NBUF && Node(order, i) == order[i])
    ensures Node(order, -1) == Node(order, |order|) == HEAD
    ensures var a, b := Node(order, i - 1), Node(order, i);
            0 <= a <= NBUF && 0 <= b <= NBUF && bufs[a].next == b && bufs[b].prev == a
  {
    assert Linked(bufs, order, i);
  }

  /** s' is s without its element k. */
  ghost predicate Removed(s: seq<int>, k: nat, s': seq<int>) {
    && k < |s| && |s'| == |s| - 1
    && (forall i | 0 <= i < k :: s'[i] == s[i])
    && (forall i | k <= i < |s'| :: s'[i] == s[i + 1])
  }

  function RemoveAt(s: seq<int>, k: nat): (r: seq<int>)
    requires k < |s|
    ensures Removed(s, k, r)
  {
    s[..k] + s[k + 1..]
  }

  lemma RemovedDistinct(s: seq<int>, k: nat, s': seq<int>)
    requires Removed(s, k, s') && Distinct(s)
    ensures Distinct(s') && s[k] !in s'
    ensures forall x :: x in s' <==> x in s && x != s[k]
  {
    assert forall i | 0 <= i < |s'| :: s'[i] == s[if i < k then i else i + 1];
    assert s' == s[..k] + s[k + 1..];
    assert s == s[..k] + [s[k]] + s[k + 1..];
  }

  /** Taking node k out: its neighbours are made to point to each other. */
  lemma Unlink(bufs: seq<Buf>, order: seq<int>, k: nat, bufs': seq<Buf>, order': seq<int>)
    requires Ring(bufs, order) && Removed(order, k, order') && |bufs'| == |bufs|
    requires var p, n := Node(order, k - 1), Node(order, k + 1);
             && bufs'[p].next == n && bufs'[n].prev == p
             && (forall i | 0 <= i < |bufs| && i != p :: bufs'[i].next == bufs[i].next)
             && (forall i | 0 <= i < |bufs| && i != n :: bufs'[i].prev == bufs[i].prev)
    ensures Ring(bufs', order')
  {
    RemovedDistinct(order, k, order');
    forall i | 0 <= i <= |order'| ensures Linked(bufs', order', i) {
      var j := if i < k then i else i + 1;
      assert Linked(bufs, order, j);
    }
  }

  /** Putting x at the front: after the head, before what was first. */
  lemma PushFront(bufs: seq<Buf>, order: seq<int>, x: int, bufs': seq<Buf>)
    requires Ring(bufs, order) && 0 <= x < NBUF && x !in order && |bufs'| == |bufs|
    requires var f := Node(order, 0);
             && bufs'[x].next == f && bufs'[x].prev == HEAD && bufs'[f].prev == x && bufs'[HEAD].next == x
             && (forall i | 0 <= i < |bufs| && i != x && i != HEAD :: bufs'[i].next == bufs[i].next)
             && (forall i | 0 <= i < |bufs| && i != x && i != f :: bufs'[i].prev == bufs[i].prev)
    ensures Ring(bufs', [x] + order)
  {
    var order' := [x] + order;
    forall i | 0 <= i <= |order'| ensures Linked(bufs', order', i) {
      if i >= 1 {
        assert Linked(bufs, order, i - 1);
      }
    }
  }
}

/** The log (xv6/log.c) and the buffer cache (xv6/bio.c) together: log_write pins a buffer for every block of
    the list, and the commit then needs one more for each log block. Both LOGSIZE and NBUF are
    3 * MAXOPBLOCKS (xv6/param.h). */
module CommitBuffers {
  import opened Basics
  import L = LogDisk
  import G = GroupCommit
  import B = BufferCache
  import R = BufferRing

  /** In a log of at least LOGSIZE blocks, that of mkfs among them, operations within their budgets fill the
      list with LOGSIZE blocks: in that of mkfs by passing the test together, in a larger one
      without. */
  lemma FullList(lay: L.Layout, d: L.Disk, bs: seq<int>) returns (states: seq<G.Sys>, steps: seq<G.Step>)
    requires lay.HeadOk(d) && lay.Head(d) == [] && G.Homes(lay, bs) && lay.size >= L.LOGSIZE
    ensures G.Run(lay, states, steps) && states[|steps|].log.lh == bs
  {
    hide G.Next, G.Init, G.Inv, G.Homes;
    if lay.size == L.LOGSIZE {
      states, steps := G.Overfill(lay, d, bs);
      assert bs[..|bs|] == bs;
    } else {
      states, steps := G.Fill(lay, d, bs, L.LOGSIZE);
      FullFacts(lay, bs);
      assert bs[..|bs|] == bs;
    }
  }

  lemma FullFacts(lay: L.Layout, bs: seq<int>)
    requires G.Homes(lay, bs)
    ensures |bs| == L.LOGSIZE && Distinct(bs) && forall i | 0 <= i < |bs| :: 0 <= bs[i] < lay.total && lay.IsHome(bs[i])
  {
  }

  /** A commit of the list of a run, with its blocks pinned and nobody else in the cache, finds a buffer for its
      first log block if and only if the list is shorter than LOGSIZE. */
  lemma CommitFindsBuffer(lh: seq<int>, c: B.Cache)
    requires B.Inv(c) && B.Pins(c, lh) && forall i | 0 <= i < R.NBUF :: c.bufs[i].refcnt == 0
    ensures |lh| <= L.LOGSIZE
    ensures (exists i :: 0 <= i < R.NBUF && B.Free(c.bufs[i])) <==> |lh| < L.LOGSIZE
  {
    hide B.Inv, B.Pins;
    B.NoBufferExactly(c, lh);
  }

  /** It comes to that in every log of at least LOGSIZE blocks: a run of operations that fill the list, and
      a run of the cache that pins its blocks, after which the first bread of write_log panics. */
  method StuckCommit(cache: B.Bcache, lay: L.Layout, ghost d: L.Disk, bs: seq<int>)
      returns (b: int, ghost states: seq<G.Sys>, ghost steps: seq<G.Step>, ghost cached: seq<B.Cache>,
          ghost csteps: seq<B.Step>)
    requires lay.HeadOk(d) && lay.Head(d) == [] && G.Homes(lay, bs) && lay.size >= L.LOGSIZE
    requires B.Init(cache.Now()) && lay.total <= cache.disk.Length
    modifies cache, cache.buf, cache.disk
    ensures G.Run(lay, states, steps) && states[|steps|].log.lh == bs
    ensures B.Run(cached, csteps) && B.PinnedOnly(cached[|csteps|], bs)
    ensures b < 0
  {
    hide G.Next, G.Init, G.Inv, G.Homes, B.Next, B.Init, B.Inv, B.PinnedOnly;
    states, steps := FullList(lay, d, bs);
    FullFacts(lay, bs);
    b, cached, csteps := B.PinAll(cache, bs, lay.start + 1);
  }
}

/** The buffer cache (xv6/bio.c) over the in-memory disk (xv6/memide.c). The first half gives
    every step of the cache as a change of its state and shows what all of them keep; the
    second is the code, working in place on the buffer array and the disk. */
module BufferCache {
  import opened Basics
  import opened BufferRing

  const ROOTDEV := 1

  /** Beside the buffers and the disk: order lists the ring, most recently released first; view
      holds the contents last stored for each block; modified are the buffers whose holder has
      changed the data and not yet stored it; users counts who else refers to each buffer; stamp and
      clock date the last release. */
  datatype Cache = Cache(bufs: seq<Buf>, order: seq<int>, disk: seq<Block>, view: seq<Block>,
                         modified: set<int>, users: seq<Users>, stamp: seq<int>, clock: int)

  /** Processes that have the buffer from bget and wait for its lock, and those that have given up the
      lock in brelse and not yet their reference. */
  datatype Users = Users(waiting: nat, leaving: nat)

  // ---------------------------------------------------------------------------------------
  // The invariant
  // ---------------------------------------------------------------------------------------

  /** The ring holds every buffer exactly once, most recently released first. */
  ghost predicate Lru(c: Cache) {
    && Ring(c.bufs, c.order) && |c.order| == NBUF && |c.stamp| == NBUF
    && (forall i | 0 <= i < NBUF :: c.stamp[i] < c.clock) && Dated(c.order, c.stamp)
  }

  predicate SameKey(a: Buf, b: Buf) {
    a.dev == b.dev && a.blockno == b.blockno
  }

  /** At most one buffer per block; the all-zero key of unused buffers excepted. */
  ghost predicate Unique(bufs: seq<Buf>) {
    |bufs| == NBUF + 1 && forall i, j | 0 <= i < j < NBUF && bufs[i].dev != 0 :: !SameKey(bufs[i], bufs[j])
  }

  /** The count is that of the processes with a reference. */
  predicate Counted(b: Buf, u: Users, modified: bool) {
    && b.refcnt == u.waiting + (if b.locked then 1 else 0) + u.leaving
    && (b.dirty ==> b.valid)
    && (modified ==> b.locked && b.valid)
  }

  ghost predicate Counts(c: Cache) {
    && |c.bufs| == NBUF + 1 && |c.users| == NBUF
    && (forall i | i in c.modified :: 0 <= i < NBUF)
    && (forall i | 0 <= i < NBUF :: Counted(c.bufs[i], c.users[i], i in c.modified))
  }

  /** A valid buffer that its holder is not in the middle of changing shows what was last stored
      for its block, and wherever the disk is behind there is a dirty buffer. */
  ghost predicate Coherent(c: Cache) {
    && |c.view| == |c.disk| && |c.bufs| == NBUF + 1
    && (forall i | 0 <= i < NBUF && c.bufs[i].valid ::
          c.bufs[i].dev == ROOTDEV && 0 <= c.bufs[i].blockno < |c.disk|)
    && (forall i | 0 <= i < NBUF && c.bufs[i].valid && i !in c.modified :: c.bufs[i].data == c.view[c.bufs[i].blockno])
    && (forall bn | 0 <= bn < |c.disk| && c.disk[bn] != c.view[bn] :: Covered(c.bufs, bn))
  }

  ghost predicate Covered(bufs: seq<Buf>, bn: int) {
    exists i | 0 <= i < |bufs| && i < NBUF :: bufs[i].valid && bufs[i].dirty && bufs[i].blockno == bn
  }

  ghost predicate Inv(c: Cache) {
    Lru(c) && Unique(c.bufs) && Counts(c) && Coherent(c)
  }

  // ---------------------------------------------------------------------------------------
  // The steps
  // ---------------------------------------------------------------------------------------

  predicate Free(b: Buf) {
    b.refcnt == 0 && !b.dirty
  }

  /** The contents of a buffer without its place in the ring. */
  function Plain(b: Buf): Buf {
    b.(prev := 0, next := 0)
  }

  datatype Step =
    | Hit(i: int)                                // bget finds the block cached
    | Recycle(i: int, dev: int, blockno: int)    // bget takes over an unused buffer
    | Lock(i: int)                               // acquiresleep succeeds
    | Fetch(i: int)                              // bread fills an invalid buffer from the disk
    | Modify(i: int, data: Block)                // the holder changes the data
    | Store(i: int)                              // bwrite
    | Pin(i: int)                                // log_write marks the buffer dirty
    | Unlock(i: int)                             // brelse gives up the lock
    | Release(i: int)                            // brelse gives up the reference

  /** When a step may happen. Clients lock a buffer before they touch it, and store or pin every
      change before they release it. */
  ghost predicate Enabled(c: Cache, step: Step) {
    && |c.bufs| == NBUF + 1 && |c.users| == NBUF
    && 0 <= step.i < NBUF
    && var b := c.bufs[step.i];
    match step
    case Hit(i) => b.dev != 0
    case Recycle(i, dev, blockno) =>
      && dev != 0 && Free(b)
      && (forall j | 0 <= j < NBUF :: !(c.bufs[j].dev == dev && c.bufs[j].blockno == blockno))
      && |c.stamp| == NBUF && (forall j | 0 <= j < NBUF && Free(c.bufs[j]) :: c.stamp[i] <= c.stamp[j])
    case Lock(i) => c.users[i].waiting > 0 && !b.locked
    case Fetch(i) => b.locked && !b.valid && b.dev == ROOTDEV && 0 <= b.blockno < |c.disk|
    case Modify(i, data) => b.locked && b.valid
    case Store(i) => b.locked && b.valid
    case Pin(i) => b.locked && b.valid
    case Unlock(i) => b.locked && i !in c.modified
    case Release(i) => c.users[i].leaving > 0
  }

  /** b loses one reference. */
  function Released(b: Buf): Buf {
    b.(refcnt := b.refcnt - 1)
  }

  function Join(us: seq<Users>, i: int, waiting: int, leaving: int): seq<Users>
    requires 0 <= i < |us| && us[i].waiting + waiting >= 0 && us[i].leaving + leaving >= 0
  {
    us[i := Users(us[i].waiting + waiting, us[i].leaving + leaving)]
  }

  /** Releasing the last reference moves the buffer to the front of the ring and dates it. */
  ghost predicate IsRelease(c: Cache, i: int, c': Cache)
    requires |c.bufs| == NBUF + 1 && 0 <= i < NBUF == |c.users| && c.users[i].leaving > 0
  {
    && c'.users == Join(c.users, i, 0, -1)
    && c'.disk == c.disk && c'.view == c.view && c'.modified == c.modified && |c'.bufs| == NBUF + 1
    && (forall j | 0 <= j <= NBUF :: Plain(c'.bufs[j]) == Plain(if j == i then Released(c.bufs[j]) else c.bufs[j]))
    && if c.bufs[i].refcnt > 1 then
         c'.bufs == c.bufs[i := Released(c.bufs[i])] && c'.order == c.order && c'.stamp == c.stamp
             && c'.clock == c.clock
       else
         && Ring(c'.bufs, c'.order)
         && (exists k: nat, rest :: Removed(c.order, k, rest) && c.order[k] == i && c'.order == [i] + rest)
         && |c.stamp| == NBUF && c'.stamp == c.stamp[i := c.clock] && c'.clock == c.clock + 1
  }

  ghost predicate Next(c: Cache, step: Step, c': Cache) {
    && Enabled(c, step)
    && var b := c.bufs[step.i];
    match step
    case Hit(i) => c' == c.(bufs := c.bufs[i := b.(refcnt := b.refcnt + 1)], users := Join(c.users, i, 1, 0))
    case Recycle(i, dev, blockno) =>
      c' == c.(bufs := c.bufs[i := b.(dev := dev, blockno := blockno, valid := false, dirty := false, refcnt := 1)],
               users := Join(c.users, i, 1, 0))
    case Lock(i) => c' == c.(bufs := c.bufs[i := b.(locked := true)], users := Join(c.users, i, -1, 0))
    case Fetch(i) => c' == c.(bufs := c.bufs[i := b.(valid := true, data := c.disk[b.blockno])])
    case Modify(i, data) => c' == c.(bufs := c.bufs[i := b.(data := data)], modified := c.modified + {i})
    case Store(i) =>
      && 0 <= b.blockno < |c.disk| && b.blockno < |c.view|
      && c' == c.(bufs := c.bufs[i := b.(dirty := false)], disk := c.disk[b.blockno := b.data],
                  view := c.view[b.blockno := b.data], modified := c.modified - {i})
    case Pin(i) =>
      && 0 <= b.blockno < |c.view|
      && c' == c.(bufs := c.bufs[i := b.(dirty := true)],
                  view := c.view[b.blockno := b.data], modified := c.modified - {i})
    case Unlock(i) => c' == c.(bufs := c.bufs[i := b.(locked := false)], users := Join(c.users, i, 0, 1))
    case Release(i) => IsRelease(c, i, c')
  }

  // ---------------------------------------------------------------------------------------
  // Every step keeps the invariant
  // ---------------------------------------------------------------------------------------

  lemma SameLinks(bufs: seq<Buf>, bufs': seq<Buf>, order: seq<int>)
    requires Ring(bufs, order) && |bufs'| == |bufs|
    requires forall i | 0 <= i < |bufs| :: bufs'[i].prev == bufs[i].prev && bufs'[i].next == bufs[i].next
    ensures Ring(bufs', order)
  {
    forall i | 0 <= i <= |order| ensures Linked(bufs', order, i) {
      assert Linked(bufs, order, i);
    }
  }

  /** Only Release touches the ring. */
  lemma LruKept(c: Cache, step: Step, c': Cache)
    requires Lru(c) && Next(c, step, c')
    ensures Lru(c')
  {
    if step.Release? && c.bufs[step.i].refcnt <= 1 {
      ReleaseKeepsLru(c, step.i, c');
    } else {
      SameLinks(c.bufs, c'.bufs, c.order);
    }
  }

  lemma ReleaseKeepsLru(c: Cache, i: int, c': Cache)
    requires Lru(c) && 0 <= i < NBUF == |c.users| && c.users[i].leaving > 0
    requires IsRelease(c, i, c') && c.bufs[i].refcnt <= 1
    ensures Lru(c')
  {
    var k: nat, rest :| Removed(c.order, k, rest) && c.order[k] == i && c'.order == [i] + rest;
    RemovedDistinct(c.order, k, rest);
    StampedFront(c.order, c.stamp, c.clock, k, rest);
  }

  /** The order of last releases, most recent first. */
  ghost predicate Dated(order: seq<int>, stamp: seq<int>) {
    && (forall i | 0 <= i < |order| :: 0 <= order[i] < |stamp|)
    && (forall i, j | 0 <= i < j < |order| :: stamp[order[i]] > stamp[order[j]])
  }

  lemma StampedFront(order: seq<int>, stamp: seq<int>, clock: int, k: nat, rest: seq<int>)
    requires Dated(order, stamp) && Removed(order, k, rest) && order[k] !in rest
    requires forall i | 0 <= i < |stamp| :: stamp[i] < clock
    ensures Dated([order[k]] + rest, stamp[order[k] := clock])
  {
    var order', stamp' := [order[k]] + rest, stamp[order[k] := clock];
    assert forall x | 0 < x < |order'| :: order'[x] == rest[x - 1] && rest[x - 1] in rest;
    assert forall x | 0 < x < |order'| :: order'[x] == order[if x - 1 < k then x - 1 else x];
  }

  lemma UniqueKept(c: Cache, step: Step, c': Cache)
    requires Unique(c.bufs) && Next(c, step, c')
    ensures Unique(c'.bufs)
  {
    if !step.Recycle? {
      assert forall j | 0 <= j < NBUF :: SameKey(c'.bufs[j], c.bufs[j]);
    }
  }

  lemma CountsKept(c: Cache, step: Step, c': Cache)
    requires Counts(c) && Next(c, step, c')
    ensures Counts(c')
  {
    forall j | 0 <= j < NBUF ensures Counted(c'.bufs[j], c'.users[j], j in c'.modified) {
      assert Counted(c.bufs[j], c.users[j], j in c.modified);
      if step.Release? {
        assert Plain(c'.bufs[j]) == Plain(if j == step.i then Released(c.bufs[j]) else c.bufs[j]);
      }
    }
  }

  /** A block that some dirty buffer covers stays covered if that buffer keeps its key and flags. */
  lemma CoveredKept(bufs: seq<Buf>, bufs': seq<Buf>, bn: int)
    requires |bufs| == |bufs'| && Covered(bufs, bn)
    requires forall i | 0 <= i < |bufs| && i < NBUF && bufs[i].valid && bufs[i].dirty && bufs[i].blockno == bn ::
               bufs'[i].valid && bufs'[i].dirty && bufs'[i].blockno == bn
    ensures Covered(bufs', bn)
  {
    var i :| 0 <= i < |bufs| && i < NBUF && bufs[i].valid && bufs[i].dirty && bufs[i].blockno == bn;
    assert bufs'[i].valid && bufs'[i].dirty && bufs'[i].blockno == bn;
  }

  /** The steps that leave the stored contents and every dirty buffer alone. */
  lemma QuietKept(c: Cache, step: Step, c': Cache)
    requires Coherent(c) && Unique(c.bufs) && Counts(c) && Next(c, step, c')
    requires step.Hit? || step.Recycle? || step.Lock? || step.Modify? || step.Unlock? || step.Release?
    ensures Coherent(c')
  {
    forall i | 0 <= i < NBUF
      ensures c'.bufs[i].valid ==> Plain(c'.bufs[i]) == Plain(c.bufs[i]).(refcnt := c'.bufs[i].refcnt,
              locked := c'.bufs[i].locked, data := c'.bufs[i].data)
      ensures c.bufs[i].valid && c.bufs[i].dirty ==>
          c'.bufs[i].valid && c'.bufs[i].dirty && c'.bufs[i].blockno == c.bufs[i].blockno
      ensures i != step.i || !step.Modify? ==> c'.bufs[i].data == c.bufs[i].data
    {
      if step.Release? {
        assert Plain(c'.bufs[i]) == Plain(if i == step.i then Released(c.bufs[i]) else c.bufs[i]);
      }
    }
    forall bn | 0 <= bn < |c'.disk| && c'.disk[bn] != c'.view[bn] ensures Covered(c'.bufs, bn) {
      CoveredKept(c.bufs, c'.bufs, bn);
    }
  }

  /** Reading an uncached block from the disk finds what was last stored: if the disk were behind,
      another buffer would hold the block. */
  lemma FetchKept(c: Cache, i: int, c': Cache)
    requires Coherent(c) && Unique(c.bufs) && Next(c, Fetch(i), c')
    ensures Coherent(c') && c'.bufs[i].data == c.view[c.bufs[i].blockno]
  {
    var bn := c.bufs[i].blockno;
    forall j | 0 <= j < NBUF && c.bufs[j].valid ensures c.bufs[j].blockno != bn {
      assert !SameKey(c.bufs[if i < j then i else j], c.bufs[if i < j then j else i]);
    }
    assert !Covered(c.bufs, bn);
    forall b | 0 <= b < |c'.disk| && c'.disk[b] != c'.view[b] ensures Covered(c'.bufs, b) {
      CoveredKept(c.bufs, c'.bufs, b);
    }
  }

  lemma OthersElsewhere(c: Cache, i: int)
    requires Coherent(c) && Unique(c.bufs) && 0 <= i < NBUF && c.bufs[i].valid
    ensures forall j | 0 <= j < NBUF && j != i && c.bufs[j].valid :: c.bufs[j].blockno != c.bufs[i].blockno
  {
    forall j | 0 <= j < NBUF && j != i && c.bufs[j].valid ensures c.bufs[j].blockno != c.bufs[i].blockno {
      assert !SameKey(c.bufs[if i < j then i else j], c.bufs[if i < j then j else i]);
    }
  }

  lemma StoreKept(c: Cache, i: int, c': Cache)
    requires Coherent(c) && Unique(c.bufs) && Next(c, Store(i), c')
    ensures Coherent(c')
  {
    OthersElsewhere(c, i);
    forall b | 0 <= b < |c'.disk| && c'.disk[b] != c'.view[b] ensures Covered(c'.bufs, b) {
      CoveredKept(c.bufs, c'.bufs, b);
    }
  }

  lemma PinKept(c: Cache, i: int, c': Cache)
    requires Coherent(c) && Unique(c.bufs) && Next(c, Pin(i), c')
    ensures Coherent(c')
  {
    OthersElsewhere(c, i);
    forall b | 0 <= b < |c'.disk| && c'.disk[b] != c'.view[b] ensures Covered(c'.bufs, b) {
      if b == c.bufs[i].blockno {
        assert c'.bufs[i].valid && c'.bufs[i].dirty && c'.bufs[i].blockno == b;
      } else {
        CoveredKept(c.bufs, c'.bufs, b);
      }
    }
  }

  lemma StepKeeps(c: Cache, step: Step, c': Cache)
    requires Inv(c) && Next(c, step, c')
    ensures Inv(c')
  {
    hide Lru, Unique, Counts, Coherent, Next;
    LruKept(c, step, c');
    UniqueKept(c, step, c');
    CountsKept(c, step, c');
    match step
    case Fetch(i) => FetchKept(c, i, c');
    case Store(i) => StoreKept(c, i, c');
    case Pin(i) => PinKept(c, i, c');
    case _ => QuietKept(c, step, c');
  }

  /** The state binit leaves over a disk: empty buffers, ring order by index from the top. */
  ghost predicate Init(c: Cache) {
    && Lru(c) && c.view == c.disk && c.modified == {}
    && |c.users| == NBUF && (forall i | 0 <= i < NBUF :: c.users[i] == Users(0, 0))
    && forall i | 0 <= i < NBUF :: var b := c.bufs[i];
         !b.valid && !b.dirty && b.dev == 0 && b.blockno == 0 && b.refcnt == 0 && !b.locked
  }

  ghost predicate Run(states: seq<Cache>, steps: seq<Step>) {
    && |states| == |steps| + 1 && Init(states[0])
    && forall k | 0 <= k < |steps| :: Next(states[k], steps[k], states[k + 1])
  }

  /** Everything above holds after every run of any interleaving of clients. */
  lemma {:induction false} RunSafe(states: seq<Cache>, steps: seq<Step>, k: nat)
    requires Run(states, steps) && k < |states|
    ensures Inv(states[k])
    decreases k
  {
    if k > 0 {
      RunSafe(states, steps, k - 1);
      StepKeeps(states[k - 1], steps[k - 1], states[k]);
    } else {
      assert forall i | 0 <= i < NBUF :: Counted(states[0].bufs[i], states[0].users[i], false);
    }
  }

  /** The contents last stored for block bn in the first k steps of a run, or the disk's at the
      start: the reference that a plain disk would give. */
  ghost function LastStored(states: seq<Cache>, steps: seq<Step>, k: nat, bn: int): Block
    requires Run(states, steps) && k <= |steps| && 0 <= bn < |states[0].disk|
    decreases k
  {
    if k == 0 then states[0].disk[bn]
    else
      var c, step := states[k - 1], steps[k - 1];
      if (step.Store? || step.Pin?) && 0 <= step.i < |c.bufs| && c.bufs[step.i].blockno == bn
      then c.bufs[step.i].data
      else LastStored(states, steps, k - 1, bn)
  }

  lemma {:induction false} ViewIsLastStored(states: seq<Cache>, steps: seq<Step>, k: nat, bn: int)
    requires Run(states, steps) && k <= |steps| && 0 <= bn < |states[0].disk|
    ensures |states[k].view| == |states[0].disk| && states[k].view[bn] == LastStored(states, steps, k, bn)
    decreases k
  {
    hide Next, Init;
    if k > 0 {
      ViewIsLastStored(states, steps, k - 1, bn);
      ViewStep(states[k - 1], steps[k - 1], states[k]);
    } else {
      InitView(states[0]);
    }
  }

  lemma InitView(c: Cache)
    requires Init(c)
    ensures c.view == c.disk
  {
  }

  /** What a step does to the stored contents. */
  lemma ViewStep(c: Cache, step: Step, c': Cache)
    requires Next(c, step, c')
    ensures |c.bufs| == NBUF + 1 && 0 <= step.i < NBUF && |c'.view| == |c.view|
    ensures forall bn | 0 <= bn < |c.view| ::
              c'.view[bn] == if (step.Store? || step.Pin?) && c.bufs[step.i].blockno == bn then c.bufs[step.i].data
                  else c.view[bn]
  {
  }

  /** Transparency: in every run, what a holder sees in a buffer it has not changed is what a
      plain disk with the same stores would return. */
  lemma Transparent(states: seq<Cache>, steps: seq<Step>, k: nat, i: int)
    requires Run(states, steps) && k <= |steps| && 0 <= i < NBUF
    requires |states[k].bufs| == NBUF + 1 && states[k].bufs[i].valid && i !in states[k].modified
    ensures var b := states[k].bufs[i];
            0 <= b.blockno < |states[0].disk| && b.data == LastStored(states, steps, k, b.blockno)
  {
    RunSafe(states, steps, k);
    DiskSize(states, steps, k);
    ViewIsLastStored(states, steps, k, states[k].bufs[i].blockno);
  }

  lemma {:induction false} DiskSize(states: seq<Cache>, steps: seq<Step>, k: nat)
    requires Run(states, steps) && k <= |steps|
    ensures |states[k].disk| == |states[0].disk|
    decreases k
  {
    if k > 0 {
      DiskSize(states, steps, k - 1);
      assert Next(states[k - 1], steps[k - 1], states[k]);
    }
  }

  /** A buffer changes its key only when nothing refers to it and nothing in it is unsaved. */
  lemma RekeyedOnlyWhenFree(c: Cache, step: Step, c': Cache, i: int)
    requires Next(c, step, c') && 0 <= i < NBUF
    ensures |c'.bufs| == NBUF + 1
    ensures SameKey(c.bufs[i], c'.bufs[i]) || (step.Recycle? && step.i == i && c.bufs[i].refcnt == 0
            && !c.bufs[i].dirty)
  {
    if step.Release? {
      assert Plain(c'.bufs[i]) == Plain(if i == step.i then Released(c.bufs[i]) else c.bufs[i]);
    }
  }

  // ---------------------------------------------------------------------------------------
  // A commit and the buffers it has pinned
  // ---------------------------------------------------------------------------------------

  /** The dirty buffers are those of the blocks of lh, as log_write leaves them. */
  ghost predicate Pins(c: Cache, lh: seq<int>) {
    && |c.bufs| == NBUF + 1 && Distinct(lh)
    && (forall b | b in lh :: Covered(c.bufs, b))
    && (forall i | 0 <= i < NBUF && c.bufs[i].dirty :: c.bufs[i].blockno in lh)
  }

  /** As many dirty buffers as listed blocks. */
  lemma {:induction false} PinnedSize(bufs: seq<Buf>, dirty: set<nat>, lh: seq<int>)
    requires Distinct(lh) && forall i | i in dirty :: i < |bufs| && bufs[i].blockno in lh
    requires forall i, j | i in dirty && j in dirty && i != j :: bufs[i].blockno != bufs[j].blockno
    requires forall b | b in lh :: exists i :: i in dirty && bufs[i].blockno == b
    ensures |dirty| == |lh|
    decreases |lh|
  {
    if lh == [] {
      assert dirty == {};
    } else {
      assert lh[0] in lh;
      var i :| i in dirty && bufs[i].blockno == lh[0];
      assert lh == [lh[0]] + lh[1..];
      forall b | b in lh[1..] ensures exists j :: j in dirty - {i} && bufs[j].blockno == b {
        var k :| 0 <= k < |lh[1..]| && lh[1..][k] == b;
        assert lh[k + 1] == b && b in lh;
        var j :| j in dirty && bufs[j].blockno == b;
        assert j in dirty - {i};
      }
      PinnedSize(bufs, dirty - {i}, lh[1..]);
    }
  }

  ghost function Dirty(bufs: seq<Buf>): set<nat>
    requires |bufs| == NBUF + 1
  {
    set i: nat | i < NBUF && bufs[i].dirty
  }

  lemma DirtySize(c: Cache, lh: seq<int>)
    requires Unique(c.bufs) && Counts(c) && Coherent(c) && Pins(c, lh)
    ensures |Dirty(c.bufs)| == |lh|
  {
    var dirty := Dirty(c.bufs);
    forall i, j | i in dirty && j in dirty && i != j ensures c.bufs[i].blockno != c.bufs[j].blockno {
      assert Counted(c.bufs[i], c.users[i], i in c.modified) && Counted(c.bufs[j], c.users[j], j in c.modified);
      OthersElsewhere(c, i);
    }
    hide Unique, Coherent, Counts;
    forall b | b in lh ensures exists i :: i in dirty && c.bufs[i].blockno == b {
      assert Covered(c.bufs, b);
      var i: nat :| i < NBUF && c.bufs[i].valid && c.bufs[i].dirty && c.bufs[i].blockno == b;
      assert i in dirty;
    }
    PinnedSize(c.bufs, dirty, lh);
  }

  /** With nobody else in the cache, a commit of the blocks of lh finds a buffer for its first log block
      if and only if lh has fewer blocks than the cache has buffers. */
  lemma NoBufferExactly(c: Cache, lh: seq<int>)
    requires Inv(c) && Pins(c, lh) && forall i | 0 <= i < NBUF :: c.bufs[i].refcnt == 0
    ensures |lh| <= NBUF
    ensures (exists i :: 0 <= i < NBUF && Free(c.bufs[i])) <==> |lh| < NBUF
  {
    hide Lru, Unique, Coherent, Counts;
    DirtySize(c, lh);
    hide Pins, Inv;
    AtMost(Dirty(c.bufs), NBUF);
    if |lh| < NBUF {
      var i := LeftOut(Dirty(c.bufs), NBUF);
      assert Free(c.bufs[i]);
    } else {
      forall i: nat | i < NBUF ensures !Free(c.bufs[i]) {
        AllIn(Dirty(c.bufs), NBUF, i);
      }
    }
  }

  // ---------------------------------------------------------------------------------------
  // The code
  // ---------------------------------------------------------------------------------------

  class Bcache {
    const buf: array<Buf>
    const disk: array<Block>
    ghost var order: seq<int>
    ghost var view: seq<Block>
    ghost var modified: set<int>
    ghost var users: seq<Users>
    ghost var stamp: seq<int>
    ghost var clock: int

    ghost function Now(): Cache
      reads this, buf, disk
    {
      Cache(buf[..], order, disk[..], view, modified, users, stamp, clock)
    }

    /** binit: each buffer is pushed to the front of an initially empty ring. */
    constructor (disk: array<Block>)
      ensures fresh(buf) && this.disk == disk && Init(Now())
    {
      this.disk := disk;
      buf := new Buf[NBUF + 1](_ => Buf(false, false, 0, 0, 0, false, 0, 0, []));
      order, view, modified, users := [], disk[..], {}, seq(NBUF, i => Users(0, 0));
      stamp, clock := seq(NBUF, i => i), NBUF;
      new;
      buf[HEAD] := buf[HEAD].(prev := HEAD, next := HEAD);
      assert forall i | 0 <= i <= |order| :: Linked(buf[..], order, i);
      for b := 0 to NBUF
        invariant Ring(buf[..], order) && |order| == b && (forall i | 0 <= i < b :: order[i] == b - 1 - i)
        invariant forall i | 0 <= i <= NBUF :: Plain(buf[i]) == Buf(false, false, 0, 0, 0, false, 0, 0, [])
        invariant view == disk[..] && modified == {} && users == seq(NBUF, i => Users(0, 0))
                  && stamp == seq(NBUF, i => i) && clock == NBUF
      {
        InsertFront(b);
      }
    }

    /** The four pointer writes that put buffer b behind the list head. */
    method InsertFront(b: int)
      requires Ring(buf[..], order) && 0 <= b < NBUF && b !in order
      modifies buf, this`order
      ensures order == [b] + old(order) && Ring(buf[..], order)
      ensures forall i | 0 <= i < buf.Length :: Plain(buf[i]) == old(Plain(buf[i]))
    {
      hide Ring, Linked, Node;
      ghost var bufs := buf[..];
      RingAround(bufs, order, 0);
      buf[b] := buf[b].(next := buf[HEAD].next);
      buf[b] := buf[b].(prev := HEAD);
      buf[buf[HEAD].next] := buf[buf[HEAD].next].(prev := b);
      buf[HEAD] := buf[HEAD].(next := b);
      PushFront(bufs, order, b, buf[..]);
      order := [b] + order;
    }

    /** The two pointer writes that take buffer b out of the ring. */
    method TakeOut(b: int, ghost k: nat)
      requires Ring(buf[..], order) && k < |order| && order[k] == b
      modifies buf, this`order
      ensures Removed(old(order), k, order) && Ring(buf[..], order)
      ensures forall i | 0 <= i < buf.Length :: Plain(buf[i]) == old(Plain(buf[i]))
    {
      hide Ring, Linked, Node;
      ghost var bufs := buf[..];
      RingAround(bufs, order, k);
      RingAround(bufs, order, k + 1);
      ghost var n, p := buf[b].next, buf[b].prev;
      buf[buf[b].next] := buf[buf[b].next].(prev := buf[b].prev);
      ghost var bufs1 := buf[..];
      assert bufs1 == bufs[n := bufs[n].(prev := p)];
      buf[buf[b].prev] := buf[buf[b].prev].(next := buf[b].next);
      assert buf[..] == bufs1[p := bufs1[p].(next := n)];
      TakenOut(bufs, order, k, bufs1, buf[..]);
      order := RemoveAt(order, k);
    }

    /** Returns the buffer, its reference count raised, or -1 where the source panics. The caller
        then waits for the buffer's lock. */
    method Bget(dev: int, blockno: int) returns (b: int)
      requires Inv(Now()) && dev != 0
      modifies buf, this`users
      ensures b >= 0 ==> b < NBUF && (Next(old(Now()), Hit(b), Now()) || Next(old(Now()), Recycle(b, dev, blockno),
              Now()))
      ensures b >= 0 ==> buf[b].dev == dev && buf[b].blockno == blockno
      ensures b >= 0 ==> if old(buf[b]).dev == dev && old(buf[b]).blockno == blockno
                         then buf[b] == old(buf[b]).(refcnt := old(buf[b]).refcnt + 1)
                         else old(buf[b]).refcnt == 0 && !old(buf[b]).dirty && buf[b].refcnt == 1 && !buf[b].valid
      ensures b < 0 ==> Now() == old(Now())
                        && forall j | 0 <= j < NBUF :: !Free(buf[j])
                            && !(buf[j].dev == dev && buf[j].blockno == blockno)
    {
      assert |users| == NBUF;
      hide Unique, Counts, Coherent;
      ghost var c := Now();
      b := Lookup(dev, blockno);
      if b != HEAD {
        buf[b] := buf[b].(refcnt := buf[b].refcnt + 1);
        users := Join(users, b, 1, 0);
        assert buf[..] == c.bufs[b := c.bufs[b].(refcnt := c.bufs[b].refcnt + 1)];
        return;
      }
      b := Victim();
      if b != HEAD {
        buf[b] := buf[b].(dev := dev);
        buf[b] := buf[b].(blockno := blockno);
        buf[b] := buf[b].(valid := false, dirty := false);
        buf[b] := buf[b].(refcnt := 1);
        users := Join(users, b, 1, 0);
        assert buf[..] == c.bufs[b := c.bufs[b].(dev := dev, blockno := blockno, valid := false, dirty := false,
            refcnt := 1)];
        return;
      }
      return -1;
    }

    /** The first loop of bget: forward along the ring to the block's buffer, or to the head. */
    method Lookup(dev: int, blockno: int) returns (b: int)
      requires Lru(Now())
      ensures 0 <= b <= NBUF
      ensures b < NBUF ==> buf[b].dev == dev && buf[b].blockno == blockno
      ensures b == HEAD ==> forall j | 0 <= j < NBUF :: !(buf[j].dev == dev && buf[j].blockno == blockno)
    {
      ghost var k := 0;
      assert Linked(buf[..], order, 0);
      b := buf[HEAD].next;
      while b != HEAD
        invariant 0 <= k <= NBUF && b == Node(order, k)
        invariant forall x | 0 <= x < k :: !(buf[order[x]].dev == dev && buf[order[x]].blockno == blockno)
        decreases NBUF - k
      {
        if buf[b].dev == dev && buf[b].blockno == blockno {
          return;
        }
        assert Linked(buf[..], order, k + 1);
        b := buf[b].next;
        k := k + 1;
      }
      assert k == NBUF;
      forall j | 0 <= j < NBUF ensures !(buf[j].dev == dev && buf[j].blockno == blockno) {
        Everywhere(order, j);
      }
    }

    /** The second loop of bget: backward from the least recently released buffer. */
    method Victim() returns (b: int)
      requires Lru(Now())
      ensures 0 <= b <= NBUF
      ensures b < NBUF ==> Free(buf[b]) && forall j | 0 <= j < NBUF && Free(buf[j]) :: stamp[b] <= stamp[j]
      ensures b == HEAD ==> forall j | 0 <= j < NBUF :: !Free(buf[j])
    {
      ghost var k := NBUF - 1;
      assert Linked(buf[..], order, NBUF);
      b := buf[HEAD].prev;
      while b != HEAD
        invariant -1 <= k < NBUF && b == Node(order, k)
        invariant forall x | k < x < NBUF :: !Free(buf[order[x]])
        decreases k
      {
        if buf[b].refcnt == 0 && !buf[b].dirty {
          forall j | 0 <= j < NBUF && Free(buf[j]) ensures stamp[b] <= stamp[j] {
            Everywhere(order, j);
          }
          return;
        }
        assert Linked(buf[..], order, k);
        b := buf[b].prev;
        k := k - 1;
      }
      assert k == -1;
      forall j | 0 <= j < NBUF ensures !Free(buf[j]) {
        Everywhere(order, j);
      }
    }

    /** The end of bget, when the lock of the buffer is free: acquiresleep. */
    method LockBuffer(b: int)
      requires Inv(Now()) && 0 <= b < NBUF && users[b].waiting > 0 && !buf[b].locked
      modifies buf, this`users
      ensures Next(old(Now()), Lock(b), Now()) && buf[b] == old(buf[b]).(locked := true)
    {
      ghost var c := Now();
      buf[b] := buf[b].(locked := true);
      users := Join(users, b, -1, 0);
      assert buf[..] == c.bufs[b := c.bufs[b].(locked := true)];
    }

    /** iderw of the in-memory disk: false where the source panics. */
    method Iderw(b: int) returns (ok: bool)
      requires 0 <= b < buf.Length
      modifies buf, disk
      ensures var x := old(buf[b]);
              && ok == (x.locked && !(x.valid && !x.dirty) && x.dev == ROOTDEV && 0 <= x.blockno < disk.Length)
              && (!ok ==> buf[..] == old(buf[..]) && disk[..] == old(disk[..]))
              && (ok && x.dirty ==> buf[..] == old(buf[..])[b := x.(dirty := false, valid := true)]
                                    && disk[..] == old(disk[..])[x.blockno := x.data])
              && (ok && !x.dirty ==> buf[..] == old(buf[..])[b := x.(data := old(disk[..])[x.blockno], valid := true)]
                                     && disk[..] == old(disk[..]))
    {
      if !buf[b].locked {
        return false;
      }
      if buf[b].valid && !buf[b].dirty {
        return false;
      }
      if buf[b].dev != ROOTDEV {
        return false;
      }
      if buf[b].blockno >= disk.Length || buf[b].blockno < 0 {
        return false;
      }
      if buf[b].dirty {
        buf[b] := buf[b].(dirty := false);
        disk[buf[b].blockno] := buf[b].data;
      } else {
        buf[b] := buf[b].(data := disk[buf[b].blockno]);
      }
      buf[b] := buf[b].(valid := true);
      return true;
    }

    /** The rest of bread once the buffer is locked: the caller sees the contents last stored for
        the block. */
    method BreadLocked(b: int) returns (ok: bool)
      requires Inv(Now()) && 0 <= b < NBUF && buf[b].locked && b !in modified
      modifies buf, disk
      ensures ok == (buf[b].dev == ROOTDEV && 0 <= buf[b].blockno < disk.Length)
      ensures !ok ==> Now() == old(Now())
      ensures ok ==> Now() == old(Now()) || Next(old(Now()), Fetch(b), Now())
      ensures ok ==> Inv(Now()) && buf[b].valid && buf[b].data == view[buf[b].blockno]
    {
      hide Lru, Unique;
      ghost var c := Now();
      assert Counted(c.bufs[b], c.users[b], false);
      if !buf[b].valid {
        ok := Iderw(b);
        if ok {
          FetchKept(c, b, Now());
          StepKeeps(c, Fetch(b), Now());
        }
      } else {
        ok := true;
      }
    }

    /** The holder writes into the buffer. */
    method Change(b: int, data: Block)
      requires Inv(Now()) && 0 <= b < NBUF && buf[b].locked && buf[b].valid
      modifies buf, this`modified
      ensures Next(old(Now()), Modify(b, data), Now())
    {
      ghost var c := Now();
      buf[b] := buf[b].(data := data);
      modified := modified + {b};
      assert buf[..] == c.bufs[b := c.bufs[b].(data := data)];
    }

    /** Returns false where the source panics: the buffer is not locked. */
    method Bwrite(b: int) returns (ok: bool)
      requires Inv(Now()) && 0 <= b < NBUF && (buf[b].locked ==> buf[b].valid)
      modifies buf, disk, this`modified, this`view
      ensures ok == old(buf[b].locked)
      ensures !ok ==> Now() == old(Now())
      ensures ok ==> Next(old(Now()), Store(b), Now())
      ensures ok ==> buf[b] == old(buf[b]).(dirty := false) && 0 <= buf[b].blockno < disk.Length
                     && disk[..] == old(disk[..])[buf[b].blockno := buf[b].data]
    {
      if !buf[b].locked {
        return false;
      }
      ghost var c := Now();
      buf[b] := buf[b].(dirty := true);
      ok := Iderw(b);
      view, modified := view[c.bufs[b].blockno := c.bufs[b].data], modified - {b};
      assert buf[..] == c.bufs[b := c.bufs[b].(dirty := false)];
    }

    /** log_write's mark on the buffer. */
    method MarkDirty(b: int)
      requires Inv(Now()) && 0 <= b < NBUF && buf[b].locked && buf[b].valid
      modifies buf, this`modified, this`view
      ensures Next(old(Now()), Pin(b), Now()) && buf[b] == old(buf[b]).(dirty := true)
    {
      ghost var c := Now();
      buf[b] := buf[b].(dirty := true);
      view, modified := view[c.bufs[b].blockno := c.bufs[b].data], modified - {b};
      assert buf[..] == c.bufs[b := c.bufs[b].(dirty := true)];
    }

    /** brelse up to the release of the buffer's lock; false where the source panics. */
    method BrelseLock(b: int) returns (ok: bool)
      requires Inv(Now()) && 0 <= b < NBUF && b !in modified
      modifies buf, this`users
      ensures ok == old(buf[b].locked)
      ensures !ok ==> Now() == old(Now())
      ensures ok ==> Next(old(Now()), Unlock(b), Now()) && buf[b] == old(buf[b]).(locked := false)
    {
      if !buf[b].locked {
        return false;
      }
      ghost var c := Now();
      buf[b] := buf[b].(locked := false);
      users := Join(users, b, 0, 1);
      assert buf[..] == c.bufs[b := c.bufs[b].(locked := false)];
      return true;
    }

    /** The rest of brelse, under bcache.lock. */
    method Brelse(b: int)
      requires Inv(Now()) && 0 <= b < NBUF && users[b].leaving > 0
      modifies buf, this`order, this`users, this`stamp, this`clock
      ensures Next(old(Now()), Release(b), Now()) && buf[b].refcnt == old(buf[b]).refcnt - 1
      ensures if buf[b].refcnt == 0 then order != [] && order[0] == b else order == old(order)
    {
      ghost var c := Now();
      assert Counted(c.bufs[b], c.users[b], b in modified);
      hide Unique, Coherent, Counts;
      buf[b] := buf[b].(refcnt := buf[b].refcnt - 1);
      users := Join(users, b, 0, -1);
      assert buf[..] == c.bufs[b := Released(c.bufs[b])];
      if buf[b].refcnt == 0 {
        SameLinks(c.bufs, buf[..], order);
        MoveToFront(b);
        stamp, clock := stamp[b := clock], clock + 1;
      }
    }

    /** Takes buffer b out of the ring and puts it in behind the head. */
    method MoveToFront(b: int)
      requires Ring(buf[..], order) && |order| == NBUF && 0 <= b < NBUF
      modifies buf, this`order
      ensures Ring(buf[..], order)
      ensures exists k: nat, rest :: Removed(old(order), k, rest) && old(order)[k] == b && order == [b] + rest
      ensures forall i | 0 <= i < buf.Length :: Plain(buf[i]) == old(Plain(buf[i]))
    {
      hide Ring;
      RingAll(buf[..], order, b);
      ghost var k: nat :| k < |order| && order[k] == b;
      TakeOut(b, k);
      RingDistinct(old(buf[..]), old(order), k, order);
      ghost var rest := order;
      InsertFront(b);
      assert Removed(old(order), k, rest) && old(order)[k] == b && order == [b] + rest;
    }
  }

  /** The two link writes that take a node out touch nothing but links. */
  lemma TakenOut(bufs: seq<Buf>, order: seq<int>, k: nat, bufs1: seq<Buf>, bufs2: seq<Buf>)
    requires Ring(bufs, order) && k < |order|
    requires var p, n := Node(order, k - 1), Node(order, k + 1);
             && 0 <= p < |bufs| && 0 <= n < |bufs| && bufs1 == bufs[n := bufs[n].(prev := p)]
             && bufs2 == bufs1[p := bufs1[p].(next := n)]
    ensures Ring(bufs2, RemoveAt(order, k))
    ensures |bufs2| == |bufs| && forall i | 0 <= i < |bufs| :: Plain(bufs2[i]) == Plain(bufs[i])
  {
    hide Ring;
    Unlink(bufs, order, k, bufs2, RemoveAt(order, k));
  }

  lemma RingAll(bufs: seq<Buf>, order: seq<int>, b: int)
    requires Ring(bufs, order) && |order| == NBUF && 0 <= b < NBUF
    ensures b in order
  {
    Everywhere(order, b);
  }

  lemma RingDistinct(bufs: seq<Buf>, order: seq<int>, k: nat, rest: seq<int>)
    requires Ring(bufs, order) && Removed(order, k, rest)
    ensures order[k] !in rest && |bufs| == NBUF + 1
  {
    RemovedDistinct(order, k, rest);
  }

  /** A ring of NBUF distinct buffers has all of them. */
  lemma Everywhere(order: seq<int>, j: int)
    requires Distinct(order) && |order| == NBUF && (forall i | 0 <= i < |order| :: 0 <= order[i] < NBUF)
    requires 0 <= j < NBUF
    ensures j in order
  {
    AllThere(order, NBUF, j);
  }

  // ---------------------------------------------------------------------------------------
  // A run that pins every buffer
  // ---------------------------------------------------------------------------------------

  /** The blocks of lh are pinned, the other buffers have never been used, and nobody is in the cache. */
  ghost predicate PinnedOnly(c: Cache, lh: seq<int>) {
    && |c.bufs| == NBUF + 1 && Distinct(lh) && (forall b | b in lh :: Covered(c.bufs, b))
    && (forall i | 0 <= i < NBUF :: PinnedOrNew(c.bufs[i], lh))
  }

  predicate PinnedOrNew(b: Buf, lh: seq<int>) {
    b.refcnt == 0 && if b.dirty then b.dev == ROOTDEV && b.valid && b.blockno in lh else b.dev == 0
  }

  lemma PinnedOnlyPins(c: Cache, lh: seq<int>)
    requires PinnedOnly(c, lh)
    ensures Pins(c, lh) && forall i | 0 <= i < NBUF :: c.bufs[i].refcnt == 0
  {
    hide Covered;
    forall i | 0 <= i < NBUF ensures c.bufs[i].refcnt == 0 && (c.bufs[i].dirty ==> c.bufs[i].blockno in lh) {
      assert PinnedOrNew(c.bufs[i], lh);
    }
  }

  /** Nobody else has changed, and buffer b holds block bn pinned. */
  lemma PinnedMore(c: Cache, lh: seq<int>, b: int, bn: int, c': Cache)
    requires PinnedOnly(c, lh) && bn !in lh && 0 <= b < NBUF && |c'.bufs| == NBUF + 1 && !c.bufs[b].dirty
    requires forall j | 0 <= j < NBUF && j != b :: Plain(c'.bufs[j]) == Plain(c.bufs[j])
    requires var x := c'.bufs[b]; x.refcnt == 0 && x.dirty && x.valid && x.dev == ROOTDEV && x.blockno == bn
    ensures PinnedOnly(c', lh + [bn])
  {
    assert forall x | x in lh :: x in lh + [bn];
    forall y | y in lh + [bn] ensures Covered(c'.bufs, y) {
      if y == bn {
        assert c'.bufs[b].valid && c'.bufs[b].dirty && c'.bufs[b].blockno == y;
      } else {
        CoveredElsewhere(c.bufs, c'.bufs, b, y);
      }
    }
    hide Covered;
    forall j | 0 <= j < NBUF ensures PinnedOrNew(c'.bufs[j], lh + [bn]) {
      assert PinnedOrNew(c.bufs[j], lh);
      assert j != b ==> Plain(c'.bufs[j]) == Plain(c.bufs[j]);
    }
  }

  lemma CoveredElsewhere(bufs: seq<Buf>, bufs': seq<Buf>, b: int, bn: int)
    requires |bufs| == |bufs'| == NBUF + 1 && 0 <= b < NBUF && Covered(bufs, bn) && !bufs[b].dirty
    requires forall j | 0 <= j < NBUF && j != b :: Plain(bufs'[j]) == Plain(bufs[j])
    ensures Covered(bufs', bn)
  {
    var i :| 0 <= i < NBUF && bufs[i].valid && bufs[i].dirty && bufs[i].blockno == bn;
    assert Plain(bufs'[i]) == Plain(bufs[i]);
  }

  /** A step of the holder of buffer b: no other buffer changes but in its links. */
  lemma OthersPlain(c: Cache, step: Step, c': Cache)
    requires Next(c, step, c')
    ensures |c.bufs| == |c'.bufs| == NBUF + 1 && 0 <= step.i < NBUF
    ensures forall j | 0 <= j < NBUF && j != step.i :: Plain(c'.bufs[j]) == Plain(c.bufs[j])
    ensures step.Lock? || step.Pin? || step.Unlock? || step.Release? ==>
              && c'.bufs[step.i].dev == c.bufs[step.i].dev && c'.bufs[step.i].blockno == c.bufs[step.i].blockno
              && c'.bufs[step.i].valid == c.bufs[step.i].valid
              && c'.bufs[step.i].dirty == (c.bufs[step.i].dirty || step.Pin?)
              && c'.bufs[step.i].locked == (step.Lock? || (step.Pin? && c.bufs[step.i].locked)
                                            || (step.Release? && c.bufs[step.i].locked))
              && c'.bufs[step.i].refcnt == c.bufs[step.i].refcnt - (if step.Release? then 1 else 0)
  {
    if step.Release? {
      assert Plain(c'.bufs[step.i]) == Plain(Released(c.bufs[step.i]));
    }
  }

  lemma ExtendRun(states: seq<Cache>, steps: seq<Step>, step: Step, c': Cache)
      returns (states': seq<Cache>, steps': seq<Step>)
    requires Run(states, steps) && Next(states[|steps|], step, c')
    ensures Run(states', steps') && |states'| == |steps'| + 1 && states'[|steps'|] == c'
  {
    hide Next, Init;
    states', steps' := states + [c'], steps + [step];
    assert forall k | 0 <= k < |states| :: states'[k] == states[k];
    assert forall k | 0 <= k < |steps| :: steps'[k] == steps[k];
  }

  /** What bget does for a block that is not in the cache. */
  lemma MustRecycle(c: Cache, lh: seq<int>, b: int, bn: int, c': Cache)
    requires PinnedOnly(c, lh) && bn !in lh && 0 <= b < NBUF
    requires Next(c, Hit(b), c') || Next(c, Recycle(b, ROOTDEV, bn), c')
    requires |c'.bufs| == NBUF + 1 && c'.bufs[b].dev == ROOTDEV && c'.bufs[b].blockno == bn
    ensures Next(c, Recycle(b, ROOTDEV, bn), c') && !c.bufs[b].dirty && !c'.bufs[b].dirty && !c'.bufs[b].valid
    ensures c'.bufs[b].refcnt == 1
  {
    assert PinnedOrNew(c.bufs[b], lh);
    assert ROOTDEV != 0;
  }

  lemma RecycleWaits(c: Cache, b: int, bn: int, c': Cache)
    requires Inv(c) && Next(c, Recycle(b, ROOTDEV, bn), c')
    ensures |c'.users| == NBUF && 0 <= b < NBUF && c'.users[b].waiting > 0 && !c'.bufs[b].locked && b !in c'.modified
  {
    hide Lru, Unique, Coherent;
    assert Counted(c.bufs[b], c.users[b], b in c.modified);
  }

  lemma LockHolds(c: Cache, b: int, c': Cache)
    requires Next(c, Lock(b), c')
    ensures c'.modified == c.modified
  {
  }

  lemma FetchFills(c: Cache, b: int, c': Cache)
    requires Next(c, Fetch(b), c')
    ensures |c'.bufs| == NBUF + 1 && c'.modified == c.modified
            && c'.bufs[b] == c.bufs[b].(valid := true, data := c'.bufs[b].data)
  {
  }

  lemma PinStores(c: Cache, b: int, c': Cache)
    requires Next(c, Pin(b), c')
    ensures b !in c'.modified
  {
  }

  lemma UnlockLeaves(c: Cache, b: int, c': Cache)
    requires Next(c, Unlock(b), c')
    ensures |c'.users| == NBUF && 0 <= b < NBUF && c'.users[b].leaving > 0
  {
  }

  /** Buffer b is held with block bn pinned in it, and otherwise c' is c. */
  ghost predicate HeldPinned(c: Cache, b: int, bn: int, c': Cache) {
    && |c.bufs| == |c'.bufs| == NBUF + 1 && 0 <= b < NBUF && !c.bufs[b].dirty && b !in c'.modified
    && (forall j | 0 <= j < NBUF && j != b :: Plain(c'.bufs[j]) == Plain(c.bufs[j]))
    && var x := c'.bufs[b];
       x.locked && x.refcnt == 1 && x.dirty && x.valid && x.dev == ROOTDEV && x.blockno == bn
  }

  /** bread and log_write of block bn by a process that is alone. */
  method ReadAndPin(cache: Bcache, ghost lh: seq<int>, bn: int, ghost states: seq<Cache>, ghost steps: seq<Step>)
      returns (b: int, ghost states': seq<Cache>, ghost steps': seq<Step>)
    requires Run(states, steps) && states[|steps|] == cache.Now() && Inv(cache.Now()) && PinnedOnly(cache.Now(), lh)
    requires |lh| < NBUF && bn !in lh && 0 <= bn < cache.disk.Length
    modifies cache, cache.buf, cache.disk
    ensures Run(states', steps') && states'[|steps'|] == cache.Now() && Inv(cache.Now())
    ensures HeldPinned(old(cache.Now()), b, bn, cache.Now())
  {
    hide Next, Init, Inv, PinnedOnly;
    ghost var c0 := cache.Now();
    PinnedOnlyPins(c0, lh);
    NoBufferExactly(c0, lh);
    b := cache.Bget(ROOTDEV, bn);
    ghost var c1 := cache.Now();
    MustRecycle(c0, lh, b, bn, c1);
    states', steps' := ExtendRun(states, steps, Recycle(b, ROOTDEV, bn), c1);
    StepKeeps(c0, Recycle(b, ROOTDEV, bn), c1);
    OthersPlain(c0, Recycle(b, ROOTDEV, bn), c1);
    RecycleWaits(c0, b, bn, c1);
    cache.LockBuffer(b);
    ghost var c2 := cache.Now();
    states', steps' := ExtendRun(states', steps', Lock(b), c2);
    StepKeeps(c1, Lock(b), c2);
    OthersPlain(c1, Lock(b), c2);
    LockHolds(c1, b, c2);
    var ok := cache.BreadLocked(b);
    ghost var c3 := cache.Now();
    states', steps' := ExtendRun(states', steps', Fetch(b), c3);
    OthersPlain(c2, Fetch(b), c3);
    FetchFills(c2, b, c3);
    cache.MarkDirty(b);
    ghost var c4 := cache.Now();
    states', steps' := ExtendRun(states', steps', Pin(b), c4);
    StepKeeps(c3, Pin(b), c4);
    OthersPlain(c3, Pin(b), c4);
    PinStores(c3, b, c4);
  }

  /** And brelse. */
  method PinOne(cache: Bcache, ghost lh: seq<int>, bn: int, ghost states: seq<Cache>, ghost steps: seq<Step>)
      returns (ghost states': seq<Cache>, ghost steps': seq<Step>)
    requires Run(states, steps) && states[|steps|] == cache.Now() && Inv(cache.Now()) && PinnedOnly(cache.Now(), lh)
    requires |lh| < NBUF && bn !in lh && 0 <= bn < cache.disk.Length
    modifies cache, cache.buf, cache.disk
    ensures Run(states', steps') && states'[|steps'|] == cache.Now() && Inv(cache.Now())
    ensures PinnedOnly(cache.Now(), lh + [bn])
  {
    hide Next, Init, Inv, PinnedOnly;
    ghost var c := cache.Now();
    var b;
    b, states', steps' := ReadAndPin(cache, lh, bn, states, steps);
    ghost var c1 := cache.Now();
    var ok := cache.BrelseLock(b);
    ghost var c2 := cache.Now();
    states', steps' := ExtendRun(states', steps', Unlock(b), c2);
    StepKeeps(c1, Unlock(b), c2);
    OthersPlain(c1, Unlock(b), c2);
    UnlockLeaves(c1, b, c2);
    cache.Brelse(b);
    ghost var c3 := cache.Now();
    states', steps' := ExtendRun(states', steps', Release(b), c3);
    StepKeeps(c2, Release(b), c3);
    OthersPlain(c2, Release(b), c3);
    PinnedMore(c, lh, b, bn, c3);
  }

  /** From an empty cache one process after another pins the blocks of lh. With as many blocks as there are
      buffers, the first bread of a log block by write_log then panics. */
  method PinAll(cache: Bcache, lh: seq<int>, logBlock: int)
      returns (b: int, ghost states: seq<Cache>, ghost steps: seq<Step>)
    requires Init(cache.Now()) && Distinct(lh) && |lh| <= NBUF && logBlock !in lh
    requires forall i | 0 <= i < |lh| :: 0 <= lh[i] < cache.disk.Length
    modifies cache, cache.buf, cache.disk
    ensures Run(states, steps) && PinnedOnly(states[|steps|], lh) && Inv(states[|steps|])
    ensures b < 0 <==> |lh| == NBUF
  {
    hide Next, Init, Inv, PinnedOnly;
    states, steps := [cache.Now()], [];
    RunSafe(states, steps, 0);
    NonePinned(cache.Now());
    var k := 0;
    assert lh[..0] == [];
    while k < |lh|
      invariant k <= |lh| && Run(states, steps) && states[|steps|] == cache.Now() && Inv(cache.Now())
      invariant PinnedOnly(cache.Now(), lh[..k])
    {
      NotYet(lh, k);
      states, steps := PinOne(cache, lh[..k], lh[k], states, steps);
      assert lh[..k] + [lh[k]] == lh[..k + 1];
      k := k + 1;
    }
    assert lh[..|lh|] == lh;
    PinnedOnlyPins(cache.Now(), lh);
    NoBufferExactly(cache.Now(), lh);
    ghost var c := cache.Now();
    b := cache.Bget(ROOTDEV, logBlock);
    if b >= 0 { MustRecycle(c, lh, b, logBlock, cache.Now()); RecycledFree(c, b, logBlock, cache.Now()); }
  }

  lemma NonePinned(c: Cache)
    requires Init(c)
    ensures PinnedOnly(c, [])
  {
    hide Lru;
    assert |c.bufs| == NBUF + 1 by { InitSize(c); }
    forall i | 0 <= i < NBUF ensures PinnedOrNew(c.bufs[i], []) {
    }
  }

  lemma InitSize(c: Cache)
    requires Init(c)
    ensures |c.bufs| == NBUF + 1
  {
  }

  lemma NotYet(lh: seq<int>, k: nat)
    requires Distinct(lh) && k < |lh|
    ensures lh[k] !in lh[..k]
  {
  }

  lemma RecycledFree(c: Cache, b: int, bn: int, c': Cache)
    requires Next(c, Recycle(b, ROOTDEV, bn), c')
    ensures |c.bufs| == NBUF + 1 && 0 <= b < NBUF && Free(c.bufs[b])
  {
  }
}

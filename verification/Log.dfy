/** The in-memory half of the write-ahead log (xv6/log.c): the log structure, and its
    operations as methods that update it and the disk in place. */
module Log {
  import opened LogDisk

  /** The log structure, the disk, and the contents of the buffers pinned by B_DIRTY. */
  datatype State = State(disk: Disk, dirty: map<int, Block>, lh: seq<int>, outstanding: int, committing: bool)

  /** What every operation keeps. */
  ghost predicate Good(lay: Layout, s: State) {
    && lay.HasDisk(s.disk)
    && lay.GoodList(s.lh)
    && (forall b :: b in s.dirty <==> b in s.lh)
  }

  // The effect of one critical section of each operation.

  predicate CanBegin(s: State) {
    !s.committing && |s.lh| + (s.outstanding + 1) * MAXOPBLOCKS <= LOGSIZE
  }

  predicate LogWritePanics(lay: Layout, s: State) {
    |s.lh| >= LOGSIZE || |s.lh| >= lay.size - 1 || s.outstanding < 1
  }

  function AfterBegin(s: State): State {
    s.(outstanding := s.outstanding + 1)
  }

  function AfterLogWrite(s: State, bn: int, data: Block): State {
    s.(dirty := s.dirty[bn := data], lh := if bn in s.lh then s.lh else s.lh + [bn])
  }

  function AfterEnd(s: State): State {
    s.(outstanding := s.outstanding - 1, committing := s.outstanding == 1)
  }

  function AfterCommit(lay: Layout, s: State): State
    requires Good(lay, s)
  {
    s.(disk := Apply(s.disk, CommitWrites(lay, s.disk, s.lh, s.dirty)),
       dirty := map[], lh := [], committing := false)
  }

  lemma AllPinned(lay: Layout, s: State)
    requires Good(lay, s)
    ensures forall i | 0 <= i < |s.lh| :: s.lh[i] in s.dirty
    ensures s.dirty - (set b | b in s.lh) == map[]
  {
    assert forall i | 0 <= i < |s.lh| :: s.lh[i] in s.lh;
    var rest := s.dirty - (set b | b in s.lh);
    assert forall b :: b !in rest;
  }

  lemma EmptyPrefix(a: array<int>)
    ensures a[..0] == []
  {
  }

  lemma Concat3<T>(h: seq<T>, a: seq<T>, b: seq<T>)
    ensures h + (a + b) == h + a + b
  {
  }

  lemma Concat4<T>(h: seq<T>, a: seq<T>, b: seq<T>, c: seq<T>, d: seq<T>)
    ensures h + (a + b + c + d) == h + a + b + c + d
  {
  }

  lemma UnpinNext(dirty: map<int, Block>, done: seq<int>, x: int, more: seq<int>)
    requires more == done + [x]
    ensures dirty - (set b | b in done) - {x} == dirty - (set b | b in more)
  {
  }

  class Log {
    const lay: Layout
    var disk: Disk
    var dirty: map<int, Block>
    var n: int
    const block: array<int>
    var outstanding: int
    var committing: bool
    /** Every block write so far, in order: a power failure keeps a prefix of it. */
    ghost var history: seq<Write>

    ghost predicate Valid()
      reads this, block
    {
      && block.Length == LOGSIZE
      && 0 <= n <= LOGSIZE
      && Good(lay, Now())
    }

    ghost function Now(): State
      reads this, block
      requires 0 <= n <= block.Length
    {
      State(disk, dirty, block[..n], outstanding, committing)
    }

    /** The machine after power-on: memory is blank, only the disk has survived. */
    constructor (lay: Layout, disk: Disk)
      requires lay.HasDisk(disk)
      ensures Valid() && fresh(block) && this.lay == lay
      ensures Now() == State(disk, map[], [], 0, false)
      ensures history == []
    {
      this.lay, this.disk := lay, disk;
      dirty, n, outstanding, committing, history := map[], 0, 0, false, [];
      block := new int[LOGSIZE];
    }

    /** bwrite: one block goes to the disk atomically. */
    method WriteBlock(bn: int, data: Block)
      requires 0 <= bn < |disk|
      modifies this`disk, this`history
      ensures disk == old(disk)[bn := data]
      ensures history == old(history) + [Write(bn, data)]
    {
      disk := disk[bn := data];
      history := history + [Write(bn, data)];
    }

    method WriteHead()
      requires block.Length == LOGSIZE && 0 <= n <= LOGSIZE && lay.HasDisk(disk)
      modifies this`disk, this`history
      ensures var w := Write(lay.start, HeaderBlock(old(disk)[lay.start], block[..n]));
              history == old(history) + [w] && disk == old(disk)[w.bn := w.data]
      ensures disk[lay.start][0] == n && disk[lay.start][1..n + 1] == block[..n]
      ensures disk[lay.start][n + 1..] == old(disk)[lay.start][n + 1..]
    {
      var hb := disk[lay.start];
      hb := hb[0 := n];
      for i := 0 to n
        invariant |hb| == BLOCK_WORDS
        invariant hb == [n] + block[..i] + disk[lay.start][1 + i..]
      {
        hb := hb[1 + i := block[i]];
      }
      WriteBlock(lay.start, hb);
    }

    /** Copies the log blocks to their homes, and unpins the buffers it writes. */
    method InstallTrans()
      requires block.Length == LOGSIZE && 0 <= n <= LOGSIZE
      requires lay.HasDisk(disk) && lay.GoodList(block[..n])
      modifies this`disk, this`history, this`dirty
      ensures var ws := InstallWrites(lay, old(disk), block[..n]);
              InRange(old(disk), ws) && history == old(history) + ws && disk == Apply(old(disk), ws)
      ensures dirty == old(dirty) - (set b | b in block[..n])
    {
      ghost var d, lh, h := disk, block[..n], history;
      ghost var ws := InstallWrites(lay, d, lh);
      WroteNone(d, h, ws);
      hide Wrote;
      for tail := 0 to n
        invariant Wrote(d, h, ws, tail, disk, history)
        invariant dirty == old(dirty) - (set b | b in lh[..tail])
      {
        InstallReads(lay, d, lh, h, tail, disk, history);
        WroteNext(d, h, ws, tail, disk, history);
        WriteBlock(block[tail], disk[lay.start + tail + 1]);
        dirty := dirty - {block[tail]};
        assert lh[..tail + 1] == lh[..tail] + [lh[tail]];
        UnpinNext(old(dirty), lh[..tail], lh[tail], lh[..tail + 1]);
      }
      WroteAll(d, h, ws, disk, history);
      assert lh[..n] == lh;
    }

    method ReadHead()
      requires block.Length == LOGSIZE && lay.HeadOk(disk)
      modifies this`n, block
      ensures 0 <= n <= LOGSIZE && block[..n] == lay.Head(disk)
      ensures n == disk[lay.start][0] && block[..n] == disk[lay.start][1..n + 1]
    {
      n := disk[lay.start][0];
      for i := 0 to n
        invariant n == disk[lay.start][0]
        invariant block[..i] == disk[lay.start][1..1 + i]
      {
        block[i] := disk[lay.start][1 + i];
      }
    }

    /** Runs once, before any other operation, on the disk the last power failure left. */
    method RecoverFromLog()
      requires Valid() && lay.HeadOk(disk) && dirty == map[] && outstanding == 0 && !committing
      modifies this, block
      ensures Valid()
      ensures history == old(history) + RecoveryWrites(lay, old(disk))
      ensures Now() == State(Recovered(lay, old(disk)), map[], [], 0, false)
    {
      hide Apply, Recovered, InstallWrites, HeaderBlock;
      ghost var d, h := disk, history;
      ReadHead();
      InstallTrans();
      n := 0;
      EmptyPrefix(block);
      RecoveryPhases(lay, d, disk);
      WriteHead();
      Concat3(h, InstallWrites(lay, d, lay.Head(d)), [ClearWrite(lay, d)]);
    }

    /** One pass of begin_op's loop: entered, or go to sleep and try again after a wakeup. */
    method BeginOp() returns (entered: bool)
      requires Valid()
      modifies this`outstanding
      ensures Valid() && entered == CanBegin(old(Now()))
      ensures entered <==> !committing && n + (old(outstanding) + 1) * MAXOPBLOCKS <= LOGSIZE
      ensures outstanding == if entered then old(outstanding) + 1 else old(outstanding)
      ensures Now() == if entered then AfterBegin(old(Now())) else old(Now())
    {
      if committing {
        entered := false;
      } else if n + (outstanding + 1) * MAXOPBLOCKS > LOGSIZE {
        entered := false;
      } else {
        outstanding := outstanding + 1;
        entered := true;
      }
    }

    /** The tests of log_write, before it takes the lock; false where the source panics. */
    method LogWriteTest() returns (ok: bool)
      requires Valid()
      ensures ok == !LogWritePanics(lay, Now())
      ensures ok <==> n < LOGSIZE && n < lay.size - 1 && outstanding >= 1
    {
      if n >= LOGSIZE || n >= lay.size - 1 {
        return false;
      }
      if outstanding < 1 {
        return false;
      }
      return true;
    }

    /** log_write under the lock. Others may have appended since the tests; GroupCommit says when the
        list still has room. */
    method LogWriteAppend(bn: int, data: Block)
      requires Valid() && lay.IsHome(bn) && (bn in block[..n] || (n < LOGSIZE && n < lay.size - 1))
      modifies this`n, this`dirty, block
      ensures Valid() && Now() == AfterLogWrite(old(Now()), bn, data)
      ensures dirty == old(dirty)[bn := data]
      ensures block[..n] == if bn in old(block[..n]) then old(block[..n]) else old(block[..n]) + [bn]
    {
      ghost var lh := block[..n];
      var i := 0;
      while i < n
        invariant 0 <= i <= n && bn !in block[..i]
      {
        if block[i] == bn {
          break;
        }
        i := i + 1;
      }
      block[i] := bn;
      if i == n {
        n := n + 1;
        assert block[..n] == lh + [bn];
      } else {
        assert block[..n] == lh;
      }
      dirty := dirty[bn := data];
    }

    /** Copies the pinned buffers to the log region. */
    method WriteLog()
      requires block.Length == LOGSIZE && 0 <= n <= LOGSIZE
      requires lay.HasDisk(disk) && lay.GoodList(block[..n]) && forall i | 0 <= i < n :: block[i] in dirty
      modifies this`disk, this`history
      ensures var ws := LogCopies(lay, block[..n], dirty);
              InRange(old(disk), ws) && history == old(history) + ws && disk == Apply(old(disk), ws)
    {
      ghost var d, lh, h := disk, block[..n], history;
      ghost var ws := LogCopies(lay, lh, dirty);
      WroteNone(d, h, ws);
      hide Wrote;
      for tail := 0 to n
        invariant Wrote(d, h, ws, tail, disk, history)
      {
        WroteNext(d, h, ws, tail, disk, history);
        WriteBlock(lay.start + tail + 1, dirty[block[tail]]);
      }
      WroteAll(d, h, ws, disk, history);
    }

    /** commit() with a non-empty header: the two write_head calls are the commit point and the
        end of the transaction. */
    method CommitBlocks()
      requires block.Length == LOGSIZE && 0 < n <= LOGSIZE
      requires lay.HasDisk(disk) && lay.GoodList(block[..n]) && forall i | 0 <= i < n :: block[i] in dirty
      modifies this`disk, this`history, this`dirty, this`n
      ensures n == 0 && dirty == old(dirty) - (set b | b in old(block[..n]))
      ensures history == old(history) + CommitWrites(lay, old(disk), old(block[..n]), old(dirty))
      ensures disk == Apply(old(disk), CommitWrites(lay, old(disk), old(block[..n]), old(dirty)))
    {
      ghost var d, lh, cached, h := disk, block[..n], dirty, history;
      WriteLog();
      ghost var d1 := disk;
      WriteHead();
      ghost var d2 := disk;
      InstallTrans();
      ghost var d3 := disk;
      n := 0;
      EmptyPrefix(block);
      WriteHead();
      hide *;
      CommitPhases(lay, d, lh, cached, d1, d2, d3);
      Concat4(h, LogCopies(lay, lh, cached), [Write(lay.start, HeaderBlock(d1[lay.start], lh))],
              InstallWrites(lay, d2, lh), [Write(lay.start, HeaderBlock(d3[lay.start], []))]);
    }

    method Commit()
      requires Valid()
      modifies this`disk, this`history, this`dirty, this`n
      ensures Valid()
      ensures history == old(history) + CommitWrites(lay, old(disk), old(block[..n]), old(dirty))
      ensures Now() == AfterCommit(lay, old(Now())).(committing := committing)
      ensures old(n) == 0 ==> history == old(history) && disk == old(disk)
    {
      AllPinned(lay, Now());
      if n > 0 {
        CommitBlocks();
      }
      EmptyPrefix(block);
      assert n == 0;
    }

    /** end_op up to the release of the log lock: panics counts as false. */
    method EndOp() returns (ok: bool, doCommit: bool)
      requires Valid() && outstanding >= 1
      modifies this`outstanding, this`committing
      ensures Valid() && ok == !old(committing)
      ensures ok ==> Now() == AfterEnd(old(Now())) && doCommit == committing
      ensures outstanding == old(outstanding) - 1 && (ok ==> (doCommit <==> outstanding == 0))
    {
      outstanding := outstanding - 1;
      doCommit := false;
      if committing {
        return false, false;
      }
      if outstanding == 0 {
        doCommit := true;
        committing := true;
      }
      return true, doCommit;
    }

    /** The rest of end_op when it has to commit. */
    method FinishCommit()
      requires Valid() && committing
      modifies this`disk, this`history, this`dirty, this`n, this`committing
      ensures Valid() && Now() == AfterCommit(lay, old(Now()))
      ensures n == 0 && dirty == map[] && !committing && outstanding == old(outstanding)
      ensures history == old(history) + CommitWrites(lay, old(disk), old(block[..n]), old(dirty))
    {
      Commit();
      committing := false;
    }
  }
}

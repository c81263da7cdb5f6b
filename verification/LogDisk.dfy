/** The on-disk half of the write-ahead log (xv6/log.c): what the log region means after a
    power failure, and what the block writes of commit() and of recovery leave behind when
    they are cut short.

    A block is 128 words; a header block holds the count in word 0 and the home block numbers
    in the words after it. Writing one block is the atomic step, so a crash point is a prefix
    of a sequence of block writes. */
module LogDisk {

  const MAXOPBLOCKS := 10
  const LOGSIZE := 3 * MAXOPBLOCKS
  const BLOCK_WORDS := 128

  type Block = b: seq<int> | |b| == BLOCK_WORDS witness seq(128, _ => 0)
  type Disk = seq<Block>

  datatype Write = Write(bn: int, data: Block)

  /** The log occupies blocks start .. start + size of a disk of `total` blocks. */
  datatype Layout = Layout(start: nat, size: nat, total: nat) {
    predicate Valid() {
      1 <= size && start + size <= total
    }

    predicate IsHome(bn: int) {
      0 <= bn < total && !(start <= bn < start + size)
    }

    predicate HasDisk(d: Disk) {
      Valid() && |d| == total
    }

    /** A list of home blocks that the header and the log region have room for. */
    predicate GoodList(lh: seq<int>) {
      && |lh| <= LOGSIZE
      && |lh| <= size - 1
      && (forall i | 0 <= i < |lh| :: IsHome(lh[i]))
      && (forall i, j | 0 <= i < j < |lh| :: lh[i] != lh[j])
    }

    /** The header block on the disk names a good list. */
    predicate HeadOk(d: Disk) {
      && HasDisk(d)
      && 0 <= d[start][0] <= LOGSIZE
      && GoodList(d[start][1..1 + d[start][0]])
    }

    function Head(d: Disk): seq<int>
      requires HeadOk(d)
    {
      d[start][1..1 + d[start][0]]
    }
  }

  /** write_head copies the count and the live entries, and leaves the other words alone. */
  function HeaderBlock(prior: Block, lh: seq<int>): Block
    requires |lh| <= LOGSIZE
  {
    [|lh|] + lh + prior[1 + |lh|..]
  }

  predicate InRange(d: Disk, ws: seq<Write>) {
    forall i | 0 <= i < |ws| :: 0 <= ws[i].bn < |d|
  }

  /** The disk after a sequence of block writes. */
  function Apply(d: Disk, ws: seq<Write>): (e: Disk)
    requires InRange(d, ws)
    ensures |e| == |d|
  {
    if ws == [] then d
    else Apply(d, ws[..|ws| - 1])[ws[|ws| - 1].bn := ws[|ws| - 1].data]
  }

  lemma ApplyAppend(d: Disk, ws: seq<Write>, w: Write)
    requires InRange(d, ws) && 0 <= w.bn < |d|
    ensures InRange(d, ws + [w])
    ensures Apply(d, ws + [w]) == Apply(d, ws)[w.bn := w.data]
  {
    assert (ws + [w])[..|ws|] == ws;
  }

  lemma ApplyNext(d: Disk, ws: seq<Write>, k: nat)
    requires InRange(d, ws) && k < |ws|
    ensures InRange(d, ws[..k]) && InRange(d, ws[..k + 1])
    ensures ws[..k + 1] == ws[..k] + [ws[k]]
    ensures Apply(d, ws[..k + 1]) == Apply(d, ws[..k])[ws[k].bn := ws[k].data]
  {
    assert ws[..k + 1] == ws[..k] + [ws[k]];
    ApplyAppend(d, ws[..k], ws[k]);
  }

  /** From disk d and history h, the first k writes of ws have been made. */
  ghost predicate Wrote(d: Disk, h: seq<Write>, ws: seq<Write>, k: nat, d': Disk, h': seq<Write>) {
    InRange(d, ws) && k <= |ws| && d' == Apply(d, ws[..k]) && h' == h + ws[..k]
  }

  lemma WroteNone(d: Disk, h: seq<Write>, ws: seq<Write>)
    requires InRange(d, ws)
    ensures Wrote(d, h, ws, 0, d, h)
  {
    assert ws[..0] == [];
  }

  lemma WroteNext(d: Disk, h: seq<Write>, ws: seq<Write>, k: nat, d': Disk, h': seq<Write>)
    requires Wrote(d, h, ws, k, d', h') && k < |ws|
    ensures 0 <= ws[k].bn < |d'| && |d| == |d'|
    ensures Wrote(d, h, ws, k + 1, d'[ws[k].bn := ws[k].data], h' + [ws[k]])
  {
    ApplyNext(d, ws, k);
  }

  lemma WroteAll(d: Disk, h: seq<Write>, ws: seq<Write>, d': Disk, h': seq<Write>)
    requires Wrote(d, h, ws, |ws|, d', h')
    ensures InRange(d, ws) && d' == Apply(d, ws) && h' == h + ws
  {
    assert ws[..|ws|] == ws;
  }

  lemma {:induction false} ApplyConcat(d: Disk, a: seq<Write>, b: seq<Write>)
    requires InRange(d, a) && InRange(d, b)
    ensures InRange(d, a + b)
    ensures Apply(d, a + b) == Apply(Apply(d, a), b)
    decreases |b|
  {
    if b == [] {
      assert a + b == a;
    } else {
      var b', w := b[..|b| - 1], b[|b| - 1];
      ApplyConcat(d, a, b');
      assert a + b == (a + b') + [w];
      ApplyAppend(d, a + b', w);
    }
  }

  /** Two disks agree on every home block. */
  ghost predicate HomeEq(lay: Layout, d: Disk, e: Disk) {
    lay.HasDisk(d) && lay.HasDisk(e) && forall bn | lay.IsHome(bn) :: d[bn] == e[bn]
  }

  // ---------------------------------------------------------------------------------------
  // Recovery
  // ---------------------------------------------------------------------------------------

  /** The writes of install_trans: log block i goes to the i-th home block. */
  function InstallWrites(lay: Layout, d: Disk, lh: seq<int>): seq<Write>
    requires lay.HasDisk(d) && lay.GoodList(lh)
  {
    seq(|lh|, i requires 0 <= i < |lh| => Write(lh[i], d[lay.start + 1 + i]))
  }

  function ClearWrite(lay: Layout, d: Disk): Write
    requires lay.HasDisk(d)
  {
    Write(lay.start, HeaderBlock(d[lay.start], []))
  }

  /** All the writes of recover_from_log on disk d. */
  function RecoveryWrites(lay: Layout, d: Disk): (ws: seq<Write>)
    requires lay.HeadOk(d)
    ensures InRange(d, ws) && |ws| == |lay.Head(d)| + 1
  {
    InstallWrites(lay, d, lay.Head(d)) + [ClearWrite(lay, d)]
  }

  function Recovered(lay: Layout, d: Disk): Disk
    requires lay.HeadOk(d)
  {
    Apply(d, RecoveryWrites(lay, d))
  }

  /** What a prefix of the installs does: the blocks it names hold their log copies and nothing
      else has moved. */
  lemma {:induction false} ApplyInstall(lay: Layout, d: Disk, lh: seq<int>, ws: seq<Write>)
    requires lay.HasDisk(d) && lay.GoodList(lh) && |ws| <= |lh| && InRange(d, ws)
    requires forall i | 0 <= i < |ws| :: ws[i] == Write(lh[i], d[lay.start + 1 + i])
    ensures var e := Apply(d, ws);
            && (forall i | 0 <= i < |lh| :: e[lh[i]] == if i < |ws| then d[lay.start + 1 + i] else d[lh[i]])
            && (forall bn | 0 <= bn < |d| && bn !in lh :: e[bn] == d[bn])
    decreases |ws|
  {
    if ws != [] {
      var k := |ws| - 1;
      ApplyInstall(lay, d, lh, ws[..k]);
      assert lh[k] in lh && forall i | 0 <= i < |lh| && i != k :: lh[i] != lh[k];
    }
  }

  lemma InstallPrefix(lay: Layout, d: Disk, lh: seq<int>, k: nat)
    requires lay.HasDisk(d) && lay.GoodList(lh) && k <= |lh|
    ensures InRange(d, InstallWrites(lay, d, lh)[..k])
    ensures var e := Apply(d, InstallWrites(lay, d, lh)[..k]);
            && (forall i | 0 <= i < |lh| :: e[lh[i]] == if i < k then d[lay.start + 1 + i] else d[lh[i]])
            && (forall bn | 0 <= bn < |d| && bn !in lh :: e[bn] == d[bn])
  {
    ApplyInstall(lay, d, lh, InstallWrites(lay, d, lh)[..k]);
  }

  /** The log copy that install k reads is still the one d had. */
  lemma InstallReads(lay: Layout, d: Disk, lh: seq<int>, h: seq<Write>, k: nat, d': Disk, h': seq<Write>)
    requires lay.HasDisk(d) && lay.GoodList(lh) && k < |lh|
    requires Wrote(d, h, InstallWrites(lay, d, lh), k, d', h')
    ensures lay.HasDisk(d') && d'[lay.start + 1 + k] == d[lay.start + 1 + k]
  {
    InstallPrefix(lay, d, lh, k);
    assert lay.start + 1 + k !in lh;
  }

  /** e holds the log copies of d at the blocks of lh and the contents of d at the other home
      blocks: what recovery with header lh is for. */
  ghost predicate Redone(lay: Layout, lh: seq<int>, d: Disk, e: Disk)
    requires lay.HasDisk(d) && lay.GoodList(lh)
  {
    && |e| == |d|
    && (forall i | 0 <= i < |lh| :: e[lh[i]] == d[lay.start + 1 + i])
    && (forall bn | lay.IsHome(bn) && bn !in lh :: e[bn] == d[bn])
  }

  lemma RecoveredMeaning(lay: Layout, d: Disk)
    requires lay.HeadOk(d)
    ensures lay.HeadOk(Recovered(lay, d)) && lay.Head(Recovered(lay, d)) == []
    ensures Redone(lay, lay.Head(d), d, Recovered(lay, d))
  {
    var lh := lay.Head(d);
    var ws := InstallWrites(lay, d, lh);
    InstallPrefix(lay, d, lh, |lh|);
    assert ws[..|lh|] == ws;
    ApplyAppend(d, ws, ClearWrite(lay, d));
    assert lay.start !in lh;
    var e := Recovered(lay, d);
    assert e[lay.start][1..1] == [];
  }

  /** The two phases of recovery put together: the installs give d1, which the cleared header
      turns into the recovered disk. */
  lemma RecoveryPhases(lay: Layout, d: Disk, d1: Disk)
    requires lay.HeadOk(d)
    requires InRange(d, InstallWrites(lay, d, lay.Head(d))) && d1 == Apply(d, InstallWrites(lay, d, lay.Head(d)))
    ensures d1[lay.start] == d[lay.start]
    ensures Recovered(lay, d) == d1[lay.start := HeaderBlock(d1[lay.start], [])]
  {
    HeaderUntouched(lay, d, lay.Head(d));
    ApplyAppend(d, InstallWrites(lay, d, lay.Head(d)), ClearWrite(lay, d));
  }

  /** Installing again over a disk where some of the copies have already landed. */
  lemma RedoneAgain(lay: Layout, lh: seq<int>, d: Disk, d': Disk, e: Disk, e': Disk)
    requires lay.HasDisk(d) && lay.HasDisk(d') && lay.GoodList(lh)
    requires forall bn | lay.start <= bn < lay.start + lay.size :: d'[bn] == d[bn]
    requires forall bn | lay.IsHome(bn) && bn !in lh :: d'[bn] == d[bn]
    requires Redone(lay, lh, d, e) && Redone(lay, lh, d', e')
    ensures HomeEq(lay, e, e')
  {
    forall bn | lay.IsHome(bn) ensures e[bn] == e'[bn] {
      if bn in lh {
        var i :| 0 <= i < |lh| && lh[i] == bn;
      }
    }
  }

  lemma InstallInterrupted(lay: Layout, d: Disk, k: nat)
    requires lay.HeadOk(d) && k <= |lay.Head(d)|
    ensures InRange(d, InstallWrites(lay, d, lay.Head(d))[..k])
    ensures var e := Apply(d, InstallWrites(lay, d, lay.Head(d))[..k]);
            lay.HeadOk(e) && HomeEq(lay, Recovered(lay, e), Recovered(lay, d))
  {
    hide Apply, Recovered, Redone;
    var lh := lay.Head(d);
    InstallPrefix(lay, d, lh, k);
    var e := Apply(d, InstallWrites(lay, d, lh)[..k]);
    LogUntouched(lay, d, lh, e);
    RecoveredMeaning(lay, d);
    RecoveredMeaning(lay, e);
    RedoneAgain(lay, lh, d, e, Recovered(lay, d), Recovered(lay, e));
  }

  /** Writes to home blocks leave the log region and its header alone. */
  lemma LogUntouched(lay: Layout, d: Disk, lh: seq<int>, e: Disk)
    requires lay.HeadOk(d) && lay.GoodList(lh) && |e| == |d| && forall bn | 0 <= bn < |d| && bn !in lh :: e[bn] == d[bn]
    ensures forall bn | lay.start <= bn < lay.start + lay.size :: e[bn] == d[bn]
    ensures lay.HeadOk(e) && lay.Head(e) == lay.Head(d)
  {
    assert forall bn | lay.start <= bn < lay.start + lay.size :: bn !in lh;
    assert e[lay.start] == d[lay.start];
  }

  /** Cutting recovery short after any number of its writes and running it again from the
      start gives the home blocks that an uninterrupted recovery gives. */
  lemma RecoveryInterrupted(lay: Layout, d: Disk, k: nat)
    requires lay.HeadOk(d) && k <= |RecoveryWrites(lay, d)|
    ensures InRange(d, RecoveryWrites(lay, d)[..k])
    ensures var e := Apply(d, RecoveryWrites(lay, d)[..k]);
            lay.HeadOk(e) && HomeEq(lay, Recovered(lay, e), Recovered(lay, d))
  {
    var lh, ws := lay.Head(d), RecoveryWrites(lay, d);
    if k <= |lh| {
      assert ws[..k] == InstallWrites(lay, d, lh)[..k];
      InstallInterrupted(lay, d, k);
    } else {
      assert ws[..k] == ws;
      RecoveredMeaning(lay, d);
      RecoveredMeaning(lay, Recovered(lay, d));
    }
  }

  /** The disk after a series of recoveries, the j-th of which loses power after ks[j] of its
      writes. None when some ks[j] exceeds the writes that recovery has. */
  function Interrupted(lay: Layout, d: Disk, ks: seq<nat>): (r: Maybe)
    requires lay.HeadOk(d)
    ensures r.Just? ==> lay.HeadOk(r.disk) && HomeEq(lay, Recovered(lay, r.disk), Recovered(lay, d))
    decreases |ks|
  {
    if ks == [] then Just(d)
    else if ks[0] > |RecoveryWrites(lay, d)| then Nothing
    else
      RecoveryInterrupted(lay, d, ks[0]);
      Interrupted(lay, Apply(d, RecoveryWrites(lay, d)[..ks[0]]), ks[1..])
  }

  datatype Maybe = Nothing | Just(disk: Disk)

  // ---------------------------------------------------------------------------------------
  // Commit
  // ---------------------------------------------------------------------------------------

  /** The writes of write_log. */
  function LogCopies(lay: Layout, lh: seq<int>, cached: map<int, Block>): (ws: seq<Write>)
    requires forall i | 0 <= i < |lh| :: lh[i] in cached
  {
    seq(|lh|, i requires 0 <= i < |lh| => Write(lay.start + 1 + i, cached[lh[i]]))
  }

  function HomeCopies(lh: seq<int>, cached: map<int, Block>): seq<Write>
    requires forall i | 0 <= i < |lh| :: lh[i] in cached
  {
    seq(|lh|, i requires 0 <= i < |lh| => Write(lh[i], cached[lh[i]]))
  }

  /** All the writes of commit() when the cached contents of the logged blocks are `cached`:
      log copies, header, home copies, empty header. */
  function CommitWrites(lay: Layout, d: Disk, lh: seq<int>, cached: map<int, Block>): (ws: seq<Write>)
    requires lay.HasDisk(d) && lay.GoodList(lh) && forall i | 0 <= i < |lh| :: lh[i] in cached
    ensures InRange(d, ws)
    ensures |ws| == if lh == [] then 0 else 2 * |lh| + 2
  {
    if lh == [] then []
    else
      var head := HeaderBlock(d[lay.start], lh);
      LogCopies(lay, lh, cached) + [Write(lay.start, head)]
      + HomeCopies(lh, cached) + [Write(lay.start, HeaderBlock(head, []))]
  }

  /** The disk e that k of the commit writes leave; full and empty are the two header blocks. */
  ghost predicate CommitState(lay: Layout, d: Disk, lh: seq<int>, cached: map<int, Block>,
                              full: Block, empty: Block, k: nat, e: Disk)
    requires lay.HasDisk(d) && lay.GoodList(lh) && forall i | 0 <= i < |lh| :: lh[i] in cached
  {
    var n := |lh|;
    && |e| == |d|
    && (forall i | 0 <= i < n && i < k :: e[lay.start + 1 + i] == cached[lh[i]])
    && e[lay.start] == (if k <= n then d[lay.start] else if k <= 2 * n + 1 then full else empty)
    && (forall i | 0 <= i < n :: e[lh[i]] == if i < k - n - 1 then cached[lh[i]] else d[lh[i]])
    && (forall bn | lay.IsHome(bn) && bn !in lh :: e[bn] == d[bn])
  }

  /** w is the k-th write of commit, by phase. */
  ghost predicate IsCommitWrite(lay: Layout, lh: seq<int>, cached: map<int, Block>,
                                full: Block, empty: Block, k: nat, w: Write)
    requires forall i | 0 <= i < |lh| :: lh[i] in cached
    requires k < 2 * |lh| + 2
  {
    var n := |lh|;
    if k < n then w == Write(lay.start + 1 + k, cached[lh[k]])
    else if k == n then w == Write(lay.start, full)
    else if k <= 2 * n then w == Write(lh[k - n - 1], cached[lh[k - n - 1]])
    else w == Write(lay.start, empty)
  }

  lemma CommitStep(lay: Layout, d: Disk, lh: seq<int>, cached: map<int, Block>,
                   full: Block, empty: Block, k: nat, w: Write, e: Disk)
    requires lay.HasDisk(d) && lay.GoodList(lh) && forall i | 0 <= i < |lh| :: lh[i] in cached
    requires k < 2 * |lh| + 2 && IsCommitWrite(lay, lh, cached, full, empty, k, w) && 0 <= w.bn < |d|
    requires CommitState(lay, d, lh, cached, full, empty, k, e)
    ensures CommitState(lay, d, lh, cached, full, empty, k + 1, e[w.bn := w.data])
  {
    if |lh| < k <= 2 * |lh| {
      HomeStep(lay, d, lh, cached, full, empty, k, w, e);
    } else {
      LogStep(lay, d, lh, cached, full, empty, k, w, e);
    }
  }

  lemma HomeStep(lay: Layout, d: Disk, lh: seq<int>, cached: map<int, Block>,
                 full: Block, empty: Block, k: nat, w: Write, e: Disk)
    requires lay.HasDisk(d) && lay.GoodList(lh) && forall i | 0 <= i < |lh| :: lh[i] in cached
    requires |lh| < k <= 2 * |lh| && w == Write(lh[k - |lh| - 1], cached[lh[k - |lh| - 1]])
    requires CommitState(lay, d, lh, cached, full, empty, k, e)
    ensures CommitState(lay, d, lh, cached, full, empty, k + 1, e[w.bn := w.data])
  {
    assert lay.IsHome(w.bn) && w.bn in lh;
    assert forall i | 0 <= i < |lh| && i != k - |lh| - 1 :: lh[i] != w.bn;
  }

  lemma LogStep(lay: Layout, d: Disk, lh: seq<int>, cached: map<int, Block>,
                full: Block, empty: Block, k: nat, w: Write, e: Disk)
    requires lay.HasDisk(d) && lay.GoodList(lh) && forall i | 0 <= i < |lh| :: lh[i] in cached
    requires k < 2 * |lh| + 2 && !(|lh| < k <= 2 * |lh|) && IsCommitWrite(lay, lh, cached, full, empty, k, w)
    requires CommitState(lay, d, lh, cached, full, empty, k, e)
    ensures 0 <= w.bn < |d| && CommitState(lay, d, lh, cached, full, empty, k + 1, e[w.bn := w.data])
  {
    assert !lay.IsHome(w.bn);
    assert forall i | 0 <= i < |lh| :: lh[i] != w.bn;
  }

  lemma {:induction false} ApplyCommit(lay: Layout, d: Disk, lh: seq<int>, cached: map<int, Block>,
                                       full: Block, empty: Block, ws: seq<Write>)
    requires lay.HasDisk(d) && lay.GoodList(lh) && forall i | 0 <= i < |lh| :: lh[i] in cached
    requires |ws| <= 2 * |lh| + 2 && InRange(d, ws)
    requires forall k | 0 <= k < |ws| :: IsCommitWrite(lay, lh, cached, full, empty, k, ws[k])
    ensures CommitState(lay, d, lh, cached, full, empty, |ws|, Apply(d, ws))
    decreases |ws|
  {
    if ws != [] {
      var k := |ws| - 1;
      ApplyCommit(lay, d, lh, cached, full, empty, ws[..k]);
      CommitStep(lay, d, lh, cached, full, empty, k, ws[k], Apply(d, ws[..k]));
    }
  }

  lemma CommitPrefix(lay: Layout, d: Disk, lh: seq<int>, cached: map<int, Block>, k: nat)
    requires lay.HasDisk(d) && lay.GoodList(lh) && forall i | 0 <= i < |lh| :: lh[i] in cached
    requires k <= |CommitWrites(lay, d, lh, cached)|
    ensures InRange(d, CommitWrites(lay, d, lh, cached)[..k])
    ensures var full := HeaderBlock(d[lay.start], lh);
            CommitState(lay, d, lh, cached, full, HeaderBlock(full, []), k,
                        Apply(d, CommitWrites(lay, d, lh, cached)[..k]))
  {
    hide Apply, CommitState, HeaderBlock;
    var full := HeaderBlock(d[lay.start], lh);
    var ws := CommitWrites(lay, d, lh, cached);
    ApplyCommit(lay, d, lh, cached, full, HeaderBlock(full, []), ws[..k]);
  }

  /** The four phases of commit put together: log copies give d1, the header d2, the installs
      d3, and the cleared header ends where all the writes of commit end. */
  lemma CommitPhases(lay: Layout, d: Disk, lh: seq<int>, cached: map<int, Block>, d1: Disk, d2: Disk, d3: Disk)
    requires lay.HasDisk(d) && lay.GoodList(lh) && forall i | 0 <= i < |lh| :: lh[i] in cached
    requires lh != []
    requires InRange(d, LogCopies(lay, lh, cached)) && d1 == Apply(d, LogCopies(lay, lh, cached))
    requires d2 == d1[lay.start := HeaderBlock(d1[lay.start], lh)]
    requires InRange(d2, InstallWrites(lay, d2, lh)) && d3 == Apply(d2, InstallWrites(lay, d2, lh))
    ensures CommitWrites(lay, d, lh, cached)
         == LogCopies(lay, lh, cached) + [Write(lay.start, HeaderBlock(d1[lay.start], lh))]
            + InstallWrites(lay, d2, lh) + [Write(lay.start, HeaderBlock(d3[lay.start], []))]
    ensures Apply(d, CommitWrites(lay, d, lh, cached)) == d3[lay.start := HeaderBlock(d3[lay.start], [])]
  {
    hide Apply, LogCopies, HomeCopies, InstallWrites, CommitState;
    var full := HeaderBlock(d[lay.start], lh);
    var empty := HeaderBlock(full, []);
    CopiedToLog(lay, d, lh, cached, d1, d2);
    HeaderUntouched(lay, d2, lh);
    ApplyPhases(d, LogCopies(lay, lh, cached), Write(lay.start, full), HomeCopies(lh, cached), Write(lay.start, empty));
  }

  /** What a prefix of the log copies does. */
  lemma {:induction false} ApplyCopies(lay: Layout, d: Disk, lh: seq<int>, cached: map<int, Block>, ws: seq<Write>)
    requires lay.HasDisk(d) && lay.GoodList(lh) && |ws| <= |lh| && InRange(d, ws)
    requires forall i | 0 <= i < |lh| :: lh[i] in cached
    requires forall i | 0 <= i < |ws| :: ws[i] == Write(lay.start + 1 + i, cached[lh[i]])
    ensures var e := Apply(d, ws);
            && (forall i | 0 <= i < |ws| :: e[lay.start + 1 + i] == cached[lh[i]])
            && (forall b | 0 <= b < |d| && !(lay.start < b <= lay.start + |ws|) :: e[b] == d[b])
    decreases |ws|
  {
    if ws != [] {
      ApplyCopies(lay, d, lh, cached, ws[..|ws| - 1]);
    }
  }

  /** write_log puts the copy of the i-th block of the list into the i-th block behind the header. */
  lemma CopiesPlaced(lay: Layout, d: Disk, lh: seq<int>, cached: map<int, Block>)
    requires lay.HasDisk(d) && lay.GoodList(lh) && forall i | 0 <= i < |lh| :: lh[i] in cached
    ensures InRange(d, LogCopies(lay, lh, cached))
    ensures var e := Apply(d, LogCopies(lay, lh, cached));
            && (forall i | 0 <= i < |lh| :: e[lay.start + 1 + i] == cached[lh[i]])
            && (forall b | 0 <= b < |d| && !(lay.start < b <= lay.start + |lh|) :: e[b] == d[b])
  {
    hide Apply;
    ApplyCopies(lay, d, lh, cached, LogCopies(lay, lh, cached));
  }

  /** install_trans finds in the log what write_log has put there. */
  lemma CopiedToLog(lay: Layout, d: Disk, lh: seq<int>, cached: map<int, Block>, d1: Disk, d2: Disk)
    requires lay.HasDisk(d) && lay.GoodList(lh) && forall i | 0 <= i < |lh| :: lh[i] in cached
    requires InRange(d, LogCopies(lay, lh, cached)) && d1 == Apply(d, LogCopies(lay, lh, cached))
    requires d2 == d1[lay.start := HeaderBlock(d1[lay.start], lh)]
    ensures d1[lay.start] == d[lay.start] && lay.HasDisk(d2)
    ensures InstallWrites(lay, d2, lh) == HomeCopies(lh, cached) && InRange(d, HomeCopies(lh, cached))
  {
    hide Apply;
    var full := HeaderBlock(d[lay.start], lh);
    ApplyCommit(lay, d, lh, cached, full, HeaderBlock(full, []), LogCopies(lay, lh, cached));
    assert forall i | 0 <= i < |lh| :: d2[lay.start + 1 + i] == cached[lh[i]];
  }

  lemma HeaderUntouched(lay: Layout, d: Disk, lh: seq<int>)
    requires lay.HasDisk(d) && lay.GoodList(lh)
    ensures InRange(d, InstallWrites(lay, d, lh))
    ensures Apply(d, InstallWrites(lay, d, lh))[lay.start] == d[lay.start]
  {
    InstallPrefix(lay, d, lh, |lh|);
    assert InstallWrites(lay, d, lh)[..|lh|] == InstallWrites(lay, d, lh);
    assert lay.start !in lh;
  }

  lemma ApplyPhases(d: Disk, a: seq<Write>, w: Write, b: seq<Write>, w': Write)
    requires InRange(d, a) && InRange(d, b) && 0 <= w.bn < |d| && 0 <= w'.bn < |d|
    ensures InRange(d, a + [w] + b + [w'])
    ensures Apply(d, a + [w] + b + [w']) == Apply(Apply(d, a)[w.bn := w.data], b)[w'.bn := w'.data]
  {
    ApplyAppend(d, a, w);
    ApplyConcat(d, a + [w], b);
    ApplyAppend(d, a + [w] + b, w');
  }

  /** The home blocks of d with the logged blocks replaced by their cached contents. */
  ghost predicate Installed(lay: Layout, d: Disk, lh: seq<int>, cached: map<int, Block>, e: Disk)
    requires lay.HasDisk(d) && lay.HasDisk(e) && lay.GoodList(lh) && forall i | 0 <= i < |lh| :: lh[i] in cached
  {
    && (forall i | 0 <= i < |lh| :: e[lh[i]] == cached[lh[i]])
    && (forall bn | lay.IsHome(bn) && bn !in lh :: e[bn] == d[bn])
  }

  /** An uninterrupted commit installs every logged block and leaves the log empty. */
  lemma CommitCompletes(lay: Layout, d: Disk, lh: seq<int>, cached: map<int, Block>)
    requires lay.HeadOk(d) && lay.Head(d) == []
    requires lay.GoodList(lh) && forall i | 0 <= i < |lh| :: lh[i] in cached
    ensures var e := Apply(d, CommitWrites(lay, d, lh, cached));
            lay.HeadOk(e) && lay.Head(e) == [] && Installed(lay, d, lh, cached, e)
  {
    var ws := CommitWrites(lay, d, lh, cached);
    if lh != [] {
      hide Apply, CommitWrites;
      CommitPrefix(lay, d, lh, cached, |ws|);
      assert ws[..|ws|] == ws;
      CommitEnd(lay, d, lh, cached, Apply(d, ws));
    }
  }

  lemma CommitEnd(lay: Layout, d: Disk, lh: seq<int>, cached: map<int, Block>, e: Disk)
    requires lay.HasDisk(d) && lay.GoodList(lh) && forall i | 0 <= i < |lh| :: lh[i] in cached
    requires var full := HeaderBlock(d[lay.start], lh);
             CommitState(lay, d, lh, cached, full, HeaderBlock(full, []), 2 * |lh| + 2, e)
    ensures lay.HeadOk(e) && lay.Head(e) == [] && Installed(lay, d, lh, cached, e)
  {
    assert e[lay.start][0] == 0 && e[lay.start][1..1] == [];
  }

  lemma CommitStateMeaning(lay: Layout, d: Disk, lh: seq<int>, cached: map<int, Block>, k: nat, e: Disk)
    requires lay.HeadOk(d) && lay.Head(d) == []
    requires lay.GoodList(lh) && forall i | 0 <= i < |lh| :: lh[i] in cached
    requires var full := HeaderBlock(d[lay.start], lh);
             k <= 2 * |lh| + 2 && CommitState(lay, d, lh, cached, full, HeaderBlock(full, []), k, e)
    ensures lay.HeadOk(e)
    ensures k <= |lh| ==> HomeEq(lay, Recovered(lay, e), d)
    ensures k > |lh| ==> Installed(lay, d, lh, cached, Recovered(lay, e))
  {
    if k <= |lh| {
      assert e[lay.start] == d[lay.start];
      RecoveredMeaning(lay, e);
    } else if k <= 2 * |lh| + 1 {
      assert e[lay.start][1..1 + |lh|] == lh;
      RecoveredMeaning(lay, e);
    } else {
      assert e[lay.start][1..1] == [];
      RecoveredMeaning(lay, e);
    }
  }

  /** Crash atomicity of commit: power is lost after k of its writes. Up to and including the
      last log copy recovery restores the old home blocks; from the header write on it
      produces all the new ones. */
  lemma CommitCrashAtomic(lay: Layout, d: Disk, lh: seq<int>, cached: map<int, Block>, k: nat)
    requires lay.HeadOk(d) && lay.Head(d) == []
    requires lay.GoodList(lh) && forall i | 0 <= i < |lh| :: lh[i] in cached
    requires k <= |CommitWrites(lay, d, lh, cached)|
    ensures InRange(d, CommitWrites(lay, d, lh, cached)[..k])
    ensures var e := Apply(d, CommitWrites(lay, d, lh, cached)[..k]);
            && lay.HeadOk(e)
            && (k <= |lh| ==> HomeEq(lay, Recovered(lay, e), d))
            && (k > |lh| ==> Installed(lay, d, lh, cached, Recovered(lay, e)))
  {
    CommitPrefix(lay, d, lh, cached, k);
    CommitStateMeaning(lay, d, lh, cached, k, Apply(d, CommitWrites(lay, d, lh, cached)[..k]));
  }

  /** The same with any number of interrupted recoveries between the crash and the recovery
      that finally completes. */
  lemma CommitCrashTheorem(lay: Layout, d: Disk, lh: seq<int>, cached: map<int, Block>, k: nat, ks: seq<nat>)
    requires lay.HeadOk(d) && lay.Head(d) == []
    requires lay.GoodList(lh) && forall i | 0 <= i < |lh| :: lh[i] in cached
    requires k <= |CommitWrites(lay, d, lh, cached)|
    ensures InRange(d, CommitWrites(lay, d, lh, cached)[..k])
    ensures var e := Apply(d, CommitWrites(lay, d, lh, cached)[..k]);
            && lay.HeadOk(e)
            && (Interrupted(lay, e, ks).Just? ==>
                  var r := Recovered(lay, Interrupted(lay, e, ks).disk);
                  && lay.HeadOk(r) && lay.Head(r) == []
                  && (k <= |lh| ==> HomeEq(lay, r, d))
                  && (k > |lh| ==> Installed(lay, d, lh, cached, r)))
  {
    CommitCrashAtomic(lay, d, lh, cached, k);
    var e := Apply(d, CommitWrites(lay, d, lh, cached)[..k]);
    if Interrupted(lay, e, ks).Just? {
      RecoveredMeaning(lay, Interrupted(lay, e, ks).disk);
    }
  }
}

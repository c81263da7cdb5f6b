/** The users of writei in xv6/file.c: filewrite, which cuts a write into transactions, and
    change_file_size. No other process works on the file between the pieces. */
module FileCalls {
  import opened FsLayout
  import opened Ownership
  import opened FileBytes
  import opened Fs
  import opened Basics

  /** A struct file of type FD_INODE. */
  class OpenFile {
    var writable: bool
    var off: Uint
  }

  /** The most bytes that filewrite hands to writei at a time. */
  const CHUNK := (MAXOPBLOCKS - 1 - 1 - 2) / 2 * 512

  /** A number of whole chunks. */
  predicate Whole(i: nat) {
    i % CHUNK == 0
  }

  lemma WholeNone()
    ensures Whole(0)
  {
  }

  lemma WholeMore(i: nat)
    requires Whole(i)
    ensures Whole(i + CHUNK)
  {
  }

  /** The bytes of k chunks of a write of n. */
  function Chunks(k: nat, n: int): nat {
    if n < 0 then 0 else if k * CHUNK < n then k * CHUNK else n
  }

  lemma NextChunk(k: nat, n: int)
    requires Chunks(k, n) < n
    ensures Chunks(k, n) == k * CHUNK
    ensures Chunks(k + 1, n) == Chunks(k, n) + if n - Chunks(k, n) > CHUNK then CHUNK else n - Chunks(k, n)
  {
  }

  /** A chunk never needs more than the blocks that begin_op reserves, wherever it starts and
      whatever has to be allocated for it. */
  lemma ChunkFits(off: nat, n: nat)
    requires n <= CHUNK
    ensures LogLimit(off, n) <= MAXOPBLOCKS
  {
  }

  /** And no larger number of blocks would do: a chunk can come to the bound, and one a block longer goes beyond it
      wherever it starts. */
  lemma ChunkLargest(off: nat)
    ensures LogLimit(1, CHUNK) == MAXOPBLOCKS && LogLimit(off, CHUNK + BSIZE) > MAXOPBLOCKS
  {
  }

  /** The first i bytes of addr are in the file at off; up to there nothing has gone wrong. */
  ghost predicate Sent(sb: Super, s: State, off: nat, addr: seq<Byte>, i: nat, s': State) {
    && Shape(sb, s) && AllFilled(sb, s) && i <= |addr|
    && if i == 0 then s' == s else off <= s.ip.size && Wrote(sb, s, off, addr[..i], s')
  }

  lemma ValidState(fs: FileSystem)
    requires fs.Valid()
    ensures Shape(fs.sb, fs.Now()) && AllFilled(fs.sb, fs.Now()) && Synced(fs.sb, fs.Now())
    ensures Inv(fs.sb, fs.Now(), fs.owner, {})
  {
  }

  lemma SentStart(sb: Super, s: State, off: nat, addr: seq<Byte>)
    requires Shape(sb, s) && AllFilled(sb, s)
    ensures Sent(sb, s, off, addr, 0, s)
  {
  }

  lemma SentMore(sb: Super, s: State, off: nat, addr: seq<Byte>, i: nat, s1: State, m: nat, s2: State)
    requires Sent(sb, s, off, addr, i, s1) && Shape(sb, s1) && AllFilled(sb, s1) && m > 0 && i + m <= |addr|
    requires off + i <= s1.ip.size && Wrote(sb, s1, off + i, addr[i..i + m], s2)
    ensures Sent(sb, s, off, addr, i + m, s2)
  {
    hide Wrote;
    if i == 0 {
      assert addr[..m] == addr[0..m];
    } else {
      WroteTwice(sb, s, off, addr[..i], s1, addr[i..i + m], s2);
      assert addr[..i + m] == addr[..i] + addr[i..i + m];
    }
  }

  lemma SentSize(sb: Super, s: State, off: nat, addr: seq<Byte>, i: nat, s': State)
    requires Sent(sb, s, off, addr, i, s')
    ensures s'.ip.typ == s.ip.typ
    ensures if i == 0 then s' == s else off <= s.ip.size && off + i <= s'.ip.size
  {
    hide Wrote;
    if i > 0 { WroteSize(sb, s, off, addr[..i], s'); }
  }

  /** One turn of the loop of filewrite: a transaction for one chunk. */
  method WriteChunk(fs: FileSystem, f: OpenFile, src: seq<Byte>) returns (w: Result)
    requires fs.Valid() && 0 < |src| <= CHUNK
    modifies fs, f`off
    ensures w == ToDevice ==> old(fs.ip).typ == T_DEV
    ensures w == Panicked ==> |fs.disk| == fs.sb.size && Full(fs.sb, fs.disk)
    ensures w == Failed ==> fs.Valid() && f.off == old(f.off) && fs.Now() == old(fs.Now())
    ensures w == Failed && old(fs.ip).typ != T_DEV ==> f.off > fs.ip.size || f.off + |src| > MAXSIZE
    ensures w.Count? ==> fs.Valid() && |fs.logged| <= MAXOPBLOCKS && f.off == old(f.off) + |src|
    ensures w.Count? ==> old(f.off) <= old(fs.ip).size && Shape(fs.sb, old(fs.Now())) && AllFilled(fs.sb, old(fs.Now()))
                         && Wrote(fs.sb, old(fs.Now()), old(f.off), src, fs.Now())
    ensures w.Count? ==> old(f.off) + |src| <= MAXSIZE
    ensures fs.others == old(fs.others) && (w.Count? ==> Touched(fs.sb, old(fs.disk), {}, fs.disk, fs.logged))
  {
    hide FileSystem.Valid, Wrote, Full, AllFilled, Synced, Inv, Touched;
    ValidState(fs);
    fs.BeginOp();
    w := fs.Writei(src, f.off);
    if w.Count? {
      ChunkFits(f.off, |src|);
      assert fs.logged - {} == fs.logged;
      f.off := f.off + |src|;
    }
  }

  lemma ChainNone(sb: Super, s: State)
    ensures Chained(sb, s, [], [])
  {
  }

  lemma WroteInode(sb: Super, s: State, off: nat, src: seq<Byte>, s': State)
    requires Shape(sb, s) && AllFilled(sb, s) && off <= s.ip.size && Wrote(sb, s, off, src, s')
    ensures s'.inum == s.inum
  {
  }

  /** The state before transaction k, and after the last. */
  function Before(s: State, stops: seq<State>, k: nat): State
    requires k <= |stops|
  {
    if k == 0 then s else stops[k - 1]
  }

  /** A transaction leads from each state to the next: whatever differs is among the blocks that it has
      logged, and in between each block has its one owner. */
  ghost predicate Chained(sb: Super, s: State, stops: seq<State>, txns: seq<set<nat>>) {
    && |stops| == |txns|
    && (forall k | 0 <= k < |txns| :: |txns[k]| <= MAXOPBLOCKS
                                      && Touched(sb, Before(s, stops, k).disk, {}, stops[k].disk, txns[k]))
    && (forall k | 0 <= k < |stops| :: InOrder(sb, s, stops[k]))
  }

  ghost predicate InOrder(sb: Super, s: State, s': State) {
    s'.inum == s.inum && s'.others == s.others && exists owner :: Inv(sb, s', owner, {})
  }

  lemma ChainMore(sb: Super, s: State, stops: seq<State>, txns: seq<set<nat>>, s': State, log: set<nat>, owner: Owner)
    requires Chained(sb, s, stops, txns) && Touched(sb, Before(s, stops, |stops|).disk, {}, s'.disk, log)
    requires |log| <= MAXOPBLOCKS && s'.inum == s.inum && s'.others == s.others && Inv(sb, s', owner, {})
    ensures Chained(sb, s, stops + [s'], txns + [log])
  {
    hide Touched, Inv;
    assert InOrder(sb, s, s');
    hide InOrder;
    var stops', txns' := stops + [s'], txns + [log];
    forall k | 0 <= k < |txns'|
      ensures |txns'[k]| <= MAXOPBLOCKS && Touched(sb, Before(s, stops', k).disk, {}, stops'[k].disk, txns'[k])
    {
      assert Before(s, stops', k) == Before(s, stops, k);
    }
  }

  /** filewrite of n bytes: all of them, or as many whole chunks as fit. It gives up exactly when
      the range starts behind the end of the file or would end behind the largest possible file. Each
      entry of txns is what one transaction has logged, and the entry of stops the file system
      after it: between transactions the file holds whole chunks. */
  method Filewrite(fs: FileSystem, f: OpenFile, addr: seq<Byte>, n: int)
      returns (r: Result, ghost txns: seq<set<nat>>, ghost stops: seq<State>)
    requires fs.Valid() && n <= |addr| && n < 0x8000_0000
    modifies fs, f
    ensures r == ToDevice ==> old(fs.ip).typ == T_DEV
    ensures r == Panicked ==> |fs.disk| == fs.sb.size && Full(fs.sb, fs.disk)
    ensures Chained(fs.sb, old(fs.Now()), stops, txns)
    ensures forall k | 0 <= k < |stops| :: Sent(fs.sb, old(fs.Now()), old(f.off), addr, Chunks(k + 1, n), stops[k])
    ensures r.Count? ==> r.n == n && f.off == old(f.off) + n && fs.Valid()
                         && Sent(fs.sb, old(fs.Now()), old(f.off), addr, n, fs.Now())
    ensures r.Count? ==> old(f.writable) && n >= 0
                         && (n > 0 ==> old(f.off) <= old(fs.ip).size && old(f.off) + n <= MAXSIZE)
    ensures r == Failed ==>
              var i := f.off - old(f.off);
              && 0 <= i <= |addr| && Whole(i) && fs.Valid()
              && Sent(fs.sb, old(fs.Now()), old(f.off), addr, i, fs.Now())
              && (old(f.writable) && n >= 0 && old(fs.ip).typ != T_DEV ==>
                    i < n && (old(f.off) > old(fs.ip).size || (old(f.off) + i + CHUNK > MAXSIZE
                        && old(f.off) + n > MAXSIZE)))
  {
    hide FileSystem.Valid, Wrote, Sent, Full, AllFilled, Synced, Inv, Whole, Touched, Chained;
    txns, stops := [], [];
    ChainNone(fs.sb, fs.Now());
    ValidState(fs);
    SentStart(fs.sb, fs.Now(), f.off, addr);
    WholeNone();
    if !f.writable {
      return Failed, txns, stops;
    }
    var i := 0;
    while i < n
      invariant fs.Valid() && f.off == old(f.off) + i && 0 <= i && (i <= n || i == 0)
      invariant Sent(fs.sb, old(fs.Now()), old(f.off), addr, i, fs.Now())
      invariant Whole(i) || i == n
      invariant i > 0 ==> old(f.off) <= old(fs.ip).size && old(f.off) + i <= MAXSIZE
      invariant Chained(fs.sb, old(fs.Now()), stops, txns) && fs.Now() == Before(old(fs.Now()), stops, |stops|)
      invariant fs.inum == old(fs.inum) && fs.others == old(fs.others)
      invariant n > 0 ==> i == Chunks(|stops|, n)
      invariant forall k | 0 <= k < |stops| :: Sent(fs.sb, old(fs.Now()), old(f.off), addr, Chunks(k + 1, n), stops[k])
    {
      var n1 := if n - i > CHUNK then CHUNK else n - i;
      WholeMore(i);
      ghost var s := fs.Now();
      SentSize(fs.sb, old(fs.Now()), old(f.off), addr, i, s);
      var w := WriteChunk(fs, f, addr[i..i + n1]);
      if w == Panicked || w == ToDevice {
        return w, txns, stops;
      }
      if w == Failed {
        break;
      }
      SentMore(fs.sb, old(fs.Now()), old(f.off), addr, i, s, n1, fs.Now());
      i := i + n1;
      NextChunk(|stops|, n);
      ValidState(fs);
      WroteInode(fs.sb, s, f.off - n1, addr[i - n1..i], fs.Now());
      ChainMore(fs.sb, old(fs.Now()), stops, txns, fs.Now(), fs.logged, fs.owner);
      txns, stops := txns + [fs.logged], stops + [fs.Now()];
    }
    r := if i == n then Count(n) else Failed;
  }

  // ---------------------------------------------------------------------------------------
  // change_file_size
  // ---------------------------------------------------------------------------------------

  function Zeros(n: nat): seq<Byte> {
    seq(n, i => 0)
  }

  /** A byte string cut off or padded with zeros. */
  ghost function Fit(f: seq<Byte>, length: nat): seq<Byte> {
    if length <= |f| then f[..length] else f + Zeros(length - |f|)
  }

  /** The new length, the old bytes as far as they go, and zeros behind them. */
  lemma FitMeans(f: seq<Byte>, length: nat)
    ensures |Fit(f, length)| == length
    ensures forall x | 0 <= x < length :: Fit(f, length)[x] == if x < |f| then f[x] else 0
  {
  }

  /** File ino is now f, the others are as they were, and all is in order. */
  ghost predicate Became(sb: Super, s: State, ino: nat, f: seq<Byte>, s': State)
    requires Shape(sb, s) && AllFilled(sb, s)
  {
    && Shape(sb, s') && AllFilled(sb, s') && Synced(sb, s') && ino < sb.ninodes
    && File(sb, s', ino) == f
    && Node(sb, s', ino) == Node(sb, s, ino).(size := Node(sb, s', ino).size, addrs := Node(sb, s', ino).addrs)
    && (forall i | 0 <= i < sb.ninodes && i != ino ::
          File(sb, s', i) == File(sb, s, i) && Node(sb, s', i) == Node(sb, s, i))
  }

  /** The size is set beyond what an inode can map; the other files are as they were. */
  ghost predicate Broken(sb: Super, s: State, s': State, ino: nat, length: nat)
    requires Shape(sb, s) && AllFilled(sb, s)
  {
    && Shape(sb, s') && s'.inum == ino && s'.ip.size == length > MAXSIZE && !Filled(sb, s', ino)
    && (forall i | 0 <= i < sb.ninodes && i != ino ::
          Filled(sb, s', i) && File(sb, s', i) == File(sb, s, i) && Node(sb, s', i) == Node(sb, s, i))
  }

  /** Growing so far: the file is its old contents and zeros. */
  ghost predicate Padded(sb: Super, s: State, s': State)
    requires Shape(sb, s) && AllFilled(sb, s)
  {
    && s'.inum == s.inum && s.ip.size <= s'.ip.size <= MAXSIZE
    && Wrote(sb, s, s.ip.size, Zeros(s'.ip.size - s.ip.size), s')
  }

  lemma PaddedStart(sb: Super, s: State)
    requires Shape(sb, s) && AllFilled(sb, s) && Synced(sb, s)
    ensures Padded(sb, s, s)
  {
    hide Wrote;
    assert Filled(sb, s, s.inum);
    assert Zeros(0) == [];
    WroteNothing(sb, s, s.ip.size);
  }

  lemma PaddedMore(sb: Super, s: State, s1: State, n: nat, s2: State)
    requires Shape(sb, s) && AllFilled(sb, s) && Padded(sb, s, s1) && n > 0
    requires Shape(sb, s1) && AllFilled(sb, s1) && Wrote(sb, s1, s1.ip.size, Zeros(n), s2)
    ensures Padded(sb, s, s2) && s2.ip.size == s1.ip.size + n
  {
    hide Wrote;
    var k := s1.ip.size - s.ip.size;
    WroteTwice(sb, s, s.ip.size, Zeros(k), s1, Zeros(n), s2);
    WroteSize(sb, s1, s1.ip.size, Zeros(n), s2);
    assert Zeros(k) + Zeros(n) == Zeros(k + n);
  }

  /** Setting the size of a file that is long enough cuts it off. */
  lemma CutBytes(sb: Super, s: State, owner: Owner, length: nat, s': State)
    requires Inv(sb, s, owner, {}) && AllFilled(sb, s) && length <= s.ip.size
    requires Resized(sb, s, s') && Synced(sb, s') && s'.ip == s.ip.(size := length)
    ensures Became(sb, s, s.inum, File(sb, s, s.inum)[..length], s')
  {
    hide Inv, Slot, DInode, ByteAt, FileKept;
    InvShape(sb, s, owner);
    ResizedBytes(sb, s, s');
    OthersFilled(sb, s, owner, s');
    assert Filled(sb, s, s.inum);
    forall c | 0 <= c < MAXFILE && BSIZE * c < length ensures Mapped(sb, s', s.inum, c) {
      assert Mapped(sb, s, s.inum, c);
    }
    assert Filled(sb, s', s.inum);
    var f, f' := File(sb, s, s.inum), File(sb, s', s.inum);
    forall x | 0 <= x < length ensures f'[x] == f[x] {
      assert Mapped(sb, s, s.inum, x / BSIZE);
    }
    assert f' == f[..length];
  }

  lemma PaddedBytes(sb: Super, s: State, s1: State, owner: Owner, s': State)
    requires Shape(sb, s) && AllFilled(sb, s) && Padded(sb, s, s1) && Inv(sb, s1, owner, {}) && AllFilled(sb, s1)
    requires Resized(sb, s1, s') && Synced(sb, s') && s'.ip == s1.ip
    ensures Became(sb, s, s.inum, Fit(File(sb, s, s.inum), s1.ip.size), s')
  {
    hide Inv, Slot, DInode, File, Filled;
    CutBytes(sb, s1, owner, s1.ip.size, s');
    FileLength(sb, s, s.inum);
    FileLength(sb, s1, s.inum);
    var f := File(sb, s, s.inum);
    assert Overlay(f, |f|, Zeros(s1.ip.size - |f|)) == Fit(f, s1.ip.size);
  }

  lemma ZerosLength(n: nat)
    ensures |Zeros(n)| == n
  {
  }

  /** The loop that appends zeros, a block at a time. */
  method Grow(fs: FileSystem, length: nat) returns (ok: bool)
    requires fs.Valid() && fs.ip.size < length < 0x8000_0000
    modifies fs
    ensures !ok ==> |fs.disk| == fs.sb.size && Full(fs.sb, fs.disk)
    ensures ok ==> fs.Valid() && Shape(fs.sb, old(fs.Now())) && AllFilled(fs.sb, old(fs.Now()))
                   && Padded(fs.sb, old(fs.Now()), fs.Now())
    ensures old(fs.ip).typ == T_DEV ==> ok && fs.Now() == old(fs.Now())
    ensures ok && old(fs.ip).typ != T_DEV && length <= MAXSIZE ==> fs.ip.size == length
  {
    hide FileSystem.Valid, Wrote, Full, AllFilled, Synced, Inv, Padded, Zeros;
    ValidState(fs);
    PaddedStart(fs.sb, fs.Now());
    var i := fs.ip.size as nat;
    while i < length
      invariant fs.Valid() && Padded(fs.sb, old(fs.Now()), fs.Now()) && fs.ip.typ == old(fs.ip).typ
      invariant fs.ip.size <= i && (i <= length || fs.ip.size <= length)
      invariant fs.ip.typ == T_DEV ==> fs.Now() == old(fs.Now())
      invariant fs.ip.typ != T_DEV && length <= MAXSIZE ==> fs.ip.size == if i < length then i else length
    {
      var n := if length - i > BSIZE then BSIZE else length - i;
      ghost var s := fs.Now();
      ValidState(fs);
      ZerosLength(n);
      var w := fs.Writei(Zeros(n), i);
      if w == Panicked { return false; }
      if w.Count? {
        PaddedMore(fs.sb, old(fs.Now()), s, n, fs.Now());
        WroteSize(fs.sb, s, i, Zeros(n), fs.Now());
      }
      i := i + BSIZE;
    }
    ok := true;
  }

  lemma BecameState(sb: Super, s: State, ino: nat, f: seq<Byte>, s': State)
    requires Shape(sb, s) && AllFilled(sb, s) && Became(sb, s, ino, f, s')
    ensures AllFilled(sb, s') && Synced(sb, s')
  {
  }

  lemma PaddedState(sb: Super, s: State, s': State)
    requires Shape(sb, s) && AllFilled(sb, s) && Padded(sb, s, s')
    ensures s'.inum == s.inum
  {
  }

  lemma TooLong(sb: Super, s0: State, s: State, owner: Owner, s': State)
    requires Shape(sb, s0) && AllFilled(sb, s0) && Padded(sb, s0, s) && Inv(sb, s, owner, {})
    requires Resized(sb, s, s') && s'.ip.size > MAXSIZE
    ensures Broken(sb, s0, s', s0.inum, s'.ip.size)
  {
    hide Inv, Slot, DInode, FileKept, File, Mapped;
    OthersFilled(sb, s, owner, s');
  }

  lemma BrokenFrom(sb: Super, s: State, s1: State, ino: nat, length: nat, s': State)
    requires SameFiles(sb, s, s1) && Broken(sb, s1, s', ino, length)
    ensures Broken(sb, s, s', ino, length)
  {
    hide File, DInode, Filled, Node;
  }

  lemma UnchangedBytes(sb: Super, s: State)
    requires Shape(sb, s) && AllFilled(sb, s) && Synced(sb, s)
    ensures s.ip.size <= MAXSIZE && Became(sb, s, s.inum, Fit(File(sb, s, s.inum), s.ip.size), s)
  {
    hide File, DInode, Filled;
    FileLength(sb, s, s.inum);
    var f := File(sb, s, s.inum);
    assert f[..|f|] == f;
  }

  lemma BecameFrom(sb: Super, s: State, s1: State, ino: nat, length: nat, s': State)
    requires SameFiles(sb, s, s1) && ino < sb.ninodes
    requires Became(sb, s1, ino, Fit(File(sb, s1, ino), length), s')
    ensures Became(sb, s, ino, Fit(File(sb, s, ino), length), s')
  {
    hide File, DInode, Filled, Node;
  }

  lemma SameNode(sb: Super, s: State, s': State)
    requires SameFiles(sb, s, s')
    ensures Shape(sb, s) && Shape(sb, s') && s'.ip == Node(sb, s, s'.inum) && AllFilled(sb, s)
  {
    assert Node(sb, s', s'.inum) == s'.ip;
  }

  /** The size is set and nothing is written: no driver takes the zeros into the file. */
  ghost predicate Hollow(sb: Super, s: State, ino: nat, length: Uint, s': State)
    requires Shape(sb, s) && AllFilled(sb, s) && ino < sb.ninodes
  {
    && Shape(sb, s') && s'.inum == ino && s'.ip == Node(sb, s, ino).(size := length)
    && (forall i | 0 <= i < sb.ninodes && i != ino ::
          Filled(sb, s', i) && File(sb, s', i) == File(sb, s, i) && Node(sb, s', i) == Node(sb, s, i))
  }

  lemma HollowFrom(sb: Super, s: State, s1: State, length: Uint, s': State)
    requires SameFiles(sb, s, s1) && Hollow(sb, s1, s1.inum, length, s')
    ensures Hollow(sb, s, s1.inum, length, s')
  {
    hide File, DInode, Filled, Node;
  }

  lemma HollowDone(sb: Super, s: State, owner: Owner, length: Uint, s': State)
    requires Inv(sb, s, owner, {}) && AllFilled(sb, s) && Resized(sb, s, s') && s'.ip == s.ip.(size := length)
    ensures Hollow(sb, s, s.inum, length, s')
  {
    hide Inv, Slot, DInode, FileKept;
    InvShape(sb, s, owner);
    OthersFilled(sb, s, owner, s');
  }

  /** The body of change_file_size for the locked inode. */
  method Resize(fs: FileSystem, length: nat) returns (ok: bool)
    requires fs.Valid() && length < 0x8000_0000
    modifies fs
    ensures !ok ==> |fs.disk| == fs.sb.size && Full(fs.sb, fs.disk)
    ensures Shape(fs.sb, old(fs.Now())) && AllFilled(fs.sb, old(fs.Now()))
    ensures var device := old(fs.ip).typ == T_DEV && old(fs.ip).size < length;
            && (ok && !device && length <= MAXSIZE ==>
                  && fs.Valid()
                  && Became(fs.sb, old(fs.Now()), old(fs.inum), Fit(File(fs.sb, old(fs.Now()), old(fs.inum)), length),
                      fs.Now()))
            && (ok && !device && length > MAXSIZE ==> Broken(fs.sb, old(fs.Now()), fs.Now(), old(fs.inum), length))
            && (device ==> ok && Hollow(fs.sb, old(fs.Now()), old(fs.inum), length, fs.Now()))
  {
    hide Full, AllFilled, Synced, Inv, Padded, File, Resized, Marked, Became, Filled, Hollow, Broken;
    ValidState(fs);
    FileLength(fs.sb, fs.Now(), fs.inum);
    if fs.ip.size < length {
      ok := Grow(fs, length);
      if ok {
        ghost var s := fs.Now();
        ValidState(fs);
        PaddedState(fs.sb, old(fs.Now()), s);
        fs.Update(fs.ip.(size := length));
        if old(fs.ip).typ == T_DEV {
          HollowDone(fs.sb, s, fs.owner, length, fs.Now());
        } else if length <= MAXSIZE {
          PaddedBytes(fs.sb, old(fs.Now()), s, fs.owner, fs.Now());
          BecameState(fs.sb, old(fs.Now()), old(fs.inum), Fit(File(fs.sb, old(fs.Now()), old(fs.inum)), length),
              fs.Now());
        } else {
          TooLong(fs.sb, old(fs.Now()), s, fs.owner, fs.Now());
        }
      }
    } else if fs.ip.size > length {
      fs.Update(fs.ip.(size := length));
      CutBytes(fs.sb, old(fs.Now()), fs.owner, length, fs.Now());
      BecameState(fs.sb, old(fs.Now()), old(fs.inum), Fit(File(fs.sb, old(fs.Now()), old(fs.inum)), length), fs.Now());
      ok := true;
    } else {
      UnchangedBytes(fs.sb, fs.Now());
      ok := true;
    }
  }

  /** change_file_size for the inode that the path names, if any; no other process has it locked. typ is
      what the cached inode says its type is when nobody has locked it: its own type, or, if it has
      not been read yet, the type of the inode that had its place in the cache before. Up to the
      largest file the call is exact truncation or padding with zeros; beyond that it leaves
      an inode whose size lies. With the wrong type it also resizes directories, stops the
      kernel on a free inode, and sets the size of a device. */
  method ChangeFileSize(fs: FileSystem, ino: Option<nat>, typ: Ushort, length: int) returns (r: Result)
    requires fs.Valid() && (ino.Some? ==> ino.value < fs.sb.ninodes && ino.value !in fs.others) && length < 0x8000_0000
    modifies fs
    ensures Shape(fs.sb, old(fs.Now())) && AllFilled(fs.sb, old(fs.Now()))
    ensures r == Failed <==> length < 0 || ino.None? || typ != T_FILE
    ensures r == Failed ==> fs.Valid() && fs.Now() == old(fs.Now())
    ensures r == Panicked ==>
        (|fs.disk| == fs.sb.size && Full(fs.sb, fs.disk)) || Node(fs.sb, old(fs.Now()), ino.value).typ == 0
    ensures r.Count? ==>
              var node := Node(fs.sb, old(fs.Now()), ino.value);
              && node.typ != 0
              && if node.typ == T_DEV && node.size < length
                 then Hollow(fs.sb, old(fs.Now()), ino.value, length, fs.Now())
                 else if length <= MAXSIZE
                 then fs.Valid() && Became(fs.sb, old(fs.Now()), ino.value,
                                           Fit(File(fs.sb, old(fs.Now()), ino.value), length), fs.Now())
                 else Broken(fs.sb, old(fs.Now()), fs.Now(), ino.value, length)
    ensures r != ToDevice
  {
    hide FileSystem.Valid, Full, AllFilled, Inv, File, DInode, Became, SameFiles, Broken, Hollow;
    ValidState(fs);
    if length < 0 || ino.None? || typ != T_FILE {
      return Failed;
    }
    var typed := fs.Ilock(ino.value);
    SameNode(fs.sb, old(fs.Now()), fs.Now());
    if !typed { return Panicked; }
    ghost var s := fs.Now();
    var ok := Resize(fs, length);
    if !ok { return Panicked; }
    if s.ip.typ == T_DEV && s.ip.size < length {
      HollowFrom(fs.sb, old(fs.Now()), s, length, fs.Now());
    } else if length <= MAXSIZE {
      BecameFrom(fs.sb, old(fs.Now()), s, ino.value, length, fs.Now());
    } else {
      BrokenFrom(fs.sb, old(fs.Now()), s, ino.value, length, fs.Now());
    }
    r := Count(0);
  }
}

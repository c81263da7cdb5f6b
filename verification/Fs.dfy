/** xv6/fs.c from the block allocator up to readi and writei, with the callers in xv6/file.c, over
    a disk of raw blocks. bread is disk[b] and log_write is an assignment to it, which is what the
    buffer cache and the log make of them. */
module Fs {
  import opened FsLayout
  import opened Ownership
  import opened FileBytes
  import opened Basics

  const T_FILE := 2
  const T_DEV := 3
  const NDEV := 10
  const MAXOPBLOCKS := 10

  /** -1, a byte count, a call passed on to a device driver, or a stopped kernel. */
  datatype Result = Failed | Count(n: nat) | ToDevice | Panicked

  /** Every block is marked: balloc has nothing to give. */
  ghost predicate Full(sb: Super, d: seq<Block>)
    requires sb.Valid() && |d| == sb.size
  {
    forall b | 0 <= b < sb.size :: Marked(sb, d, b)
  }

  /** Every block that differs has been logged, and only blocks behind the log region have. */
  ghost predicate Touched(sb: Super, d: seq<Block>, log: set<nat>, d': seq<Block>, log': set<nat>) {
    && |d'| == |d| && log <= log'
    && (forall b | 0 <= b < |d| && b !in log' :: d'[b] == d[b])
    && (forall b | b in log' && b !in log :: sb.inodestart <= b < sb.size)
  }

  lemma TouchedNone(sb: Super, d: seq<Block>, log: set<nat>)
    ensures Touched(sb, d, log, d, log)
  {
  }

  lemma TouchedOne(sb: Super, d: seq<Block>, log: set<nat>, b: nat, blk: Block)
    requires sb.inodestart <= b < sb.size && b < |d|
    ensures Touched(sb, d, log, d[b := blk], log + {b})
  {
  }

  lemma TouchedTwice(sb: Super, d: seq<Block>, log: set<nat>, d1: seq<Block>, log1: set<nat>, d2: seq<Block>,
      log2: set<nat>)
    requires Touched(sb, d, log, d1, log1) && Touched(sb, d1, log1, d2, log2)
    ensures Touched(sb, d, log, d2, log2)
  {
  }

  lemma TouchedRound(sb: Super, d: seq<Block>, log: set<nat>, d1: seq<Block>, log1: set<nat>, d2: seq<Block>,
      log2: set<nat>,
                     b: nat, blk: Block)
    requires Touched(sb, d, log, d1, log1) && Touched(sb, d1, log1, d2, log2) && sb.inodestart <= b < sb.size
             && b < |d2|
    ensures Touched(sb, d, log, d2[b := blk], log2 + {b})
  {
    hide Touched;
    TouchedTwice(sb, d, log, d1, log1, d2, log2);
    TouchedOne(sb, d2, log2, b, blk);
    TouchedTwice(sb, d, log, d2, log2, d2[b := blk], log2 + {b});
  }

  /** The bits of one bitmap block. */
  lemma SameBitmap(sb: Super, b: nat, bi: nat)
    requires sb.Valid() && b % BPB == 0 && bi < BPB && b + bi < sb.size
    ensures sb.inodestart <= BBlock(sb, b + bi) == BBlock(sb, b) < sb.DataStart() && (b + bi) % BPB == bi
  {
  }

  lemma BitIsMark(sb: Super, d: seq<Block>, b: nat, bi: nat)
    requires sb.Valid() && |d| == sb.size && b % BPB == 0 && bi < BPB && b + bi < sb.size
    ensures BBlock(sb, b) < |d| && (Marked(sb, d, b + bi) <==> Bit(d[BBlock(sb, b)][bi / 8], bi % 8))
  {
    SameBitmap(sb, b, bi);
    hide BBlock, Bit;
  }

  /** Setting the bit of an unmarked data block and zeroing it is an allocation. */
  lemma MarkAndZero(sb: Super, d: seq<Block>, b: nat, zero: Block)
    requires sb.Valid() && |d| == sb.size && sb.DataStart() <= b < sb.size && !Marked(sb, d, b) && IsZero(zero)
    ensures BBlock(sb, b) < sb.DataStart()
    ensures Allocated(sb, d, b, d[BBlock(sb, b) := PutBit(d[BBlock(sb, b)], b % BPB, true)][b := zero])
  {
    var d1 := d[BBlock(sb, b) := PutBit(d[BBlock(sb, b)], b % BPB, true)];
    forall x | 0 <= x < sb.size ensures Marked(sb, d1, x) <==> Marked(sb, d, x) || x == b {
      MarkPut(sb, d, b, true, x);
    }
    hide Marked, PutBit;
    MarksKept(sb, d1, d1[b := zero]);
  }

  /** itrunc has freed the first p slots of the locked inode of s. */
  ghost predicate TruncInv(sb: Super, s: State, p: nat, d: seq<Block>) {
    && Shape(sb, s) && p <= SLOTS && |d| == sb.size
    && (forall x | 0 <= x < sb.size :: Marked(sb, d, x) <==> Marked(sb, s.disk, x) && !InSlot(sb, s, x, p))
    && (forall x | 0 <= x < sb.size && !sb.IsBitmap(x) :: d[x] == s.disk[x])
  }

  lemma TruncStart(sb: Super, s: State)
    requires Shape(sb, s)
    ensures TruncInv(sb, s, 0, s.disk)
  {
    hide Marked, Slot;
  }

  lemma TruncNext(sb: Super, s: State, owner: Owner, p: nat, d: seq<Block>)
    requires Inv(sb, s, owner, {}) && TruncInv(sb, s, p, d) && p < SLOTS
    ensures var b := Slot(sb, s, s.inum, Nth(p));
            sb.Valid() && |d| == sb.size && (b != 0 ==> b < sb.size && Marked(sb, d, b))
    ensures p < NDIRECT ==> Slot(sb, s, s.inum, Nth(p)) == s.ip.addrs[p]
  {
    hide Marked, Entry;
    NextIsMarked(sb, s, owner, {}, p);
  }

  lemma TruncStep(sb: Super, s: State, owner: Owner, p: nat, d: seq<Block>, d': seq<Block>)
    requires Inv(sb, s, owner, {}) && TruncInv(sb, s, p, d) && p < SLOTS
    requires var b := Slot(sb, s, s.inum, Nth(p)); if b == 0 then d' == d else Freed(sb, d, b, d')
    ensures TruncInv(sb, s, p + 1, d')
  {
    NextIsMarked(sb, s, owner, {}, p);
    hide Marked, Slot, InSlot;
  }

  lemma TruncNoIndirect(sb: Super, s: State, d: seq<Block>)
    requires TruncInv(sb, s, NDIRECT, d) && s.ip.addrs[NDIRECT] == 0
    ensures TruncInv(sb, s, SLOTS, d)
  {
    hide Marked, Entry;
    forall x | 0 <= x < sb.size ensures InSlot(sb, s, x, SLOTS) <==> InSlot(sb, s, x, NDIRECT) {
    }
  }

  /** The indirect block is not touched while its entries are freed. */
  lemma TruncIndirect(sb: Super, s: State, owner: Owner, p: nat, d: seq<Block>)
    requires Inv(sb, s, owner, {}) && TruncInv(sb, s, p, d) && s.ip.addrs[NDIRECT] != 0
    ensures 0 < s.ip.addrs[NDIRECT] < sb.size == |d| && d[s.ip.addrs[NDIRECT]] == s.disk[s.ip.addrs[NDIRECT]]
  {
    hide Marked, Entry;
    assert SlotOwned(sb, s, owner, s.inum, NDIRECT) && Slot(sb, s, s.inum, NDIRECT) == s.ip.addrs[NDIRECT];
    assert BlockOwned(sb, s, owner, s.ip.addrs[NDIRECT]);
  }

  lemma TruncEnd(sb: Super, s: State, s': State)
    requires TruncInv(sb, s, SLOTS, s'.disk) && s'.inum == s.inum && s'.others == s.others
    requires forall k | 0 <= k <= NDIRECT :: s'.ip.addrs[k] == 0
    ensures Truncated(sb, s, s')
  {
    hide Marked, InSlot;
  }

  /** After itrunc the file is empty, every block it had is free again and no other is, the other
      files are untouched, and the inode on disk is the one in memory. */
  ghost predicate Emptied(sb: Super, s: State, s': State)
    requires Shape(sb, s) && AllFilled(sb, s)
  {
    && Shape(sb, s') && s'.inum == s.inum && AllFilled(sb, s') && Synced(sb, s')
    && File(sb, s', s.inum) == []
    && (forall i | 0 <= i < sb.ninodes && i != s.inum ::
          File(sb, s', i) == File(sb, s, i) && Node(sb, s', i) == Node(sb, s, i))
    && (forall b | 0 <= b < sb.size ::
          Marked(sb, s'.disk, b) <==> Marked(sb, s.disk, b) && !InSlot(sb, s, b, SLOTS))
  }

  lemma TruncDone(sb: Super, s: State, owner: Owner, s1: State, s': State)
    requires Inv(sb, s, owner, {}) && AllFilled(sb, s) && Truncated(sb, s, s1) && OthersKept(sb, s, s1)
    requires Resized(sb, s1, s') && s'.ip.size == 0 && Synced(sb, s')
    requires forall b | 0 <= b < sb.size :: Marked(sb, s'.disk, b) == Marked(sb, s1.disk, b)
    ensures Emptied(sb, s, s') && AllFilled(sb, s')
  {
    hide Inv, Marked, InSlot, FileKept, Slot, DInode;
    InvShape(sb, s, owner);
    OthersTransitive(sb, s, s1, s');
    OthersFilled(sb, s, owner, s');
    assert Filled(sb, s', s.inum);
  }

  /** Freeing the inode after its blocks. */
  lemma EmptiedUpdate(sb: Super, s: State, s1: State, owner: Owner, s': State)
    requires Shape(sb, s) && AllFilled(sb, s) && Emptied(sb, s, s1) && Inv(sb, s1, owner, {})
    requires Resized(sb, s1, s') && s'.ip.size == s1.ip.size && Synced(sb, s')
    requires forall b | 0 <= b < sb.size :: Marked(sb, s'.disk, b) == Marked(sb, s1.disk, b)
    ensures Emptied(sb, s, s') && AllFilled(sb, s')
  {
    hide Inv, Marked, InSlot, FileKept, Slot, DInode;
    FileLength(sb, s1, s.inum);
    OthersFilled(sb, s1, owner, s');
    assert Filled(sb, s', s.inum);
  }

  /** Owned blocks, and those in slots, are data blocks. */
  lemma OwnedData(sb: Super, s: State, owner: Owner, b: nat)
    requires Inv(sb, s, owner, {}) && b in owner
    ensures sb.inodestart <= sb.DataStart() <= b < sb.size
  {
    hide Slot, Marked;
    assert BlockOwned(sb, s, owner, b);
  }

  lemma SlotData(sb: Super, s: State, owner: Owner, k: nat)
    requires Inv(sb, s, owner, {}) && k < SLOTS
    ensures var b := Slot(sb, s, s.inum, k); b != 0 ==> sb.inodestart <= b < sb.size
  {
    hide Slot, Marked;
    assert SlotOwned(sb, s, owner, s.inum, k);
    var b := Slot(sb, s, s.inum, k);
    assert b != 0 ==> BlockOwned(sb, s, owner, b);
  }

  function Indirect(ip: Inode): set<nat> {
    if ip.addrs[NDIRECT] == 0 then {} else {ip.addrs[NDIRECT] as nat}
  }

  /** What bmap(ip, bn) = addr may log: nothing if the block was there, otherwise the new block, the
      indirect block and a bitmap block for each of the two that is new. */
  ghost predicate GrownLog(ip: Inode, mapped: bool, log: set<nat>, addr: nat, bits: set<nat>, ip': Inode,
      log': set<nat>) {
    && log' <= log + {addr} + bits + Indirect(ip')
    && |bits| <= (if mapped then 0 else 1) + (if ip'.addrs[NDIRECT] != ip.addrs[NDIRECT] then 1 else 0)
    && (ip.addrs[NDIRECT] != 0 ==> ip'.addrs[NDIRECT] == ip.addrs[NDIRECT])
    && (mapped ==> log' == log && ip' == ip)
  }

  /** The same for the indirect block a on its own. */
  ghost predicate LoadedLog(ip: Inode, log: set<nat>, a: nat, bits: set<nat>, ip': Inode, log': set<nat>) {
    && ip'.addrs[NDIRECT] == a != 0
    && if ip.addrs[NDIRECT] != 0 then ip' == ip && log' == log && bits == {}
       else |bits| == 1 && log' == log + bits + {a}
  }

  lemma MappedLog(ip: Inode, log: set<nat>, a: nat, bits: set<nat>, ip': Inode, log': set<nat>, addr: nat)
    requires LoadedLog(ip, log, a, bits, ip', log') && ip.addrs[NDIRECT] != 0
    ensures GrownLog(ip, true, log, addr, bits, ip', log')
  {
  }

  lemma EntryLog(ip: Inode, log: set<nat>, a: nat, bits: set<nat>, ip': Inode, log': set<nat>, bb: nat, addr: nat)
    requires LoadedLog(ip, log, a, bits, ip', log')
    ensures GrownLog(ip, false, log, addr, bits + {bb}, ip', log' + {bb, addr, a})
  {
    assert |bits + {bb}| <= |bits| + 1;
  }

  /** What t rounds of writei at off have logged: at most t data blocks, a bitmap block for each
      new one, and the indirect block. A first block that is not written from its start is not new. */
  ghost predicate WriteLog(ip: Inode, log: set<nat>, off: nat, t: nat, data: set<nat>, bits: set<nat>,
                           ip': Inode, log': set<nat>) {
    && log' <= log + data + bits + Indirect(ip')
    && |data| <= t
    && |bits| <= (if off % BSIZE != 0 && t > 0 then t - 1 else t)
                 + (if ip'.addrs[NDIRECT] != ip.addrs[NDIRECT] then 1 else 0)
    && (ip.addrs[NDIRECT] != 0 ==> ip'.addrs[NDIRECT] == ip.addrs[NDIRECT])
  }

  lemma LogStep(ip: Inode, log: set<nat>, off: nat, t: nat, data: set<nat>, bits: set<nat>, ip': Inode, log': set<nat>,
                mapped: bool, addr: nat, more: set<nat>, ip'': Inode, log'': set<nat>)
    requires WriteLog(ip, log, off, t, data, bits, ip', log') && GrownLog(ip', mapped, log', addr, more, ip'', log'')
    requires t == 0 && off % BSIZE != 0 ==> mapped
    ensures WriteLog(ip, log, off, t + 1, data + {addr}, bits + more, ip'', log'' + {addr})
  {
    assert |bits + more| <= |bits| + |more|;
  }

  /** The number of blocks that n bytes at off touch. */
  function Rounds(off: nat, n: nat): nat {
    if n == 0 then 0 else (off % BSIZE + n + BSIZE - 1) / BSIZE
  }

  /** t rounds of the copy loop have moved tot of n bytes. */
  predicate Progress(off: nat, n: nat, tot: nat, t: nat) {
    && tot <= n
    && if tot == 0 then t == 0 else if tot == n then t == Rounds(off, n) else t > 0 && off % BSIZE + tot == BSIZE * t
  }

  lemma ProgressStart(off: nat, n: nat, tot: nat, t: nat)
    requires Progress(off, n, tot, t) && t == 0
    ensures tot == 0
  {
    assert tot == n > 0 ==> Rounds(off, n) > 0;
  }

  lemma ProgressStep(off: nat, n: nat, tot: nat, t: nat, m: nat)
    requires Progress(off, n, tot, t) && 0 < m <= n - tot && (off + tot) % BSIZE + m <= BSIZE
    requires m == n - tot || (off + tot) % BSIZE + m == BSIZE
    ensures Progress(off, n, tot + m, t + 1)
  {
    if tot > 0 {
      assert off + tot == BSIZE * (off / BSIZE + t);
    }
  }

  /** The most that writei logs: data, bitmap, indirect block and inode. */
  function LogLimit(off: nat, n: nat): nat {
    2 * Rounds(off, n) + (if off % BSIZE == 0 then 3 else 2)
  }

  lemma LogBound(ip: Inode, log: set<nat>, off: nat, n: nat, data: set<nat>, bits: set<nat>, ip': Inode,
      log': set<nat>, ib: nat)
    requires WriteLog(ip, log, off, Rounds(off, n), data, bits, ip', log') && n > 0
    ensures |log' - log| <= |log' + {ib} - log| <= LogLimit(off, n)
  {
    var rest := data + bits + Indirect(ip') + {ib};
    assert |rest| <= |data| + |bits| + |Indirect(ip')| + 1;
    assert log' + {ib} - log <= rest;
    assert rest == (log' + {ib} - log) + (rest - (log' + {ib} - log));
    var less := log' - log;
    assert log' + {ib} - log == less + (log' + {ib} - log - less);
  }

  function Min(a: int, b: int): int {
    if a < b then a else b
  }

  /** How many of n bytes at off are in the block of the first. */
  method Piece(off: nat, n: nat) returns (m: nat)
    requires n > 0
    ensures 0 < m <= n && off % BSIZE + m <= BSIZE
    ensures m == n || off % BSIZE + m == BSIZE
  {
    m := Min(n, BSIZE - off % BSIZE);
  }

  /** n bytes of file at off are at the front of what was there before. */
  ghost predicate ReadTo(file: seq<Byte>, off: nat, n: nat, was: seq<Byte>, now: seq<Byte>) {
    off + n <= |file| && n <= |was| && now == file[off..off + n] + was[n..]
  }

  lemma ReadStart(file: seq<Byte>, off: nat, was: seq<Byte>)
    requires off <= |file|
    ensures ReadTo(file, off, 0, was, was)
  {
  }

  lemma ReadJoin(file: seq<Byte>, off: nat, n: nat, m: nat, was: seq<Byte>, now: seq<Byte>, next: seq<Byte>)
    requires ReadTo(file, off, n, was, now) && off + n + m <= |file| && n + m <= |was|
    requires next == Splice(now, n, file[off + n..off + n + m])
    ensures ReadTo(file, off, n + m, was, next)
  {
  }

  /** memmove into a buffer. */
  method CopyOut(dst: array<Byte>, at: nat, src: seq<Byte>)
    requires at + |src| <= dst.Length
    modifies dst
    ensures dst[..] == Splice(old(dst[..]), at, src)
  {
    forall k | 0 <= k < |src| {
      dst[at + k] := src[k];
    }
  }

  class FileSystem {
    const sb: Super
    /** The devices that have a driver. */
    const drivers: set<nat>
    var disk: seq<Block>
    /** The inode that the running process has locked, and those that others have locked. */
    var inum: nat
    var ip: Inode
    var others: map<nat, Inode>
    /** The blocks that the running transaction has passed to log_write. */
    var logged: set<nat>
    ghost var owner: Owner

    ghost function Now(): State
      reads this
    {
      State(disk, inum, ip, others)
    }

    /** The invariant between calls. */
    ghost predicate Valid()
      reads this
    {
      Inv(sb, Now(), owner, {}) && AllFilled(sb, Now()) && Synced(sb, Now()) && inum !in others
    }

    /** A mounted file system with inode i locked. */
    constructor (sb: Super, drivers: set<nat>, disk: seq<Block>, i: nat, ghost owner: Owner)
      requires sb.Valid() && |disk| == sb.size && i < sb.ninodes
      requires var s := State(disk, i, DInode(sb, disk, i), map[]); Inv(sb, s, owner, {}) && AllFilled(sb, s)
      ensures Valid() && this.sb == sb && this.drivers == drivers && this.disk == disk
      ensures inum == i && ip == DInode(sb, disk, i) && others == map[]
    {
      this.sb, this.drivers, this.disk, this.inum := sb, drivers, disk, i;
      this.ip, this.others, this.logged, this.owner := DInode(sb, disk, i), map[], {}, owner;
    }

    /** ilock of another inode; the one that was locked is on disk. false is the panic "ilock: no type". */
    method Ilock(i: nat) returns (ok: bool)
      requires Valid() && i < sb.ninodes && i !in others
      modifies `inum, `ip
      ensures Valid() && inum == i && SameFiles(sb, old(Now()), Now())
      ensures ok <==> ip.typ != 0
    {
      hide Inv, AllFilled, DInode;
      InvShape(sb, Now(), owner);
      LockKeeps(sb, Now(), owner, {}, i, State(disk, i, DInode(sb, disk, i), others));
      LockFiles(sb, Now(), i, State(disk, i, DInode(sb, disk, i), others));
      inum, ip := i, DInode(sb, disk, i);
      ok := ip.typ != 0;
    }

    /** A transaction that has logged nothing yet. */
    method BeginOp()
      requires Valid()
      modifies `logged
      ensures Valid() && logged == {}
    {
      logged := {};
    }

    method LogWrite(b: nat, blk: Block)
      requires b < |disk|
      modifies `disk, `logged
      ensures disk == old(disk)[b := blk] && logged == old(logged) + {b}
    {
      disk := disk[b := blk];
      logged := logged + {b};
    }

    method Bzero(b: nat)
      requires b < |disk|
      modifies `disk, `logged
      ensures |disk| == |old(disk)| && IsZero(disk[b]) && disk == old(disk)[b := disk[b]]
      ensures logged == old(logged) + {b}
    {
      LogWrite(b, seq(BSIZE, i => 0));
    }

    /** The lowest unmarked block, marked and zeroed; it is never 0 or metadata. */
    method Balloc() returns (r: Option<nat>)
      requires sb.Valid() && |disk| == sb.size
      requires forall x | 0 <= x < sb.DataStart() :: Marked(sb, disk, x)
      modifies `disk, `logged
      ensures Touched(sb, old(disk), old(logged), disk, logged)
      ensures r.None? ==> disk == old(disk) && Full(sb, disk)
      ensures r.Some? ==> Allocated(sb, old(disk), r.value, disk) && sb.DataStart() <= r.value
      ensures r.Some? ==> forall x | 0 <= x < r.value :: Marked(sb, old(disk), x)
      ensures r.Some? ==> logged == old(logged) + {BBlock(sb, r.value), r.value}
    {
      hide Bit, PutBit, Allocated, BBlock, Marked, Touched;
      TouchedNone(sb, disk, logged);
      var b := 0;
      while b < sb.size
        invariant b % BPB == 0 && disk == old(disk) && logged == old(logged)
        invariant forall x | 0 <= x < b && x < sb.size :: Marked(sb, disk, x)
      {
        SameBitmap(sb, b, 0);
        var bp := disk[BBlock(sb, b)];
        var bi := 0;
        while bi < BPB && b + bi < sb.size
          invariant bi <= BPB && disk == old(disk) && logged == old(logged)
          invariant forall x | 0 <= x < b + bi && x < sb.size :: Marked(sb, disk, x)
        {
          SameBitmap(sb, b, bi);
          BitIsMark(sb, disk, b, bi);
          if !Bit(bp[bi / 8], bi % 8) {
            LogWrite(BBlock(sb, b), PutBit(bp, bi, true));
            ghost var d1 := disk;
            Bzero(b + bi);
            MarkAndZero(sb, old(disk), b + bi, disk[b + bi]);
            TouchedOne(sb, old(disk), old(logged), BBlock(sb, b), d1[BBlock(sb, b)]);
            TouchedOne(sb, d1, old(logged) + {BBlock(sb, b)}, b + bi, disk[b + bi]);
            TouchedTwice(sb, old(disk), old(logged), d1, old(logged) + {BBlock(sb, b)}, disk, logged);
            return Some(b + bi);
          }
          bi := bi + 1;
        }
        b := b + BPB;
      }
      r := None;
    }

    /** false is the panic "freeing free block". */
    method Bfree(b: nat) returns (ok: bool)
      requires sb.Valid() && |disk| == sb.size && b < sb.size
      modifies `disk, `logged
      ensures ok <==> Marked(sb, old(disk), b)
      ensures if ok then Freed(sb, old(disk), b, disk) else disk == old(disk)
    {
      var bp := disk[BBlock(sb, b)];
      var bi := b % BPB;
      ok := Bit(bp[bi / 8], bi % 8);
      if ok {
        forall x | 0 <= x < sb.size
          ensures Marked(sb, disk[BBlock(sb, b) := PutBit(bp, bi, false)], x) <==> Marked(sb, disk, x) && x != b
        {
          MarkPut(sb, disk, b, false, x);
        }
        LogWrite(BBlock(sb, b), PutBit(bp, bi, false));
      }
    }

    /** Write the locked inode through to disk. */
    method Iupdate()
      requires sb.Valid() && |disk| == sb.size && inum < sb.ninodes
      modifies `disk, `logged
      ensures disk == old(disk)[IBlock(sb, inum) := PutInode(old(disk)[IBlock(sb, inum)], inum, ip)]
      ensures logged == old(logged) + {IBlock(sb, inum)}
    {
      var bp := disk[IBlock(sb, inum)];
      var dip := 64 * (inum % IPB);
      ghost var bytes := ShortBytes(ip.typ);
      var b1: Block := Splice(bp, dip, ShortBytes(ip.typ));
      SpliceTwice(bp, dip, bytes, ShortBytes(ip.major));
      bytes := bytes + ShortBytes(ip.major);
      b1 := Splice(b1, dip + 2, ShortBytes(ip.major));
      SpliceTwice(bp, dip, bytes, ShortBytes(ip.minor));
      bytes := bytes + ShortBytes(ip.minor);
      b1 := Splice(b1, dip + 4, ShortBytes(ip.minor));
      SpliceTwice(bp, dip, bytes, ShortBytes(ip.nlink));
      bytes := bytes + ShortBytes(ip.nlink);
      b1 := Splice(b1, dip + 6, ShortBytes(ip.nlink));
      SpliceTwice(bp, dip, bytes, WordBytes(ip.size));
      bytes := bytes + WordBytes(ip.size);
      b1 := Splice(b1, dip + 8, WordBytes(ip.size));
      SpliceTwice(bp, dip, bytes, AddrBytes(ip.addrs));
      b1 := Splice(b1, dip + 12, AddrBytes(ip.addrs));
      LogWrite(IBlock(sb, inum), b1);
    }

    /** A new inode with the same blocks, written through. */
    method Update(ip': Inode)
      requires Inv(sb, Now(), owner, {}) && ip'.addrs == ip.addrs
      modifies `disk, `logged, `ip
      ensures Inv(sb, Now(), owner, {}) && Resized(sb, old(Now()), Now()) && Synced(sb, Now())
      ensures inum == old(inum) && ip == ip' && logged == old(logged) + {IBlock(sb, inum)}
      ensures Touched(sb, old(disk), old(logged), disk, logged)
      ensures forall b | 0 <= b < sb.size :: Marked(sb, disk, b) == old(Marked(sb, disk, b))
    {
      hide PutInode, Marked, Resized, DInode, Touched;
      ip := ip';
      Iupdate();
      TouchedOne(sb, old(disk), old(logged), IBlock(sb, inum), disk[IBlock(sb, inum)]);
      UpdateResizes(sb, old(Now()), owner, ip, Now());
    }

    /** balloc for bmap: out of the way of every file. */
    method BallocQuiet() returns (r: Option<Uint>)
      requires Inv(sb, Now(), owner, {})
      modifies `disk, `logged
      ensures Touched(sb, old(disk), old(logged), disk, logged)
      ensures |disk| == sb.size && (r.None? ==> Full(sb, disk))
      ensures r.Some? ==> 0 < r.value < sb.size && IsZero(disk[r.value])
      ensures r.Some? ==> Inv(sb, Now(), owner, {r.value}) && Quiet(sb, old(Now()), Now())
      ensures r.Some? ==> logged == old(logged) + {BBlock(sb, r.value), r.value}
      ensures r.Some? ==> forall x | x in owner && x < sb.size :: disk[x] == old(disk)[x]
    {
      assert forall x | x in owner :: BlockOwned(sb, Now(), owner, x);
      hide Slot, Marked, Touched;
      var b := Balloc();
      if b.Some? {
        AllocQuiet(sb, old(Now()), owner, b.value, Now());
      }
      r := if b.None? then None else Some(b.value);
    }

    method BmapDirect(bn: nat) returns (r: Option<Uint>, ghost bits: set<nat>)
      requires Inv(sb, Now(), owner, {}) && bn < NDIRECT
      modifies `disk, `logged, `ip, `owner
      ensures Touched(sb, old(disk), old(logged), disk, logged)
      ensures |disk| == sb.size && (r.None? ==> Full(sb, disk))
      ensures r.Some? ==> Inv(sb, Now(), owner, {}) && Grown(sb, old(Now()), bn, r.value, Now())
      ensures r.Some? ==> GrownLog(old(ip), old(Mapped(sb, Now(), inum, bn)), old(logged), r.value, bits, ip, logged)
      ensures old(Mapped(sb, Now(), inum, bn)) ==> r.Some? && owner == old(owner)
    {
      hide Inv, Grown, Quiet, IsZero, Full, Touched;
      InvShape(sb, Now(), owner);
      TouchedNone(sb, disk, logged);
      bits := {};
      r := Some(ip.addrs[bn]);
      if r.value != 0 {
        MappedGrown(sb, Now(), owner, bn);
      } else {
        r := BallocQuiet();
        if r.Some? {
          ghost var s1 := Now();
          bits := {BBlock(sb, r.value)};
          ip := ip.(addrs := ip.addrs[bn := r.value]);
          owner := owner[r.value := (inum, bn)];
          DirectGrown(sb, old(Now()), s1, old(owner), bn, r.value, Now());
        }
      }
    }

    /** The indirect block, new and empty if there was none. */
    method LoadIndirect() returns (r: Option<Uint>, ghost bits: set<nat>)
      requires Inv(sb, Now(), owner, {})
      modifies `disk, `logged, `ip, `owner
      ensures Touched(sb, old(disk), old(logged), disk, logged)
      ensures |disk| == sb.size && (r.None? ==> Full(sb, disk))
      ensures r.Some? ==> Inv(sb, Now(), owner, {}) && Quiet(sb, old(Now()), Now())
      ensures r.Some? ==> ip.addrs[NDIRECT] == r.value && 0 < r.value < sb.size && r.value in owner
      ensures old(ip).addrs[NDIRECT] != 0 ==> r.Some? && Now() == old(Now()) && owner == old(owner)
      ensures r.Some? ==> LoadedLog(old(ip), old(logged), r.value, bits, ip, logged)
    {
      hide Grown, IsZero, Full, Marked, DInode, Touched;
      TouchedNone(sb, disk, logged);
      bits := {};
      r := Some(ip.addrs[NDIRECT]);
      if r.value != 0 {
        assert SlotOwned(sb, Now(), owner, inum, NDIRECT) && Slot(sb, Now(), inum, NDIRECT) == r.value;
        assert BlockOwned(sb, Now(), owner, r.value);
      } else {
        hide Inv, Quiet;
        r := BallocQuiet();
        if r.Some? {
          ghost var s1 := Now();
          bits := {BBlock(sb, r.value)};
          ip := ip.(addrs := ip.addrs[NDIRECT := r.value]);
          owner := owner[r.value := (inum, NDIRECT)];
          IndirectQuiet(sb, s1, old(owner), r.value, Now());
          QuietTransitive(sb, old(Now()), s1, Now());
        }
      }
    }

    /** A new block in an empty entry of the indirect block; s is the state before the whole bmap. */
    method AddEntry(bn: nat, ghost s: State) returns (r: Option<Uint>)
      requires Inv(sb, Now(), owner, {}) && Quiet(sb, s, Now()) && s.inum == inum && NDIRECT <= bn < MAXFILE
      requires 0 < ip.addrs[NDIRECT] < sb.size == |disk| && ip.addrs[NDIRECT] in owner
      requires Entry(disk[ip.addrs[NDIRECT]], bn - NDIRECT) == 0
      modifies `disk, `logged, `owner
      ensures Touched(sb, old(disk), old(logged), disk, logged)
      ensures |disk| == sb.size && (r.None? ==> Full(sb, disk))
      ensures r.Some? ==> Inv(sb, Now(), owner, {}) && Grown(sb, s, bn, r.value, Now())
      ensures r.Some? ==> logged == old(logged) + {BBlock(sb, r.value), r.value, ip.addrs[NDIRECT]}
    {
      hide Inv, Grown, Quiet, IsZero, Full, Slot, Entry, PutEntry, Touched;
      InvShape(sb, Now(), owner);
      OwnedData(sb, Now(), owner, ip.addrs[NDIRECT]);
      var bp := disk[ip.addrs[NDIRECT]];
      r := BallocQuiet();
      if r.Some? {
        ghost var s1 := Now();
        QuietTransitive(sb, s, old(Now()), s1);
        ghost var log1 := logged;
        LogWrite(ip.addrs[NDIRECT], PutEntry(bp, bn - NDIRECT, r.value));
        TouchedOne(sb, s1.disk, log1, ip.addrs[NDIRECT], disk[ip.addrs[NDIRECT]]);
        TouchedTwice(sb, old(disk), old(logged), s1.disk, log1, disk, logged);
        owner := owner[r.value := (inum, bn + 1)];
        EntryGrown(sb, s, s1, old(owner), bn, r.value, Now());
      }
    }

    method BmapIndirect(bn: nat) returns (r: Option<Uint>, ghost bits: set<nat>)
      requires Inv(sb, Now(), owner, {}) && NDIRECT <= bn < MAXFILE
      modifies `disk, `logged, `ip, `owner
      ensures Touched(sb, old(disk), old(logged), disk, logged)
      ensures |disk| == sb.size && (r.None? ==> Full(sb, disk))
      ensures r.Some? ==> Inv(sb, Now(), owner, {}) && Grown(sb, old(Now()), bn, r.value, Now())
      ensures r.Some? ==> GrownLog(old(ip), old(Mapped(sb, Now(), inum, bn)), old(logged), r.value, bits, ip, logged)
      ensures old(Mapped(sb, Now(), inum, bn)) ==> r.Some? && owner == old(owner)
    {
      hide Inv, Grown, Quiet, Full, Slot, Entry, LoadedLog, GrownLog, Mapped, Touched;
      InvShape(sb, Now(), owner);
      r, bits := LoadIndirect();
      if r.None? {
        NotMapped(sb, old(Now()), bn);
        return;
      }
      var a := r.value;
      r := Some(Entry(disk[a], bn - NDIRECT));
      EntryMapped(sb, old(Now()), Now(), bn);
      if r.value != 0 {
        EntryThere(sb, Now(), owner, bn);
        MappedLog(old(ip), old(logged), a, bits, ip, logged, r.value);
      } else {
        ghost var d1, log := disk, logged;
        r := AddEntry(bn, old(Now()));
        TouchedTwice(sb, old(disk), old(logged), d1, log, disk, logged);
        if r.Some? {
          EntryLog(old(ip), old(logged), a, bits, ip, log, BBlock(sb, r.value), r.value);
          bits := bits + {BBlock(sb, r.value)};
        }
      }
    }

    /** Block bn of the locked file, allocated if need be. None is a panic: bn is out of range or the
        disk is full. */
    method Bmap(bn: nat) returns (r: Option<Uint>, ghost bits: set<nat>)
      requires Inv(sb, Now(), owner, {})
      modifies `disk, `logged, `ip, `owner
      ensures Touched(sb, old(disk), old(logged), disk, logged)
      ensures r.Some? ==> bn < MAXFILE && Inv(sb, Now(), owner, {}) && Grown(sb, old(Now()), bn, r.value, Now())
      ensures r.Some? ==> GrownLog(old(ip), old(Mapped(sb, Now(), inum, bn)), old(logged), r.value, bits, ip, logged)
      ensures bn < MAXFILE && old(Mapped(sb, Now(), inum, bn)) ==> r.Some? && owner == old(owner)
      ensures r.None? ==> bn >= MAXFILE || (|disk| == sb.size && Full(sb, disk))
    {
      hide Inv, Grown, Full, GrownLog, Touched;
      TouchedNone(sb, disk, logged);
      if bn < NDIRECT {
        r, bits := BmapDirect(bn);
      } else if bn - NDIRECT < NINDIRECT {
        r, bits := BmapIndirect(bn);
      } else {
        r, bits := None, {};
      }
    }

    /** writei, begun in s at off, has copied tot bytes in t rounds. */
    ghost predicate Halfway(s: State, log: set<nat>, off: nat, src: seq<Byte>, tot: nat, t: nat, data: set<nat>,
        bits: set<nat>)
      reads this
    {
      && Inv(sb, Now(), owner, {}) && Writing(sb, s, off, src, tot, Now()) && Progress(off, |src|, tot, t)
      && WriteLog(s.ip, log, off, t, data, bits, ip, logged) && Touched(sb, s.disk, log, disk, logged)
    }

    /** One round of the copy loop of writei; 0 is a panic. */
    method WriteRound(off: nat, src: seq<Byte>, tot: nat, ghost s: State, ghost log: set<nat>, ghost t: nat,
                      ghost data: set<nat>, ghost bits: set<nat>)
        returns (m: nat, ghost data': set<nat>, ghost bits': set<nat>)
      requires Halfway(s, log, off, src, tot, t, data, bits) && tot < |src|
      requires Filled(sb, s, s.inum) && off <= s.ip.size
      modifies `disk, `logged, `ip, `owner
      ensures m == 0 ==> |disk| == sb.size && Full(sb, disk)
      ensures m > 0 ==> tot + m <= |src| && Halfway(s, log, off, src, tot + m, t + 1, data', bits')
    {
      hide Inv, Writing, Grown, GrownLog, WriteLog, Full, Filled, Progress, Touched, Slot, Mapped;
      if t == 0 { ProgressStart(off, |src|, tot, t); }
      data', bits' := data, bits;
      var bn := (off + tot) / BSIZE;
      var addr, more := Bmap(bn);
      WritingInRange(sb, s, off, src, tot, old(Now()));
      if addr.None? { return 0, data', bits'; }
      ghost var s1 := Now();
      LogStep(s.ip, log, off, t, data, bits, old(ip), old(logged), old(Mapped(sb, Now(), inum, bn)),
              addr.value, more, ip, logged);
      data', bits' := data + {addr.value as nat}, bits + more;
      var p := (off + tot) % BSIZE;
      m := Piece(off + tot, |src| - tot);
      GrownSlot(sb, old(Now()), bn, addr.value, s1);
      SlotData(sb, s1, owner, DataSlot(bn));
      var blk: Block := Splice(disk[addr.value], p, src[tot..tot + m]);
      TouchedRound(sb, s.disk, log, old(disk), old(logged), disk, logged, addr.value, blk);
      LogWrite(addr.value, blk);
      WriteStep(sb, s, off, src, tot, old(Now()), owner, addr.value, s1, m, Now());
      ProgressStep(off, |src|, tot, t, m);
    }

    /** The copy loop of writei. */
    method WriteLoop(off: nat, src: seq<Byte>) returns (ok: bool, ghost data: set<nat>, ghost bits: set<nat>)
      requires Inv(sb, Now(), owner, {}) && Filled(sb, Now(), inum) && off <= ip.size && off + |src| <= MAXSIZE
      modifies `disk, `logged, `ip, `owner
      ensures !ok ==> |disk| == sb.size && Full(sb, disk)
      ensures ok ==> Halfway(old(Now()), old(logged), off, src, |src|, Rounds(off, |src|), data, bits)
    {
      hide Inv, Writing, Full, Filled, Touched;
      InvShape(sb, Now(), owner);
      TouchedNone(sb, disk, logged);
      WritingStart(sb, Now(), off, src);
      data, bits := {}, {};
      var tot := 0;
      ghost var t := 0;
      while tot < |src|
        invariant tot <= |src| && Halfway(old(Now()), old(logged), off, src, tot, t, data, bits)
      {
        var m;
        m, data, bits := WriteRound(off, src, tot, old(Now()), old(logged), t, data, bits);
        if m == 0 { return false, data, bits; }
        tot, t := tot + m, t + 1;
      }
      ok := true;
    }

    /** writei once its arguments are accepted. */
    method WriteAll(src: seq<Byte>, off: nat) returns (ok: bool)
      requires Valid() && off <= ip.size && off + |src| <= MAXSIZE
      modifies `disk, `logged, `ip, `owner
      ensures ok ==> Touched(sb, old(disk), old(logged), disk, logged)
      ensures !ok ==> |disk| == sb.size && Full(sb, disk)
      ensures ok ==> Valid() && Wrote(sb, old(Now()), off, src, Now())
      ensures ok && |src| > 0 ==> |logged - old(logged)| <= LogLimit(off, |src|)
    {
      hide Inv, Full, Filled, Writing, WriteLog, Wrote, Resized, Touched;
      InvShape(sb, Now(), owner);
      ghost var data, bits;
      ok, data, bits := WriteLoop(off, src);
      if !ok { return; }
      ghost var s := Now();
      WritingState(sb, old(Now()), off, src, |src|, s);
      if |src| > 0 {
        LogBound(old(ip), old(logged), off, |src|, data, bits, ip, logged, IBlock(sb, inum));
      }
      if |src| > 0 && off + |src| > ip.size {
        ghost var log1 := logged;
        Update(ip.(size := off + |src|));
        TouchedTwice(sb, old(disk), old(logged), s.disk, log1, disk, logged);
      } else {
        WriteInside(sb, old(Now()), off, src, Now());
      }
      WriteDone(sb, old(Now()), old(owner), off, src, s, Now());
      WroteState(sb, old(Now()), off, src, Now());
    }

    /** writei: the file is overlaid with src at off, or nothing happens. The wrap-around test of the
        source makes the test of the sum exact. */
    method Writei(src: seq<Byte>, off: Uint) returns (r: Result)
      requires Valid() && |src| < 0x1_0000_0000
      modifies `disk, `logged, `ip, `owner
      ensures r.Count? ==> Touched(sb, old(disk), old(logged), disk, logged)
      ensures r == Failed <==> if old(ip).typ == T_DEV then old(ip).major >= NDEV || old(ip).major !in drivers
                               else off > old(ip).size || off + |src| > MAXSIZE
      ensures r.Count? || r == Panicked ==> old(ip).typ != T_DEV
      ensures r == ToDevice ==> old(ip).typ == T_DEV
      ensures r == Failed || r == ToDevice ==> Now() == old(Now()) && owner == old(owner) && logged == old(logged)
      ensures r == Panicked ==> |disk| == sb.size && Full(sb, disk)
      ensures r.Count? ==> r.n == |src| && off <= old(ip).size && Valid() && Wrote(sb, old(Now()), off, src, Now())
      ensures r.Count? && |src| > 0 ==> |logged - old(logged)| <= LogLimit(off, |src|)
    {
      hide Valid, Wrote, Full, Touched;
      if ip.typ == T_DEV {
        // a negative major is at least 0x8000 here
        return if ip.major >= NDEV || ip.major !in drivers then Failed else ToDevice;
      }
      if off > ip.size || (off + |src|) % 0x1_0000_0000 < off {
        return Failed;
      }
      if (off + |src|) % 0x1_0000_0000 > MAXSIZE {
        return Failed;
      }
      var ok := WriteAll(src, off);
      r := if ok then Count(|src|) else Panicked;
    }

    /** readi: the bytes of the file from off on, as many as there are up to n. With no holes bmap
        allocates nothing, so nothing but the buffer changes. */
    method Readi(dst: array<Byte>, off: Uint, n: Uint) returns (r: Result)
      requires Valid() && n <= dst.Length
      modifies `disk, `logged, `ip, `owner, dst
      ensures Now() == old(Now()) && owner == old(owner) && logged == old(logged)
      ensures r == Failed <==> if ip.typ == T_DEV then ip.major >= NDEV || ip.major !in drivers
                               else off > ip.size || off + n >= 0x1_0000_0000
      ensures r == ToDevice ==> ip.typ == T_DEV
      ensures r != Panicked
      ensures !r.Count? ==> dst[..] == old(dst[..])
      ensures r.Count? ==> off <= ip.size && r.n == Min(n, ip.size - off) && Filled(sb, Now(), inum)
      ensures r.Count? ==> dst[..] == File(sb, Now(), inum)[off..off + r.n] + old(dst[r.n..])
    {
      hide Inv, Filled, File, Synced;
      InvShape(sb, Now(), owner);
      if ip.typ == T_DEV {
        return if ip.major >= NDEV || ip.major !in drivers then Failed else ToDevice;
      }
      if off > ip.size || (off + n) % 0x1_0000_0000 < off {
        return Failed;
      }
      var len := if off + n > ip.size then ip.size - off else n;
      ReadLoop(dst, off, len);
      r := Count(len);
    }

    /** bread(bmap(ip, bn)) of a block that is there. */
    method ReadBlock(bn: nat) returns (bp: Block)
      requires Inv(sb, Now(), owner, {}) && bn < MAXFILE && Mapped(sb, Now(), inum, bn)
      modifies `disk, `logged, `ip, `owner
      ensures Now() == old(Now()) && owner == old(owner) && logged == old(logged)
      ensures var a := Slot(sb, Now(), inum, DataSlot(bn)); a < sb.size && bp == disk[a]
    {
      hide Inv, Slot;
      var addr, bits := Bmap(bn);
      bp := disk[addr.value];
    }

    /** One round of the copy loop of readi: the part of the file in one block. */
    method ReadRound(dst: array<Byte>, off: nat, m: nat, at: nat)
      requires Inv(sb, Now(), owner, {}) && Filled(sb, Now(), inum) && 0 < m && off + m <= ip.size
      requires off % BSIZE + m <= BSIZE && at + m <= dst.Length
      modifies `disk, `logged, `ip, `owner, dst
      ensures Now() == old(Now()) && owner == old(owner) && logged == old(logged)
      ensures dst[..] == Splice(old(dst[..]), at, File(sb, Now(), inum)[off..off + m])
    {
      hide Inv, Filled, File, Slot, Mapped;
      InvShape(sb, Now(), owner);
      ReadBytes(sb, Now(), off, m);
      var bp := ReadBlock(off / BSIZE);
      CopyOut(dst, at, bp[off % BSIZE..off % BSIZE + m]);
    }

    method ReadLoop(dst: array<Byte>, off: nat, n: nat)
      requires Inv(sb, Now(), owner, {}) && Filled(sb, Now(), inum) && off + n <= ip.size && n <= dst.Length
      modifies `disk, `logged, `ip, `owner, dst
      ensures Now() == old(Now()) && owner == old(owner) && logged == old(logged)
      ensures ReadTo(File(sb, Now(), inum), off, n, old(dst[..]), dst[..])
    {
      hide Inv, Filled, File, Splice, ReadTo;
      InvShape(sb, Now(), owner);
      FileLength(sb, Now(), inum);
      ghost var file, was := File(sb, Now(), inum), dst[..];
      ReadStart(file, off, was);
      var tot := 0;
      while tot < n
        invariant tot <= n
        invariant Now() == old(Now()) && owner == old(owner) && logged == old(logged)
        invariant ReadTo(file, off, tot, was, dst[..])
      {
        var m := Piece(off + tot, n - tot);
        ghost var now := dst[..];
        ReadRound(dst, off + tot, m, tot);
        ReadJoin(file, off, tot, m, was, now, dst[..]);
        tot := tot + m;
      }
    }

    /** The direct blocks of itrunc. */
    method FreeDirect()
      requires Inv(sb, Now(), owner, {})
      modifies `disk, `logged, `ip
      ensures inum == old(inum) && TruncInv(sb, old(Now()), NDIRECT, disk)
      ensures ip == old(ip).(addrs := ip.addrs)
      ensures forall k | 0 <= k <= NDIRECT :: ip.addrs[k] == if k < NDIRECT then 0 else old(ip).addrs[k]
    {
      hide Inv, TruncInv;
      ghost var s := Now();
      InvShape(sb, s, owner);
      TruncStart(sb, s);
      var i := 0;
      while i < NDIRECT
        invariant i <= NDIRECT && inum == s.inum && ip == s.ip.(addrs := ip.addrs)
        invariant TruncInv(sb, s, i, disk)
        invariant forall k | 0 <= k <= NDIRECT :: ip.addrs[k] == if k < i then 0 else s.ip.addrs[k]
      {
        ghost var d := disk;
        TruncNext(sb, s, owner, i, d);
        if ip.addrs[i] != 0 {
          var ok := Bfree(ip.addrs[i]);
          assert ok;
          ip := ip.(addrs := ip.addrs[i := 0]);
        }
        TruncStep(sb, s, owner, i, d, disk);
        i := i + 1;
      }
    }

    /** The indirect block of itrunc; s is the state at the start of itrunc. */
    method FreeIndirect(ghost s: State)
      requires Inv(sb, s, owner, {}) && TruncInv(sb, s, NDIRECT, disk) && inum == s.inum
      requires ip == s.ip.(addrs := ip.addrs) && ip.addrs[NDIRECT] == s.ip.addrs[NDIRECT]
      modifies `disk, `logged, `ip
      ensures TruncInv(sb, s, SLOTS, disk) && ip == old(ip).(addrs := old(ip).addrs[NDIRECT := 0])
    {
      hide Inv, TruncInv, Entry, Slot;
      InvShape(sb, s, owner);
      var i := ip.addrs[NDIRECT];
      if i == 0 {
        TruncNoIndirect(sb, s, disk);
      } else {
        TruncIndirect(sb, s, owner, NDIRECT, disk);
        var a := disk[i];
        var j := 0;
        while j < NINDIRECT
          invariant j <= NINDIRECT && TruncInv(sb, s, NDIRECT + j, disk) && ip == old(ip) && inum == s.inum
        {
          IndirectSlots(sb, s, j);
          TruncNext(sb, s, owner, NDIRECT + j, disk);
          ghost var d := disk;
          if Entry(a, j) != 0 {
            var ok := Bfree(Entry(a, j));
            assert ok;
          }
          TruncStep(sb, s, owner, NDIRECT + j, d, disk);
          j := j + 1;
        }
        IndirectSlots(sb, s, 0);
        TruncNext(sb, s, owner, SLOTS - 1, disk);
        ghost var d := disk;
        var ok := Bfree(i);
        assert ok;
        TruncStep(sb, s, owner, SLOTS - 1, d, disk);
      }
      ip := ip.(addrs := ip.addrs[NDIRECT := 0]);
    }

    /** itrunc: see Emptied. */
    method Itrunc()
      requires Valid()
      modifies `disk, `logged, `ip, `owner
      ensures Valid() && Emptied(sb, old(Now()), Now()) && ip == old(ip).(size := 0, addrs := ip.addrs)
    {
      hide Inv, TruncInv, Truncated, AllFilled, Resized, OthersKept, Emptied, Marked;
      ghost var s := Now();
      InvShape(sb, s, owner);
      FreeDirect();
      FreeIndirect(s);
      ghost var s1 := Now();
      TruncEnd(sb, s, s1);
      TruncKeeps(sb, s, owner, {}, s1);
      TruncOthers(sb, s, owner, s1);
      owner := Without(owner, inum);
      Update(ip.(size := 0));
      TruncDone(sb, s, old(owner), s1, Now());
    }

    /** iput of a valid inode with ref references: the last reference to an unlinked file frees it. */
    method Iput(ref: nat) returns (left: nat)
      requires Valid() && ref > 0
      modifies `disk, `logged, `ip, `owner
      ensures Valid() && left == ref - 1
      ensures if old(ip).nlink == 0 && ref == 1 then Emptied(sb, old(Now()), Now()) && ip.typ == 0
              else Now() == old(Now())
    {
      hide Inv, AllFilled, Emptied, Resized, Marked;
      InvShape(sb, Now(), owner);
      if ip.nlink == 0 && ref == 1 {
        Itrunc();
        ghost var s := Now();
        Update(ip.(typ := 0));
        EmptiedUpdate(sb, old(Now()), s, owner, Now());
      }
      left := ref - 1;
    }
  }
}

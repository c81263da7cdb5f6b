/** The byte string that an inode stands for, and what the steps of xv6/fs.c do to it. */
module FileBytes {
  import opened FsLayout
  import opened Ownership

  const MAXSIZE := MAXFILE * BSIZE

  /** The slot of block bn of a file; slot 12 is the indirect block. */
  function DataSlot(bn: nat): nat {
    if bn < NDIRECT then bn else bn + 1
  }

  predicate Mapped(sb: Super, s: State, i: nat, bn: nat)
    requires Shape(sb, s) && i < sb.ninodes && bn < MAXFILE
  {
    Slot(sb, s, i, DataSlot(bn)) != 0
  }

  function ByteAt(sb: Super, s: State, i: nat, x: nat): Byte
    requires Shape(sb, s) && i < sb.ninodes && x < MAXSIZE
  {
    var a := Slot(sb, s, i, DataSlot(x / BSIZE));
    if a < sb.size then s.disk[a][x % BSIZE] else 0
  }

  /** Every block below the size is there. */
  ghost predicate Filled(sb: Super, s: State, i: nat)
    requires Shape(sb, s) && i < sb.ninodes
  {
    && Node(sb, s, i).size <= MAXSIZE
    && (forall bn | 0 <= bn < MAXFILE && BSIZE * bn < Node(sb, s, i).size :: Mapped(sb, s, i, bn))
  }

  ghost predicate AllFilled(sb: Super, s: State)
    requires Shape(sb, s)
  {
    forall i | 0 <= i < sb.ninodes :: Filled(sb, s, i)
  }

  function File(sb: Super, s: State, i: nat): seq<Byte>
    requires Shape(sb, s) && i < sb.ninodes && Filled(sb, s, i)
  {
    seq(Node(sb, s, i).size, x requires 0 <= x < Node(sb, s, i).size => ByteAt(sb, s, i, x))
  }

  lemma FileLength(sb: Super, s: State, i: nat)
    requires Shape(sb, s) && i < sb.ninodes && Filled(sb, s, i)
    ensures |File(sb, s, i)| == Node(sb, s, i).size <= MAXSIZE
  {
  }

  /** The inode on disk is the one in memory. */
  ghost predicate Synced(sb: Super, s: State)
    requires Shape(sb, s)
  {
    DInode(sb, s.disk, s.inum) == s.ip
  }

  // ---------------------------------------------------------------------------------------
  // The other files
  // ---------------------------------------------------------------------------------------

  /** Data slot k of inode i and the block in it stay. */
  ghost predicate BlockKept(sb: Super, s: State, s': State, i: nat, k: nat)
    requires Shape(sb, s) && Shape(sb, s') && i < sb.ninodes && k < SLOTS
  {
    var a := Slot(sb, s, i, k);
    Slot(sb, s', i, k) == a && (0 < a < sb.size ==> s'.disk[a] == s.disk[a])
  }

  /** Inode i and all its data stay. */
  ghost predicate FileKept(sb: Super, s: State, s': State, i: nat)
    requires Shape(sb, s) && Shape(sb, s') && i < sb.ninodes
  {
    && Node(sb, s', i) == Node(sb, s, i)
    && (forall k | 0 <= k < SLOTS && k != NDIRECT :: BlockKept(sb, s, s', i, k))
  }

  ghost predicate OthersKept(sb: Super, s: State, s': State) {
    && Shape(sb, s) && Shape(sb, s') && s'.inum == s.inum && s'.others == s.others
    && (forall i | 0 <= i < sb.ninodes && i != s.inum :: FileKept(sb, s, s', i))
  }

  lemma OthersTransitive(sb: Super, s: State, s1: State, s2: State)
    requires OthersKept(sb, s, s1) && OthersKept(sb, s1, s2)
    ensures OthersKept(sb, s, s2)
  {
    hide Slot, Node;
    forall i | 0 <= i < sb.ninodes && i != s.inum ensures FileKept(sb, s, s2, i) {
      assert FileKept(sb, s, s1, i) && FileKept(sb, s1, s2, i);
      forall k | 0 <= k < SLOTS && k != NDIRECT ensures BlockKept(sb, s, s2, i, k) {
        assert BlockKept(sb, s, s1, i, k) && BlockKept(sb, s1, s2, i, k);
      }
    }
  }

  /** A kept inode stands for the same bytes. */
  lemma KeptBytes(sb: Super, s: State, s': State, owner: Owner, i: nat)
    requires Inv(sb, s, owner, {}) && Shape(sb, s') && i < sb.ninodes && FileKept(sb, s, s', i) && Filled(sb, s, i)
    ensures Filled(sb, s', i) && File(sb, s', i) == File(sb, s, i)
  {
    hide Slot, Node, Marked;
    forall bn | 0 <= bn < MAXFILE && BSIZE * bn < Node(sb, s, i).size
      ensures Mapped(sb, s, i, bn) && BlockKept(sb, s, s', i, DataSlot(bn)) && Mapped(sb, s', i, bn)
    {
    }
    forall x | 0 <= x < Node(sb, s, i).size ensures ByteAt(sb, s', i, x) == ByteAt(sb, s, i, x) {
      assert BSIZE * (x / BSIZE) < Node(sb, s, i).size;
      assert Mapped(sb, s, i, x / BSIZE) && BlockKept(sb, s, s', i, DataSlot(x / BSIZE));
    }
  }

  // ---------------------------------------------------------------------------------------
  // bmap
  // ---------------------------------------------------------------------------------------

  /** What bmap(ip, bn) = addr leaves behind: block bn is there, zeroed if it is new; no other data
      block of any file has changed or moved, and the inodes on disk have not either. */
  ghost predicate Grown(sb: Super, s: State, bn: nat, addr: nat, s': State) {
    && Shape(sb, s) && Shape(sb, s') && bn < MAXFILE && 0 < addr < sb.size
    && s'.inum == s.inum && s'.others == s.others && s'.ip == s.ip.(addrs := s'.ip.addrs)
    && Slot(sb, s', s.inum, DataSlot(bn)) == addr
    && (forall i, k | 0 <= i < sb.ninodes && 0 <= k < SLOTS && k != NDIRECT && !(i == s.inum && k == DataSlot(bn)) ::
          BlockKept(sb, s, s', i, k))
    && (if Mapped(sb, s, s.inum, bn) then s' == s else IsZero(s'.disk[addr]))
    && (forall i | 0 <= i < sb.ninodes :: DInode(sb, s'.disk, i) == DInode(sb, s.disk, i))
  }

  lemma GrownOthers(sb: Super, s: State, bn: nat, addr: nat, s': State)
    requires Grown(sb, s, bn, addr, s')
    ensures OthersKept(sb, s, s')
  {
    hide Slot, DInode;
    forall i | 0 <= i < sb.ninodes && i != s.inum ensures FileKept(sb, s, s', i) {
      assert DInode(sb, s'.disk, i) == DInode(sb, s.disk, i);
    }
  }

  /** bmap of a block that is there. */
  lemma MappedGrown(sb: Super, s: State, owner: Owner, bn: nat)
    requires Inv(sb, s, owner, {}) && bn < MAXFILE && Mapped(sb, s, s.inum, bn)
    ensures Grown(sb, s, bn, Slot(sb, s, s.inum, DataSlot(bn)), s)
  {
    hide Slot, DInode, Marked;
    var a := Slot(sb, s, s.inum, DataSlot(bn));
    assert SlotOwned(sb, s, owner, s.inum, DataSlot(bn)) && BlockOwned(sb, s, owner, a);
  }

  /** No data block of any file has changed or moved. */
  ghost predicate Quiet(sb: Super, s: State, s': State) {
    && Shape(sb, s) && Shape(sb, s') && s'.inum == s.inum && s'.others == s.others
    && s'.ip == s.ip.(addrs := s'.ip.addrs)
    && (forall i, k | 0 <= i < sb.ninodes && 0 <= k < SLOTS && k != NDIRECT :: BlockKept(sb, s, s', i, k))
    && (forall i | 0 <= i < sb.ninodes :: DInode(sb, s'.disk, i) == DInode(sb, s.disk, i))
  }

  lemma QuietTransitive(sb: Super, s: State, s1: State, s2: State)
    requires Quiet(sb, s, s1) && Quiet(sb, s1, s2)
    ensures Quiet(sb, s, s2)
  {
    hide Slot, DInode;
    forall i, k | 0 <= i < sb.ninodes && 0 <= k < SLOTS && k != NDIRECT ensures BlockKept(sb, s, s2, i, k) {
      assert BlockKept(sb, s, s1, i, k) && BlockKept(sb, s1, s2, i, k);
    }
  }

  lemma AllocQuiet(sb: Super, s: State, owner: Owner, b: nat, s': State)
    requires Inv(sb, s, owner, {}) && Allocated(sb, s.disk, b, s'.disk) && s' == s.(disk := s'.disk)
    ensures Inv(sb, s', owner, {b}) && sb.DataStart() <= b && Quiet(sb, s, s')
  {
    hide Slot, DInode, Marked;
    AllocKeeps(sb, s, owner, {}, b, s');
    assert {} + {b} == {b};
    forall i, k | 0 <= i < sb.ninodes && 0 <= k < SLOTS && k != NDIRECT ensures BlockKept(sb, s, s', i, k) {
      assert SlotOwned(sb, s, owner, i, k);
      var a := Slot(sb, s, i, k);
      assert a != 0 ==> BlockOwned(sb, s, owner, a);
    }
  }

  /** A new indirect block takes nothing from the files. */
  lemma IndirectQuiet(sb: Super, s: State, owner: Owner, b: Uint, s': State)
    requires Inv(sb, s, owner, {b}) && s.ip.addrs[NDIRECT] == 0 && b < sb.size && IsZero(s.disk[b])
    requires s' == s.(ip := s.ip.(addrs := s.ip.addrs[NDIRECT := b]))
    ensures Inv(sb, s', owner[b := (s.inum, NDIRECT)], {}) && Quiet(sb, s, s')
  {
    hide Slot, DInode, Marked;
    AttachDirect(sb, s, owner, {b as nat}, b, NDIRECT, s');
    assert {b as nat} - {b} == {};
  }

  lemma DirectGrown(sb: Super, s: State, s1: State, owner: Owner, bn: nat, b: Uint, s2: State)
    requires Quiet(sb, s, s1) && Inv(sb, s1, owner, {b}) && bn < NDIRECT && s1.ip.addrs[bn] == 0
    requires 0 < b < sb.size && IsZero(s1.disk[b])
    requires s2 == s1.(ip := s1.ip.(addrs := s1.ip.addrs[bn := b]))
    ensures Inv(sb, s2, owner[b := (s.inum, bn)], {}) && Grown(sb, s, bn, b, s2)
  {
    assert Slot(sb, s1, s.inum, bn) == 0;
    hide Slot, DInode, Marked;
    AttachDirect(sb, s1, owner, {b as nat}, b, bn, s2);
    assert {b as nat} - {b} == {};
    assert BlockKept(sb, s, s1, s.inum, bn);
    forall i, k | 0 <= i < sb.ninodes && 0 <= k < SLOTS && k != NDIRECT && !(i == s.inum && k == bn)
      ensures BlockKept(sb, s, s2, i, k)
    {
      assert BlockKept(sb, s, s1, i, k);
    }
  }

  lemma IndirectSlots(sb: Super, s: State, j: nat)
    requires Shape(sb, s) && j < NINDIRECT
    ensures var a := s.ip.addrs[NDIRECT];
            && Slot(sb, s, s.inum, NDIRECT) == a
            && (0 < a < sb.size ==> Slot(sb, s, s.inum, NDIRECT + 1 + j) == Entry(s.disk[a], j))
  {
  }

  /** Whether a block behind the indirect block is there can be read from its entry, before and
      after the indirect block has been brought in. */
  lemma EntryMapped(sb: Super, s: State, s': State, bn: nat)
    requires Quiet(sb, s, s') && NDIRECT <= bn < MAXFILE && 0 < s'.ip.addrs[NDIRECT] < sb.size
    ensures Mapped(sb, s, s.inum, bn) <==> Entry(s'.disk[s'.ip.addrs[NDIRECT]], bn - NDIRECT) != 0
    ensures Mapped(sb, s, s.inum, bn) ==> s.ip.addrs[NDIRECT] != 0
  {
    hide DInode, Entry;
    assert BlockKept(sb, s, s', s.inum, bn + 1);
  }

  lemma NotMapped(sb: Super, s: State, bn: nat)
    requires Shape(sb, s) && NDIRECT <= bn < MAXFILE
    ensures Mapped(sb, s, s.inum, bn) ==> s.ip.addrs[NDIRECT] != 0
  {
  }

  lemma EntryThere(sb: Super, s: State, owner: Owner, bn: nat)
    requires Inv(sb, s, owner, {}) && NDIRECT <= bn < MAXFILE && 0 < s.ip.addrs[NDIRECT] < sb.size
    requires Entry(s.disk[s.ip.addrs[NDIRECT]], bn - NDIRECT) != 0
    ensures Grown(sb, s, bn, Entry(s.disk[s.ip.addrs[NDIRECT]], bn - NDIRECT), s)
  {
    assert Shape(sb, s);
    hide Inv, Entry, Slot, Grown;
    IndirectSlots(sb, s, bn - NDIRECT);
    MappedGrown(sb, s, owner, bn);
  }

  lemma EntryGrown(sb: Super, s: State, s1: State, owner: Owner, bn: nat, b: Uint, s2: State)
    requires Quiet(sb, s, s1) && Inv(sb, s1, owner, {b}) && NDIRECT <= bn < MAXFILE
    requires 0 < b < sb.size && IsZero(s1.disk[b]) && PutInEntry(sb, s1, b, bn - NDIRECT, s2)
    requires Entry(s1.disk[s1.ip.addrs[NDIRECT]], bn - NDIRECT) == 0
    ensures Inv(sb, s2, owner[b := (s.inum, bn + 1)], {}) && Grown(sb, s, bn, b, s2)
  {
    hide Slot, DInode, Marked, Entry, PutEntry;
    var a := s1.ip.addrs[NDIRECT];
    IndirectSlots(sb, s1, bn - NDIRECT);
    assert SlotOwned(sb, s1, owner, s.inum, NDIRECT);
    AttachEntry(sb, s1, owner, {b as nat}, b, bn - NDIRECT, s2);
    assert {b as nat} - {b} == {};
    assert BlockKept(sb, s, s1, s.inum, bn + 1);
    forall i, k | 0 <= i < sb.ninodes && 0 <= k < SLOTS && k != NDIRECT && !(i == s.inum && k == bn + 1)
      ensures BlockKept(sb, s, s2, i, k)
    {
      assert BlockKept(sb, s, s1, i, k) && SlotOwned(sb, s1, owner, i, k);
    }
  }

  // ---------------------------------------------------------------------------------------
  // writei
  // ---------------------------------------------------------------------------------------

  /** One round of the copy loop: bmap, then src over bytes p .. p + |src| of that block. */
  ghost predicate Stored(sb: Super, s: State, bn: nat, p: nat, src: seq<Byte>, s': State) {
    && Shape(sb, s) && bn < MAXFILE && p + |src| <= BSIZE
    && var a := Slot(sb, s, s.inum, DataSlot(bn));
    && 0 < a < sb.size && s' == s.(disk := s.disk[a := Splice(s.disk[a], p, src)])
  }

  lemma StoredBytes(sb: Super, s: State, owner: Owner, bn: nat, p: nat, src: seq<Byte>, s': State)
    requires Inv(sb, s, owner, {}) && Stored(sb, s, bn, p, src, s')
    ensures Inv(sb, s', owner, {}) && OthersKept(sb, s, s')
    ensures forall c | 0 <= c < MAXFILE :: Mapped(sb, s', s.inum, c) == Mapped(sb, s, s.inum, c)
    ensures forall x | 0 <= x < MAXSIZE && Mapped(sb, s, s.inum, x / BSIZE) ::
              ByteAt(sb, s', s.inum, x) == if BSIZE * bn + p <= x < BSIZE * bn + p + |src| then src[x - BSIZE * bn - p]
                                           else ByteAt(sb, s, s.inum, x)
    ensures forall i | 0 <= i < sb.ninodes :: DInode(sb, s'.disk, i) == DInode(sb, s.disk, i)
  {
    hide Slot, DInode, Marked;
    var a := Slot(sb, s, s.inum, DataSlot(bn));
    StoreKeeps(sb, s, owner, {}, DataSlot(bn), Splice(s.disk[a], p, src), s');
    assert SlotOwned(sb, s, owner, s.inum, DataSlot(bn));
    forall i, k | 0 <= i < sb.ninodes && 0 <= k < SLOTS && k != NDIRECT && !(i == s.inum && k == DataSlot(bn))
      ensures BlockKept(sb, s, s', i, k)
    {
      assert SlotOwned(sb, s, owner, i, k);
    }
    forall x | 0 <= x < MAXSIZE && Mapped(sb, s, s.inum, x / BSIZE)
      ensures ByteAt(sb, s', s.inum, x) == if BSIZE * bn + p <= x < BSIZE * bn + p + |src| then src[x - BSIZE * bn - p]
                                           else ByteAt(sb, s, s.inum, x)
    {
      if x / BSIZE != bn {
        assert BlockKept(sb, s, s', s.inum, DataSlot(x / BSIZE));
      }
    }
  }

  /** tot bytes of src are in place at off; whatever else was there still is. The inode in memory
      has changed only if the write has gone past the old end. */
  ghost predicate Writing(sb: Super, s0: State, off: nat, src: seq<Byte>, tot: nat, s: State) {
    && OthersKept(sb, s0, s) && tot <= |src| && off + |src| <= MAXSIZE
    && s.ip == s0.ip.(addrs := s.ip.addrs)
    && (s.ip.addrs == s0.ip.addrs || off + tot > s0.ip.size)
    && (forall c | 0 <= c < MAXFILE && Mapped(sb, s0, s0.inum, c) :: Mapped(sb, s, s0.inum, c))
    && (forall x | off <= x < off + tot ::
          Mapped(sb, s, s0.inum, x / BSIZE) && ByteAt(sb, s, s0.inum, x) == src[x - off])
    && (forall x | 0 <= x < MAXSIZE && !(off <= x < off + tot) && Mapped(sb, s0, s0.inum, x / BSIZE) ::
          ByteAt(sb, s, s0.inum, x) == ByteAt(sb, s0, s0.inum, x))
    && (forall i | 0 <= i < sb.ninodes :: DInode(sb, s.disk, i) == DInode(sb, s0.disk, i))
  }

  lemma WritingStart(sb: Super, s: State, off: nat, src: seq<Byte>)
    requires Shape(sb, s) && off + |src| <= MAXSIZE
    ensures Writing(sb, s, off, src, 0, s)
  {
    hide Slot, ByteAt, DInode;
  }

  /** bmap moves no byte of the locked file. */
  lemma GrownBytes(sb: Super, s: State, bn: nat, addr: nat, s': State)
    requires Grown(sb, s, bn, addr, s')
    ensures forall c | 0 <= c < MAXFILE && Mapped(sb, s, s.inum, c) :: Mapped(sb, s', s.inum, c)
    ensures Mapped(sb, s', s.inum, bn)
    ensures forall x | 0 <= x < MAXSIZE && Mapped(sb, s, s.inum, x / BSIZE) ::
              ByteAt(sb, s', s.inum, x) == ByteAt(sb, s, s.inum, x)
  {
    hide Slot, DInode;
    forall c | 0 <= c < MAXFILE && c != bn ensures BlockKept(sb, s, s', s.inum, DataSlot(c)) {
    }
  }

  lemma GrownSlot(sb: Super, s: State, bn: nat, addr: nat, s': State)
    requires Grown(sb, s, bn, addr, s')
    ensures Shape(sb, s') && 0 < addr < sb.size && Slot(sb, s', s'.inum, DataSlot(bn)) == addr && bn < MAXFILE
  {
  }

  /** The block of the next byte is in range, and there already if the byte is not its first. */
  lemma WritingInRange(sb: Super, s0: State, off: nat, src: seq<Byte>, tot: nat, s: State)
    requires Writing(sb, s0, off, src, tot, s) && Filled(sb, s0, s0.inum) && off <= s0.ip.size && tot < |src|
    ensures Shape(sb, s) && s.inum == s0.inum && (off + tot) / BSIZE < MAXFILE
    ensures tot == 0 && off % BSIZE != 0 ==> Mapped(sb, s, s.inum, off / BSIZE)
  {
    hide Slot, ByteAt, DInode;
    assert tot == 0 && off % BSIZE != 0 ==> Mapped(sb, s0, s.inum, off / BSIZE);
  }

  lemma WriteStep(sb: Super, s0: State, off: nat, src: seq<Byte>, tot: nat, s: State, owner: Owner,
                  addr: nat, s1: State, m: nat, s2: State)
    requires Writing(sb, s0, off, src, tot, s) && Filled(sb, s0, s0.inum) && off <= s0.ip.size
    requires tot < tot + m <= |src| && (off + tot) % BSIZE + m <= BSIZE
    requires Grown(sb, s, (off + tot) / BSIZE, addr, s1) && Inv(sb, s1, owner, {})
    requires Stored(sb, s1, (off + tot) / BSIZE, (off + tot) % BSIZE, src[tot..tot + m], s2)
    ensures Inv(sb, s2, owner, {}) && Writing(sb, s0, off, src, tot + m, s2)
  {
    hide Slot, DInode, Marked, ByteAt, Inv;
    var bn := (off + tot) / BSIZE;
    GrownOthers(sb, s, bn, addr, s1);
    GrownBytes(sb, s, bn, addr, s1);
    StoredBytes(sb, s1, owner, bn, (off + tot) % BSIZE, src[tot..tot + m], s2);
    OthersTransitive(sb, s0, s, s1);
    OthersTransitive(sb, s0, s1, s2);
    assert Mapped(sb, s, s.inum, bn) ==> s1 == s;
    assert BSIZE * bn < s0.ip.size ==> Mapped(sb, s0, s.inum, bn);
    hide OthersKept, Grown, Stored;
    forall x | off <= x < off + tot + m
      ensures Mapped(sb, s2, s0.inum, x / BSIZE) && ByteAt(sb, s2, s0.inum, x) == src[x - off]
    {
      if x < off + tot {
        assert Mapped(sb, s, s0.inum, x / BSIZE);
      } else {
        assert x / BSIZE == bn;
      }
    }
    forall x | 0 <= x < MAXSIZE && !(off <= x < off + tot + m) && Mapped(sb, s0, s0.inum, x / BSIZE)
      ensures ByteAt(sb, s2, s0.inum, x) == ByteAt(sb, s0, s0.inum, x)
    {
      assert Mapped(sb, s, s0.inum, x / BSIZE);
    }
  }

  function Overlay(f: seq<Byte>, off: nat, src: seq<Byte>): seq<Byte>
    requires off <= |f|
  {
    f[..off] + src + if off + |src| < |f| then f[off + |src|..] else []
  }

  /** A completed write: the file is overlaid with src, every other file is the same, the inode on
      disk is the one in memory, and there are still no holes. */
  ghost predicate Wrote(sb: Super, s0: State, off: nat, src: seq<Byte>, s: State)
    requires Shape(sb, s0) && AllFilled(sb, s0) && off <= s0.ip.size
  {
    && Shape(sb, s) && s.inum == s0.inum && AllFilled(sb, s) && Synced(sb, s)
    && s.ip == s0.ip.(addrs := s.ip.addrs, size := s.ip.size)
    && File(sb, s, s0.inum) == Overlay(File(sb, s0, s0.inum), off, src)
    && (forall i | 0 <= i < sb.ninodes && i != s0.inum ::
          File(sb, s, i) == File(sb, s0, i) && Node(sb, s, i) == Node(sb, s0, i))
  }

  /** The size after a write. */
  function NewSize(size: nat, off: nat, n: nat): nat {
    if n > 0 && off + n > size then off + n else size
  }

  /** No data has moved: only the size and the like of the locked inode, and what the disk says of
      it, may differ. */
  ghost predicate Resized(sb: Super, s: State, s': State) {
    && OthersKept(sb, s, s') && s'.ip.addrs == s.ip.addrs
    && (forall k | 0 <= k < SLOTS && k != NDIRECT :: BlockKept(sb, s, s', s.inum, k))
  }

  /** Changing the inode but for its blocks and calling iupdate. */
  lemma UpdateResizes(sb: Super, s: State, owner: Owner, ip: Inode, s': State)
    requires Inv(sb, s, owner, {}) && ip.addrs == s.ip.addrs
    requires var ib := IBlock(sb, s.inum);
             s' == s.(disk := s.disk[ib := PutInode(s.disk[ib], s.inum, ip)], ip := ip)
    ensures Inv(sb, s', owner, {}) && Resized(sb, s, s') && Synced(sb, s')
    ensures forall b | 0 <= b < sb.size :: Marked(sb, s'.disk, b) == Marked(sb, s.disk, b)
  {
    hide DInode, Marked, PutInode, Entry;
    var s1 := s.(ip := ip);
    forall i, k | 0 <= i < sb.ninodes && 0 <= k < SLOTS ensures Slot(sb, s1, i, k) == Slot(sb, s, i, k) {
    }
    hide Slot;
    SameOwner(sb, s, s1, owner, {});
    UpdateKeeps(sb, s1, owner, {}, s');
    forall i, k | 0 <= i < sb.ninodes && 0 <= k < SLOTS && k != NDIRECT ensures BlockKept(sb, s, s', i, k) {
      assert SlotOwned(sb, s, owner, i, k);
      var a := Slot(sb, s, i, k);
      assert a != 0 ==> BlockOwned(sb, s, owner, a);
    }
    forall i | 0 <= i < sb.ninodes && i != s.inum ensures FileKept(sb, s, s', i) {
      assert Node(sb, s', i) == Node(sb, s1, i);
    }
  }

  lemma ResizedBytes(sb: Super, s: State, s': State)
    requires Resized(sb, s, s')
    ensures forall c | 0 <= c < MAXFILE :: Mapped(sb, s', s.inum, c) == Mapped(sb, s, s.inum, c)
    ensures forall x | 0 <= x < MAXSIZE && Mapped(sb, s, s.inum, x / BSIZE) ::
              ByteAt(sb, s', s.inum, x) == ByteAt(sb, s, s.inum, x)
  {
    hide Slot;
    forall c | 0 <= c < MAXFILE ensures BlockKept(sb, s, s', s.inum, DataSlot(c)) {
    }
  }

  /** A write that has not gone past the end has left the inode alone. */
  lemma WriteInside(sb: Super, s0: State, off: nat, src: seq<Byte>, s: State)
    requires Writing(sb, s0, off, src, |src|, s) && Synced(sb, s0) && off + |src| <= s0.ip.size
    ensures Resized(sb, s, s) && Synced(sb, s)
  {
    hide Slot, DInode, ByteAt;
  }

  lemma KeptNode(sb: Super, s: State, s': State, i: nat)
    requires Shape(sb, s) && Shape(sb, s') && i < sb.ninodes && FileKept(sb, s, s', i)
    ensures Node(sb, s', i) == Node(sb, s, i)
  {
  }

  lemma OthersFilled(sb: Super, s: State, owner: Owner, s': State)
    requires Inv(sb, s, owner, {}) && AllFilled(sb, s) && OthersKept(sb, s, s')
    ensures forall i | 0 <= i < sb.ninodes && i != s.inum ::
              Filled(sb, s', i) && File(sb, s', i) == File(sb, s, i) && Node(sb, s', i) == Node(sb, s, i)
  {
    hide Inv, File, FileKept, Node;
    forall i | 0 <= i < sb.ninodes && i != s.inum
      ensures Filled(sb, s', i) && File(sb, s', i) == File(sb, s, i) && Node(sb, s', i) == Node(sb, s, i)
    {
      KeptBytes(sb, s, s', owner, i);
      KeptNode(sb, s, s', i);
    }
  }

  lemma WriteDone(sb: Super, s0: State, owner0: Owner, off: nat, src: seq<Byte>, s: State, s': State)
    requires Inv(sb, s0, owner0, {}) && AllFilled(sb, s0) && off <= s0.ip.size
    requires Writing(sb, s0, off, src, |src|, s) && Resized(sb, s, s') && Synced(sb, s')
    requires s'.ip == s.ip.(size := NewSize(s0.ip.size, off, |src|))
    ensures Wrote(sb, s0, off, src, s')
  {
    hide Slot, DInode, Inv, ByteAt;
    ResizedBytes(sb, s, s');
    OthersTransitive(sb, s0, s, s');
    OthersFilled(sb, s0, owner0, s');
    hide OthersKept, FileKept;
    assert Filled(sb, s0, s0.inum);
    forall c | 0 <= c < MAXFILE && BSIZE * c < s'.ip.size ensures Mapped(sb, s', s0.inum, c) {
      if BSIZE * c < s0.ip.size {
        assert Mapped(sb, s0, s0.inum, c);
      } else {
        assert Mapped(sb, s, s0.inum, BSIZE * c / BSIZE);
      }
    }
    assert Filled(sb, s', s0.inum);
    var f, f' := File(sb, s0, s0.inum), File(sb, s', s0.inum);
    forall x | 0 <= x < |f'| ensures f'[x] == Overlay(f, off, src)[x] {
      assert BSIZE * (x / BSIZE) <= x;
      assert x < s0.ip.size ==> Mapped(sb, s0, s0.inum, x / BSIZE);
    }
    assert f' == Overlay(f, off, src);
  }

  lemma WritingState(sb: Super, s0: State, off: nat, src: seq<Byte>, tot: nat, s: State)
    requires Writing(sb, s0, off, src, tot, s)
    ensures Shape(sb, s) && s.inum == s0.inum && s.ip == s0.ip.(addrs := s.ip.addrs)
  {
  }

  lemma WroteState(sb: Super, s0: State, off: nat, src: seq<Byte>, s: State)
    requires Shape(sb, s0) && AllFilled(sb, s0) && off <= s0.ip.size && Wrote(sb, s0, off, src, s)
    ensures Shape(sb, s) && AllFilled(sb, s) && Synced(sb, s)
  {
  }

  lemma TruncOthers(sb: Super, s: State, owner: Owner, s': State)
    requires Inv(sb, s, owner, {}) && Truncated(sb, s, s')
    ensures OthersKept(sb, s, s')
  {
    hide Slot, Marked, DInode;
    TruncKeeps(sb, s, owner, {}, s');
    NodesKept(sb, s, s');
    forall i | 0 <= i < sb.ninodes && i != s.inum ensures FileKept(sb, s, s', i) {
      forall k | 0 <= k < SLOTS && k != NDIRECT ensures BlockKept(sb, s, s', i, k) {
        assert SlotOwned(sb, s, owner, i, k);
        var a := Slot(sb, s, i, k);
        assert a != 0 ==> BlockOwned(sb, s, owner, a);
      }
    }
  }

  /** m bytes inside one block of a file are m bytes of the block in its slot. */
  lemma ReadBytes(sb: Super, s: State, off: nat, m: nat)
    requires Shape(sb, s) && Filled(sb, s, s.inum) && m > 0 && off + m <= s.ip.size && off % BSIZE + m <= BSIZE
    ensures off / BSIZE < MAXFILE && Mapped(sb, s, s.inum, off / BSIZE)
    ensures var a := Slot(sb, s, s.inum, DataSlot(off / BSIZE));
            a < sb.size ==> |File(sb, s, s.inum)| == s.ip.size
                            && File(sb, s, s.inum)[off..off + m] == s.disk[a][off % BSIZE..off % BSIZE + m]
  {
    hide Slot;
    var a, f := Slot(sb, s, s.inum, DataSlot(off / BSIZE)), File(sb, s, s.inum);
    assert BSIZE * (off / BSIZE) < s.ip.size;
    if a < sb.size {
      forall k | off <= k < off + m ensures f[k] == s.disk[a][off % BSIZE + (k - off)] {
        assert k / BSIZE == off / BSIZE;
      }
    }
  }

  /** No file has changed. */
  ghost predicate SameFiles(sb: Super, s: State, s': State) {
    && Shape(sb, s) && Shape(sb, s') && AllFilled(sb, s) && AllFilled(sb, s')
    && (forall i | 0 <= i < sb.ninodes :: File(sb, s', i) == File(sb, s, i) && Node(sb, s', i) == Node(sb, s, i))
  }

  lemma LockFiles(sb: Super, s: State, i: nat, s': State)
    requires Shape(sb, s) && AllFilled(sb, s) && i < sb.ninodes && s'.disk == s.disk && s'.inum == i
    requires forall j | 0 <= j < sb.ninodes :: Node(sb, s', j) == Node(sb, s, j)
    ensures SameFiles(sb, s, s')
  {
    hide DInode, Node, Entry;
    forall j, k | 0 <= j < sb.ninodes && 0 <= k < SLOTS ensures Slot(sb, s', j, k) == Slot(sb, s, j, k) {
    }
    hide Slot;
    forall j | 0 <= j < sb.ninodes ensures Filled(sb, s', j) && File(sb, s', j) == File(sb, s, j) {
      assert Filled(sb, s, j);
      forall bn | 0 <= bn < MAXFILE && BSIZE * bn < Node(sb, s, j).size ensures Mapped(sb, s', j, bn) {
        assert Mapped(sb, s, j, bn);
      }
    }
  }

  /** Two writes, the second where the first ended, are one. */
  lemma WroteTwice(sb: Super, s0: State, off: nat, a: seq<Byte>, s1: State, b: seq<Byte>, s2: State)
    requires Shape(sb, s0) && AllFilled(sb, s0) && off <= s0.ip.size && Wrote(sb, s0, off, a, s1)
    requires off + |a| <= s1.ip.size && Wrote(sb, s1, off + |a|, b, s2)
    ensures Wrote(sb, s0, off, a + b, s2)
  {
    hide Slot, DInode, Filled, File;
    FileLength(sb, s0, s0.inum);
    var f := File(sb, s0, s0.inum);
    assert Overlay(Overlay(f, off, a), off + |a|, b) == Overlay(f, off, a + b);
  }

  lemma WroteNothing(sb: Super, s: State, off: nat)
    requires Shape(sb, s) && AllFilled(sb, s) && Synced(sb, s) && off <= s.ip.size
    ensures Wrote(sb, s, off, [], s)
  {
    hide Slot, DInode, Filled, File;
    FileLength(sb, s, s.inum);
    assert Overlay(File(sb, s, s.inum), off, []) == File(sb, s, s.inum);
  }

  /** The size after a write. */
  lemma WroteSize(sb: Super, s0: State, off: nat, src: seq<Byte>, s: State)
    requires Shape(sb, s0) && AllFilled(sb, s0) && off <= s0.ip.size && Wrote(sb, s0, off, src, s)
    ensures Shape(sb, s) && s.ip.size == NewSize(s0.ip.size, off, |src|) && s.ip.typ == s0.ip.typ && s.inum == s0.inum
    ensures s.ip.size <= MAXSIZE
  {
    FileLength(sb, s0, s0.inum);
    FileLength(sb, s, s0.inum);
  }

  /** What a write does, byte by byte: what was written reads back, and the rest of the file reads as before. */
  lemma WroteMeans(sb: Super, s0: State, off: nat, src: seq<Byte>, s: State)
    requires Shape(sb, s0) && AllFilled(sb, s0) && off <= s0.ip.size && Wrote(sb, s0, off, src, s)
    ensures var f, f' := File(sb, s0, s0.inum), File(sb, s, s0.inum);
            && |f'| == (if off + |src| > |f| then off + |src| else |f|) && f'[off..off + |src|] == src
            && forall x | 0 <= x < |f| && !(off <= x < off + |src|) :: f'[x] == f[x]
  {
    FileLength(sb, s0, s0.inum);
    hide File, Filled, DInode;
  }

  /** The block that holds byte x of a file. */
  lemma BlockOf(sb: Super, s: State, owner: Owner, i: nat, x: nat)
    requires Inv(sb, s, owner, {}) && i < sb.ninodes && Filled(sb, s, i) && x < Node(sb, s, i).size
    ensures x < MAXSIZE && x / BSIZE < MAXFILE
    ensures var b := Slot(sb, s, i, DataSlot(x / BSIZE)); 0 < b < sb.size && File(sb, s, i)[x] == s.disk[b][x % BSIZE]
  {
    hide Node, Marked, Slot;
    assert BSIZE * (x / BSIZE) <= x && Mapped(sb, s, i, x / BSIZE);
    var k := DataSlot(x / BSIZE);
    assert SlotOwned(sb, s, owner, i, k) && BlockOwned(sb, s, owner, Slot(sb, s, i, k));
  }

  /** Where byte x of a file lies on the disk: for the first twelve blocks in the block that its inode names. */
  lemma DirectFormat(sb: Super, s: State, owner: Owner, i: nat, x: nat)
    requires Inv(sb, s, owner, {}) && i < sb.ninodes && Filled(sb, s, i) && x < Node(sb, s, i).size && x < 6144
    ensures var b := Node(sb, s, i).addrs[x / 512];
            0 < b < |s.disk| && File(sb, s, i)[x] == s.disk[b][x % 512]
  {
    hide Inv, File, Filled, Node;
    BlockOf(sb, s, owner, i, x);
    InvShape(sb, s, owner);
  }

  /** And behind them in the block that a word of the indirect block names, low byte first. */
  lemma IndirectFormat(sb: Super, s: State, owner: Owner, i: nat, x: nat)
    requires Inv(sb, s, owner, {}) && i < sb.ninodes && Filled(sb, s, i) && 6144 <= x < Node(sb, s, i).size
    ensures 0 < Node(sb, s, i).addrs[12] < |s.disk| && 4 * (x / 512 - 12) + 4 <= 512
    ensures var w, p := s.disk[Node(sb, s, i).addrs[12]], 4 * (x / 512 - 12);
            var b := w[p] as int + 256 * (w[p + 1] as int + 256 * (w[p + 2] as int + 256 * w[p + 3] as int));
            0 < b < |s.disk| && File(sb, s, i)[x] == s.disk[b][x % 512]
  {
    hide Inv, File, Filled, Node;
    BlockOf(sb, s, owner, i, x);
    InvShape(sb, s, owner);
  }
}

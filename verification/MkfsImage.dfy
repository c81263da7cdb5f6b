/** What xv6/mkfs.c makes of a file system image on the way. It hands out blocks in order and writes the bitmap
    at the end. Until then the image stands for the one that would result if the bitmap were written
    now, and on that image the steps of mkfs are those of the kernel's bmap, writei and
    iupdate, with freeblock++ in the place of balloc. */
module MkfsImage {
  import opened FsLayout
  import opened Ownership
  import opened FileBytes

  const T_DIR := 1
  const ROOTINO := 1

  /** The super block that main computes (FSSIZE, NINODES and nlog as in the source). */
  function SuperBlock(fssize: nat, ninodes: nat, nlog: nat): Super {
    Super(fssize, ninodes, 2 + nlog, 2 + nlog + ninodes / IPB + 1)
  }

  /** It is a layout, and the data begin at nmeta. */
  lemma SuperValid()
    ensures var sb := SuperBlock(1000, 200, 30);
            && sb.Valid() && sb.size < BPB && sb.DataStart() == 2 + 30 + (200 / IPB + 1) + (1000 / BPB + 1)
            && sb == Super(1000, 200, 32, 58) && sb.DataStart() == 59
  {
  }

  // ---------------------------------------------------------------------------------------
  // The bitmap
  // ---------------------------------------------------------------------------------------

  /** A bitmap block with the first used bits set. */
  function BitsTo(used: nat): Block
    requires used <= BPB
  {
    if used == 0 then seq(BSIZE, i => 0) else PutBit(BitsTo(used - 1), used - 1, true)
  }

  lemma {:induction false} BitsToBits(used: nat, bi: nat)
    requires used <= BPB && bi < BPB
    ensures BitOf(BitsTo(used), bi) <==> bi < used
  {
    if used == 0 {
      ZeroBits(BitsTo(0));
    } else {
      BitsToBits(used - 1, bi);
      hide BitOf, PutBit;
      BitPut(BitsTo(used - 1), used - 1, true, bi);
    }
  }

  // ---------------------------------------------------------------------------------------
  // The image so far, as the kernel would see it
  // ---------------------------------------------------------------------------------------

  /** Everything from free on is still zero, and so is the one bitmap block. */
  ghost predicate Raw(sb: Super, d: seq<Block>, free: nat) {
    && sb.Valid() && sb.size < BPB && sb.ninodes > ROOTINO && |d| == sb.size && sb.DataStart() <= free <= sb.size
    && ZeroFrom(sb, d, free)
  }

  ghost predicate ZeroFrom(sb: Super, d: seq<Block>, free: nat)
    requires sb.Valid() && |d| == sb.size
  {
    (forall x | free <= x < sb.size :: IsZero(d[x])) && IsZero(d[sb.bmapstart])
  }

  /** The image with its bitmap. */
  function Marking(sb: Super, d: seq<Block>, free: nat): seq<Block>
    requires sb.Valid() && |d| == sb.size && free <= BPB
  {
    d[sb.bmapstart := BitsTo(free)]
  }

  /** With inode i in memory. */
  function With(sb: Super, d: seq<Block>, free: nat, i: nat, ip: Inode): State
    requires sb.Valid() && |d| == sb.size && free <= BPB
  {
    State(Marking(sb, d, free), i, ip, map[])
  }

  lemma MarkingBlocks(sb: Super, d: seq<Block>, free: nat)
    requires Raw(sb, d, free)
    ensures |Marking(sb, d, free)| == sb.size && sb.bmapstart + 1 == sb.DataStart()
    ensures forall x | 0 <= x < sb.size && x != sb.bmapstart :: Marking(sb, d, free)[x] == d[x]
    ensures forall i | 0 <= i < sb.ninodes :: DInode(sb, Marking(sb, d, free), i) == DInode(sb, d, i)
    ensures forall b | 0 <= b < sb.size :: Marked(sb, Marking(sb, d, free), b) <==> b < free
  {
    hide Decode, BitOf, BitsTo;
    forall b | 0 <= b < sb.size ensures Marked(sb, Marking(sb, d, free), b) <==> b < free {
      BitsToBits(free, b);
    }
  }

  /** Writing a block below free that is not the bitmap. */
  lemma RawPut(sb: Super, d: seq<Block>, free: nat, a: nat, blk: Block)
    requires Raw(sb, d, free) && a < free && a != sb.bmapstart
    ensures Raw(sb, d[a := blk], free)
    ensures Marking(sb, d[a := blk], free) == Marking(sb, d, free)[a := blk]
  {
    hide BitsTo;
  }

  /** freeblock++ is an allocation. */
  lemma TakeBlock(sb: Super, d: seq<Block>, free: nat, i: nat, ip: Inode, owner: Owner)
    requires Raw(sb, d, free) && free < sb.size && Inv(sb, With(sb, d, free, i, ip), owner, {})
    ensures Raw(sb, d, free + 1) && IsZero(d[free]) && Marking(sb, d, free + 1)[free] == d[free]
    ensures var s, s' := With(sb, d, free, i, ip), With(sb, d, free + 1, i, ip);
            Inv(sb, s', owner, {free}) && Quiet(sb, s, s')
  {
    MarkingBlocks(sb, d, free);
    MarkingBlocks(sb, d, free + 1);
    hide Inv, Quiet, Marked, BitsTo, IsZero;
    AllocQuiet(sb, With(sb, d, free, i, ip), owner, free, With(sb, d, free + 1, i, ip));
  }

  /** The image as a mounted file system with nobody in it. */
  function Seen(sb: Super, d: seq<Block>, free: nat): State
    requires Raw(sb, d, free)
  {
    With(sb, d, free, 0, DInode(sb, d, 0))
  }

  predicate IsBlank(ip: Inode) {
    ip.typ == 0 && ip.size == 0 && forall k | 0 <= k <= NDIRECT :: ip.addrs[k] == 0
  }

  /** Inode i has no block that begins at end or later. */
  ghost predicate Tight(sb: Super, s: State, i: nat, end: nat)
    requires Shape(sb, s) && i < sb.ninodes
  {
    forall c | 0 <= c < MAXFILE && Mapped(sb, s, i, c) :: BSIZE * c < end
  }

  ghost predicate AllTight(sb: Super, s: State)
    requires Shape(sb, s)
  {
    forall i | 0 <= i < sb.ninodes :: Tight(sb, s, i, Node(sb, s, i).size)
  }

  /** There is an indirect block only where the bytes need it. */
  predicate Snug(ip: Inode) {
    ip.addrs[NDIRECT] != 0 ==> NDIRECT * BSIZE < ip.size
  }

  /** Every block belongs to one slot of one inode or is not handed out yet, each file has exactly the
      blocks that its bytes need, and the inodes from next on are blank. */
  ghost predicate Sound(sb: Super, d: seq<Block>, free: nat, next: nat, owner: Owner) {
    && Raw(sb, d, free) && next > 0
    && Inv(sb, Seen(sb, d, free), owner, {}) && AllFilled(sb, Seen(sb, d, free)) && AllTight(sb, Seen(sb, d, free))
    && (forall i | next <= i < sb.ninodes :: IsBlank(DInode(sb, d, i)))
    && (forall i | 0 <= i < sb.ninodes :: Snug(DInode(sb, d, i)))
  }

  /** Taking inode i into memory, and giving back one that is on disk, changes nothing. */
  lemma Loaded(sb: Super, d: seq<Block>, free: nat, owner: Owner, i: nat, ip: Inode)
    requires Raw(sb, d, free) && i < sb.ninodes && ip == DInode(sb, d, i)
    ensures Inv(sb, Seen(sb, d, free), owner, {}) <==> Inv(sb, With(sb, d, free, i, ip), owner, {})
    ensures Shape(sb, Seen(sb, d, free)) && Shape(sb, With(sb, d, free, i, ip))
    ensures Synced(sb, With(sb, d, free, i, ip))
    ensures forall j | 0 <= j < sb.ninodes :: Node(sb, With(sb, d, free, i, ip), j) == DInode(sb, d, j)
    ensures forall j | 0 <= j < sb.ninodes :: Node(sb, Seen(sb, d, free), j) == DInode(sb, d, j)
    ensures AllFilled(sb, Seen(sb, d, free)) <==> AllFilled(sb, With(sb, d, free, i, ip))
    ensures AllFilled(sb, Seen(sb, d, free)) ==> SameFiles(sb, Seen(sb, d, free), With(sb, d, free, i, ip))
    ensures AllTight(sb, Seen(sb, d, free)) <==> AllTight(sb, With(sb, d, free, i, ip))
  {
    MarkingBlocks(sb, d, free);
    var s, s' := Seen(sb, d, free), With(sb, d, free, i, ip);
    hide Marking, ZeroFrom, DInode;
    assert forall j | 0 <= j < sb.ninodes :: Node(sb, s', j) == Node(sb, s, j);
    hide Node, AllFilled, Inv, AllTight;
    if Inv(sb, s, owner, {}) { SameNodes(sb, s, s', owner, {}); }
    if Inv(sb, s', owner, {}) { SameNodes(sb, s', s, owner, {}); }
    if AllFilled(sb, s) { LockFiles(sb, s, i, s'); }
    if AllFilled(sb, s') { LockFiles(sb, s', 0, s); }
    SameTight(sb, s, s');
    SameTight(sb, s', s);
  }

  lemma SameTight(sb: Super, s: State, s': State)
    requires Shape(sb, s) && Shape(sb, s') && s'.disk == s.disk
    requires forall j | 0 <= j < sb.ninodes :: Node(sb, s', j) == Node(sb, s, j)
    ensures AllTight(sb, s) ==> AllTight(sb, s')
  {
    hide DInode, Node, Entry;
    forall j, k | 0 <= j < sb.ninodes && 0 <= k < SLOTS ensures Slot(sb, s', j, k) == Slot(sb, s, j, k) {
    }
    hide Slot;
    if AllTight(sb, s) {
      forall j | 0 <= j < sb.ninodes ensures Tight(sb, s', j, Node(sb, s', j).size) {
        assert Tight(sb, s, j, Node(sb, s, j).size);
        assert forall c | 0 <= c < MAXFILE :: Mapped(sb, s', j, c) == Mapped(sb, s, j, c);
      }
    }
  }

  lemma SoundRaw(sb: Super, d: seq<Block>, free: nat, next: nat, owner: Owner)
    requires Sound(sb, d, free, next, owner)
    ensures Raw(sb, d, free)
  {
  }

  lemma SoundSnug(sb: Super, d: seq<Block>, free: nat, next: nat, owner: Owner, i: nat)
    requires Sound(sb, d, free, next, owner) && i < sb.ninodes
    ensures Snug(DInode(sb, d, i))
  {
  }

  lemma SoundParts(sb: Super, d: seq<Block>, free: nat, next: nat, owner: Owner, i: nat)
    requires Sound(sb, d, free, next, owner) && i < sb.ninodes
    ensures Raw(sb, d, free) && next > 0
    ensures var s := With(sb, d, free, i, DInode(sb, d, i));
            && Inv(sb, s, owner, {}) && Shape(sb, s) && AllFilled(sb, s) && SameFiles(sb, Seen(sb, d, free), s)
            && Filled(sb, s, i) && |File(sb, s, i)| == s.ip.size <= MAXSIZE && Synced(sb, s) && AllTight(sb, s)
  {
    Loaded(sb, d, free, owner, i, DInode(sb, d, i));
    hide Inv, ZeroFrom, Marking, DInode, File, AllTight;
    var s := With(sb, d, free, i, DInode(sb, d, i));
    assert Filled(sb, s, i);
    FileLength(sb, s, i);
  }

  lemma SameFilled(sb: Super, s: State, s': State, i: nat)
    requires SameFiles(sb, s, s') && i < sb.ninodes
    ensures Shape(sb, s) && AllFilled(sb, s) && Filled(sb, s, i) && File(sb, s', i) == File(sb, s, i)
  {
    hide Filled, File, Node;
  }

  lemma SoundSeen(sb: Super, d: seq<Block>, free: nat, next: nat, owner: Owner, i: nat)
    requires Sound(sb, d, free, next, owner) && i < sb.ninodes
    ensures Raw(sb, d, free) && Shape(sb, Seen(sb, d, free)) && Filled(sb, Seen(sb, d, free), i)
    ensures AllFilled(sb, Seen(sb, d, free)) && DInode(sb, d, i).size <= MAXSIZE
    ensures |File(sb, Seen(sb, d, free), i)| == DInode(sb, d, i).size
  {
    hide Inv, ZeroFrom, Marking, DInode, File;
    SoundParts(sb, d, free, next, owner, i);
    SameFilled(sb, Seen(sb, d, free), With(sb, d, free, i, DInode(sb, d, i)), i);
  }

  lemma SoundFrom(sb: Super, d: seq<Block>, free: nat, next: nat, owner: Owner, i: nat)
    requires Raw(sb, d, free) && next > 0 && i < sb.ninodes
    requires Inv(sb, With(sb, d, free, i, DInode(sb, d, i)), owner, {})
    requires Shape(sb, With(sb, d, free, i, DInode(sb, d, i))) && AllFilled(sb, With(sb, d, free, i, DInode(sb, d, i)))
    requires AllTight(sb, With(sb, d, free, i, DInode(sb, d, i)))
    requires forall j | next <= j < sb.ninodes :: IsBlank(DInode(sb, d, j))
    requires forall j | 0 <= j < sb.ninodes :: Snug(DInode(sb, d, j))
    ensures Sound(sb, d, free, next, owner)
    ensures SameFiles(sb, Seen(sb, d, free), With(sb, d, free, i, DInode(sb, d, i)))
  {
    hide Inv, ZeroFrom, Marking, DInode, AllFilled, IsBlank, AllTight, Snug;
    Loaded(sb, d, free, owner, i, DInode(sb, d, i));
  }

  lemma ZeroInode(b: Block, k: nat)
    requires IsZero(b) && k < IPB
    ensures IsBlank(Decode(b[64 * k..64 * k + 64])) && Decode(b[64 * k..64 * k + 64]).addrs == seq(NDIRECT + 1, k => 0)
  {
    var s := b[64 * k..64 * k + 64];
    assert forall p | 0 <= p < 64 :: s[p] == 0;
  }

  lemma FreshInodes(sb: Super, d: seq<Block>)
    requires sb.Valid() && |d| == sb.size && forall x | 0 <= x < sb.size && x != 1 :: IsZero(d[x])
    ensures forall i | 0 <= i < sb.ninodes ::
              && IsBlank(DInode(sb, d, i)) && DInode(sb, d, i).addrs == seq(NDIRECT + 1, k => 0)
              && Snug(DInode(sb, d, i))
  {
    forall i | 0 <= i < sb.ninodes
      ensures IsBlank(DInode(sb, d, i)) && DInode(sb, d, i).addrs == seq(NDIRECT + 1, k => 0)
    {
      ZeroInode(d[IBlock(sb, i)], i % IPB);
    }
    hide DInode;
  }

  /** The blank image. */
  lemma FreshSound(sb: Super, d: seq<Block>)
    requires sb.Valid() && sb.size < BPB && sb.ninodes > ROOTINO && |d| == sb.size
    requires forall x | 0 <= x < sb.size && x != 1 :: IsZero(d[x])
    ensures Sound(sb, d, sb.DataStart(), ROOTINO, map[])
    ensures forall i | 0 <= i < sb.ninodes :: File(sb, Seen(sb, d, sb.DataStart()), i) == []
  {
    hide Marking, Snug, DInode, Marked, Entry;
    var free := sb.DataStart();
    FreshInodes(sb, d);
    MarkingBlocks(sb, d, free);
    var s := Seen(sb, d, free);
    hide IsZero;
    assert forall i | 0 <= i < sb.ninodes :: Node(sb, s, i) == DInode(sb, d, i);
    EmptyInv(sb, s);
    hide Node;
    forall i | 0 <= i < sb.ninodes ensures Filled(sb, s, i) && File(sb, s, i) == [] && Tight(sb, s, i, 0) {
      assert forall c | 0 <= c < MAXFILE :: !Mapped(sb, s, i, c);
    }
  }

  // ---------------------------------------------------------------------------------------
  // The block of an append
  // ---------------------------------------------------------------------------------------

  lemma NewDirect(sb: Super, d: seq<Block>, free: nat, i: nat, ip: Inode, owner: Owner, fbn: nat)
    requires Raw(sb, d, free) && free < sb.size && Inv(sb, With(sb, d, free, i, ip), owner, {})
    requires fbn < NDIRECT && ip.addrs[fbn] == 0
    ensures var ip' := ip.(addrs := ip.addrs[fbn := free]);
            && Raw(sb, d, free + 1) && Inv(sb, With(sb, d, free + 1, i, ip'), owner[free := (i, fbn)], {})
            && Grown(sb, With(sb, d, free, i, ip), fbn, free, With(sb, d, free + 1, i, ip'))
  {
    hide Inv, Quiet, Grown, Marking, IsZero;
    TakeBlock(sb, d, free, i, ip, owner);
    DirectGrown(sb, With(sb, d, free, i, ip), With(sb, d, free + 1, i, ip), owner, fbn, free,
                With(sb, d, free + 1, i, ip.(addrs := ip.addrs[fbn := free])));
  }

  lemma QuietSelf(sb: Super, s: State)
    requires Shape(sb, s)
    ensures Quiet(sb, s, s)
  {
    hide Slot, DInode;
  }

  lemma DirectMapped(sb: Super, s: State, bn: nat)
    requires Shape(sb, s) && bn < MAXFILE
    ensures bn < NDIRECT ==> (Mapped(sb, s, s.inum, bn) <==> s.ip.addrs[bn] != 0)
    ensures bn >= NDIRECT && s.ip.addrs[NDIRECT] == 0 ==> !Mapped(sb, s, s.inum, bn)
  {
  }

  lemma DirectThere(sb: Super, s: State, owner: Owner, bn: nat)
    requires Inv(sb, s, owner, {}) && bn < NDIRECT && s.ip.addrs[bn] != 0
    ensures Grown(sb, s, bn, s.ip.addrs[bn], s)
  {
    assert Slot(sb, s, s.inum, bn) == s.ip.addrs[bn];
    hide Inv, Grown, Slot;
    MappedGrown(sb, s, owner, bn);
  }

  lemma NewIndirect(sb: Super, d: seq<Block>, free: nat, i: nat, ip: Inode, owner: Owner)
    requires Raw(sb, d, free) && free < sb.size && Inv(sb, With(sb, d, free, i, ip), owner, {})
    requires ip.addrs[NDIRECT] == 0
    ensures var ip' := ip.(addrs := ip.addrs[NDIRECT := free]);
            && Raw(sb, d, free + 1) && Inv(sb, With(sb, d, free + 1, i, ip'), owner[free := (i, NDIRECT)], {})
            && Quiet(sb, With(sb, d, free, i, ip), With(sb, d, free + 1, i, ip'))
  {
    hide Inv, Quiet, Marking, IsZero;
    TakeBlock(sb, d, free, i, ip, owner);
    var s1, s2 := With(sb, d, free + 1, i, ip), With(sb, d, free + 1, i, ip.(addrs := ip.addrs[NDIRECT := free]));
    IndirectQuiet(sb, s1, owner, free, s2);
    QuietTransitive(sb, With(sb, d, free, i, ip), s1, s2);
  }

  /** The indirect block of the inode in memory is a data block that has been handed out. */
  lemma IndirectThere(sb: Super, d: seq<Block>, free: nat, i: nat, ip: Inode, owner: Owner)
    requires Raw(sb, d, free) && Inv(sb, With(sb, d, free, i, ip), owner, {}) && ip.addrs[NDIRECT] != 0
    ensures var a := ip.addrs[NDIRECT];
            sb.DataStart() <= a < free && a in owner && Marking(sb, d, free)[a] == d[a]
  {
    MarkingBlocks(sb, d, free);
    var s := With(sb, d, free, i, ip);
    hide Marked, Marking;
    assert SlotOwned(sb, s, owner, i, NDIRECT) && Slot(sb, s, i, NDIRECT) == ip.addrs[NDIRECT];
    assert BlockOwned(sb, s, owner, ip.addrs[NDIRECT]);
  }

  lemma NewEntry(sb: Super, s: State, d: seq<Block>, free: nat, i: nat, ip: Inode, owner: Owner, fbn: nat)
    requires Raw(sb, d, free) && free < sb.size && Inv(sb, With(sb, d, free, i, ip), owner, {})
    requires Quiet(sb, s, With(sb, d, free, i, ip)) && s.inum == i && NDIRECT <= fbn < MAXFILE
    requires sb.DataStart() <= ip.addrs[NDIRECT] < free && Entry(d[ip.addrs[NDIRECT]], fbn - NDIRECT) == 0
    ensures var a := ip.addrs[NDIRECT];
            var d' := d[a := PutEntry(d[a], fbn - NDIRECT, free)];
            && Raw(sb, d', free + 1) && Inv(sb, With(sb, d', free + 1, i, ip), owner[free := (i, fbn + 1)], {})
            && Grown(sb, s, fbn, free, With(sb, d', free + 1, i, ip))
  {
    var a := ip.addrs[NDIRECT];
    MarkingBlocks(sb, d, free);
    MarkingBlocks(sb, d, free + 1) by { TakeBlock(sb, d, free, i, ip, owner); }
    var s0, s1 := With(sb, d, free, i, ip), With(sb, d, free + 1, i, ip);
    var d' := d[a := PutEntry(d[a], fbn - NDIRECT, free)];
    TakeBlock(sb, d, free, i, ip, owner);
    RawPut(sb, d, free + 1, a, PutEntry(d[a], fbn - NDIRECT, free));
    hide Inv, Quiet, Grown, Entry, PutEntry, Marking, IsZero, Marked, DInode;
    QuietTransitive(sb, s, s0, s1);
    EntryGrown(sb, s, s1, owner, fbn, free, With(sb, d', free + 1, i, ip));
  }

  // ---------------------------------------------------------------------------------------
  // Copying the bytes
  // ---------------------------------------------------------------------------------------

  /** iappend has copied tot bytes of src behind the end of inode s0.inum. */
  ghost predicate Copying(sb: Super, s0: State, src: seq<Byte>, tot: nat, d: seq<Block>, free: nat, ip: Inode,
      owner: Owner) {
    && Raw(sb, d, free) && Inv(sb, With(sb, d, free, s0.inum, ip), owner, {})
    && Writing(sb, s0, s0.ip.size, src, tot, With(sb, d, free, s0.inum, ip))
    && Tight(sb, With(sb, d, free, s0.inum, ip), s0.inum, s0.ip.size + tot)
  }

  lemma CopyShape(sb: Super, s0: State, src: seq<Byte>, tot: nat, d: seq<Block>, free: nat, ip: Inode, owner: Owner)
    requires Copying(sb, s0, src, tot, d, free, ip, owner)
    ensures sb.Valid() && |d| == sb.size
  {
  }

  /** What an inode says besides its size and its blocks. */
  datatype Kind = Kind(typ: Ushort, major: Ushort, minor: Ushort, nlink: Ushort)

  function KindOf(ip: Inode): Kind {
    Kind(ip.typ, ip.major, ip.minor, ip.nlink)
  }

  /** Every inode on the disk is of the kind it was. */
  ghost predicate SameKinds(sb: Super, d: seq<Block>, d': seq<Block>)
    requires sb.Valid() && |d| == |d'| == sb.size
  {
    forall j | 0 <= j < sb.ninodes :: KindOf(DInode(sb, d', j)) == KindOf(DInode(sb, d, j))
  }

  /** Copying bytes and writing the inode back changes no kind. */
  lemma CopyKinds(sb: Super, d0: seq<Block>, free0: nat, i: nat, src: seq<Byte>, tot: nat, d: seq<Block>, free: nat,
                  ip: Inode, owner: Owner, size: Uint, d': seq<Block>)
    requires Raw(sb, d0, free0) && i < sb.ninodes
    requires Copying(sb, With(sb, d0, free0, i, DInode(sb, d0, i)), src, tot, d, free, ip, owner)
    requires d' == d[IBlock(sb, i) := PutInode(d[IBlock(sb, i)], i, ip.(size := size))]
    ensures SameKinds(sb, d0, d')
  {
    hide DInode, PutInode, Inv, Tight, Marking, Mapped, ByteAt, OthersKept;
    MarkingBlocks(sb, d0, free0);
    MarkingBlocks(sb, d, free);
    forall j | 0 <= j < sb.ninodes ensures KindOf(DInode(sb, d', j)) == KindOf(DInode(sb, d0, j)) {
      InodePut(sb, d, i, ip.(size := size), j);
    }
  }

  lemma CopyFree(sb: Super, s0: State, src: seq<Byte>, tot: nat, d: seq<Block>, free: nat, ip: Inode, owner: Owner)
    requires Copying(sb, s0, src, tot, d, free, ip, owner)
    ensures free <= sb.size
  {
  }

  lemma CopyStart(sb: Super, d: seq<Block>, free: nat, i: nat, ip: Inode, owner: Owner, src: seq<Byte>)
    requires Raw(sb, d, free) && Inv(sb, With(sb, d, free, i, ip), owner, {}) && ip.size + |src| <= MAXSIZE
    requires Shape(sb, With(sb, d, free, i, ip)) && AllTight(sb, With(sb, d, free, i, ip))
    ensures Copying(sb, With(sb, d, free, i, ip), src, 0, d, free, ip, owner)
  {
    hide Writing, Marking;
    InvShape(sb, With(sb, d, free, i, ip), owner);
    assert Tight(sb, With(sb, d, free, i, ip), i, ip.size);
    WritingStart(sb, With(sb, d, free, i, ip), ip.size, src);
  }

  /** A block in a slot has been handed out. */
  lemma SlotTaken(sb: Super, d: seq<Block>, free: nat, s: State, owner: Owner, k: nat)
    requires Raw(sb, d, free) && s.disk == Marking(sb, d, free) && Inv(sb, s, owner, {}) && k < SLOTS
    ensures var a := Slot(sb, s, s.inum, k); a != 0 ==> sb.DataStart() <= a < free
  {
    MarkingBlocks(sb, d, free);
    hide Slot, Marked, Marking;
    assert SlotOwned(sb, s, owner, s.inum, k);
    var a := Slot(sb, s, s.inum, k);
    assert a != 0 ==> BlockOwned(sb, s, owner, a);
  }

  lemma StepTight(sb: Super, s: State, bn: nat, x: nat, s1: State, owner: Owner, p: nat, src: seq<Byte>, s2: State,
      end: nat, end': nat)
    requires Grown(sb, s, bn, x, s1) && Inv(sb, s1, owner, {}) && Stored(sb, s1, bn, p, src, s2)
    requires Tight(sb, s, s.inum, end) && end <= end' && BSIZE * bn < end'
    ensures Shape(sb, s2) && Tight(sb, s2, s.inum, end')
  {
    hide Slot, DInode, ByteAt, Inv;
    StoredBytes(sb, s1, owner, bn, p, src, s2);
    forall c | 0 <= c < MAXFILE && Mapped(sb, s2, s.inum, c) ensures BSIZE * c < end' {
      if c != bn {
        assert BlockKept(sb, s, s1, s.inum, DataSlot(c));
        assert Mapped(sb, s, s.inum, c);
      }
    }
  }

  lemma CopyStep(sb: Super, s0: State, src: seq<Byte>, tot: nat, s: State, d: seq<Block>, free: nat, ip: Inode,
                 owner: Owner, x: nat, m: nat, d': seq<Block>)
    requires Writing(sb, s0, s0.ip.size, src, tot, s) && Filled(sb, s0, s0.inum)
    requires Raw(sb, d, free) && Inv(sb, With(sb, d, free, s0.inum, ip), owner, {})
    requires Grown(sb, s, (s0.ip.size + tot) / BSIZE, x, With(sb, d, free, s0.inum, ip))
    requires tot < tot + m <= |src| && (s0.ip.size + tot) % BSIZE + m <= BSIZE && x < |d|
    requires d' == d[x := Splice(d[x], (s0.ip.size + tot) % BSIZE, src[tot..tot + m])]
    requires Shape(sb, s) && Tight(sb, s, s0.inum, s0.ip.size + tot) && s.inum == s0.inum
    ensures Copying(sb, s0, src, tot + m, d', free, ip, owner)
  {
    var off := s0.ip.size;
    var s1, s2 := With(sb, d, free, s0.inum, ip), With(sb, d', free, s0.inum, ip);
    MarkingBlocks(sb, d, free);
    GrownSlot(sb, s, (off + tot) / BSIZE, x, s1);
    SlotTaken(sb, d, free, s1, owner, DataSlot((off + tot) / BSIZE));
    RawPut(sb, d, free, x, d'[x]);
    hide Inv, Writing, Grown, Marking, Slot, Filled, Marked, ZeroFrom, IsZero, Tight;
    WriteStep(sb, s0, off, src, tot, s, owner, x, s1, m, s2);
    StepTight(sb, s, (off + tot) / BSIZE, x, s1, owner, (off + tot) % BSIZE, src[tot..tot + m], s2, off + tot,
        off + tot + m);
  }

  // ---------------------------------------------------------------------------------------
  // How many blocks an append takes
  // ---------------------------------------------------------------------------------------

  /** The blocks of a file of n bytes, with the indirect block. */
  function Need(n: nat): nat {
    var blocks := (n + BSIZE - 1) / BSIZE;
    if blocks > NDIRECT then blocks + 1 else blocks
  }

  /** The next m bytes behind e, in one block. */
  lemma NeedStep(e: nat, m: nat)
    requires m > 0 && e % BSIZE + m <= BSIZE
    ensures Need(e + m) == Need(e) + if e % BSIZE != 0 then 0 else if e / BSIZE == NDIRECT then 2 else 1
  {
    assert (e + m + BSIZE - 1) / BSIZE == e / BSIZE + 1;
    assert (e + BSIZE - 1) / BSIZE == if e % BSIZE != 0 then e / BSIZE + 1 else e / BSIZE;
  }

  lemma NeedGrows(a: nat, b: nat)
    requires a <= b
    ensures Need(a) <= Need(b)
  {
    assert (a + BSIZE - 1) / BSIZE <= (b + BSIZE - 1) / BSIZE;
  }

  /** The blocks that block fbn of the inode in memory takes. */
  ghost function Takes(sb: Super, s: State, fbn: nat): nat
    requires Shape(sb, s) && fbn < MAXFILE
  {
    if Mapped(sb, s, s.inum, fbn) then 0 else if fbn >= NDIRECT && s.ip.addrs[NDIRECT] == 0 then 2 else 1
  }

  /** tot bytes behind the first size have been paid for out of the blocks from free0 on. */
  predicate Paid(free0: nat, size: nat, tot: nat, free: nat, ip: Inode) {
    free == free0 + Need(size + tot) - Need(size) && (ip.addrs[NDIRECT] != 0 ==> NDIRECT * BSIZE < size + tot)
  }

  /** The next block is there exactly if its first byte is, and so is the indirect block. */
  lemma TakesNext(sb: Super, s0: State, src: seq<Byte>, tot: nat, s: State, free0: nat, free: nat, m: nat)
    requires Writing(sb, s0, s0.ip.size, src, tot, s) && Shape(sb, s0) && Filled(sb, s0, s0.inum)
    requires Shape(sb, s) && s.inum == s0.inum && Tight(sb, s, s0.inum, s0.ip.size + tot)
    requires Paid(free0, s0.ip.size, tot, free, s.ip) && tot < |src|
    requires m > 0 && (s0.ip.size + tot) % BSIZE + m <= BSIZE
    ensures (s0.ip.size + tot) / BSIZE < MAXFILE
    ensures Need(s0.ip.size + tot + m) == Need(s0.ip.size + tot) + Takes(sb, s, (s0.ip.size + tot) / BSIZE)
  {
    var e := s0.ip.size + tot;
    WritingInRange(sb, s0, s0.ip.size, src, tot, s);
    NeedStep(e, m);
    MappedBelow(sb, s0, src, tot, s, e / BSIZE);
    if e / BSIZE > NDIRECT {
      MappedBelow(sb, s0, src, tot, s, NDIRECT);
      IndirectNeeded(sb, s);
    }
  }

  lemma MappedBelow(sb: Super, s0: State, src: seq<Byte>, tot: nat, s: State, c: nat)
    requires Writing(sb, s0, s0.ip.size, src, tot, s) && Shape(sb, s0) && Filled(sb, s0, s0.inum)
    requires Shape(sb, s) && s.inum == s0.inum && Tight(sb, s, s0.inum, s0.ip.size + tot) && c < MAXFILE
    ensures Mapped(sb, s, s.inum, c) <==> BSIZE * c < s0.ip.size + tot
  {
    hide Slot, DInode, ByteAt, OthersKept;
    if BSIZE * c < s0.ip.size {
      assert Mapped(sb, s0, s0.inum, c);
    } else if BSIZE * c < s0.ip.size + tot {
      assert Mapped(sb, s, s0.inum, BSIZE * c / BSIZE);
    }
  }

  lemma IndirectNeeded(sb: Super, s: State)
    requires Shape(sb, s) && Mapped(sb, s, s.inum, NDIRECT)
    ensures s.ip.addrs[NDIRECT] != 0
  {
  }

  // ---------------------------------------------------------------------------------------
  // Writing the inode
  // ---------------------------------------------------------------------------------------

  /** winode of an inode with the blocks it had. */
  lemma WriteInode(sb: Super, d: seq<Block>, free: nat, owner: Owner, i: nat, ip: Inode, ip': Inode, d': seq<Block>)
    requires Raw(sb, d, free) && i < sb.ninodes && Inv(sb, With(sb, d, free, i, ip), owner, {}) && ip'.addrs == ip.addrs
    requires d' == d[IBlock(sb, i) := PutInode(d[IBlock(sb, i)], i, ip')]
    ensures Raw(sb, d', free) && DInode(sb, d', i) == ip'
    ensures forall j | 0 <= j < sb.ninodes && j != i :: DInode(sb, d', j) == DInode(sb, d, j)
    ensures var s, s' := With(sb, d, free, i, ip), With(sb, d', free, i, ip');
            Inv(sb, s', owner, {}) && Resized(sb, s, s') && Synced(sb, s')
  {
    MarkingBlocks(sb, d, free);
    RawPut(sb, d, free, IBlock(sb, i), d'[IBlock(sb, i)]);
    forall j | 0 <= j < sb.ninodes ensures DInode(sb, d', j) == if j == i then ip' else DInode(sb, d, j) {
      InodePut(sb, d, i, ip', j);
    }
    hide Inv, Resized, Marking, PutInode, Marked, IsZero;
    UpdateResizes(sb, With(sb, d, free, i, ip), owner, ip', With(sb, d', free, i, ip'));
  }

  /** Until winode the inodes on the image stay. */
  lemma SameInodes(sb: Super, s0: State, src: seq<Byte>, s: State, d0: seq<Block>, free0: nat, d: seq<Block>, free: nat)
    requires Raw(sb, d0, free0) && Raw(sb, d, free) && s0.disk == Marking(sb, d0, free0)
             && s.disk == Marking(sb, d, free)
    requires Writing(sb, s0, s0.ip.size, src, |src|, s)
    ensures forall j | 0 <= j < sb.ninodes :: DInode(sb, d, j) == DInode(sb, d0, j)
  {
    hide Marking, DInode, Marked, ByteAt, Slot;
    MarkingBlocks(sb, d0, free0);
    MarkingBlocks(sb, d, free);
  }

  lemma OthersTight(sb: Super, s: State, s': State, i: nat)
    requires OthersKept(sb, s, s') && i < sb.ninodes && i != s.inum && Tight(sb, s, i, Node(sb, s, i).size)
    ensures Tight(sb, s', i, Node(sb, s', i).size)
  {
    hide Slot, Node;
    assert FileKept(sb, s, s', i);
    forall c | 0 <= c < MAXFILE && Mapped(sb, s', i, c) ensures BSIZE * c < Node(sb, s', i).size {
      assert BlockKept(sb, s, s', i, DataSlot(c));
      assert Mapped(sb, s, i, c);
    }
  }

  lemma TightDone(sb: Super, s0: State, off: nat, src: seq<Byte>, s: State, s': State)
    requires Shape(sb, s0) && AllTight(sb, s0) && Writing(sb, s0, off, src, |src|, s) && Resized(sb, s, s')
    requires Tight(sb, s, s0.inum, s'.ip.size)
    ensures Shape(sb, s') && AllTight(sb, s')
  {
    hide Slot, DInode, ByteAt;
    ResizedBytes(sb, s, s');
    OthersTransitive(sb, s0, s, s');
    hide OthersKept, Writing, Resized, Mapped;
    forall i | 0 <= i < sb.ninodes ensures Tight(sb, s', i, Node(sb, s', i).size) {
      if i != s0.inum {
        assert Tight(sb, s0, i, Node(sb, s0, i).size);
        OthersTight(sb, s0, s', i);
      }
    }
  }

  lemma CopyWrote(sb: Super, d0: seq<Block>, free0: nat, owner0: Owner, i: nat, ip0: Inode, src: seq<Byte>,
                  d: seq<Block>, free: nat, owner: Owner, ip: Inode, d': seq<Block>)
    requires Raw(sb, d0, free0) && i < sb.ninodes && ip0.size + |src| <= MAXSIZE
    requires Inv(sb, With(sb, d0, free0, i, ip0), owner0, {}) && AllFilled(sb, With(sb, d0, free0, i, ip0))
    requires AllTight(sb, With(sb, d0, free0, i, ip0))
    requires Copying(sb, With(sb, d0, free0, i, ip0), src, |src|, d, free, ip, owner)
    requires d' == d[IBlock(sb, i) := PutInode(d[IBlock(sb, i)], i, ip.(size := ip0.size + |src|))]
    ensures Raw(sb, d', free) && DInode(sb, d', i) == ip.(size := ip0.size + |src|)
    ensures Inv(sb, With(sb, d', free, i, DInode(sb, d', i)), owner, {})
    ensures Wrote(sb, With(sb, d0, free0, i, ip0), ip0.size, src, With(sb, d', free, i, DInode(sb, d', i)))
    ensures Shape(sb, With(sb, d', free, i, DInode(sb, d', i)))
            && AllTight(sb, With(sb, d', free, i, DInode(sb, d', i)))
    ensures forall j | 0 <= j < sb.ninodes && j != i :: DInode(sb, d', j) == DInode(sb, d0, j)
  {
    hide Inv, Writing, Resized, Marking, ZeroFrom, DInode, AllFilled, PutInode, AllTight, Tight;
    var ip' := ip.(size := ip0.size + |src|);
    var s0, s, s' := With(sb, d0, free0, i, ip0), With(sb, d, free, i, ip), With(sb, d', free, i, ip');
    InvShape(sb, s0, owner0);
    SameInodes(sb, s0, src, s, d0, free0, d, free);
    WriteInode(sb, d, free, owner, i, ip, ip', d');
    WritingState(sb, s0, ip0.size, src, |src|, s);
    WriteDone(sb, s0, owner0, ip0.size, src, s, s');
    TightDone(sb, s0, ip0.size, src, s, s');
  }

  /** What is on the image behind the inodes before next stays; file i becomes f. */
  ghost predicate Appended(sb: Super, s: State, i: nat, f: seq<Byte>, s': State) {
    && Shape(sb, s) && Shape(sb, s') && AllFilled(sb, s) && AllFilled(sb, s') && i < sb.ninodes
    && File(sb, s', i) == f
    && (forall j | 0 <= j < sb.ninodes && j != i :: File(sb, s', j) == File(sb, s, j))
  }

  lemma AppendedNone(sb: Super, s: State, i: nat)
    requires Shape(sb, s) && AllFilled(sb, s) && i < sb.ninodes
    ensures Filled(sb, s, i) && Appended(sb, s, i, File(sb, s, i) + [], s)
  {
    hide Filled, File;
    assert File(sb, s, i) + [] == File(sb, s, i);
  }

  lemma AppendedLength(sb: Super, s: State, i: nat, f: seq<Byte>, s': State)
    requires Appended(sb, s, i, f, s')
    ensures Shape(sb, s') && Filled(sb, s', i) && File(sb, s', i) == f
  {
    hide Filled, File;
  }

  lemma OtherKept(sb: Super, s: State, i: nat, f: seq<Byte>, s': State, j: nat)
    requires Appended(sb, s, i, f, s') && j < sb.ninodes && j != i
    ensures Filled(sb, s, j) && Filled(sb, s', j) && File(sb, s', j) == File(sb, s, j)
  {
    hide Filled, File;
  }

  lemma AppendedTwice(sb: Super, s: State, i: nat, a: seq<Byte>, s1: State, b: seq<Byte>, s2: State)
    requires Shape(sb, s) && i < sb.ninodes && Filled(sb, s, i) && Appended(sb, s, i, File(sb, s, i) + a, s1)
    requires Filled(sb, s1, i) && Appended(sb, s1, i, File(sb, s1, i) + b, s2)
    ensures Appended(sb, s, i, File(sb, s, i) + (a + b), s2)
  {
    hide Filled, File;
    assert File(sb, s, i) + a + b == File(sb, s, i) + (a + b);
  }

  /** The write as the kernel would see it, with no inode in memory. */
  lemma AppendedFrom(sb: Super, s: State, s0: State, src: seq<Byte>, s1: State, s': State)
    requires SameFiles(sb, s, s0) && SameFiles(sb, s', s1)
    requires s0.ip.size == |File(sb, s0, s0.inum)| && Wrote(sb, s0, s0.ip.size, src, s1)
    ensures Appended(sb, s, s0.inum, File(sb, s, s0.inum) + src, s')
  {
    hide Filled, File, Node, DInode;
    var f := File(sb, s0, s0.inum);
    assert Overlay(f, |f|, src) == f + src;
  }

  /** The end of iappend: the bytes are behind those that were there, and no other file has changed. */
  lemma CopyDone(sb: Super, d0: seq<Block>, free0: nat, owner0: Owner, next: nat, i: nat, src: seq<Byte>,
                 d: seq<Block>, free: nat, owner: Owner, ip: Inode, d': seq<Block>)
    requires Sound(sb, d0, free0, next, owner0) && i < next && i < sb.ninodes
    requires DInode(sb, d0, i).size + |src| <= MAXSIZE
    requires Copying(sb, With(sb, d0, free0, i, DInode(sb, d0, i)), src, |src|, d, free, ip, owner)
    requires Snug(ip.(size := DInode(sb, d0, i).size + |src|))
    requires d' == d[IBlock(sb, i) := PutInode(d[IBlock(sb, i)], i, ip.(size := DInode(sb, d0, i).size + |src|))]
    ensures Sound(sb, d', free, next, owner)
    ensures Shape(sb, Seen(sb, d0, free0)) && Filled(sb, Seen(sb, d0, free0), i)
    ensures Appended(sb, Seen(sb, d0, free0), i, File(sb, Seen(sb, d0, free0), i) + src, Seen(sb, d', free))
  {
    hide Inv, Copying, Marking, ZeroFrom, DInode, Filled, File, PutInode, IsBlank, Appended, AllFilled, Wrote,
        SameFiles, Synced,
      AllTight, Snug;
    var ip0 := DInode(sb, d0, i);
    var s0 := With(sb, d0, free0, i, ip0);
    SoundParts(sb, d0, free0, next, owner0, i);
    CopyWrote(sb, d0, free0, owner0, i, ip0, src, d, free, owner, ip, d');
    var s' := With(sb, d', free, i, DInode(sb, d', i));
    SameFilled(sb, Seen(sb, d0, free0), s0, i);
    WroteState(sb, s0, ip0.size, src, s');
    SoundFrom(sb, d', free, next, owner, i);
    AppendedFrom(sb, Seen(sb, d0, free0), s0, src, s', Seen(sb, d', free));
  }

  /** An empty file stays empty. */
  lemma Resizing(sb: Super, s: State, owner: Owner, s': State)
    requires Inv(sb, s, owner, {}) && Shape(sb, s) && AllFilled(sb, s) && AllTight(sb, s) && Resized(sb, s, s')
    requires s.ip.size == s'.ip.size == 0
    ensures Shape(sb, s') && AllFilled(sb, s') && AllTight(sb, s')
    ensures Appended(sb, s, s.inum, [], s')
  {
    hide Inv, Slot, DInode, ByteAt;
    OthersFilled(sb, s, owner, s');
    ResizedBytes(sb, s, s');
    assert Tight(sb, s, s.inum, Node(sb, s, s.inum).size);
    forall i | 0 <= i < sb.ninodes ensures Filled(sb, s', i) && Tight(sb, s', i, Node(sb, s', i).size) {
      if i != s.inum {
        assert Tight(sb, s, i, Node(sb, s, i).size);
        OthersTight(sb, s, s', i);
      }
    }
  }

  lemma AppendedSame(sb: Super, s: State, s0: State, s1: State, s': State)
    requires SameFiles(sb, s, s0) && SameFiles(sb, s', s1) && Appended(sb, s0, s0.inum, [], s1)
    ensures Appended(sb, s, s0.inum, [], s')
  {
    hide Filled, File, Node;
  }

  lemma BlankInode(ip0: Inode, ip: Inode)
    requires IsBlank(ip0) && ip.size == 0 && forall k | 0 <= k <= NDIRECT :: ip.addrs[k] == 0
    ensures ip0.addrs == ip.addrs && ip0.size == 0 && Snug(ip)
  {
  }

  /** ialloc takes a blank inode. */
  lemma NewInode(sb: Super, d: seq<Block>, free: nat, owner: Owner, i: nat, ip: Inode, d': seq<Block>)
    requires Sound(sb, d, free, i, owner) && i < sb.ninodes
    requires ip.size == 0 && forall k | 0 <= k <= NDIRECT :: ip.addrs[k] == 0
    requires d' == d[IBlock(sb, i) := PutInode(d[IBlock(sb, i)], i, ip)]
    ensures Sound(sb, d', free, i + 1, owner) && DInode(sb, d', i) == ip
    ensures Appended(sb, Seen(sb, d, free), i, [], Seen(sb, d', free))
  {
    hide Inv, Marking, ZeroFrom, DInode, Filled, File, PutInode, IsBlank, AllFilled, SameFiles, Synced,
      AllTight, Resized, Snug;
    SoundParts(sb, d, free, i, owner, i);
    var ip0 := DInode(sb, d, i);
    BlankInode(ip0, ip);
    var s, s' := With(sb, d, free, i, ip0), With(sb, d', free, i, ip);
    WriteInode(sb, d, free, owner, i, ip0, ip, d');
    Resizing(sb, s, owner, s');
    SoundFrom(sb, d', free, i + 1, owner, i);
    AppendedSame(sb, Seen(sb, d, free), s, s', Seen(sb, d', free));
  }

  // ---------------------------------------------------------------------------------------
  // The end
  // ---------------------------------------------------------------------------------------

  /** The finished image d, made from the image s with the blocks below free: each block that is marked is
      metadata or has one owner, and all files but the root directory are those of s. The root directory
      keeps its bytes and has exactly the addresses that they need, but a size that is a block
      longer, so that it has a hole behind them exactly if they fill their last block. */
  ghost predicate Finished(sb: Super, s: State, free: nat, d: seq<Block>, owner: Owner) {
    && Shape(sb, s) && AllFilled(sb, s) && sb.ninodes > ROOTINO && |d| == sb.size
    && (forall b | 0 <= b < sb.size :: Marked(sb, d, b) <==> b < free)
    && Rounded(DInode(sb, d, ROOTINO), |File(sb, s, ROOTINO)|)
    && var s' := State(d, ROOTINO, DInode(sb, d, ROOTINO), map[]);
    && Inv(sb, s', owner, {})
    && (forall i | 0 <= i < sb.ninodes && i != ROOTINO :: Filled(sb, s', i) && File(sb, s', i) == File(sb, s, i))
    && (AllFilled(sb, s') <==> |File(sb, s, ROOTINO)| % BSIZE != 0)
    && Begins(sb, s', ROOTINO, File(sb, s, ROOTINO))
  }

  /** File i begins with the bytes, and has the blocks for them; it may have a hole behind them. */
  ghost predicate Begins(sb: Super, s: State, i: nat, bytes: seq<Byte>)
    requires Shape(sb, s) && i < sb.ninodes
  {
    && |bytes| <= MAXSIZE && |bytes| <= Node(sb, s, i).size
    && forall x | 0 <= x < |bytes| :: Mapped(sb, s, i, x / BSIZE) && ByteAt(sb, s, i, x) == bytes[x]
  }

  /** The inode of a directory of n bytes with its size rounded up. */
  predicate Rounded(ip: Inode, n: nat) {
    ip.size == (n / BSIZE + 1) * BSIZE && forall k | 0 <= k <= NDIRECT :: ip.addrs[k] != 0 <==> BSIZE * k < n
  }

  /** A file has exactly the addresses that its bytes need. */
  lemma ExactAddrs(sb: Super, s: State)
    requires Shape(sb, s) && Filled(sb, s, s.inum) && Tight(sb, s, s.inum, s.ip.size) && Snug(s.ip)
    ensures forall k | 0 <= k <= NDIRECT :: s.ip.addrs[k] != 0 <==> BSIZE * k < s.ip.size
  {
    hide DInode, Entry;
    forall k | 0 <= k <= NDIRECT ensures s.ip.addrs[k] != 0 <==> BSIZE * k < s.ip.size {
      assert Mapped(sb, s, s.inum, k) ==> s.ip.addrs[k] != 0;
      assert k < NDIRECT ==> (Mapped(sb, s, s.inum, k) <==> s.ip.addrs[k] != 0);
    }
  }

  lemma RootRounded(sb: Super, s: State, owner: Owner, s': State)
    requires Inv(sb, s, owner, {}) && Shape(sb, s) && AllFilled(sb, s) && AllTight(sb, s) && Resized(sb, s, s')
    requires s'.ip.size == (s.ip.size / BSIZE + 1) * BSIZE
    ensures Shape(sb, s') && |File(sb, s, s.inum)| == s.ip.size
    ensures forall i | 0 <= i < sb.ninodes && i != s.inum :: Filled(sb, s', i) && File(sb, s', i) == File(sb, s, i)
    ensures AllFilled(sb, s') <==> s.ip.size % BSIZE != 0
    ensures Begins(sb, s', s.inum, File(sb, s, s.inum))
  {
    hide Inv, Slot, DInode, ByteAt;
    assert Filled(sb, s, s.inum) && Tight(sb, s, s.inum, Node(sb, s, s.inum).size);
    OthersFilled(sb, s, owner, s');
    ResizedBytes(sb, s, s');
    hide OthersKept, Resized;
    var q := s.ip.size / BSIZE;
    if s.ip.size % BSIZE != 0 {
      forall c | 0 <= c < MAXFILE && BSIZE * c < s'.ip.size ensures Mapped(sb, s', s.inum, c) {
        assert BSIZE * c < s.ip.size;
        assert Mapped(sb, s, s.inum, c);
      }
      assert Filled(sb, s', s.inum);
    } else if q < MAXFILE {
      assert !Mapped(sb, s, s.inum, q) && !Mapped(sb, s', s.inum, q);
      assert !Filled(sb, s', s.inum);
    } else {
      assert !Filled(sb, s', s.inum);
    }
    forall x | 0 <= x < s.ip.size
      ensures Mapped(sb, s', s.inum, x / BSIZE) && ByteAt(sb, s', s.inum, x) == File(sb, s, s.inum)[x]
    {
      assert BSIZE * (x / BSIZE) < s.ip.size;
      assert Mapped(sb, s, s.inum, x / BSIZE);
    }
  }

  lemma SameParts(sb: Super, s: State, s': State)
    requires SameFiles(sb, s, s')
    ensures Shape(sb, s) && Shape(sb, s') && AllFilled(sb, s) && AllFilled(sb, s')
  {
  }

  lemma FinishedFrom(sb: Super, s0: State, s: State, owner: Owner, free: nat, s': State)
    requires SameFiles(sb, s0, s) && s.inum == ROOTINO && Inv(sb, s, owner, {}) && AllTight(sb, s) && Resized(sb, s, s')
    requires s'.ip.size == (s.ip.size / BSIZE + 1) * BSIZE && Inv(sb, s', owner, {})
    requires |s'.disk| == sb.size && sb.Valid() && sb.ninodes > ROOTINO
    requires s' == State(s'.disk, ROOTINO, DInode(sb, s'.disk, ROOTINO), map[])
    requires forall b | 0 <= b < sb.size :: Marked(sb, s'.disk, b) <==> b < free
    requires Rounded(s'.ip, s.ip.size)
    ensures Finished(sb, s0, free, s'.disk, owner)
  {
    hide Inv, DInode, Filled, File, AllFilled, AllTight, Resized, SameFiles, Marked, Rounded, Begins;
    SameFilled(sb, s0, s, ROOTINO);
    SameParts(sb, s0, s);
    RootRounded(sb, s, owner, s');
    forall i | 0 <= i < sb.ninodes ensures Filled(sb, s0, i) && File(sb, s, i) == File(sb, s0, i) {
      SameFilled(sb, s0, s, i);
    }
  }

  lemma SoundRoot(sb: Super, d: seq<Block>, free: nat, next: nat, owner: Owner)
    requires Sound(sb, d, free, next, owner)
    ensures var s := With(sb, d, free, ROOTINO, DInode(sb, d, ROOTINO));
            Shape(sb, s) && Tight(sb, s, ROOTINO, s.ip.size) && Snug(s.ip)
  {
    SoundParts(sb, d, free, next, owner, ROOTINO);
    hide Inv, DInode, ZeroFrom, Marking, AllFilled, Tight, Snug;
    var s := With(sb, d, free, ROOTINO, DInode(sb, d, ROOTINO));
    assert Tight(sb, s, ROOTINO, Node(sb, s, ROOTINO).size);
  }

  lemma Rounding(sb: Super, d: seq<Block>, free: nat, next: nat, owner: Owner, d': seq<Block>)
    requires Sound(sb, d, free, next, owner)
    requires var din := DInode(sb, d, ROOTINO);
             && din.size <= MAXSIZE
             && d' == d[IBlock(sb, ROOTINO) := PutInode(d[IBlock(sb, ROOTINO)], ROOTINO,
                 din.(size := (din.size / BSIZE + 1) * BSIZE))]
    ensures Finished(sb, Seen(sb, d, free), free, Marking(sb, d', free), owner)
  {
    hide Inv, DInode, Filled, File, PutInode, IsBlank, AllFilled, AllTight, Resized, Marking, ZeroFrom, SameFiles,
      Finished, Sound, Marked, Tight, Snug;
    SoundRaw(sb, d, free, next, owner);
    var ip := DInode(sb, d, ROOTINO);
    var ip' := ip.(size := (ip.size / BSIZE + 1) * BSIZE);
    var s, s' := With(sb, d, free, ROOTINO, ip), With(sb, d', free, ROOTINO, ip');
    SoundParts(sb, d, free, next, owner, ROOTINO);
    SoundRoot(sb, d, free, next, owner);
    ExactAddrs(sb, s);
    WriteInode(sb, d, free, owner, ROOTINO, ip, ip', d');
    MarkingBlocks(sb, d', free);
    FinishedFrom(sb, Seen(sb, d, free), s, owner, free, s');
  }
}

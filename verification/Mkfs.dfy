/** xv6/mkfs.c, which makes the first image of a file system out of files. */
module Mkfs {
  import opened FsLayout
  import opened Ownership
  import opened FileBytes
  import opened MkfsImage
  import opened Basics
  import F = Fs
  import I = Inodes
  import C = InodeCalls

  /** A name in a directory, filled up with zeros. */
  type Name = n: seq<Byte> | |n| == 14 witness seq(14, i => 0)

  /** The loop of mkfs's balloc. */
  method Bitmap(used: nat) returns (buf: Block)
    requires used < BPB
    ensures buf == BitsTo(used) && forall bi | 0 <= bi < BPB :: BitOf(buf, bi) <==> bi < used
  {
    hide BitOf, PutBit;
    buf := seq(BSIZE, i => 0);
    var i := 0;
    while i < used
      invariant i <= used && buf == BitsTo(i)
    {
      buf := PutBit(buf, i, true);
      i := i + 1;
    }
    forall bi | 0 <= bi < BPB ensures BitOf(buf, bi) <==> bi < used {
      BitsToBits(used, bi);
    }
  }

  function Smaller(a: nat, b: nat): nat {
    if a < b then a else b
  }

  lemma FinishKinds(sb: Super, d: seq<Block>, ip: Inode, d1: seq<Block>, buf: Block, d': seq<Block>)
    requires sb.Valid() && |d| == sb.size && ROOTINO < sb.ninodes && KindOf(ip) == KindOf(DInode(sb, d, ROOTINO))
    requires d1 == d[IBlock(sb, ROOTINO) := PutInode(d[IBlock(sb, ROOTINO)], ROOTINO, ip)]
    requires d' == d1[sb.bmapstart := buf]
    ensures SameKinds(sb, d, d')
  {
    hide Decode, PutInode;
    forall j | 0 <= j < sb.ninodes ensures KindOf(DInode(sb, d', j)) == KindOf(DInode(sb, d, j)) {
      InodePut(sb, d, ROOTINO, ip, j);
      assert IBlock(sb, j) < sb.bmapstart;
    }
  }

  /** The root directory and the first k files have one link each, and the inodes behind them are free. */
  ghost predicate Kinds(sb: Super, d: seq<Block>, k: nat)
    requires sb.Valid() && |d| == sb.size && ROOTINO < sb.ninodes
  {
    && KindOf(DInode(sb, d, ROOTINO)) == Kind(1, 0, 0, 1)
    && (forall i | 2 <= i < k + 2 && i < sb.ninodes :: KindOf(DInode(sb, d, i)) == Kind(2, 0, 0, 1))
    && (forall i | k + 2 <= i < sb.ninodes :: DInode(sb, d, i).typ == 0)
  }

  lemma KindsStay(sb: Super, d: seq<Block>, k: nat, d': seq<Block>)
    requires sb.Valid() && |d| == |d'| == sb.size && ROOTINO < sb.ninodes && Kinds(sb, d, k) && SameKinds(sb, d, d')
    ensures Kinds(sb, d', k)
  {
    hide DInode;
    forall i | k + 2 <= i < sb.ninodes ensures DInode(sb, d', i).typ == 0 {
      assert KindOf(DInode(sb, d', i)) == KindOf(DInode(sb, d, i));
    }
  }

  lemma KindsMore(sb: Super, d: seq<Block>, k: nat, d': seq<Block>)
    requires sb.Valid() && |d| == |d'| == sb.size && k + 2 < sb.ninodes && Kinds(sb, d, k)
    requires KindOf(DInode(sb, d', k + 2)) == Kind(2, 0, 0, 1)
    requires forall j | 0 <= j < sb.ninodes && j != k + 2 :: DInode(sb, d', j) == DInode(sb, d, j)
    ensures Kinds(sb, d', k + 1)
  {
    hide DInode;
  }

  class Image {
    const sb: Super
    var disk: seq<Block>
    var freeblock: nat
    var freeinode: nat
    ghost var owner: Owner

    ghost predicate Valid()
      reads this
    {
      Sound(sb, disk, freeblock, freeinode, owner)
    }

    /** The image with the inode that iappend has read. */
    ghost function Now(inum: nat, din: Inode): State
      reads this
      requires Raw(sb, disk, freeblock)
    {
      With(sb, disk, freeblock, inum, din)
    }

    /** iappend's own bmap: the block of the file that holds block fbn, taken from freeblock if it is not there.
        None when the image has no block left. */
    method BlockFor(inum: nat, din: Inode, fbn: nat) returns (x: Option<Uint>, din': Inode)
      requires Raw(sb, disk, freeblock) && Inv(sb, Now(inum, din), owner, {}) && fbn < MAXFILE
      modifies `disk, `freeblock, `owner
      ensures Shape(sb, old(Now(inum, din)))
      ensures x.None? <==> old(freeblock) + Takes(sb, old(Now(inum, din)), fbn) > sb.size
      ensures x.Some? ==> freeblock == old(freeblock) + Takes(sb, old(Now(inum, din)), fbn)
      ensures din'.addrs[NDIRECT] != 0 ==> din.addrs[NDIRECT] != 0 || fbn >= NDIRECT
      ensures x.Some? ==> Raw(sb, disk, freeblock) && Inv(sb, Now(inum, din'), owner, {})
                          && Grown(sb, old(Now(inum, din)), fbn, x.value, Now(inum, din'))
    {
      hide Inv, Grown, Quiet, Entry, PutEntry, Marking, ZeroFrom, Mapped;
      din' := din;
      ghost var s := Now(inum, din);
      InvShape(sb, s, owner);
      DirectMapped(sb, s, fbn);
      if fbn < NDIRECT {
        if din.addrs[fbn] == 0 {
          if freeblock == sb.size { return None, din'; }
          NewDirect(sb, disk, freeblock, inum, din, owner, fbn);
          din' := din.(addrs := din.addrs[fbn := freeblock]);
          owner := owner[freeblock := (inum, fbn)];
          freeblock := freeblock + 1;
        } else {
          DirectThere(sb, s, owner, fbn);
        }
        x := Some(din'.addrs[fbn]);
      } else {
        QuietSelf(sb, s);
        if din.addrs[NDIRECT] == 0 {
          if freeblock == sb.size { return None, din'; }
          NewIndirect(sb, disk, freeblock, inum, din, owner);
          din' := din.(addrs := din.addrs[NDIRECT := freeblock]);
          owner := owner[freeblock := (inum, NDIRECT)];
          freeblock := freeblock + 1;
        }
        var a := din'.addrs[NDIRECT];
        IndirectThere(sb, disk, freeblock, inum, din', owner);
        x := Some(Entry(disk[a], fbn - NDIRECT));
        EntryMapped(sb, s, Now(inum, din'), fbn);
        if x.value == 0 {
          if freeblock == sb.size { return None, din'; }
          NewEntry(sb, s, disk, freeblock, inum, din', owner, fbn);
          disk := disk[a := PutEntry(disk[a], fbn - NDIRECT, freeblock)];
          owner := owner[freeblock := (inum, fbn + 1)];
          x := Some(freeblock);
          freeblock := freeblock + 1;
        } else {
          EntryThere(sb, Now(inum, din'), owner, fbn);
        }
      }
    }

    /** One round of the loop of iappend, at offset off + tot; 0 when the image has no block left. */
    method CopyRound(inum: nat, din: Inode, src: seq<Byte>, tot: nat, ghost s0: State, ghost free0: nat)
        returns (m: nat, din': Inode)
      requires s0.inum == inum && Copying(sb, s0, src, tot, disk, freeblock, din, owner) && tot < |src|
      requires Shape(sb, s0) && Filled(sb, s0, inum) && Paid(free0, s0.ip.size, tot, freeblock, din)
      modifies `disk, `freeblock, `owner
      ensures m == 0 ==> free0 + Need(s0.ip.size + |src|) - Need(s0.ip.size) > sb.size
      ensures m > 0 ==> tot + m <= |src| && Copying(sb, s0, src, tot + m, disk, freeblock, din', owner)
                        && Paid(free0, s0.ip.size, tot + m, freeblock, din')
    {
      hide Inv, Writing, Grown, Marking, Filled, IsZero, Tight, Need, Takes;
      WritingState(sb, s0, s0.ip.size, src, tot, Now(inum, din));
      WritingInRange(sb, s0, s0.ip.size, src, tot, Now(inum, din));
      var off := din.size + tot;
      var fbn := off / BSIZE;
      m := Smaller(|src| - tot, (fbn + 1) * BSIZE - off);
      TakesNext(sb, s0, src, tot, Now(inum, din), free0, freeblock, m);
      NeedGrows(s0.ip.size + tot + m, s0.ip.size + |src|);
      var x;
      x, din' := BlockFor(inum, din, fbn);
      if x.None? { return 0, din'; }
      GrownSlot(sb, old(Now(inum, din)), fbn, x.value, Now(inum, din'));
      ghost var d := disk;
      disk := disk[x.value := Splice(disk[x.value], off - fbn * BSIZE, src[tot..tot + m])];
      CopyStep(sb, s0, src, tot, old(Now(inum, din)), d, freeblock, din', owner, x.value, m, disk);
    }

    /** Puts an inode on the image. */
    method Winode(inum: nat, din: Inode)
      requires sb.Valid() && |disk| == sb.size && inum < sb.ninodes
      modifies `disk
      ensures disk == old(disk)[IBlock(sb, inum) := PutInode(old(disk)[IBlock(sb, inum)], inum, din)]
    {
      disk := disk[IBlock(sb, inum) := PutInode(disk[IBlock(sb, inum)], inum, din)];
    }

    /** iappend: the bytes are behind those of the file, and no other file has changed. It stops at the
        largest file, as the source does, and when the image has no block left, which the source
        does not notice. */
    method Iappend(inum: nat, xp: seq<Byte>) returns (ok: bool)
      requires Valid() && inum < freeinode && inum < sb.ninodes
      modifies `disk, `freeblock, `owner
      ensures var size := old(DInode(sb, disk, inum)).size;
              && (ok <==> size + |xp| <= MAXSIZE && old(freeblock) + Need(size + |xp|) - Need(size) <= sb.size)
              && (ok ==> freeblock == old(freeblock) + Need(size + |xp|) - Need(size))
      ensures ok ==>
          Valid() && Shape(sb, old(Seen(sb, disk, freeblock))) && Filled(sb, old(Seen(sb, disk, freeblock)), inum)
      ensures ok ==> Appended(sb, old(Seen(sb, disk, freeblock)), inum,
                              File(sb, old(Seen(sb, disk, freeblock)), inum) + xp, Seen(sb, disk, freeblock))
      ensures ok ==> |disk| == |old(disk)| == sb.size && SameKinds(sb, old(disk), disk)
    {
      hide Sound, Copying, Filled, File, Appended, DInode, PutInode, Marking, ZeroFrom, Inv, AllFilled, AllTight,
        SameFiles, Synced, Need, SameKinds;
      SoundParts(sb, disk, freeblock, freeinode, owner, inum);
      SoundSnug(sb, disk, freeblock, freeinode, owner, inum);
      var din := DInode(sb, disk, inum);
      ghost var s0 := Now(inum, din);
      var src := if din.size + |xp| <= MAXSIZE then xp else xp[..MAXSIZE - din.size];
      NeedGrows(din.size + |src|, din.size + |xp|);
      CopyStart(sb, disk, freeblock, inum, din, owner, src);
      var size, tot := din.size, 0;
      while tot < |xp|
        invariant tot <= |src| && Copying(sb, s0, src, tot, disk, freeblock, din, owner)
        invariant Paid(old(freeblock), size, tot, freeblock, din)
      {
        if (size + tot) / BSIZE >= MAXFILE {
          return false;
        }
        var m;
        m, din := CopyRound(inum, din, src, tot, s0, old(freeblock));
        if m == 0 { return false; }
        tot := tot + m;
      }
      ghost var d := disk;
      CopyShape(sb, s0, src, tot, disk, freeblock, din, owner);
      CopyFree(sb, s0, src, tot, disk, freeblock, din, owner);
      Winode(inum, din.(size := size + tot));
      CopyDone(sb, old(disk), old(freeblock), old(owner), freeinode, inum, src, d, freeblock, owner, din, disk);
      CopyKinds(sb, old(disk), old(freeblock), inum, src, tot, d, freeblock, din, owner, size + tot, disk);
      ok := true;
    }

    /** An image of zeros with the super block in place. */
    constructor (sb: Super, super: Block)
      requires sb.Valid() && sb.size < BPB && sb.ninodes > ROOTINO
      ensures Valid() && this.sb == sb && freeinode == ROOTINO && Raw(sb, disk, freeblock)
      ensures freeblock == sb.DataStart()
      ensures forall i | 0 <= i < sb.ninodes :: File(sb, Seen(sb, disk, freeblock), i) == []
      ensures forall i | 0 <= i < sb.ninodes :: DInode(sb, disk, i).typ == 0
    {
      this.sb := sb;
      disk := seq(sb.size, b => seq(BSIZE, i => 0));
      freeblock, freeinode, owner := sb.DataStart(), ROOTINO, map[];
      new;
      disk := disk[1 := super];
      FreshSound(sb, disk);
    }

    /** A new inode with a link and no bytes. */
    method Ialloc(typ: Ushort) returns (inum: nat)
      requires Valid() && freeinode < sb.ninodes
      modifies `disk, `freeinode
      ensures Valid() && inum == old(freeinode) && freeinode == inum + 1
      ensures Appended(sb, old(Seen(sb, disk, freeblock)), inum, [], Seen(sb, disk, freeblock))
      ensures KindOf(DInode(sb, disk, inum)) == Kind(typ, 0, 0, 1)
      ensures forall j | 0 <= j < sb.ninodes && j != inum :: DInode(sb, disk, j) == old(DInode(sb, disk, j))
    {
      hide Sound, Appended, DInode, PutInode, Marking, ZeroFrom, Inv, AllFilled, AllTight, SameFiles;
      SoundParts(sb, disk, freeblock, freeinode, owner, freeinode);
      inum := freeinode;
      freeinode := freeinode + 1;
      var din := Inode(typ, 0, 0, 1, 0, seq(NDIRECT + 1, k => 0));
      Winode(inum, din);
      NewInode(sb, old(disk), freeblock, owner, inum, din, disk);
      forall j | 0 <= j < sb.ninodes && j != inum ensures DInode(sb, disk, j) == old(DInode(sb, disk, j)) {
        InodePut(sb, old(disk), inum, din, j);
      }
    }

    /** The contents of a file, a buffer at a time. */
    method AddBytes(inum: nat, data: seq<Byte>) returns (ok: bool)
      requires Valid() && inum < freeinode && inum < sb.ninodes
      modifies `disk, `freeblock, `owner
      ensures Shape(sb, old(Seen(sb, disk, freeblock))) && Filled(sb, old(Seen(sb, disk, freeblock)), inum)
      ensures var n := |File(sb, old(Seen(sb, disk, freeblock)), inum)|;
              && (ok <==> n + |data| <= MAXSIZE && old(freeblock) + Need(n + |data|) - Need(n) <= sb.size)
              && (ok ==> freeblock == old(freeblock) + Need(n + |data|) - Need(n))
      ensures ok ==> Valid() && Appended(sb, old(Seen(sb, disk, freeblock)), inum,
                                         File(sb, old(Seen(sb, disk, freeblock)), inum) + data,
                                             Seen(sb, disk, freeblock))
      ensures ok ==> |disk| == |old(disk)| == sb.size && SameKinds(sb, old(disk), disk)
    {
      hide Sound, Filled, File, Appended, DInode, ZeroFrom, Need;
      SoundSeen(sb, disk, freeblock, freeinode, owner, inum);
      ghost var n := |File(sb, Seen(sb, disk, freeblock), inum)|;
      ghost var s := Seen(sb, disk, freeblock);
      AppendedNone(sb, s, inum);
      var i := 0;
      assert data[..0] == [];
      while i < |data|
        invariant i <= |data| && Valid() && freeinode == old(freeinode) && Raw(sb, disk, freeblock)
        invariant Appended(sb, s, inum, File(sb, s, inum) + data[..i], Seen(sb, disk, freeblock))
        invariant n + i <= MAXSIZE && freeblock == old(freeblock) + Need(n + i) - Need(n)
        invariant |disk| == |old(disk)| == sb.size && SameKinds(sb, old(disk), disk)
      {
        var cc := Smaller(BSIZE, |data| - i);
        ghost var s1 := Seen(sb, disk, freeblock);
        AppendedLength(sb, s, inum, File(sb, s, inum) + data[..i], s1);
        SoundSeen(sb, disk, freeblock, freeinode, owner, inum);
        NeedGrows(n + i + cc, n + |data|);
        ok := Iappend(inum, data[i..i + cc]);
        if !ok { return; }
        SoundSeen(sb, disk, freeblock, freeinode, owner, inum);
        AppendedTwice(sb, s, inum, data[..i], s1, data[i..i + cc], Seen(sb, disk, freeblock));
        assert data[..i + cc] == data[..i] + data[i..i + cc];
        i := i + cc;
      }
      assert data[..|data|] == data;
      ok := true;
    }

    /** The end of main: the size of the root directory is rounded up, and the bitmap is written. */
    method Finish()
      requires Valid() && freeinode > ROOTINO
      modifies `disk
      ensures Finished(sb, old(Seen(sb, disk, freeblock)), freeblock, disk, owner)
      ensures |disk| == |old(disk)| == sb.size && SameKinds(sb, old(disk), disk)
    {
      hide Sound, DInode, PutInode, BitOf, Finished, ZeroFrom, BitsTo, SameKinds;
      SoundRaw(sb, disk, freeblock, freeinode, owner);
      SoundSeen(sb, disk, freeblock, freeinode, owner, ROOTINO);
      var din := DInode(sb, disk, ROOTINO);
      var off := (din.size / BSIZE + 1) * BSIZE;
      Winode(ROOTINO, din.(size := off));
      var buf := Bitmap(freeblock);
      ghost var d := disk;
      disk := disk[sb.bmapstart := buf];
      Rounding(sb, old(disk), freeblock, freeinode, owner, d);
      FinishKinds(sb, old(disk), din.(size := off), d, buf, disk);
    }
  }

  // ---------------------------------------------------------------------------------------
  // main
  // ---------------------------------------------------------------------------------------

  datatype Given = Given(name: Name, data: seq<Byte>)

  function Dirent(inum: Ushort, name: Name): (r: seq<Byte>)
    ensures |r| == 16
  {
    ShortBytes(inum) + name
  }

  /** The root directory: itself twice, then the files under the inodes that follow. */
  function Directory(dot: Name, dotdot: Name, files: seq<Given>): (r: seq<Byte>)
    requires |files| < 0x1_0000 - 2
    ensures |r| == 16 * (|files| + 2)
  {
    if files == [] then Dirent(ROOTINO, dot) + Dirent(ROOTINO, dotdot)
    else Directory(dot, dotdot, files[..|files| - 1]) + Dirent(|files| + 1, files[|files| - 1].name)
  }

  /** Entry k of the directory: the inode, low byte first, and the name. */
  lemma {:induction false} DirectoryMeans(dot: Name, dotdot: Name, files: seq<Given>, k: nat)
    requires |files| < 0x1_0000 - 2 && k < |files| + 2
    ensures var r := Directory(dot, dotdot, files);
            && r[16 * k] as int + 256 * r[16 * k + 1] as int == (if k < 2 then 1 else k)
            && r[16 * k + 2..16 * k + 16] == if k == 0 then dot else if k == 1 then dotdot else files[k - 2].name
  {
    var r := Directory(dot, dotdot, files);
    hide Dirent;
    if files == [] {
      assert r[16 * k..16 * k + 16] == Dirent(ROOTINO, if k == 0 then dot else dotdot);
      DirentMeans(ROOTINO, if k == 0 then dot else dotdot, r, 16 * k);
    } else if k == |files| + 1 {
      var name := files[|files| - 1].name;
      assert r[16 * k..16 * k + 16] == Dirent(k, name);
      DirentMeans(k, name, r, 16 * k);
    } else {
      DirectoryMeans(dot, dotdot, files[..|files| - 1], k);
      SamePrefix(Directory(dot, dotdot, files[..|files| - 1]), Dirent(|files| + 1, files[|files| - 1].name), 16 * k);
    }
  }

  lemma SamePrefix(a: seq<Byte>, b: seq<Byte>, p: nat)
    requires p + 16 <= |a|
    ensures (a + b)[p] == a[p] && (a + b)[p + 1] == a[p + 1] && (a + b)[p + 2..p + 16] == a[p + 2..p + 16]
  {
  }

  lemma DirentMeans(inum: Ushort, name: Name, r: seq<Byte>, p: nat)
    requires p + 16 <= |r| && r[p..p + 16] == Dirent(inum, name)
    ensures r[p] as int + 256 * r[p + 1] as int == inum && r[p + 2..p + 16] == name
  {
    var e := r[p..p + 16];
    assert e[0] == r[p] && e[1] == r[p + 1];
    assert r[p + 2..p + 16] == e[2..16];
  }

  /** The image holds the first k files and a directory of them. */
  ghost predicate Holds(sb: Super, s: State, dot: Name, dotdot: Name, files: seq<Given>, k: nat) {
    && Shape(sb, s) && AllFilled(sb, s) && k <= |files| < 0x1_0000 - 2 && k + 2 <= sb.ninodes
    && File(sb, s, ROOTINO) == Directory(dot, dotdot, files[..k])
    && (forall j | 0 <= j < k :: File(sb, s, j + 2) == files[j].data)
    && (forall i | k + 2 <= i < sb.ninodes :: File(sb, s, i) == [])
  }

  lemma HoldsNone(sb: Super, s: State, dot: Name, dotdot: Name, files: seq<Given>, s1: State, s2: State, s3: State)
    requires Shape(sb, s) && AllFilled(sb, s) && sb.ninodes > ROOTINO && |files| < 0x1_0000 - 2
    requires forall i | 0 <= i < sb.ninodes :: File(sb, s, i) == []
    requires Appended(sb, s, ROOTINO, [], s1)
    requires Filled(sb, s1, ROOTINO) && Appended(sb, s1, ROOTINO, File(sb, s1, ROOTINO) + Dirent(ROOTINO, dot), s2)
    requires Filled(sb, s2, ROOTINO) && Appended(sb, s2, ROOTINO, File(sb, s2, ROOTINO) + Dirent(ROOTINO, dotdot), s3)
    ensures Holds(sb, s3, dot, dotdot, files, 0)
  {
    hide Filled, File, Dirent;
    assert [] + Dirent(ROOTINO, dot) == Dirent(ROOTINO, dot);
    assert files[..0] == [];
  }

  lemma HoldsMore(sb: Super, s: State, dot: Name, dotdot: Name, files: seq<Given>, k: nat, s1: State, s2: State,
      s3: State)
    requires Holds(sb, s, dot, dotdot, files, k) && k < |files| && k + 2 < sb.ninodes
    requires Appended(sb, s, k + 2, [], s1)
    requires Filled(sb, s1, ROOTINO) && Appended(sb, s1, ROOTINO, File(sb, s1, ROOTINO) + Dirent(k + 2,
             files[k].name), s2)
    requires Filled(sb, s2, k + 2) && Appended(sb, s2, k + 2, File(sb, s2, k + 2) + files[k].data, s3)
    ensures Holds(sb, s3, dot, dotdot, files, k + 1)
  {
    hide Filled, File, Dirent, Inv;
    assert files[..k + 1][..k] == files[..k];
    assert [] + files[k].data == files[k].data;
  }

  lemma NoFiles()
    ensures NeedAll([]) == 0
  {
  }

  /** How large the files are that the next appends start from. */
  lemma HoldsSizes(sb: Super, s: State, dot: Name, dotdot: Name, files: seq<Given>, k: nat, s1: State)
    requires Holds(sb, s, dot, dotdot, files, k) && k + 2 < sb.ninodes && Appended(sb, s, k + 2, [], s1)
    ensures Filled(sb, s1, ROOTINO) && |File(sb, s1, ROOTINO)| == 16 * (k + 2)
    ensures Filled(sb, s1, k + 2) && |File(sb, s1, k + 2)| == 0
  {
    hide Filled, File;
  }

  /** The image with an empty root directory. */
  method MakeRoot(sb: Super, super: Block, dot: Name, dotdot: Name, ghost files: seq<Given>)
      returns (ok: bool, img: Image, root: nat)
    requires sb.Valid() && sb.size < BPB && sb.ninodes > ROOTINO && |files| < 0x1_0000 - 2
    ensures fresh(img) && img.sb == sb && root == ROOTINO
    ensures ok <==> sb.DataStart() + Need(32) <= sb.size
    ensures ok ==> img.freeblock == sb.DataStart() + Need(32)
    ensures ok ==> img.Valid() && Raw(sb, img.disk, img.freeblock) && img.freeinode == 2 <= sb.ninodes
    ensures ok ==> Holds(sb, Seen(sb, img.disk, img.freeblock), dot, dotdot, files, 0)
    ensures ok ==> |img.disk| == sb.size && Kinds(sb, img.disk, 0)
  {
    hide Sound, Filled, File, Appended, DInode, ZeroFrom, Inv, AllFilled, Marking, Holds, Dirent, Need, SameKinds;
    NeedNone();
    NeedGrows(16, 32);
    img := new Image(sb, super);
    SoundSeen(sb, img.disk, img.freeblock, img.freeinode, img.owner, 0);
    ghost var s := Seen(sb, img.disk, img.freeblock);
    root := img.Ialloc(T_DIR);
    SoundRaw(sb, img.disk, img.freeblock, img.freeinode, img.owner);
    ghost var s1, d1 := Seen(sb, img.disk, img.freeblock), img.disk;
    assert Kinds(sb, d1, 0);
    hide Kinds;
    SoundSeen(sb, img.disk, img.freeblock, img.freeinode, img.owner, root);
    AppendedLength(sb, s, root, [], s1);
    ok := img.Iappend(root, Dirent(root, dot));
    if !ok { return; }
    SoundSeen(sb, img.disk, img.freeblock, img.freeinode, img.owner, root);
    ghost var s2, d2 := Seen(sb, img.disk, img.freeblock), img.disk;
    KindsStay(sb, d1, 0, d2);
    AppendedLength(sb, s1, root, File(sb, s1, root) + Dirent(root, dot), s2);
    ok := img.Iappend(root, Dirent(root, dotdot));
    if !ok { return; }
    KindsStay(sb, d2, 0, img.disk);
    SoundRaw(sb, img.disk, img.freeblock, img.freeinode, img.owner);
    HoldsNone(sb, s, dot, dotdot, files, s1, s2, Seen(sb, img.disk, img.freeblock));
  }

  /** The bytes of the files are there. */
  ghost predicate Carries(sb: Super, s: State, files: seq<Given>)
    requires Shape(sb, s) && |files| + 2 <= sb.ninodes
  {
    forall k | 0 <= k < |files| :: Filled(sb, s, k + 2) && File(sb, s, k + 2) == files[k].data
  }

  /** The image holds the files, byte for byte, and each block has one owner or none. It is without holes,
      so that the kernel can mount it, if and only if the root directory does not fill its last block:
      otherwise the directory lacks a block that its size speaks of. */
  ghost predicate Made(sb: Super, dot: Name, dotdot: Name, files: seq<Given>, d: seq<Block>, owner: Owner) {
    && sb.Valid() && |d| == sb.size && |files| + 2 <= sb.ninodes && |files| < 0x1_0000 - 2
    && var s := State(d, ROOTINO, DInode(sb, d, ROOTINO), map[]);
    && Inv(sb, s, owner, {}) && Carries(sb, s, files)
    && (forall b | 0 <= b < sb.size :: Marked(sb, d, b) <==> b < Used(sb, files))
    && Rounded(s.ip, 16 * (|files| + 2))
    && (forall i | 0 <= i < sb.ninodes && i != ROOTINO :: Filled(sb, s, i))
    && (AllFilled(sb, s) <==> (|files| + 2) % 32 != 0)
    && Begins(sb, s, ROOTINO, Directory(dot, dotdot, files))
  }

  lemma NeedNone()
    ensures Need(0) == 0
  {
  }

  /** The blocks that the files need. */
  function NeedAll(files: seq<Given>): nat {
    if files == [] then 0 else NeedAll(files[..|files| - 1]) + Need(|files[|files| - 1].data|)
  }

  lemma NeedAllNext(files: seq<Given>, k: nat)
    requires k < |files|
    ensures NeedAll(files[..k + 1]) == NeedAll(files[..k]) + Need(|files[k].data|)
  {
    assert files[..k + 1][..k] == files[..k];
    hide Need;
  }

  lemma {:induction false} NeedAllGrows(files: seq<Given>, k: nat)
    requires k <= |files|
    ensures NeedAll(files[..k]) <= NeedAll(files)
    decreases |files| - k
  {
    hide Need;
    if k < |files| {
      NeedAllNext(files, k);
      NeedAllGrows(files, k + 1);
    } else {
      assert files[..k] == files;
    }
  }

  /** The first block that the image of the files leaves free. */
  function Used(sb: Super, files: seq<Given>): nat {
    sb.DataStart() + Need(16 * (|files| + 2)) + NeedAll(files)
  }

  /** There are inodes and blocks enough, and neither a file nor the directory is too large. */
  predicate Fits(sb: Super, files: seq<Given>) {
    && |files| + 2 <= sb.ninodes && 16 * (|files| + 2) <= MAXSIZE && Used(sb, files) <= sb.size
    && forall k | 0 <= k < |files| :: |files[k].data| <= MAXSIZE
  }

  /** If there is no room for the first k files and a directory with one entry more, there is none. */
  lemma TooMuch(sb: Super, files: seq<Given>, k: nat, more: nat)
    requires k < |files| && (more == 0 || more == Need(|files[k].data|))
    requires 16 * (k + 3) > MAXSIZE || sb.DataStart() + Need(16 * (k + 3)) + NeedAll(files[..k]) + more > sb.size
    ensures !Fits(sb, files)
  {
    hide Need;
    NeedGrows(16 * (k + 3), 16 * (|files| + 2));
    NeedAllNext(files, k);
    NeedAllGrows(files, k + 1);
  }

  lemma EntriesInBlock(m: nat)
    ensures 16 * m % BSIZE == 16 * (m % 32)
  {
    var q, r := m / 32, m % 32;
    assert 16 * m == BSIZE * q + 16 * r;
  }

  /** 32 entries fill a block. */
  lemma DirectorySize(dot: Name, dotdot: Name, files: seq<Given>)
    requires |files| < 0x1_0000 - 2
    ensures |Directory(dot, dotdot, files)| == 16 * (|files| + 2)
    ensures |Directory(dot, dotdot, files)| % BSIZE != 0 <==> (|files| + 2) % 32 != 0
  {
    EntriesInBlock(|files| + 2);
  }

  lemma MadeFrom(sb: Super, s: State, dot: Name, dotdot: Name, files: seq<Given>, d: seq<Block>, owner: Owner)
    requires Holds(sb, s, dot, dotdot, files, |files|) && Finished(sb, s, Used(sb, files), d, owner)
    ensures Made(sb, dot, dotdot, files, d, owner)
  {
    hide Filled, File, Inv, DInode, Directory, AllFilled, Used, Rounded, Marked, Begins;
    assert files[..|files|] == files;
    DirectorySize(dot, dotdot, files);
  }

  /** The first k files are on the image, in the blocks and inodes that they need. */
  ghost predicate SoFar(sb: Super, d: seq<Block>, free: nat, next: nat, owner: Owner, dot: Name, dotdot: Name,
                        files: seq<Given>, k: nat) {
    && Sound(sb, d, free, next, owner) && Raw(sb, d, free) && next == k + 2 <= sb.ninodes && k <= |files|
    && Holds(sb, Seen(sb, d, free), dot, dotdot, files, k) && Kinds(sb, d, k)
    && free == sb.DataStart() + Need(16 * (k + 2)) + NeedAll(files[..k]) && 16 * (k + 2) <= MAXSIZE
    && forall j | 0 <= j < k :: |files[j].data| <= MAXSIZE
  }

  /** One turn of the loop of main: the next file. */
  method AddFile(img: Image, sb: Super, root: nat, ghost dot: Name, ghost dotdot: Name, files: seq<Given>, k: nat)
      returns (ok: bool)
    requires img.sb == sb && root == ROOTINO && k < |files| < 0x1_0000 - 2
    requires SoFar(sb, img.disk, img.freeblock, img.freeinode, img.owner, dot, dotdot, files, k)
    modifies img
    ensures ok ==> SoFar(sb, img.disk, img.freeblock, img.freeinode, img.owner, dot, dotdot, files, k + 1)
    ensures !ok ==> !Fits(sb, files)
  {
    hide Sound, Filled, File, Appended, DInode, ZeroFrom, Inv, AllFilled, Marking, Holds, Dirent, Need, NeedAll,
      Kinds, SameKinds;
    if img.freeinode == sb.ninodes {
      return false;
    }
    ghost var s0, d0 := Seen(sb, img.disk, img.freeblock), img.disk;
    var inum := img.Ialloc(F.T_FILE);
    SoundRaw(sb, img.disk, img.freeblock, img.freeinode, img.owner);
    ghost var s1, d1 := Seen(sb, img.disk, img.freeblock), img.disk;
    KindsMore(sb, d0, k, d1);
    HoldsSizes(sb, s0, dot, dotdot, files, k, s1);
    SoundSeen(sb, img.disk, img.freeblock, img.freeinode, img.owner, root);
    ok := img.Iappend(root, Dirent(inum, files[k].name));
    if !ok {
      TooMuch(sb, files, k, 0);
      return;
    }
    SoundRaw(sb, img.disk, img.freeblock, img.freeinode, img.owner);
    ghost var s2, d2 := Seen(sb, img.disk, img.freeblock), img.disk;
    KindsStay(sb, d1, k + 1, d2);
    OtherKept(sb, s1, root, File(sb, s1, root) + Dirent(inum, files[k].name), s2, inum);
    ok := img.AddBytes(inum, files[k].data);
    if !ok {
      if |files[k].data| <= MAXSIZE { TooMuch(sb, files, k, Need(|files[k].data|)); }
      return;
    }
    NeedNone();
    NeedAllNext(files, k);
    SoundRaw(sb, img.disk, img.freeblock, img.freeinode, img.owner);
    HoldsMore(sb, s0, dot, dotdot, files, k, s1, s2, Seen(sb, img.disk, img.freeblock));
    KindsStay(sb, d2, k + 1, img.disk);
  }

  /** mkfs: a file system with a root directory and the files, exactly if they fit. */
  method Make(sb: Super, super: Block, dot: Name, dotdot: Name, files: seq<Given>) returns (ok: bool, img: Image)
    requires sb.Valid() && sb.size < BPB && sb.ninodes > ROOTINO && |files| < 0x1_0000 - 2
    ensures img.sb == sb && (ok <==> Fits(sb, files))
    ensures ok ==> Made(sb, dot, dotdot, files, img.disk, img.owner)
    ensures ok ==> |img.disk| == sb.size && Kinds(sb, img.disk, |files|)
  {
    hide Sound, Filled, File, Appended, DInode, ZeroFrom, Inv, AllFilled, Marking, Finished, Holds, Dirent, Made,
        Need, NeedAll, Kinds, SameKinds;
    var root;
    NeedGrows(32, 16 * (|files| + 2));
    NeedNone();
    ok, img, root := MakeRoot(sb, super, dot, dotdot, files);
    if !ok { return; }
    assert files[..0] == [];
    NoFiles();
    var k := 0;
    while k < |files|
      invariant k <= |files| && img.sb == sb
      invariant SoFar(sb, img.disk, img.freeblock, img.freeinode, img.owner, dot, dotdot, files, k)
    {
      ok := AddFile(img, sb, root, dot, dotdot, files, k);
      if !ok { return; }
      k := k + 1;
    }
    assert SoFar(sb, img.disk, img.freeblock, img.freeinode, img.owner, dot, dotdot, files, |files|);
    assert files[..|files|] == files;
    ghost var before, d := Seen(sb, img.disk, img.freeblock), img.disk;
    img.Finish();
    KindsStay(sb, d, |files|, img.disk);
    MadeFrom(sb, before, dot, dotdot, files, img.disk, img.owner);
    ok := true;
  }

  // ---------------------------------------------------------------------------------------
  // Mounting
  // ---------------------------------------------------------------------------------------

  /** The image is where every run of the kernel over it starts. */
  lemma RunsStart(sb: Super, dot: Name, dotdot: Name, files: seq<Given>, d: seq<Block>, owner: Owner)
    requires Made(sb, dot, dotdot, files, d, owner)
    ensures I.Init(sb, I.Sys(d, map[], map[], owner))
  {
    hide Inv, DInode, Filled, File;
    var s, s' := State(d, ROOTINO, DInode(sb, d, ROOTINO), map[]), State(d, 0, DInode(sb, d, 0), map[]);
    assert forall j | 0 <= j < sb.ninodes :: Node(sb, s', j) == Node(sb, s, j);
    SameNodes(sb, s, s', owner, {});
  }

  /** A file without holes has the addresses that its size needs. */
  lemma FilledLow(sb: Super, d: seq<Block>, s: State, i: nat)
    requires Shape(sb, s) && s.disk == d && i < sb.ninodes && Node(sb, s, i) == DInode(sb, d, i) && Filled(sb, s, i)
    ensures C.Low(DInode(sb, d, i), DInode(sb, d, i).size)
  {
    hide DInode, Entry;
    forall k | 0 <= k <= NDIRECT && BSIZE * k < DInode(sb, d, i).size ensures DInode(sb, d, i).addrs[k] != 0 {
      assert Mapped(sb, s, i, k);
    }
  }

  /** The rounded size of a directory of n bytes needs an address that is not there exactly if the bytes fill
      their last block and the next one would have an address of its own in the inode. */
  lemma RoundedLow(ip: Inode, n: nat)
    requires Rounded(ip, n)
    ensures C.Low(ip, ip.size) <==> n % BSIZE != 0 || n / BSIZE > NDIRECT
  {
    var q := n / BSIZE;
    if n % BSIZE == 0 && q <= NDIRECT {
      assert ip.addrs[q] == 0 && BSIZE * q < ip.size;
    } else {
      forall k | 0 <= k <= NDIRECT && BSIZE * k < ip.size ensures ip.addrs[k] != 0 {
        assert k <= q && BSIZE * k < n;
      }
    }
  }

  lemma HoleExactly(sb: Super, dot: Name, dotdot: Name, files: seq<Given>, d: seq<Block>, owner: Owner)
    requires Made(sb, dot, dotdot, files, d, owner)
    ensures C.NoLowHole(sb, d) <==> (|files| + 2) % 32 != 0 || (|files| + 2) / 32 > NDIRECT
  {
    hide Inv, DInode, Filled, File, Marked, Rounded, Carries, AllFilled;
    var s, n := State(d, ROOTINO, DInode(sb, d, ROOTINO), map[]), |files| + 2;
    EntriesInBlock(n);
    assert 16 * n / BSIZE == n / 32;
    InvShape(sb, s, owner);
    RoundedLow(s.ip, 16 * n);
    forall i | 0 <= i < sb.ninodes && i != ROOTINO ensures C.Low(DInode(sb, d, i), DInode(sb, d, i).size) {
      FilledLow(sb, d, s, i);
    }
    hide C.Low;
    assert C.NoLowHole(sb, d) <==> C.Low(s.ip, s.ip.size);
  }

  /** On an image that has two blocks left, every run of the kernel keeps each block with its one owner if
      and only if the root directory has no hole that its own addresses should fill. */
  lemma AlwaysOwnedExactly(sb: Super, dot: Name, dotdot: Name, files: seq<Given>, d: seq<Block>, owner: Owner)
    requires Made(sb, dot, dotdot, files, d, owner) && Used(sb, files) + 2 <= sb.size
    ensures C.AlwaysOwned(sb, d, owner) <==> (|files| + 2) % 32 != 0 || (|files| + 2) / 32 > NDIRECT
  {
    hide Inv, DInode, Filled, File, Marked, Rounded, Carries, AllFilled, Used, C.NoLowHole, C.AlwaysOwned, I.Init;
    RunsStart(sb, dot, dotdot, files, d, owner);
    HoleExactly(sb, dot, dotdot, files, d, owner);
    C.OwnedExactly(sb, d, owner, Used(sb, files), Used(sb, files) + 1);
  }

  /** It happens: the image that mkfs makes of thirty empty files. */
  method ThirtyFiles(super: Block, dot: Name, dotdot: Name, name: Name) returns (img: Image)
    ensures var files, sb := seq(30, i => Given(name, [])), SuperBlock(1000, 200, 30);
            && Made(sb, dot, dotdot, files, img.disk, img.owner)
            && !C.AlwaysOwned(sb, img.disk, img.owner)
  {
    hide Made, C.AlwaysOwned;
    var files, sb := seq(30, i => Given(name, [])), SuperBlock(1000, 200, 30);
    SuperValid();
    NeedEmpty(files);
    assert Need(16 * 32) == 1;
    var ok;
    ok, img := Make(sb, super, dot, dotdot, files);
    AlwaysOwnedExactly(sb, dot, dotdot, files, img.disk, img.owner);
  }

  lemma {:induction false} NeedEmpty(files: seq<Given>)
    requires forall k | 0 <= k < |files| :: files[k].data == []
    ensures NeedAll(files) == 0
  {
    if files != [] {
      NeedEmpty(files[..|files| - 1]);
    }
  }

  /** Mounted with the root directory locked. */
  method Mount(sb: Super, drivers: set<nat>, ghost dot: Name, ghost dotdot: Name, ghost files: seq<Given>, img: Image)
      returns (fs: F.FileSystem)
    requires Made(sb, dot, dotdot, files, img.disk, img.owner) && (|files| + 2) % 32 != 0
    ensures fs.Valid() && fs.sb == sb && fs.disk == img.disk && fs.inum == ROOTINO
    ensures Shape(sb, fs.Now()) && |files| + 2 <= sb.ninodes && Carries(sb, fs.Now(), files)
  {
    hide Inv, Carries, File, AllFilled;
    fs := new F.FileSystem(sb, drivers, img.disk, ROOTINO, img.owner);
  }
}

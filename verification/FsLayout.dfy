/** The bytes of an xv6 file system image: words, bitmap bits and inodes inside 512-byte blocks
    (xv6/fs.h), and the masks of xv6/fs.c over them. */
module FsLayout {
  type Byte = x: int | 0 <= x < 256

  type Uint = x: int | 0 <= x < 0x1_0000_0000

  type Ushort = x: int | 0 <= x < 0x1_0000

  const BSIZE := 512
  const BPB := 4096
  const NDIRECT := 12
  const NINDIRECT := 128
  const MAXFILE := 140
  const IPB := 8

  type Block = b: seq<Byte> | |b| == BSIZE witness seq(BSIZE, i => 0)

  predicate IsZero(b: Block) {
    forall i | 0 <= i < BSIZE :: b[i] == 0
  }

  type Addrs = a: seq<Uint> | |a| == NDIRECT + 1 witness seq(NDIRECT + 1, i => 0)

  /** The part of an inode that lives on disk; the shorts are the raw 16 bits. */
  datatype Inode = Inode(typ: Ushort, major: Ushort, minor: Ushort, nlink: Ushort, size: Uint, addrs: Addrs)

  /** What the super block says of the layout. The signed scan counter of balloc reaches the end
      of the disk only below the bound on size. */
  datatype Super = Super(size: nat, ninodes: nat, inodestart: nat, bmapstart: nat)
  {
    function DataStart(): nat {
      bmapstart + size / BPB + 1
    }

    predicate Valid() {
      2 <= inodestart && inodestart + ninodes / IPB + 1 <= bmapstart && DataStart() <= size <= 0x7FFF_F000
    }

    predicate IsBitmap(b: nat) {
      bmapstart <= b < DataStart()
    }
  }

  function Splice<T>(s: seq<T>, p: nat, t: seq<T>): (r: seq<T>)
    requires p + |t| <= |s|
    ensures |r| == |s|
  {
    s[..p] + t + s[p + |t|..]
  }

  /** Two adjacent copies are one. */
  lemma SpliceTwice<T>(s: seq<T>, p: nat, t: seq<T>, u: seq<T>)
    requires p + |t| + |u| <= |s|
    ensures Splice(Splice(s, p, t), p + |t|, u) == Splice(s, p, t + u)
  {
  }

  // ---------------------------------------------------------------------------------------
  // Words
  // ---------------------------------------------------------------------------------------

  function Short(s: seq<Byte>, p: nat): Ushort
    requires p + 2 <= |s|
  {
    s[p] as int + 0x100 * s[p + 1] as int
  }

  function Word(s: seq<Byte>, p: nat): Uint
    requires p + 4 <= |s|
  {
    s[p] as int + 0x100 * s[p + 1] as int + 0x1_0000 * s[p + 2] as int + 0x100_0000 * s[p + 3] as int
  }

  /** A word depends on its four bytes only. */
  lemma WordShift(s: seq<Byte>, t: seq<Byte>, p: nat, q: nat)
    requires p + 4 <= |s| && q + 4 <= |t| && s[p..p + 4] == t[q..q + 4]
    ensures Word(s, p) == Word(t, q)
  {
    var u, v := s[p..p + 4], t[q..q + 4];
    assert u[0] == s[p] && u[1] == s[p + 1] && u[2] == s[p + 2] && u[3] == s[p + 3];
    assert v[0] == t[q] && v[1] == t[q + 1] && v[2] == t[q + 2] && v[3] == t[q + 3];
  }

  function ShortBytes(w: Ushort): (r: seq<Byte>)
    ensures |r| == 2 && Short(r, 0) == w
  {
    [w % 0x100, w / 0x100]
  }

  function WordBytes(w: Uint): (r: seq<Byte>)
    ensures |r| == 4 && Word(r, 0) == w
  {
    var w1 := w / 0x100;
    var w2 := w1 / 0x100;
    [w % 0x100, w1 % 0x100, w2 % 0x100, w2 / 0x100]
  }

  function AddrBytes(a: Addrs): (r: seq<Byte>)
    ensures |r| == 52
  {
    seq(52, p requires 0 <= p < 52 => WordBytes(a[p / 4])[p % 4])
  }

  /** Entry j of an indirect block. */
  function Entry(b: Block, j: nat): Uint
    requires j < NINDIRECT
  {
    Word(b, 4 * j)
  }

  function PutEntry(b: Block, j: nat, w: Uint): Block
    requires j < NINDIRECT
  {
    Splice(b, 4 * j, WordBytes(w))
  }

  lemma EntryPut(b: Block, j: nat, w: Uint, l: nat)
    requires j < NINDIRECT && l < NINDIRECT
    ensures Entry(PutEntry(b, j, w), l) == if l == j then w else Entry(b, l)
  {
    var b', t := PutEntry(b, j, w), WordBytes(w);
    if l == j {
      assert b'[4 * j..4 * j + 4] == t;
      WordShift(b', t, 4 * j, 0);
    } else {
      assert b'[4 * l..4 * l + 4] == b[4 * l..4 * l + 4];
      WordShift(b', b, 4 * l, 4 * l);
    }
  }

  // ---------------------------------------------------------------------------------------
  // Inodes
  // ---------------------------------------------------------------------------------------

  function Encode(ip: Inode): (r: seq<Byte>)
    ensures |r| == 64
  {
    ShortBytes(ip.typ) + ShortBytes(ip.major) + ShortBytes(ip.minor) + ShortBytes(ip.nlink) + WordBytes(ip.size)
    + AddrBytes(ip.addrs)
  }

  function Decode(s: seq<Byte>): Inode
    requires |s| == 64
  {
    Inode(Short(s, 0), Short(s, 2), Short(s, 4), Short(s, 6), Word(s, 8),
          seq(NDIRECT + 1, k requires 0 <= k < NDIRECT + 1 => Word(s, 12 + 4 * k)))
  }

  lemma AddrAt(a: Addrs, k: nat)
    requires k <= NDIRECT
    ensures Word(AddrBytes(a), 4 * k) == a[k]
  {
    var r := AddrBytes(a);
    assert r[4 * k..4 * k + 4] == WordBytes(a[k]);
    WordShift(r, WordBytes(a[k]), 4 * k, 0);
  }

  lemma DecodeEncode(ip: Inode)
    ensures Decode(Encode(ip)) == ip
  {
    var s := Encode(ip);
    hide WordBytes, AddrBytes, Word;
    assert s[8..12] == WordBytes(ip.size)[0..4];
    WordShift(s, WordBytes(ip.size), 8, 0);
    forall k | 0 <= k <= NDIRECT ensures Word(s, 12 + 4 * k) == ip.addrs[k] {
      AddrAt(ip.addrs, k);
      assert s[12 + 4 * k..12 + 4 * k + 4] == AddrBytes(ip.addrs)[4 * k..4 * k + 4];
      WordShift(s, AddrBytes(ip.addrs), 12 + 4 * k, 4 * k);
    }
  }

  function IBlock(sb: Super, i: nat): nat {
    i / IPB + sb.inodestart
  }

  /** Inode i as it is on disk. */
  function DInode(sb: Super, d: seq<Block>, i: nat): Inode
    requires sb.Valid() && |d| == sb.size && i < sb.ninodes
  {
    Decode(d[IBlock(sb, i)][64 * (i % IPB)..64 * (i % IPB) + 64])
  }

  function PutInode(b: Block, i: nat, ip: Inode): Block {
    Splice(b, 64 * (i % IPB), Encode(ip))
  }

  lemma InodePut(sb: Super, d: seq<Block>, i: nat, ip: Inode, j: nat)
    requires sb.Valid() && |d| == sb.size && i < sb.ninodes && j < sb.ninodes
    ensures DInode(sb, d[IBlock(sb, i) := PutInode(d[IBlock(sb, i)], i, ip)], j)
            == if j == i then ip else DInode(sb, d, j)
  {
    var b := d[IBlock(sb, i)];
    var p, q := 64 * (i % IPB), 64 * (j % IPB);
    var b' := PutInode(b, i, ip);
    DecodeEncode(ip);
    hide Encode, Decode;
    assert b'[p..p + 64] == Encode(ip);
    if j != i && IBlock(sb, i) == IBlock(sb, j) {
      assert q + 64 <= p || p + 64 <= q;
      assert b'[q..q + 64] == b[q..q + 64];
    }
  }

  // ---------------------------------------------------------------------------------------
  // Bits
  // ---------------------------------------------------------------------------------------

  /** The mask 1 << i. */
  function Mask(i: nat): (m: nat)
    ensures m >= 1
  {
    if i == 0 then 1 else 2 * Mask(i - 1)
  }

  /** x & Mask(i) is not zero: bit i of x, counted from the low end. */
  predicate Bit(x: nat, i: nat) {
    if i == 0 then x % 2 == 1 else Bit(x / 2, i - 1)
  }

  /** Switching bit i moves the value by the mask, touches no other bit and stays within the width. */
  lemma {:induction false} BitSwitched(x: nat, i: nat, j: nat, w: nat)
    requires x < Mask(w) && i < w
    ensures !Bit(x, i) ==> Bit(x + Mask(i), j) == (j == i || Bit(x, j)) && x + Mask(i) < Mask(w)
    ensures Bit(x, i) ==> Mask(i) <= x && Bit(x - Mask(i), j) == (j != i && Bit(x, j))
  {
    if i == 0 {
    } else {
      BitSwitched(x / 2, i - 1, if j == 0 then 0 else j - 1, w - 1);
      assert (x + Mask(i)) / 2 == x / 2 + Mask(i - 1) && (x + Mask(i)) % 2 == x % 2;
      if Bit(x, i) {
        assert (x - Mask(i)) / 2 == x / 2 - Mask(i - 1) && (x - Mask(i)) % 2 == x % 2;
      }
    }
  }

  lemma MaskByte()
    ensures Mask(8) == 256
  {
    assert Mask(4) == 16;
  }

  /** x | Mask(i) */
  function SetBit(x: Byte, i: nat): Byte
    requires i < 8
  {
    MaskByte();
    BitSwitched(x, i, i, 8);
    if Bit(x, i) then x else x + Mask(i)
  }

  /** x & ~Mask(i) */
  function ClearBit(x: Byte, i: nat): Byte
    requires i < 8
  {
    MaskByte();
    BitSwitched(x, i, i, 8);
    if Bit(x, i) then x - Mask(i) else x
  }

  function BBlock(sb: Super, b: nat): nat {
    b / BPB + sb.bmapstart
  }

  /** Block b is marked as in use: bit b % BPB of its bitmap block. */
  predicate Marked(sb: Super, d: seq<Block>, b: nat)
    requires sb.Valid() && |d| == sb.size && b < sb.size
  {
    BitOf(d[BBlock(sb, b)], b % BPB)
  }

  predicate BitOf(blk: Block, bi: nat)
    requires bi < BPB
  {
    Bit(blk[bi / 8], bi % 8)
  }

  function PutBit(blk: Block, bi: nat, on: bool): Block
    requires bi < BPB
  {
    blk[bi / 8 := if on then SetBit(blk[bi / 8], bi % 8) else ClearBit(blk[bi / 8], bi % 8)]
  }

  lemma ZeroBits(blk: Block)
    requires IsZero(blk)
    ensures forall bi | 0 <= bi < BPB :: !BitOf(blk, bi)
  {
    forall bi | 0 <= bi < BPB ensures !BitOf(blk, bi) {
      ZeroBit(bi % 8);
    }
  }

  lemma {:induction false} ZeroBit(i: nat)
    ensures !Bit(0, i)
  {
    if i > 0 { ZeroBit(i - 1); }
  }

  lemma BitPut(blk: Block, bi: nat, on: bool, xi: nat)
    requires bi < BPB && xi < BPB
    ensures BitOf(PutBit(blk, bi, on), xi) == if xi == bi then on else BitOf(blk, xi)
  {
    MaskByte();
    BitSwitched(blk[bi / 8], bi % 8, xi % 8, 8);
    hide Bit, Mask;
    if xi / 8 == bi / 8 && xi != bi {
      assert xi % 8 != bi % 8;
    }
  }

  lemma MarkPut(sb: Super, d: seq<Block>, b: nat, on: bool, x: nat)
    requires sb.Valid() && |d| == sb.size && b < sb.size && x < sb.size
    ensures BBlock(sb, b) < sb.DataStart()
    ensures Marked(sb, d[BBlock(sb, b) := PutBit(d[BBlock(sb, b)], b % BPB, on)], x)
            == if x == b then on else Marked(sb, d, x)
  {
    BitPut(d[BBlock(sb, b)], b % BPB, on, x % BPB);
    hide BitOf, PutBit;
  }

  // ---------------------------------------------------------------------------------------
  // The format in bytes
  // ---------------------------------------------------------------------------------------

  /** Where the fields of inode i lie on the disk, low byte first. */
  lemma InodeFormat(sb: Super, d: seq<Block>, i: nat, k: nat)
    requires sb.Valid() && |d| == sb.size && i < sb.ninodes && k < 13
    ensures sb.inodestart + i / 8 < |d| && 64 * (i % 8) + 64 <= 512
    ensures var b, p, ip := d[sb.inodestart + i / 8], 64 * (i % 8), DInode(sb, d, i);
            && ip.typ == b[p] as int + 256 * b[p + 1] as int
            && ip.major == b[p + 2] as int + 256 * b[p + 3] as int
            && ip.minor == b[p + 4] as int + 256 * b[p + 5] as int
            && ip.nlink == b[p + 6] as int + 256 * b[p + 7] as int
            && ip.size == b[p + 8] as int + 256 * (b[p + 9] as int + 256 * (b[p + 10] as int + 256 * b[p + 11] as int))
            && var q := p + 12 + 4 * k;
               ip.addrs[k] == b[q] as int + 256 * (b[q + 1] as int + 256 * (b[q + 2] as int + 256 * b[q + 3] as int))
  {
    var b, p := d[sb.inodestart + i / 8], 64 * (i % 8);
    var s := b[p..p + 64];
    assert forall j | 0 <= j < 64 :: s[j] == b[p + j];
  }

  /** Bit b of the bitmap: which byte of which block, and which bit of it, from the low end. */
  lemma BitmapFormat(sb: Super, d: seq<Block>, b: nat)
    requires sb.Valid() && |d| == sb.size && b < sb.size
    ensures sb.bmapstart + b / 4096 < |d|
    ensures Marked(sb, d, b) <==>
            d[sb.bmapstart + b / 4096][b % 4096 / 8] / [1, 2, 4, 8, 16, 32, 64, 128][b % 8] % 2 == 1
  {
    hide Bit;
    BitPlace(sb, b);
    BitIs(d[sb.bmapstart + b / 4096][b % 4096 / 8], b % 8);
  }

  lemma BitPlace(sb: Super, b: nat)
    requires sb.Valid() && b < sb.size
    ensures b % 4096 % 8 == b % 8 && BBlock(sb, b) == sb.bmapstart + b / 4096 < sb.size
  {
  }

  lemma {:induction false} BitIs(x: nat, i: nat)
    requires i < 8
    ensures Bit(x, i) <==> x / [1, 2, 4, 8, 16, 32, 64, 128][i] % 2 == 1
    decreases i
  {
    if i > 0 {
      BitIs(x / 2, i - 1);
      HalfAgain(x, i);
    }
  }

  lemma HalfAgain(x: nat, i: nat)
    requires 1 <= i < 8
    ensures x / 2 / [1, 2, 4, 8, 16, 32, 64, 128][i - 1] == x / [1, 2, 4, 8, 16, 32, 64, 128][i]
  {
    if {
      case i == 1 =>
      case i == 2 =>
      case i == 3 =>
      case i == 4 =>
      case i == 5 =>
      case i == 6 =>
      case i == 7 =>
    }
  }
}

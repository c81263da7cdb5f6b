/** Who owns which block. A slot is a place of an inode that can hold a block number: 0 to 11 the
    direct blocks, 12 the indirect block, 13 to 140 the entries of the indirect block. */
module Ownership {
  import opened FsLayout

  const SLOTS := 141

  /** The disk as the buffer cache shows it, the inode that the running process has locked, and
      those that others have locked; the copies in memory may be ahead of the disk. */
  datatype State = State(disk: seq<Block>, inum: nat, ip: Inode, others: map<nat, Inode>)

  type Owner = map<nat, (nat, nat)>

  ghost predicate Shape(sb: Super, s: State) {
    sb.Valid() && |s.disk| == sb.size && s.inum < sb.ninodes
  }

  function Node(sb: Super, s: State, i: nat): Inode
    requires Shape(sb, s) && i < sb.ninodes
  {
    if i == s.inum then s.ip else if i in s.others then s.others[i] else DInode(sb, s.disk, i)
  }

  /** What slot k of inode i holds; 0 for nothing. */
  function Slot(sb: Super, s: State, i: nat, k: nat): nat
    requires Shape(sb, s) && i < sb.ninodes && k < SLOTS
  {
    var a := Node(sb, s, i).addrs;
    if k <= NDIRECT then a[k]
    else if a[NDIRECT] == 0 || a[NDIRECT] >= sb.size then 0
    else Entry(s.disk[a[NDIRECT]], k - NDIRECT - 1)
  }

  // ---------------------------------------------------------------------------------------
  // The invariant
  // ---------------------------------------------------------------------------------------

  ghost predicate SlotOwned(sb: Super, s: State, owner: Owner, i: nat, k: nat)
    requires Shape(sb, s) && i < sb.ninodes && k < SLOTS
  {
    Slot(sb, s, i, k) != 0 ==> Slot(sb, s, i, k) in owner && owner[Slot(sb, s, i, k)] == (i, k)
  }

  ghost predicate BlockOwned(sb: Super, s: State, owner: Owner, b: nat)
    requires Shape(sb, s) && b in owner
  {
    && sb.DataStart() <= b < sb.size
    && owner[b].0 < sb.ninodes && owner[b].1 < SLOTS
    && Slot(sb, s, owner[b].0, owner[b].1) == b
  }

  /** Each block number stands in one slot only, which owner names; the blocks marked in the
      bitmap are the metadata, the owned ones and the spare ones, which balloc has handed out to
      some process and nobody points at yet. */
  ghost predicate Inv(sb: Super, s: State, owner: Owner, spare: set<nat>) {
    && Shape(sb, s)
    && (forall i, k | 0 <= i < sb.ninodes && 0 <= k < SLOTS :: SlotOwned(sb, s, owner, i, k))
    && (forall b | b in owner :: BlockOwned(sb, s, owner, b))
    && (forall b | b in spare :: sb.DataStart() <= b < sb.size && b !in owner)
    && (forall b | 0 <= b < sb.size ::
          Marked(sb, s.disk, b) <==> b < sb.DataStart() || b in owner || b in spare)
  }

  lemma InvShape(sb: Super, s: State, owner: Owner)
    requires Inv(sb, s, owner, {})
    ensures Shape(sb, s)
  {
  }

  /** No block is in two slots, every block in a slot is a marked data block, and every marked
      data block is in a slot or on its way into one. */
  lemma OwnedOnce(sb: Super, s: State, owner: Owner, spare: set<nat>, i: nat, k: nat)
    requires Inv(sb, s, owner, spare) && i < sb.ninodes && k < SLOTS
    ensures var b := Slot(sb, s, i, k);
            b != 0 ==>
              && sb.DataStart() <= b < sb.size && Marked(sb, s.disk, b)
              && forall j, l | 0 <= j < sb.ninodes && 0 <= l < SLOTS && Slot(sb, s, j, l) == b :: (j, l) == (i, k)
    ensures forall b | sb.DataStart() <= b < sb.size && Marked(sb, s.disk, b) && b !in spare ::
              exists j, l :: 0 <= j < sb.ninodes && 0 <= l < SLOTS && Slot(sb, s, j, l) == b
  {
    hide Marked, Slot;
    var b := Slot(sb, s, i, k);
    assert SlotOwned(sb, s, owner, i, k);
    forall j, l | 0 <= j < sb.ninodes && 0 <= l < SLOTS && b != 0 && Slot(sb, s, j, l) == b
      ensures (j, l) == (i, k)
    {
      assert SlotOwned(sb, s, owner, j, l);
    }
    forall c | sb.DataStart() <= c < sb.size && Marked(sb, s.disk, c) && c !in spare
      ensures exists j, l :: 0 <= j < sb.ninodes && 0 <= l < SLOTS && Slot(sb, s, j, l) == c
    {
      assert BlockOwned(sb, s, owner, c);
      assert Slot(sb, s, owner[c].0, owner[c].1) == c;
    }
  }

  /** A file system without files. */
  lemma EmptyInv(sb: Super, s: State)
    requires Shape(sb, s)
    requires forall i | 0 <= i < sb.ninodes :: Node(sb, s, i).addrs == seq(NDIRECT + 1, k => 0)
    requires forall b | 0 <= b < sb.size :: Marked(sb, s.disk, b) <==> b < sb.DataStart()
    ensures Inv(sb, s, map[], {})
  {
    hide Marked, Node;
  }

  // ---------------------------------------------------------------------------------------
  // When slots stay
  // ---------------------------------------------------------------------------------------

  /** Slots are kept when the inodes and the indirect blocks are. */
  lemma SlotsKept(sb: Super, s: State, s': State, owner: Owner, spare: set<nat>, i: nat)
    requires Inv(sb, s, owner, spare) && Shape(sb, s') && i < sb.ninodes
    requires Node(sb, s', i).addrs == Node(sb, s, i).addrs
    requires var a := Node(sb, s, i).addrs[NDIRECT];
             a in owner && owner[a] == (i, NDIRECT) && a < sb.size ==> s'.disk[a] == s.disk[a]
    ensures forall k | 0 <= k < SLOTS :: Slot(sb, s', i, k) == Slot(sb, s, i, k)
  {
    hide Node, Marked, Entry;
    assert SlotOwned(sb, s, owner, i, NDIRECT);
    assert Slot(sb, s, i, NDIRECT) == Node(sb, s, i).addrs[NDIRECT];
  }

  /** Changing no inode block changes no inode. */
  lemma NodesKept(sb: Super, s: State, s': State)
    requires Shape(sb, s) && Shape(sb, s') && s'.inum == s.inum && s'.others == s.others
    requires forall x | sb.inodestart <= x < sb.bmapstart :: s'.disk[x] == s.disk[x]
    ensures forall i | 0 <= i < sb.ninodes && i != s.inum :: Node(sb, s', i) == Node(sb, s, i)
    ensures forall i | 0 <= i < sb.ninodes :: DInode(sb, s'.disk, i) == DInode(sb, s.disk, i)
  {
    hide Decode;
    forall i | 0 <= i < sb.ninodes ensures DInode(sb, s'.disk, i) == DInode(sb, s.disk, i) {
      assert sb.inodestart <= IBlock(sb, i) < sb.bmapstart;
    }
  }

  /** Changing no bitmap block changes no mark. */
  lemma MarksKept(sb: Super, d: seq<Block>, d': seq<Block>)
    requires sb.Valid() && |d| == |d'| == sb.size
    requires forall x | sb.bmapstart <= x < sb.DataStart() :: d'[x] == d[x]
    ensures forall b | 0 <= b < sb.size :: Marked(sb, d', b) == Marked(sb, d, b)
  {
    hide BitOf;
    forall b | 0 <= b < sb.size ensures Marked(sb, d', b) == Marked(sb, d, b) {
      assert sb.bmapstart <= BBlock(sb, b) < sb.DataStart();
    }
  }

  /** Slots that stay keep their owner. */
  lemma SameOwner(sb: Super, s: State, s': State, owner: Owner, spare: set<nat>)
    requires Inv(sb, s, owner, spare) && Shape(sb, s')
    requires forall i, k | 0 <= i < sb.ninodes && 0 <= k < SLOTS :: Slot(sb, s', i, k) == Slot(sb, s, i, k)
    ensures forall i, k | 0 <= i < sb.ninodes && 0 <= k < SLOTS :: SlotOwned(sb, s', owner, i, k)
    ensures forall b | b in owner :: BlockOwned(sb, s', owner, b)
  {
    hide Slot, Marked;
    forall i, k | 0 <= i < sb.ninodes && 0 <= k < SLOTS ensures SlotOwned(sb, s', owner, i, k) {
      assert SlotOwned(sb, s, owner, i, k);
    }
    forall b | b in owner ensures BlockOwned(sb, s', owner, b) {
      assert BlockOwned(sb, s, owner, b);
    }
  }

  // ---------------------------------------------------------------------------------------
  // The steps
  // ---------------------------------------------------------------------------------------

  /** balloc: mark b and zero it. */
  ghost predicate Allocated(sb: Super, d: seq<Block>, b: nat, d': seq<Block>)
    requires sb.Valid() && |d| == sb.size
  {
    && |d'| == sb.size && b < sb.size
    && !Marked(sb, d, b)
    && (forall x | 0 <= x < sb.size :: Marked(sb, d', x) <==> Marked(sb, d, x) || x == b)
    && IsZero(d'[b])
    && (forall x | 0 <= x < sb.size && x != b && !sb.IsBitmap(x) :: d'[x] == d[x])
  }

  /** Every slot but (i, k) holds what it held. */
  ghost predicate SlotsBut(sb: Super, s: State, s': State, i: nat, k: nat) {
    && Shape(sb, s) && Shape(sb, s')
    && (forall j, l | 0 <= j < sb.ninodes && 0 <= l < SLOTS && !(j == i && l == k) ::
          Slot(sb, s', j, l) == Slot(sb, s, j, l))
  }

  lemma AllocKeeps(sb: Super, s: State, owner: Owner, spare: set<nat>, b: nat, s': State)
    requires Inv(sb, s, owner, spare) && Allocated(sb, s.disk, b, s'.disk)
    requires s' == s.(disk := s'.disk)
    ensures Inv(sb, s', owner, spare + {b}) && sb.DataStart() <= b && b !in spare
    ensures forall i, k | 0 <= i < sb.ninodes && 0 <= k < SLOTS :: Slot(sb, s', i, k) == Slot(sb, s, i, k)
    ensures forall i | 0 <= i < sb.ninodes :: DInode(sb, s'.disk, i) == DInode(sb, s.disk, i)
  {
    hide Marked, Slot, DInode;
    assert sb.DataStart() <= b && b !in owner;
    NodesKept(sb, s, s');
    forall i, k | 0 <= i < sb.ninodes && 0 <= k < SLOTS
      ensures Slot(sb, s', i, k) == Slot(sb, s, i, k)
    {
      var a := Node(sb, s, i).addrs[NDIRECT];
      assert a in owner ==> BlockOwned(sb, s, owner, a);
      SlotsKept(sb, s, s', owner, spare, i);
    }
    SameOwner(sb, s, s', owner, spare);
  }

  /** A spare block gets an owner when one empty slot takes it and the rest stays. */
  lemma NewOwner(sb: Super, s: State, s': State, owner: Owner, spare: set<nat>, b: nat, i: nat, k: nat)
    requires Inv(sb, s, owner, spare) && b in spare && SlotsBut(sb, s, s', i, k) && i < sb.ninodes && k < SLOTS
    requires Slot(sb, s, i, k) == 0 && Slot(sb, s', i, k) == b
    requires forall x | 0 <= x < sb.size :: Marked(sb, s'.disk, x) == Marked(sb, s.disk, x)
    ensures Inv(sb, s', owner[b := (i, k)], spare - {b})
  {
    hide Slot, Marked;
    var owner' := owner[b := (i, k)];
    forall j, l | 0 <= j < sb.ninodes && 0 <= l < SLOTS ensures SlotOwned(sb, s', owner', j, l) {
      assert SlotOwned(sb, s, owner, j, l);
    }
    forall c | c in owner' ensures BlockOwned(sb, s', owner', c) {
      assert c != b ==> BlockOwned(sb, s, owner, c);
    }
  }

  /** bmap stores the new block in ip->addrs[k]; a new indirect block is all zeros. */
  lemma AttachDirect(sb: Super, s: State, owner: Owner, spare: set<nat>, b: Uint, k: nat, s': State)
    requires Inv(sb, s, owner, spare) && b in spare && k <= NDIRECT && s.ip.addrs[k] == 0
    requires k == NDIRECT ==> b < |s.disk| && IsZero(s.disk[b])
    requires s' == s.(ip := s.ip.(addrs := s.ip.addrs[k := b]))
    ensures Inv(sb, s', owner[b := (s.inum, k)], spare - {b})
    ensures SlotsBut(sb, s, s', s.inum, k) && Slot(sb, s', s.inum, k) == b
  {
    hide Marked, DInode;
    NewOwner(sb, s, s', owner, spare, b, s.inum, k);
  }

  /** bmap stores the new block in entry j of the indirect block. */
  ghost predicate PutInEntry(sb: Super, s: State, b: Uint, j: nat, s': State) {
    var a := s.ip.addrs[NDIRECT];
    && j < NINDIRECT && 0 < a < sb.size == |s.disk|
    && s' == s.(disk := s.disk[a := PutEntry(s.disk[a], j, b)])
  }

  lemma EntrySlots(sb: Super, s: State, owner: Owner, spare: set<nat>, b: Uint, j: nat, s': State, i: nat, l: nat)
    requires Inv(sb, s, owner, spare) && b in spare && PutInEntry(sb, s, b, j, s') && i < sb.ninodes && l < SLOTS
    requires forall i | 0 <= i < sb.ninodes && i != s.inum :: Node(sb, s', i) == Node(sb, s, i)
    ensures Slot(sb, s', i, l) == if i == s.inum && l == NDIRECT + 1 + j then b else Slot(sb, s, i, l)
  {
    hide Marked, Entry, PutEntry, DInode;
    var a := s.ip.addrs[NDIRECT];
    if i != s.inum {
      assert SlotOwned(sb, s, owner, s.inum, NDIRECT);
      SlotsKept(sb, s, s', owner, spare, i);
    } else if l > NDIRECT {
      EntryPut(s.disk[a], j, b, l - NDIRECT - 1);
    }
  }

  /** The indirect block of the locked inode is an owned data block, and its entries are slots. */
  lemma OwnIndirect(sb: Super, s: State, owner: Owner, spare: set<nat>, j: nat)
    requires Inv(sb, s, owner, spare) && j < NINDIRECT && 0 < s.ip.addrs[NDIRECT] < sb.size
    ensures var a := s.ip.addrs[NDIRECT];
            && a in owner && sb.DataStart() <= a && Slot(sb, s, s.inum, NDIRECT) == a
            && Slot(sb, s, s.inum, NDIRECT + 1 + j) == Entry(s.disk[a], j)
  {
    hide Marked, Entry, DInode;
    assert SlotOwned(sb, s, owner, s.inum, NDIRECT) && BlockOwned(sb, s, owner, s.ip.addrs[NDIRECT]);
  }

  lemma AttachEntry(sb: Super, s: State, owner: Owner, spare: set<nat>, b: Uint, j: nat, s': State)
    requires Inv(sb, s, owner, spare) && b in spare && PutInEntry(sb, s, b, j, s')
    requires Entry(s.disk[s.ip.addrs[NDIRECT]], j) == 0
    ensures Inv(sb, s', owner[b := (s.inum, NDIRECT + 1 + j)], spare - {b})
    ensures SlotsBut(sb, s, s', s.inum, NDIRECT + 1 + j) && Slot(sb, s', s.inum, NDIRECT + 1 + j) == b
    ensures forall i | 0 <= i < sb.ninodes :: DInode(sb, s'.disk, i) == DInode(sb, s.disk, i)
  {
    hide Marked, Entry, PutEntry, DInode, Slot;
    var a := s.ip.addrs[NDIRECT];
    OwnIndirect(sb, s, owner, spare, j);
    MarksKept(sb, s.disk, s'.disk);
    NodesKept(sb, s, s');
    forall i, l | 0 <= i < sb.ninodes && 0 <= l < SLOTS
      ensures Slot(sb, s', i, l) == if i == s.inum && l == NDIRECT + 1 + j then b else Slot(sb, s, i, l)
    {
      EntrySlots(sb, s, owner, spare, b, j, s', i, l);
    }
    NewOwner(sb, s, s', owner, spare, b, s.inum, NDIRECT + 1 + j);
  }

  /** The contents of a block in a data slot are nobody else's. */
  lemma StoreKeeps(sb: Super, s: State, owner: Owner, spare: set<nat>, k: nat, blk: Block, s': State)
    requires Inv(sb, s, owner, spare) && k < SLOTS && k != NDIRECT
    requires var a := Slot(sb, s, s.inum, k);
             a != 0 && a < sb.size && s' == s.(disk := s.disk[a := blk])
    ensures Inv(sb, s', owner, spare)
    ensures forall i, l | 0 <= i < sb.ninodes && 0 <= l < SLOTS :: Slot(sb, s', i, l) == Slot(sb, s, i, l)
    ensures forall i | 0 <= i < sb.ninodes :: DInode(sb, s'.disk, i) == DInode(sb, s.disk, i)
  {
    hide Marked, DInode, Slot;
    var a := Slot(sb, s, s.inum, k);
    assert SlotOwned(sb, s, owner, s.inum, k) && BlockOwned(sb, s, owner, a);
    MarksKept(sb, s.disk, s'.disk);
    NodesKept(sb, s, s');
    forall i, l | 0 <= i < sb.ninodes && 0 <= l < SLOTS ensures Slot(sb, s', i, l) == Slot(sb, s, i, l) {
      SlotsKept(sb, s, s', owner, spare, i);
    }
    SameOwner(sb, s, s', owner, spare);
  }

  /** iupdate changes what the disk says of the locked inode and nothing else. */
  lemma UpdateKeeps(sb: Super, s: State, owner: Owner, spare: set<nat>, s': State)
    requires Inv(sb, s, owner, spare)
    requires var ib := IBlock(sb, s.inum);
             s' == s.(disk := s.disk[ib := PutInode(s.disk[ib], s.inum, s.ip)])
    ensures Inv(sb, s', owner, spare)
    ensures forall i | 0 <= i < sb.ninodes :: DInode(sb, s'.disk, i) == if i == s.inum then s.ip
            else DInode(sb, s.disk, i)
    ensures forall i, l | 0 <= i < sb.ninodes && 0 <= l < SLOTS :: Slot(sb, s', i, l) == Slot(sb, s, i, l)
    ensures forall i | 0 <= i < sb.ninodes :: Node(sb, s', i) == Node(sb, s, i)
  {
    hide Marked, DInode, Slot, PutInode;
    forall i | 0 <= i < sb.ninodes
      ensures DInode(sb, s'.disk, i) == if i == s.inum then s.ip else DInode(sb, s.disk, i)
    {
      InodePut(sb, s.disk, s.inum, s.ip, i);
    }
    MarksKept(sb, s.disk, s'.disk);
    forall i, l | 0 <= i < sb.ninodes && 0 <= l < SLOTS ensures Slot(sb, s', i, l) == Slot(sb, s, i, l) {
      var a := Node(sb, s, i).addrs[NDIRECT];
      assert a in owner ==> BlockOwned(sb, s, owner, a);
      SlotsKept(sb, s, s', owner, spare, i);
    }
    SameOwner(sb, s, s', owner, spare);
  }

  /** ilock of another inode, once the locked one is on disk. */
  lemma LockKeeps(sb: Super, s: State, owner: Owner, spare: set<nat>, i: nat, s': State)
    requires Inv(sb, s, owner, spare) && DInode(sb, s.disk, s.inum) == s.ip && i < sb.ninodes
    requires s.inum !in s.others && i !in s.others && s' == s.(inum := i, ip := DInode(sb, s.disk, i))
    ensures Inv(sb, s', owner, spare)
    ensures forall j | 0 <= j < sb.ninodes :: Node(sb, s', j) == Node(sb, s, j)
  {
    hide Marked, DInode;
    SameNodes(sb, s, s', owner, spare);
  }

  /** Nothing but the place where the copies in memory are kept has changed. */
  lemma SameNodes(sb: Super, s: State, s': State, owner: Owner, spare: set<nat>)
    requires Inv(sb, s, owner, spare) && Shape(sb, s') && s'.disk == s.disk
    requires forall j | 0 <= j < sb.ninodes :: Node(sb, s', j) == Node(sb, s, j)
    ensures Inv(sb, s', owner, spare)
  {
    hide Marked, Node, Entry;
    forall i, k | 0 <= i < sb.ninodes && 0 <= k < SLOTS ensures Slot(sb, s', i, k) == Slot(sb, s, i, k) {
    }
    hide Slot;
    SameOwner(sb, s, s', owner, spare);
  }

  /** What freeing b does. */
  ghost predicate Freed(sb: Super, d: seq<Block>, b: nat, d': seq<Block>)
    requires sb.Valid() && |d| == sb.size
  {
    && |d'| == sb.size
    && (forall x | 0 <= x < sb.size :: Marked(sb, d', x) <==> Marked(sb, d, x) && x != b)
    && (forall x | 0 <= x < sb.size && !sb.IsBitmap(x) :: d'[x] == d[x])
  }

  /** A block whose mark goes and whose slot is cleared has no owner any more. */
  lemma DropOwner(sb: Super, s: State, s': State, owner: Owner, spare: set<nat>, i: nat, k: nat)
    requires Inv(sb, s, owner, spare) && SlotsBut(sb, s, s', i, k) && i < sb.ninodes && k < SLOTS
    requires Slot(sb, s, i, k) != 0 && Slot(sb, s', i, k) == 0
    requires forall x | 0 <= x < sb.size :: Marked(sb, s'.disk, x) <==> Marked(sb, s.disk, x) && x != Slot(sb, s, i, k)
    ensures Inv(sb, s', owner - {Slot(sb, s, i, k)}, spare)
  {
    hide Slot, Marked;
    var b := Slot(sb, s, i, k);
    var owner' := owner - {b};
    assert SlotOwned(sb, s, owner, i, k) && BlockOwned(sb, s, owner, b);
    forall j, l | 0 <= j < sb.ninodes && 0 <= l < SLOTS ensures SlotOwned(sb, s', owner', j, l) {
      assert SlotOwned(sb, s, owner, j, l);
    }
    forall c | c in owner' ensures BlockOwned(sb, s', owner', c) {
      assert BlockOwned(sb, s, owner, c);
    }
  }

  /** itrunc gives up addrs[k]; the entries of an indirect block have gone before it. */
  lemma DetachDirect(sb: Super, s: State, owner: Owner, spare: set<nat>, k: nat, s': State)
    requires Inv(sb, s, owner, spare) && k <= NDIRECT && s.ip.addrs[k] != 0
    requires k == NDIRECT ==> forall l | NDIRECT < l < SLOTS :: Slot(sb, s, s.inum, l) == 0
    requires Freed(sb, s.disk, s.ip.addrs[k], s'.disk)
    requires s' == s.(disk := s'.disk, ip := s.ip.(addrs := s.ip.addrs[k := 0]))
    ensures Inv(sb, s', owner - {s.ip.addrs[k] as nat}, spare)
    ensures forall i | 0 <= i < sb.ninodes :: DInode(sb, s'.disk, i) == DInode(sb, s.disk, i)
  {
    hide Marked, DInode, Entry;
    assert Slot(sb, s, s.inum, k) == s.ip.addrs[k];
    var s1 := s.(disk := s'.disk);
    NodesKept(sb, s, s1);
    forall j, l | 0 <= j < sb.ninodes && 0 <= l < SLOTS ensures Slot(sb, s1, j, l) == Slot(sb, s, j, l) {
      KeptByFree(sb, s, s1, owner, spare, j);
    }
    assert SlotsBut(sb, s, s', s.inum, k);
    DropOwner(sb, s, s', owner, spare, s.inum, k);
  }

  /** Clearing a mark moves no slot. */
  lemma KeptByFree(sb: Super, s: State, s': State, owner: Owner, spare: set<nat>, i: nat)
    requires Inv(sb, s, owner, spare) && Shape(sb, s') && s' == s.(disk := s'.disk) && i < sb.ninodes
    requires forall x | 0 <= x < sb.size && !sb.IsBitmap(x) :: s'.disk[x] == s.disk[x]
    requires forall j | 0 <= j < sb.ninodes :: DInode(sb, s'.disk, j) == DInode(sb, s.disk, j)
    ensures forall k | 0 <= k < SLOTS :: Slot(sb, s', i, k) == Slot(sb, s, i, k)
  {
    hide Marked, DInode, Slot;
    var a := Node(sb, s, i).addrs[NDIRECT];
    assert a in owner ==> BlockOwned(sb, s, owner, a);
    SlotsKept(sb, s, s', owner, spare, i);
  }

  /** itrunc gives up entry j of the indirect block. */
  lemma DetachEntry(sb: Super, s: State, owner: Owner, spare: set<nat>, j: nat, d: seq<Block>, s': State)
    requires Inv(sb, s, owner, spare) && j < NINDIRECT && 0 < s.ip.addrs[NDIRECT] < sb.size
    requires Entry(s.disk[s.ip.addrs[NDIRECT]], j) != 0
    requires Freed(sb, s.disk, Entry(s.disk[s.ip.addrs[NDIRECT]], j), d)
    requires var a := s.ip.addrs[NDIRECT]; s' == s.(disk := d[a := PutEntry(d[a], j, 0)])
    ensures Inv(sb, s', owner - {Entry(s.disk[s.ip.addrs[NDIRECT]], j) as nat}, spare)
    ensures forall i | 0 <= i < sb.ninodes :: DInode(sb, s'.disk, i) == DInode(sb, s.disk, i)
  {
    hide Marked, Entry, PutEntry, DInode, Slot;
    var a, s1 := s.ip.addrs[NDIRECT], s.(disk := d);
    OwnIndirect(sb, s, owner, spare, j);
    NodesKept(sb, s, s1);
    NodesKept(sb, s1, s');
    MarksKept(sb, d, s'.disk);
    forall i, l | 0 <= i < sb.ninodes && 0 <= l < SLOTS
      ensures Slot(sb, s', i, l) == if i == s.inum && l == NDIRECT + 1 + j then 0 else Slot(sb, s, i, l)
    {
      KeptByFree(sb, s, s1, owner, spare, i);
      EntryCleared(sb, s, s1, owner, spare, j, s', i, l);
    }
    DropOwner(sb, s, s', owner, spare, s.inum, NDIRECT + 1 + j);
  }

  lemma EntryCleared(sb: Super, s: State, s1: State, owner: Owner, spare: set<nat>, j: nat, s': State, i: nat, l: nat)
    requires Inv(sb, s, owner, spare) && Shape(sb, s1) && s1 == s.(disk := s1.disk) && i < sb.ninodes && l < SLOTS
    requires forall k | 0 <= k < SLOTS :: Slot(sb, s1, i, k) == Slot(sb, s, i, k)
    requires j < NINDIRECT && 0 < s.ip.addrs[NDIRECT] < sb.size
    requires var a := s.ip.addrs[NDIRECT]; s' == s.(disk := s1.disk[a := PutEntry(s1.disk[a], j, 0)])
    requires forall i | 0 <= i < sb.ninodes && i != s.inum :: Node(sb, s', i) == Node(sb, s1, i) == Node(sb, s, i)
    ensures Slot(sb, s', i, l) == if i == s.inum && l == NDIRECT + 1 + j then 0 else Slot(sb, s, i, l)
  {
    hide Marked, Entry, PutEntry, DInode;
    var a := s.ip.addrs[NDIRECT];
    if i != s.inum {
      assert SlotOwned(sb, s, owner, s.inum, NDIRECT) && SlotOwned(sb, s, owner, i, NDIRECT);
      assert Slot(sb, s, s.inum, NDIRECT) == a;
    } else if l > NDIRECT {
      EntryPut(s1.disk[a], j, 0, l - NDIRECT - 1);
    }
  }

  /** itrunc: the locked inode points at nothing, and exactly the marks of its blocks are gone. */
  ghost predicate Truncated(sb: Super, s: State, s': State)
    requires Shape(sb, s)
  {
    && Shape(sb, s') && s'.inum == s.inum && s'.others == s.others
    && (forall k | 0 <= k <= NDIRECT :: s'.ip.addrs[k] == 0)
    && (forall x | 0 <= x < sb.size :: Marked(sb, s'.disk, x) <==> Marked(sb, s.disk, x) && !InSlot(sb, s, x, SLOTS))
    && (forall x | 0 <= x < sb.size && !sb.IsBitmap(x) :: s'.disk[x] == s.disk[x])
  }

  /** The slots in the order in which itrunc frees them: the indirect block goes last. */
  function Nth(p: nat): nat {
    if p < NDIRECT then p else if p < SLOTS - 1 then p + 1 else NDIRECT
  }

  /** Block b is in one of the first n slots of the locked inode. */
  ghost predicate InSlot(sb: Super, s: State, b: nat, n: nat)
    requires Shape(sb, s) && n <= SLOTS
  {
    b != 0 && exists p :: 0 <= p < n && Slot(sb, s, s.inum, Nth(p)) == b
  }

  /** The block in the next slot is marked and has not been freed: "freeing free block" cannot happen. */
  lemma NextIsMarked(sb: Super, s: State, owner: Owner, spare: set<nat>, p: nat)
    requires Inv(sb, s, owner, spare) && p < SLOTS
    ensures var b := Slot(sb, s, s.inum, Nth(p));
            b != 0 ==> b < sb.size && Marked(sb, s.disk, b) && !InSlot(sb, s, b, p)
    ensures forall x | 0 <= x < sb.size ::
              InSlot(sb, s, x, p + 1) <==> InSlot(sb, s, x, p) || (x != 0 && x == Slot(sb, s, s.inum, Nth(p)))
  {
    hide Marked, Slot;
    var b := Slot(sb, s, s.inum, Nth(p));
    assert SlotOwned(sb, s, owner, s.inum, Nth(p));
    assert b != 0 ==> BlockOwned(sb, s, owner, b);
    forall q | 0 <= q < p ensures b != 0 ==> Slot(sb, s, s.inum, Nth(q)) != b {
      assert SlotOwned(sb, s, owner, s.inum, Nth(q));
    }
  }

  ghost function Without(owner: Owner, i: nat): Owner {
    map b | b in owner && owner[b].0 != i :: owner[b]
  }

  lemma TruncKeeps(sb: Super, s: State, owner: Owner, spare: set<nat>, s': State)
    requires Inv(sb, s, owner, spare) && Truncated(sb, s, s')
    ensures Inv(sb, s', Without(owner, s.inum), spare)
    ensures forall i, l | 0 <= i < sb.ninodes && 0 <= l < SLOTS ::
              Slot(sb, s', i, l) == if i == s.inum then 0 else Slot(sb, s, i, l)
  {
    hide Marked, DInode;
    var owner' := Without(owner, s.inum);
    NodesKept(sb, s, s');
    forall i, l | 0 <= i < sb.ninodes && 0 <= l < SLOTS
      ensures Slot(sb, s', i, l) == if i == s.inum then 0 else Slot(sb, s, i, l)
    {
      if i != s.inum {
        var a := Node(sb, s, i).addrs[NDIRECT];
        assert a in owner ==> BlockOwned(sb, s, owner, a);
        SlotsKept(sb, s, s', owner, spare, i);
      }
    }
    TruncOwner(sb, s, owner, spare, s');
  }

  lemma TruncOwner(sb: Super, s: State, owner: Owner, spare: set<nat>, s': State)
    requires Inv(sb, s, owner, spare) && Truncated(sb, s, s')
    requires forall i, l | 0 <= i < sb.ninodes && 0 <= l < SLOTS ::
               Slot(sb, s', i, l) == if i == s.inum then 0 else Slot(sb, s, i, l)
    ensures Inv(sb, s', Without(owner, s.inum), spare)
  {
    hide Marked, Slot;
    var owner' := Without(owner, s.inum);
    forall i, l | 0 <= i < sb.ninodes && 0 <= l < SLOTS ensures SlotOwned(sb, s', owner', i, l) {
      assert SlotOwned(sb, s, owner, i, l);
    }
    forall b | b in owner' ensures BlockOwned(sb, s', owner', b) {
      assert BlockOwned(sb, s, owner, b);
    }
    forall b | 0 <= b < sb.size
      ensures Marked(sb, s'.disk, b) <==> b < sb.DataStart() || b in owner' || b in spare
    {
      if b in owner && owner[b].0 == s.inum {
        assert BlockOwned(sb, s, owner, b);
        var k := owner[b].1;
        var p := if k < NDIRECT then k else if k == NDIRECT then SLOTS - 1 else k - 1;
        assert Slot(sb, s, s.inum, Nth(p)) == b;
      }
      assert b in owner ==> BlockOwned(sb, s, owner, b);
      if InSlot(sb, s, b, SLOTS) {
        var p: nat :| p < SLOTS && Slot(sb, s, s.inum, Nth(p)) == b;
        assert SlotOwned(sb, s, owner, s.inum, Nth(p));
      }
    }
  }
}

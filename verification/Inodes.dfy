/** Who owns which block while any number of processes work on inodes of their own. The inodes in the cache
    have copies in memory that may be ahead of the disk, and between balloc and the store of its
    result the holder of an inode has a block that nobody points at yet. The steps of balloc,
    bmap, writei, iupdate and itrunc (xv6/fs.c) interleave freely, and when the last reference to an
    inode has gone, the cache forgets its copy, whatever is in it. */
module Inodes {
  import opened FsLayout
  import opened Ownership

  /** The disk as the buffer cache shows it, the inodes in the inode cache, the block that balloc has
      given to the holder of an inode, and the owner of each block. */
  datatype Sys = Sys(disk: seq<Block>, cached: map<nat, Inode>, spare: map<nat, nat>, owner: Owner)

  /** Steps of the process that has inode i locked, but for Forget. itrunc leaves the entries of an indirect
      block as they are and frees the block last; here FreeEntry clears each, in a block that nobody
      else reads. */
  datatype Step =
    | Load(i: nat)                               // ilock of an inode that has not been read
    | Forget(i: nat)                             // the last iput: the next iget reads the disk
    | Alloc(i: nat, b: nat, disk: seq<Block>)    // balloc
    | Direct(i: nat, k: nat)                     // bmap: the block goes into ip->addrs[k]
    | Indirect(i: nat, j: nat)                   // bmap: the block goes into entry j of the indirect block
    | Store(i: nat, k: nat, blk: Block)          // writei: the data block in slot k
    | Update(i: nat, ip: Inode)                  // size and the like, and iupdate
    | FreeDirect(i: nat, k: nat, disk: seq<Block>)     // itrunc: bfree of addrs[k]
    | FreeEntry(i: nat, j: nat, disk: seq<Block>)      // itrunc: bfree of entry j

  /** The state as the holder of inode i sees it. */
  function View(sb: Super, s: Sys, i: nat): State
    requires sb.Valid() && |s.disk| == sb.size && i < sb.ninodes
  {
    State(s.disk, i, if i in s.cached then s.cached[i] else DInode(sb, s.disk, i), s.cached - {i})
  }

  ghost predicate Inv(sb: Super, s: Sys) {
    && sb.Valid() && |s.disk| == sb.size
    && (forall i | i in s.cached :: i < sb.ninodes)
    && Spares(sb, s)
    && (forall i | 0 <= i < sb.ninodes :: Owned(sb, s, i))
  }

  /** Each spare block is zero and given to one holder. */
  ghost predicate Spares(sb: Super, s: Sys)
    requires |s.disk| == sb.size
  {
    && (forall i | i in s.spare :: i in s.cached && 0 < s.spare[i] < sb.size && IsZero(s.disk[s.spare[i]]))
    && (forall i, j | i in s.spare && j in s.spare && i != j :: s.spare[i] != s.spare[j])
  }

  ghost predicate Owned(sb: Super, s: Sys, i: nat)
    requires sb.Valid() && |s.disk| == sb.size && i < sb.ninodes
  {
    Ownership.Inv(sb, View(sb, s, i), s.owner, s.spare.Values)
  }

  lemma ViewNodes(sb: Super, s: Sys, i: nat, j: nat)
    requires sb.Valid() && |s.disk| == sb.size && i < sb.ninodes && j < sb.ninodes
    ensures Shape(sb, View(sb, s, i)) && Shape(sb, View(sb, s, j))
            && View(sb, s, i).disk == View(sb, s, j).disk == s.disk
    ensures forall l | 0 <= l < sb.ninodes :: Node(sb, View(sb, s, i), l) == Node(sb, View(sb, s, j), l)
  {
    hide DInode;
  }

  /** It is enough to know the ownership from one inode. */
  lemma OneView(sb: Super, s: Sys, i: nat)
    requires sb.Valid() && |s.disk| == sb.size && i < sb.ninodes && Owned(sb, s, i)
    ensures forall j | 0 <= j < sb.ninodes :: Owned(sb, s, j)
  {
    hide View, Ownership.Inv, Node;
    forall j | 0 <= j < sb.ninodes ensures Owned(sb, s, j) {
      ViewNodes(sb, s, i, j);
      SameNodes(sb, View(sb, s, i), View(sb, s, j), s.owner, s.spare.Values);
    }
  }

  // ---------------------------------------------------------------------------------------
  // The steps
  // ---------------------------------------------------------------------------------------

  ghost predicate Next(sb: Super, s: Sys, step: Step, s': Sys) {
    && sb.Valid() && |s.disk| == sb.size && step.i < sb.ninodes
    && if step.Load? then step.i !in s.cached && s' == s.(cached := s.cached[step.i := DInode(sb, s.disk, step.i)])
       else step.i in s.cached && Holds(sb, s, step, s')
  }

  /** A step of the holder of inode step.i. */
  ghost predicate Holds(sb: Super, s: Sys, step: Step, s': Sys)
    requires sb.Valid() && |s.disk| == sb.size && step.i < sb.ninodes && step.i in s.cached
  {
    var ip := s.cached[step.i];
    var a := ip.addrs[NDIRECT];
    match step
    case Load(i) => false
    case Forget(i) => i !in s.spare && s' == s.(cached := s.cached - {i})
    case Alloc(i, b, d) =>
      i !in s.spare && Allocated(sb, s.disk, b, d) && s' == s.(disk := d, spare := s.spare[i := b])
    case Direct(i, k) =>
      && i in s.spare && s.spare[i] < sb.size && k <= NDIRECT && ip.addrs[k] == 0
      && s' == Sys(s.disk, s.cached[i := ip.(addrs := ip.addrs[k := s.spare[i]])], s.spare - {i},
          s.owner[s.spare[i] := (i, k)])
    case Indirect(i, j) =>
      && i in s.spare && s.spare[i] < sb.size && j < NINDIRECT && 0 < a < sb.size && Entry(s.disk[a], j) == 0
      && s' == Sys(s.disk[a := PutEntry(s.disk[a], j, s.spare[i])], s.cached, s.spare - {i},
                   s.owner[s.spare[i] := (i, NDIRECT + 1 + j)])
    case Store(i, k, blk) =>
      && k < SLOTS && k != NDIRECT && 0 < Slot(sb, View(sb, s, i), i, k) < sb.size
      && s' == s.(disk := s.disk[Slot(sb, View(sb, s, i), i, k) := blk])
    case Update(i, ip') =>
      var ib := IBlock(sb, i);
      && ip'.addrs == ip.addrs
      && s' == s.(disk := s.disk[ib := PutInode(s.disk[ib], i, ip')], cached := s.cached[i := ip'])
    case FreeDirect(i, k, d) =>
      && k <= NDIRECT && ip.addrs[k] != 0 && Freed(sb, s.disk, ip.addrs[k], d)
      && (k == NDIRECT ==> forall l | NDIRECT < l < SLOTS :: Slot(sb, View(sb, s, i), i, l) == 0)
      && s' == s.(disk := d, cached := s.cached[i := ip.(addrs := ip.addrs[k := 0])],
          owner := s.owner - {ip.addrs[k] as nat})
    case FreeEntry(i, j, d) =>
      && j < NINDIRECT && 0 < a < sb.size && Entry(s.disk[a], j) != 0 && Freed(sb, s.disk, Entry(s.disk[a], j), d)
      && s' == s.(disk := d[a := PutEntry(d[a], j, 0)], owner := s.owner - {Entry(s.disk[a], j) as nat})
  }

  // ---------------------------------------------------------------------------------------
  // Every step keeps the invariant
  // ---------------------------------------------------------------------------------------

  /** What a step of the holder of inode i has to keep. */
  ghost predicate Kept(sb: Super, s: Sys, i: nat) {
    && sb.Valid() && |s.disk| == sb.size && i < sb.ninodes
    && (forall j | j in s.cached :: j < sb.ninodes) && Spares(sb, s)
    && Ownership.Inv(sb, View(sb, s, i), s.owner, s.spare.Values)
  }

  lemma InvFrom(sb: Super, s: Sys, i: nat)
    requires Inv(sb, s) && i < sb.ninodes
    ensures Kept(sb, s, i)
  {
    assert Owned(sb, s, i);
  }

  lemma SparePositive(sb: Super, s: Sys, i: nat)
    requires Inv(sb, s) && i in s.spare
    ensures 0 < s.spare[i] < sb.size
  {
  }

  lemma OwnedFrom(sb: Super, s: Sys, i: nat)
    requires Inv(sb, s) && i < sb.ninodes
    ensures Ownership.Inv(sb, View(sb, s, i), s.owner, s.spare.Values)
  {
    assert Owned(sb, s, i);
  }

  lemma OwnedNotSpare(sb: Super, s: Sys, i: nat, b: nat)
    requires Inv(sb, s) && i < sb.ninodes && b in s.owner
    ensures b !in s.spare.Values
  {
    assert Owned(sb, s, i);
  }

  lemma MarkedBelow(sb: Super, s: Sys, i: nat, b: nat)
    requires Inv(sb, s) && i < sb.ninodes && b < sb.size && !Marked(sb, s.disk, b)
    ensures sb.DataStart() <= b
  {
    assert Owned(sb, s, i);
  }

  lemma InvSize(sb: Super, s: Sys)
    requires Inv(sb, s)
    ensures sb.Valid() && |s.disk| == sb.size
  {
  }

  lemma InvTo(sb: Super, s: Sys, i: nat)
    requires Kept(sb, s, i)
    ensures Inv(sb, s)
  {
    hide Ownership.Inv, View;
    assert Owned(sb, s, i);
    OneView(sb, s, i);
  }

  /** The indirect block of a locked inode is a block with an owner. */
  lemma IndirectOwned(sb: Super, s: Sys, i: nat)
    requires Kept(sb, s, i) && i in s.cached && s.cached[i].addrs[NDIRECT] != 0
    ensures s.cached[i].addrs[NDIRECT] in s.owner
  {
    var v := View(sb, s, i);
    assert SlotOwned(sb, v, s.owner, i, NDIRECT) && Slot(sb, v, i, NDIRECT) == s.cached[i].addrs[NDIRECT];
  }

  lemma LoadKept(sb: Super, s: Sys, i: nat, s': Sys)
    requires Kept(sb, s, i) && Next(sb, s, Load(i), s')
    ensures Kept(sb, s', i)
  {
    hide Ownership.Inv, DInode;
    assert s'.cached - {i} == s.cached - {i};
    assert View(sb, s', i) == View(sb, s, i);
  }

  /** Forgetting an inode whose blocks are ahead of the disk. */
  ghost predicate Loses(sb: Super, s: Sys, step: Step) {
    && step.Forget? && sb.Valid() && |s.disk| == sb.size && step.i < sb.ninodes
    && step.i in s.cached && s.cached[step.i].addrs != DInode(sb, s.disk, step.i).addrs
  }

  lemma ForgetKept(sb: Super, s: Sys, i: nat, s': Sys)
    requires Kept(sb, s, i) && Next(sb, s, Forget(i), s') && !Loses(sb, s, Forget(i))
    ensures Kept(sb, s', i)
  {
    hide Ownership.Inv, DInode;
    var v, ip := View(sb, s, i), DInode(sb, s.disk, i);
    RefieldKeeps(sb, v, s.owner, s.spare.Values, ip);
    assert s'.cached - {i} == s.cached - {i};
    assert View(sb, s', i) == v.(ip := ip);
  }

  /** The slot that differs has lost its block, or has one that is not its own. */
  lemma ForgetLoses(sb: Super, s: Sys, i: nat, s': Sys)
    requires Kept(sb, s, i) && Next(sb, s, Forget(i), s') && Loses(sb, s, Forget(i))
    ensures !Kept(sb, s', i)
  {
    hide DInode, Marked;
    var v, v', a, a' := View(sb, s, i), View(sb, s', i), s.cached[i].addrs, DInode(sb, s.disk, i).addrs;
    var k :| 0 <= k <= NDIRECT && a[k] != a'[k];
    var b := if a[k] != 0 then a[k] else a'[k];
    assert Slot(sb, v, i, k) == a[k] && Slot(sb, v', i, k) == a'[k];
    hide Slot;
    SlotMeans(sb, v, s.owner, s.spare.Values, i, k, b);
    if Kept(sb, s', i) {
      SlotMeans(sb, v', s.owner, s.spare.Values, i, k, b);
    }
  }

  /** A slot holds a block exactly if it is the owner. */
  lemma SlotMeans(sb: Super, v: State, owner: Owner, spare: set<nat>, i: nat, k: nat, b: nat)
    requires Ownership.Inv(sb, v, owner, spare) && i < sb.ninodes && k < SLOTS && b != 0
    ensures Slot(sb, v, i, k) == b <==> b in owner && owner[b] == (i, k)
  {
    hide Slot, Marked;
    assert SlotOwned(sb, v, owner, i, k);
    assert b in owner ==> BlockOwned(sb, v, owner, b);
  }

  /** Spare blocks are data blocks that nobody owns. */
  lemma SpareFacts(sb: Super, s: Sys, i: nat, j: nat)
    requires Kept(sb, s, i) && j in s.spare
    ensures sb.DataStart() <= s.spare[j] < sb.size && s.spare[j] !in s.owner
  {
    assert s.spare[j] in s.spare.Values;
  }

  /** The spare blocks that are left are as they were. */
  lemma SparesKept(sb: Super, s: Sys, i: nat, s': Sys)
    requires Kept(sb, s, i) && |s'.disk| == sb.size && s'.cached.Keys == s.cached.Keys
    requires forall j | j in s'.spare :: j in s.spare && s'.spare[j] == s.spare[j]
    requires forall x | sb.DataStart() <= x < sb.size && x !in s.owner :: s'.disk[x] == s.disk[x]
    ensures Spares(sb, s')
  {
    hide Ownership.Inv, View, IsZero;
    forall j | j in s'.spare ensures s'.disk[s.spare[j]] == s.disk[s.spare[j]] {
      SpareFacts(sb, s, i, j);
    }
  }

  lemma SpareMore(spare: map<nat, nat>, i: nat, b: nat)
    requires i !in spare
    ensures spare[i := b].Values == spare.Values + {b}
  {
    assert spare[i := b][i] == b;
    assert forall j | j in spare :: j in spare[i := b] && spare[i := b][j] == spare[j];
  }

  lemma AllocSpares(sb: Super, s: Sys, i: nat, b: nat, d: seq<Block>, s': Sys)
    requires Kept(sb, s, i) && Next(sb, s, Alloc(i, b, d), s') && sb.DataStart() <= b && b !in s.spare.Values
    ensures s'.spare.Values == s.spare.Values + {b} && Spares(sb, s')
  {
    hide Ownership.Inv, View, IsZero, Marked, Spares;
    SpareMore(s.spare, i, b);
    forall j | j in s.spare ensures s.spare[j] != b && s.spare[j] < sb.size && d[s.spare[j]] == s.disk[s.spare[j]] {
      SpareFacts(sb, s, i, j);
      assert s.spare[j] in s.spare.Values;
    }
    SparesMore(sb, s, i, b, s');
  }

  lemma SparesMore(sb: Super, s: Sys, i: nat, b: nat, s': Sys)
    requires |s.disk| == |s'.disk| == sb.size && Spares(sb, s) && i !in s.spare && i in s.cached && 0 < b < sb.size
    requires s'.spare == s.spare[i := b] && s'.cached == s.cached && IsZero(s'.disk[b])
    requires forall j | j in s.spare ::
        s.spare[j] != b && s.spare[j] < sb.size && s'.disk[s.spare[j]] == s.disk[s.spare[j]]
    ensures Spares(sb, s')
  {
    hide IsZero;
  }

  lemma AllocKept(sb: Super, s: Sys, i: nat, b: nat, d: seq<Block>, s': Sys)
    requires Kept(sb, s, i) && Next(sb, s, Alloc(i, b, d), s')
    ensures Kept(sb, s', i) && sb.DataStart() <= b
  {
    hide Ownership.Inv, DInode, Marked, IsZero, Spares;
    AllocKeeps(sb, View(sb, s, i), s.owner, s.spare.Values, b, View(sb, s', i));
    AllocSpares(sb, s, i, b, d, s');
  }

  /** The holder of i has stored its block. */
  lemma SpareGone(s: Sys, s': Sys, i: nat)
    requires i in s.spare && s'.spare == s.spare - {i}
    requires forall j | j in s.spare && j != i :: s.spare[j] != s.spare[i]
    ensures s.spare[i] in s.spare.Values && s'.spare.Values == s.spare.Values - {s.spare[i]}
  {
    forall x | x in s.spare.Values && x != s.spare[i] ensures x in s'.spare.Values {
      var j :| j in s.spare && s.spare[j] == x;
      assert s'.spare[j] == x;
    }
  }

  lemma DirectKept(sb: Super, s: Sys, i: nat, k: nat, s': Sys)
    requires Kept(sb, s, i) && Next(sb, s, Direct(i, k), s')
    ensures Kept(sb, s', i)
  {
    hide Ownership.Inv, DInode, IsZero;
    SpareGone(s, s', i);
    SparesKept(sb, s, i, s');
    hide Spares;
    assert s'.cached - {i} == s.cached - {i};
    AttachDirect(sb, View(sb, s, i), s.owner, s.spare.Values, s.spare[i], k, View(sb, s', i));
  }

  lemma IndirectKept(sb: Super, s: Sys, i: nat, j: nat, s': Sys)
    requires Kept(sb, s, i) && Next(sb, s, Indirect(i, j), s')
    ensures Kept(sb, s', i)
  {
    hide Ownership.Inv, DInode, IsZero, Entry, PutEntry;
    IndirectOwned(sb, s, i);
    SpareGone(s, s', i);
    SparesKept(sb, s, i, s');
    hide Spares;
    AttachEntry(sb, View(sb, s, i), s.owner, s.spare.Values, s.spare[i], j, View(sb, s', i));
  }

  lemma StoreKept(sb: Super, s: Sys, i: nat, k: nat, blk: Block, s': Sys)
    requires Kept(sb, s, i) && Next(sb, s, Store(i, k, blk), s')
    ensures Kept(sb, s', i)
  {
    var v := View(sb, s, i);
    assert SlotOwned(sb, v, s.owner, i, k);
    hide Ownership.Inv, DInode, IsZero, Slot, Spares;
    SparesKept(sb, s, i, s');
    StoreKeeps(sb, v, s.owner, s.spare.Values, k, blk, View(sb, s', i));
  }

  lemma UpdateKept(sb: Super, s: Sys, i: nat, ip: Inode, s': Sys)
    requires Kept(sb, s, i) && Next(sb, s, Update(i, ip), s')
    ensures Kept(sb, s', i)
  {
    hide Ownership.Inv, PutInode, DInode, Spares;
    SparesKept(sb, s, i, s');
    var v := View(sb, s, i);
    RefieldKeeps(sb, v, s.owner, s.spare.Values, ip);
    assert s'.cached - {i} == s.cached - {i};
    UpdateKeeps(sb, v.(ip := ip), s.owner, s.spare.Values, View(sb, s', i));
  }

  /** Fields other than the blocks do not matter to ownership. */
  lemma RefieldKeeps(sb: Super, s: State, owner: Owner, spare: set<nat>, ip: Inode)
    requires Ownership.Inv(sb, s, owner, spare) && ip.addrs == s.ip.addrs
    ensures Ownership.Inv(sb, s.(ip := ip), owner, spare)
  {
    hide DInode, Marked, Entry;
    var s1 := s.(ip := ip);
    forall i, k | 0 <= i < sb.ninodes && 0 <= k < SLOTS ensures Slot(sb, s1, i, k) == Slot(sb, s, i, k) {
    }
    hide Slot;
    SameOwner(sb, s, s1, owner, spare);
  }

  lemma FreeDirectKept(sb: Super, s: Sys, i: nat, k: nat, d: seq<Block>, s': Sys)
    requires Kept(sb, s, i) && Next(sb, s, FreeDirect(i, k, d), s')
    ensures Kept(sb, s', i)
  {
    hide Ownership.Inv, DInode, Slot, Marked, Spares;
    SparesKept(sb, s, i, s');
    assert s'.cached - {i} == s.cached - {i};
    DetachDirect(sb, View(sb, s, i), s.owner, s.spare.Values, k, View(sb, s', i));
  }

  lemma FreeEntryKept(sb: Super, s: Sys, i: nat, j: nat, d: seq<Block>, s': Sys)
    requires Kept(sb, s, i) && Next(sb, s, FreeEntry(i, j, d), s')
    ensures Kept(sb, s', i)
  {
    hide Ownership.Inv, DInode, Slot, Marked, Entry, PutEntry, Spares;
    IndirectOwned(sb, s, i);
    SparesKept(sb, s, i, s');
    DetachEntry(sb, View(sb, s, i), s.owner, s.spare.Values, j, d, View(sb, s', i));
  }

  /** Every step keeps each block with its one owner, except exactly forgetting an inode whose blocks in
      memory are not those on the disk. */
  lemma StepKeepsExactly(sb: Super, s: Sys, step: Step, s': Sys)
    requires Inv(sb, s) && Next(sb, s, step, s')
    ensures Inv(sb, s') <==> !Loses(sb, s, step)
  {
    hide Inv, Kept, Holds, Loses;
    InvFrom(sb, s, step.i);
    if step.Forget? {
      ForgetExactly(sb, s, step.i, s');
    } else {
      StepKept(sb, s, step, s');
      InvTo(sb, s', step.i);
      assert !Loses(sb, s, step) by { OnlyForget(sb, s, step); }
    }
  }

  lemma OnlyForget(sb: Super, s: Sys, step: Step)
    requires !step.Forget?
    ensures !Loses(sb, s, step)
  {
  }

  lemma ForgetExactly(sb: Super, s: Sys, i: nat, s': Sys)
    requires Kept(sb, s, i) && Next(sb, s, Forget(i), s')
    ensures Inv(sb, s') <==> !Loses(sb, s, Forget(i))
  {
    hide Inv, Kept, Holds, Loses;
    if Loses(sb, s, Forget(i)) {
      ForgetLoses(sb, s, i, s');
      if Inv(sb, s') { InvFrom(sb, s', i); }
    } else {
      ForgetKept(sb, s, i, s');
      InvTo(sb, s', i);
    }
  }

  lemma StepKept(sb: Super, s: Sys, step: Step, s': Sys)
    requires Kept(sb, s, step.i) && Next(sb, s, step, s') && !step.Forget?
    ensures Kept(sb, s', step.i)
  {
    hide Kept, Next;
    match step {
      case Load(i) => LoadKept(sb, s, i, s');
      case Alloc(i, b, d) => AllocKept(sb, s, i, b, d, s');
      case Direct(i, k) => DirectKept(sb, s, i, k, s');
      case Indirect(i, j) => IndirectKept(sb, s, i, j, s');
      case Store(i, k, blk) => StoreKept(sb, s, i, k, blk, s');
      case Update(i, ip) => UpdateKept(sb, s, i, ip, s');
      case FreeDirect(i, k, d) => FreeDirectKept(sb, s, i, k, d, s');
      case FreeEntry(i, j, d) => FreeEntryKept(sb, s, i, j, d, s');
    }
  }

  // ---------------------------------------------------------------------------------------
  // What a step does to the inodes on disk
  // ---------------------------------------------------------------------------------------

  /** Only Update changes an inode on disk, and only its own. */
  ghost predicate OnDisk(sb: Super, s: Sys, step: Step, s': Sys) {
    && sb.Valid() && |s.disk| == |s'.disk| == sb.size
    && (forall j | 0 <= j < sb.ninodes ::
          DInode(sb, s'.disk, j) == if step.Update? && j == step.i then step.ip else DInode(sb, s.disk, j))
  }

  /** And a step works on its own inode in memory. */
  lemma StepInMemory(sb: Super, s: Sys, step: Step, s': Sys)
    requires Next(sb, s, step, s')
    ensures forall j | j != step.i ::
        (j in s'.cached <==> j in s.cached) && (j in s.cached ==> s'.cached[j] == s.cached[j])
    ensures step.i in s'.cached <==> !step.Forget?
    ensures step.Alloc? || step.Indirect? || step.Store? || step.FreeEntry? ==> s'.cached == s.cached
    ensures step.Update? ==> s'.cached[step.i] == step.ip
    ensures step.Load? ==> s'.cached[step.i] == DInode(sb, s.disk, step.i)
    ensures step.Direct? ==>
              && step.i in s.spare && step.k <= NDIRECT && step.i in s.cached && s.cached[step.i].addrs[step.k] == 0
              && s.spare[step.i] < sb.size
              && s'.cached[step.i] == s.cached[step.i].(addrs := s.cached[step.i].addrs[step.k := s.spare[step.i]])
  {
    hide DInode, Slot, Allocated, Freed, Entry, PutEntry, PutInode;
  }

  lemma FilledOnDisk(sb: Super, s: Sys, step: Step, s': Sys)
    requires Kept(sb, s, step.i) && Next(sb, s, step, s') && (step.Alloc? || step.Indirect? || step.Store?)
    ensures OnDisk(sb, s, step, s')
  {
    hide Ownership.Inv, DInode, Marked, IsZero, Slot, Entry, PutEntry;
    var v, v' := View(sb, s, step.i), View(sb, s', step.i);
    if step.Alloc? {
      AllocKeeps(sb, v, s.owner, s.spare.Values, step.b, v');
    } else if step.Indirect? {
      SpareGone(s, s', step.i);
      AttachEntry(sb, v, s.owner, s.spare.Values, s.spare[step.i], step.j, v');
    } else {
      StoreKeeps(sb, v, s.owner, s.spare.Values, step.k, step.blk, v');
    }
  }

  lemma UpdateOnDisk(sb: Super, s: Sys, i: nat, ip: Inode, s': Sys)
    requires Kept(sb, s, i) && Next(sb, s, Update(i, ip), s')
    ensures OnDisk(sb, s, Update(i, ip), s')
  {
    hide Ownership.Inv, PutInode, DInode, Spares;
    forall j | 0 <= j < sb.ninodes ensures DInode(sb, s'.disk, j) == if j == i then ip else DInode(sb, s.disk, j) {
      InodePut(sb, s.disk, i, ip, j);
    }
  }

  lemma FreedOnDisk(sb: Super, s: Sys, step: Step, s': Sys)
    requires Kept(sb, s, step.i) && Next(sb, s, step, s') && (step.FreeDirect? || step.FreeEntry?)
    ensures OnDisk(sb, s, step, s')
  {
    hide Ownership.Inv, DInode, Slot, Marked, Entry, PutEntry, Spares;
    var v, v' := View(sb, s, step.i), View(sb, s', step.i);
    if step.FreeDirect? {
      assert s'.cached - {step.i} == s.cached - {step.i};
      DetachDirect(sb, v, s.owner, s.spare.Values, step.k, v');
    } else {
      DetachEntry(sb, v, s.owner, s.spare.Values, step.j, step.disk, v');
    }
  }

  lemma StepOnDisk(sb: Super, s: Sys, step: Step, s': Sys)
    requires Inv(sb, s) && Next(sb, s, step, s')
    ensures OnDisk(sb, s, step, s')
  {
    hide Kept, Inv;
    InvFrom(sb, s, step.i);
    match step {
      case Alloc(_, _, _) => FilledOnDisk(sb, s, step, s');
      case Indirect(_, _) => FilledOnDisk(sb, s, step, s');
      case Store(_, _, _) => FilledOnDisk(sb, s, step, s');
      case Update(i, ip) => UpdateOnDisk(sb, s, i, ip, s');
      case FreeDirect(_, _, _) => FreedOnDisk(sb, s, step, s');
      case FreeEntry(_, _, _) => FreedOnDisk(sb, s, step, s');
      case _ =>
    }
  }

  // ---------------------------------------------------------------------------------------
  // Every run
  // ---------------------------------------------------------------------------------------

  /** A file system that nobody uses yet. */
  ghost predicate Init(sb: Super, s: Sys) {
    && sb.Valid() && |s.disk| == sb.size && sb.ninodes > 0 && s.cached == map[] && s.spare == map[]
    && Ownership.Inv(sb, State(s.disk, 0, DInode(sb, s.disk, 0), map[]), s.owner, {})
  }

  ghost predicate Run(sb: Super, states: seq<Sys>, steps: seq<Step>) {
    && |states| == |steps| + 1 && Init(sb, states[0])
    && forall k | 0 <= k < |steps| :: Next(sb, states[k], steps[k], states[k + 1])
  }

  lemma InitInv(sb: Super, s: Sys)
    requires Init(sb, s)
    ensures Inv(sb, s)
  {
    hide Ownership.Inv, DInode;
    assert View(sb, s, 0) == State(s.disk, 0, DInode(sb, s.disk, 0), map[]);
    assert s.spare.Values == {};
    OneView(sb, s, 0);
  }

  /** No inode is forgotten while its blocks are ahead of the disk. */
  ghost predicate NoneLost(sb: Super, states: seq<Sys>, steps: seq<Step>, k: nat)
    requires Run(sb, states, steps) && k < |states|
  {
    forall j | 0 <= j < k :: !Loses(sb, states[j], steps[j])
  }

  lemma {:induction false} RunSafe(sb: Super, states: seq<Sys>, steps: seq<Step>, k: nat)
    requires Run(sb, states, steps) && k < |states| && NoneLost(sb, states, steps, k)
    ensures Inv(sb, states[k])
    decreases k
  {
    hide Inv, Next, Init, Loses;
    if k > 0 {
      RunSafe(sb, states, steps, k - 1);
      StepKeepsExactly(sb, states[k - 1], steps[k - 1], states[k]);
    } else {
      InitInv(sb, states[0]);
    }
  }

  /** In every such state, a block number in a slot of an inode, as memory has it if it is in the cache and
      the disk if not, is that of a marked data block and stands in no other slot of any inode;
      and every marked data block is in a slot or just handed out. So a step of itrunc
      never frees a free block. */
  lemma OwnedInEveryRun(sb: Super, states: seq<Sys>, steps: seq<Step>, n: nat, i: nat, k: nat)
    requires Run(sb, states, steps) && n < |states| && NoneLost(sb, states, steps, n) && i < sb.ninodes && k < SLOTS
    ensures Inv(sb, states[n])
    ensures var s, v := states[n], View(sb, states[n], i);
            var b := Slot(sb, v, i, k);
            && (b != 0 ==>
                  && sb.DataStart() <= b < sb.size && Marked(sb, s.disk, b)
                  && forall j, l | 0 <= j < sb.ninodes && 0 <= l < SLOTS && Slot(sb, v, j, l) == b :: (j, l) == (i, k))
            && (forall c | sb.DataStart() <= c < sb.size && Marked(sb, s.disk, c) && c !in s.spare.Values ::
                  exists j, l :: 0 <= j < sb.ninodes && 0 <= l < SLOTS && Slot(sb, v, j, l) == c)
  {
    RunSafe(sb, states, steps, n);
    hide Ownership.Inv, Slot, DInode, Marked, Run;
    assert Owned(sb, states[n], i);
    OwnedOnce(sb, View(sb, states[n], i), states[n].owner, states[n].spare.Values, i, k);
  }
}

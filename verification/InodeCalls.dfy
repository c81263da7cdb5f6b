/** What the calls of xv6/fs.c do to the blocks of inodes over a long time. A process locks an inode, reads and
    writes it, and unlocks it; when nobody refers to it any more, the cache forgets it. bmap puts a
    new block into the inode in memory. readi leaves it at that, and writei calls iupdate only if
    it has gone past the size, so that no block is lost as long as no inode has a hole among the
    blocks that its own addresses name. */
module InodeCalls {
  import opened FsLayout
  import opened Ownership
  import opened FileBytes
  import opened Basics
  import I = Inodes
  import F = Fs

  /** What the holder of an inode is doing: reading or nothing, writing with the position reached and
      whether bmap has just put an address into the inode for it, or truncating. */
  datatype Call = Reading | Writing(pos: nat, mid: bool) | Cutting

  datatype Sys = Sys(io: I.Sys, held: map<nat, Call>)

  datatype Step =
    | Lock(i: nat)
    | Unlock(i: nat)
    | Forget(i: nat)                                       // the last iput
    | Balloc(i: nat, bn: nat, b: nat, disk: seq<Block>)    // bmap finds no block bn
    | PutDirect(i: nat, bn: nat)
    | PutIndirect(i: nat, bn: nat)
    | PutEntry(i: nat, bn: nat)
    | StartWrite(i: nat, off: nat)
    | Copy(i: nat, m: nat, blk: Block)                     // a round of the loop of writei after bmap
    | EndWrite(i: nat)
    | SetFields(i: nat, ip: Inode)                         // links and the like, a smaller size, and iupdate
    | StartCut(i: nat)                                     // itrunc
    | CutDirect(i: nat, k: nat, disk: seq<Block>)
    | CutEntry(i: nat, j: nat, disk: seq<Block>)
    | EndCut(i: nat)

  /** The call of the holder of i; an inode that nobody holds is as if it were only read. */
  function CallOf(c: Sys, i: nat): Call {
    if i in c.held then c.held[i] else Reading
  }

  /** bmap is called for block bn: of the part below the size by readi, of the position by writei. */
  predicate At(c: Sys, i: nat, bn: nat)
    requires i in c.io.cached
  {
    i in c.held && bn < MAXFILE &&
    match c.held[i]
    case Reading => BSIZE * bn < c.io.cached[i].size
    case Writing(pos, _) => bn == pos / BSIZE
    case Cutting => false
  }

  /** When a step may come. */
  ghost predicate Enabled(sb: Super, c: Sys, step: Step)
    requires sb.Valid() && |c.io.disk| == sb.size && step.i < sb.ninodes
  {
    var i := step.i;
    if step.Lock? then i !in c.held
    else if step.Forget? then i !in c.held
    else
      && i in c.held && i in c.io.cached
      && match step
         case Balloc(_, bn, _, _) => At(c, i, bn) && Slot(sb, I.View(sb, c.io, i), i, DataSlot(bn)) == 0
         case PutDirect(_, bn) => At(c, i, bn) && bn < NDIRECT
         case PutIndirect(_, bn) => At(c, i, bn) && bn >= NDIRECT
         case PutEntry(_, bn) => At(c, i, bn) && bn >= NDIRECT
         case Copy(_, m, _) =>
           && c.held[i].Writing? && i !in c.io.spare
           && m > 0 && c.held[i].pos % BSIZE + m <= BSIZE && c.held[i].pos + m <= MAXSIZE
         case EndWrite(_) => c.held[i].Writing? && !c.held[i].mid && i !in c.io.spare && c.held[i].pos <= MAXSIZE
         case CutDirect(_, _, _) => c.held[i].Cutting?
         case CutEntry(_, _, _) => c.held[i].Cutting?
         case EndCut(_) => c.held[i].Cutting? && forall k | 0 <= k <= NDIRECT :: c.io.cached[i].addrs[k] == 0
         case StartWrite(_, off) =>
           c.held[i].Reading? && i !in c.io.spare && off <= c.io.cached[i].size && off <= MAXSIZE
         case SetFields(_, ip) => c.held[i].Reading? && i !in c.io.spare && ip.size <= c.io.cached[i].size
         case _ => c.held[i].Reading? && i !in c.io.spare
  }

  /** What a step does to disk, bitmap and inode. */
  function Inner(c: Sys, step: Step): Option<I.Step>
    requires !step.Lock? && !step.Forget? ==> step.i in c.io.cached && step.i in c.held
    requires step.EndWrite? || step.Copy? ==> c.held[step.i].Writing? && c.held[step.i].pos <= MAXSIZE
    requires step.PutEntry? ==> step.bn >= NDIRECT
  {
    match step
    case Lock(i) => if i in c.io.cached then None else Some(I.Load(i))
    case Forget(i) => Some(I.Forget(i))
    case Balloc(i, _, b, d) => Some(I.Alloc(i, b, d))
    case PutDirect(i, bn) => Some(I.Direct(i, bn))
    case PutIndirect(i, _) => Some(I.Direct(i, NDIRECT))
    case PutEntry(i, bn) => Some(I.Indirect(i, bn - NDIRECT))
    case Copy(i, _, blk) => Some(I.Store(i, DataSlot(c.held[i].pos / BSIZE), blk))
    case EndWrite(i) =>
      var ip, pos := c.io.cached[i], c.held[i].pos;
      if pos > ip.size then Some(I.Update(i, ip.(size := pos))) else None
    case SetFields(i, ip) => Some(I.Update(i, ip))
    case CutDirect(i, k, d) => Some(I.FreeDirect(i, k, d))
    case CutEntry(i, j, d) => Some(I.FreeEntry(i, j, d))
    case EndCut(i) => Some(I.Update(i, c.io.cached[i].(size := 0)))
    case _ => None
  }

  /** How the call goes on. */
  function After(call: Call, step: Step): Call {
    match step
    case StartWrite(_, off) => Writing(off, false)
    case Copy(_, m, _) => if call.Writing? then Writing(call.pos + m, false) else call
    case PutDirect(_, _) => if call.Writing? then call.(mid := true) else call
    case PutIndirect(_, _) => if call.Writing? then call.(mid := true) else call
    case EndWrite(_) => Reading
    case StartCut(_) => Cutting
    case EndCut(_) => Reading
    case _ => call
  }

  ghost predicate Next(sb: Super, c: Sys, step: Step, c': Sys) {
    && sb.Valid() && |c.io.disk| == sb.size && step.i < sb.ninodes && Enabled(sb, c, step)
    && (match Inner(c, step)
        case None => c'.io == c.io
        case Some(inner) => I.Next(sb, c.io, inner, c'.io))
    && c'.held == (if step.Lock? then c.held[step.i := Reading]
                   else if step.Unlock? then c.held - {step.i}
                   else if step.Forget? then c.held
                   else c.held[step.i := After(c.held[step.i], step)])
  }

  /** When bmap is done with block bn, the file has the block that balloc gave for it there, and its other blocks
      where they were. */
  lemma PutMeans(sb: Super, c: Sys, step: Step, c': Sys, k: nat)
    requires I.Inv(sb, c.io) && Next(sb, c, step, c') && (step.PutDirect? || step.PutEntry?) && k < SLOTS
    requires k != NDIRECT
    ensures step.i in c.io.spare && |c'.io.disk| == sb.size
    ensures Slot(sb, I.View(sb, c'.io, step.i), step.i, k)
            == if k == DataSlot(step.bn) then c.io.spare[step.i] else Slot(sb, I.View(sb, c.io, step.i), step.i, k)
  {
    hide I.Inv, Slot, FsLayout.PutEntry, Entry;
    I.InvSize(sb, c.io);
    if step.PutDirect? {
      DirectPut(sb, c.io, step.i, step.bn, c'.io, k);
    } else {
      EntryPutIn(sb, c.io, step.i, step.bn - NDIRECT, c'.io, k);
    }
  }

  lemma DirectPut(sb: Super, s: I.Sys, i: nat, bn: nat, s': I.Sys, k: nat)
    requires I.Next(sb, s, I.Direct(i, bn), s') && bn < NDIRECT && k < SLOTS
    ensures i in s.spare && |s'.disk| == sb.size
    ensures Slot(sb, I.View(sb, s', i), i, k) == if k == bn then s.spare[i] else Slot(sb, I.View(sb, s, i), i, k)
  {
    hide Entry, DInode;
  }

  lemma EntryPutIn(sb: Super, s: I.Sys, i: nat, j: nat, s': I.Sys, k: nat)
    requires I.Next(sb, s, I.Indirect(i, j), s') && k < SLOTS
    ensures i in s.spare && |s'.disk| == sb.size
    ensures Slot(sb, I.View(sb, s', i), i, k)
            == if k == NDIRECT + 1 + j then s.spare[i] else Slot(sb, I.View(sb, s, i), i, k)
  {
    hide Entry, DInode, FsLayout.PutEntry;
    if k > NDIRECT {
      EntryPut(s.disk[s.cached[i].addrs[NDIRECT]], j, s.spare[i], k - NDIRECT - 1);
    }
  }

  /** The end of writei: the size is the larger of the old one and the end of the write, and the inode goes to the
      disk exactly if that is more than the old one. */
  lemma WriteEnds(sb: Super, c: Sys, i: nat, c': Sys)
    requires Next(sb, c, EndWrite(i), c')
    ensures i in c.held && c.held[i].Writing? && i in c.io.cached && i in c'.io.cached && |c'.io.disk| == sb.size
    ensures var size, pos := c.io.cached[i].size, c.held[i].pos;
            && c'.io.cached[i].size == (if pos > size then pos else size)
            && DInode(sb, c'.io.disk, i) == if pos > size then c'.io.cached[i] else DInode(sb, c.io.disk, i)
  {
    hide DInode, PutInode;
    if c.held[i].pos > c.io.cached[i].size {
      InodePut(sb, c.io.disk, i, c'.io.cached[i], i);
    }
  }

  // ---------------------------------------------------------------------------------------
  // Without holes
  // ---------------------------------------------------------------------------------------

  /** The addresses in the inode that a file of end bytes needs are there. */
  predicate Low(ip: Inode, end: nat) {
    forall k | 0 <= k <= NDIRECT && BSIZE * k < end :: ip.addrs[k] != 0
  }

  /** An inode in memory against its copy on disk, by what its holder is doing: addresses are ahead of the
      disk only in a write that goes past the size. */
  ghost predicate Fit(ip: Inode, ondisk: Inode, call: Call) {
    match call
    case Reading => Low(ip, ip.size) && ip.addrs == ondisk.addrs && ip.size == ondisk.size
    case Writing(pos, mid) =>
      && Low(ip, ip.size) && Low(ip, pos) && ip.size == ondisk.size
      && (ip.addrs == ondisk.addrs || if mid then BSIZE * (pos / BSIZE) >= ip.size else pos > ip.size)
    case Cutting => true
  }

  function NodeOf(sb: Super, s: I.Sys, j: nat): Inode
    requires sb.Valid() && |s.disk| == sb.size && j < sb.ninodes
  {
    if j in s.cached then s.cached[j] else DInode(sb, s.disk, j)
  }

  ghost predicate FitAt(sb: Super, c: Sys, j: nat)
    requires sb.Valid() && |c.io.disk| == sb.size && j < sb.ninodes
  {
    Fit(NodeOf(sb, c.io, j), DInode(sb, c.io.disk, j), CallOf(c, j))
  }

  ghost predicate Tidy(sb: Super, c: Sys) {
    && I.Inv(sb, c.io) && (forall i | i in c.held :: i in c.io.cached)
    && sb.Valid() && |c.io.disk| == sb.size
    && (forall j | 0 <= j < sb.ninodes :: FitAt(sb, c, j))
  }

  /** bmap for a writer finds an address missing only beyond the size. */
  lemma PutFits(ip: Inode, ondisk: Inode, pos: nat, mid: bool, k: nat, b: Uint)
    requires Fit(ip, ondisk, Writing(pos, mid)) && k <= NDIRECT && ip.addrs[k] == 0 && k <= pos / BSIZE
    ensures Fit(ip.(addrs := ip.addrs[k := b]), ondisk, Writing(pos, true)) || b == 0
  {
    var ip' := ip.(addrs := ip.addrs[k := b]);
    assert BSIZE * k >= ip.size;
    assert b != 0 ==> forall l | 0 <= l <= NDIRECT && ip.addrs[l] != 0 :: ip'.addrs[l] != 0;
  }

  /** For a reader it finds none missing. */
  lemma ReaderFinds(ip: Inode, ondisk: Inode, bn: nat)
    requires Fit(ip, ondisk, Reading) && BSIZE * bn < ip.size
    ensures bn < NDIRECT ==> ip.addrs[bn] != 0
    ensures bn >= NDIRECT ==> ip.addrs[NDIRECT] != 0
  {
  }

  lemma CopyFits(ip: Inode, ondisk: Inode, pos: nat, mid: bool, m: nat)
    requires Fit(ip, ondisk, Writing(pos, mid)) && m > 0 && pos % BSIZE + m <= BSIZE
    requires ip.addrs[if pos / BSIZE < NDIRECT then pos / BSIZE else NDIRECT] != 0
    ensures Fit(ip, ondisk, Writing(pos + m, false))
  {
    forall k | 0 <= k <= NDIRECT && BSIZE * k < pos + m ensures ip.addrs[k] != 0 {
      assert k <= pos / BSIZE;
      assert k < pos / BSIZE ==> BSIZE * k < pos;
    }
  }

  /** An inode that is not forgotten ahead of the disk keeps its blocks. */
  lemma InnerKeeps(sb: Super, c: Sys, step: Step, c': Sys)
    requires Tidy(sb, c) && Next(sb, c, step, c')
    ensures I.Inv(sb, c'.io) && |c'.io.disk| == sb.size
    ensures var inner := Inner(c, step); inner.Some? ==> I.OnDisk(sb, c.io, inner.value, c'.io)
  {
    hide I.Inv, I.Next, I.OnDisk, I.Loses, Fit, DInode;
    var inner := Inner(c, step);
    if inner.Some? {
      I.StepOnDisk(sb, c.io, inner.value, c'.io);
      NotLost(sb, c, step);
      I.StepKeepsExactly(sb, c.io, inner.value, c'.io);
      I.InvSize(sb, c'.io);
    }
  }

  lemma NotLost(sb: Super, c: Sys, step: Step)
    requires Tidy(sb, c) && step.i < sb.ninodes && Enabled(sb, c, step)
    ensures var inner := Inner(c, step); inner.Some? ==> !I.Loses(sb, c.io, inner.value)
  {
    hide I.Inv, DInode;
    assert FitAt(sb, c, step.i);
  }

  lemma OthersFit(sb: Super, c: Sys, step: Step, c': Sys, j: nat)
    requires Tidy(sb, c) && Next(sb, c, step, c') && j < sb.ninodes && j != step.i && |c'.io.disk| == sb.size
    requires var inner := Inner(c, step); inner.Some? ==> I.OnDisk(sb, c.io, inner.value, c'.io)
    ensures FitAt(sb, c', j)
  {
    hide I.Inv, I.Next, Fit, DInode, Slot;
    assert FitAt(sb, c, j);
    var inner := Inner(c, step);
    if inner.Some? {
      I.StepInMemory(sb, c.io, inner.value, c'.io);
    }
  }

  /** Locking and forgetting. */
  lemma HoldFits(sb: Super, c: Sys, step: Step, c': Sys)
    requires Tidy(sb, c) && Next(sb, c, step, c') && |c'.io.disk| == sb.size
    requires step.Lock? || step.Unlock? || step.Forget?
    ensures FitAt(sb, c', step.i)
  {
    hide I.Inv, DInode, Slot, I.View;
    assert FitAt(sb, c, step.i);
  }

  /** bmap. */
  lemma MapFits(sb: Super, c: Sys, step: Step, c': Sys)
    requires Tidy(sb, c) && Next(sb, c, step, c') && |c'.io.disk| == sb.size
    requires step.Balloc? || step.PutDirect? || step.PutIndirect? || step.PutEntry?
    requires I.OnDisk(sb, c.io, Inner(c, step).value, c'.io)
    ensures FitAt(sb, c', step.i)
  {
    hide I.Inv, I.Next, Fit, DInode, Slot;
    var i, ip := step.i, c.io.cached[step.i];
    assert FitAt(sb, c, i);
    I.StepInMemory(sb, c.io, Inner(c, step).value, c'.io);
    if step.PutDirect? || step.PutIndirect? {
      var k := if step.PutDirect? then step.bn else NDIRECT;
      I.SparePositive(sb, c.io, i);
      if c.held[i].Writing? {
        PutFits(ip, DInode(sb, c.io.disk, i), c.held[i].pos, c.held[i].mid, k, c.io.spare[i]);
      } else {
        ReaderFinds(ip, DInode(sb, c.io.disk, i), step.bn);
      }
    }
  }

  /** writei. */
  lemma WriteFits(sb: Super, c: Sys, step: Step, c': Sys)
    requires Tidy(sb, c) && Next(sb, c, step, c') && |c'.io.disk| == sb.size
    requires step.StartWrite? || step.Copy? || step.EndWrite?
    requires Inner(c, step).Some? ==> I.OnDisk(sb, c.io, Inner(c, step).value, c'.io)
    ensures FitAt(sb, c', step.i)
  {
    hide I.Inv, DInode, Entry;
    var i, ip := step.i, c.io.cached[step.i];
    assert FitAt(sb, c, i);
    if step.Copy? {
      CopyFits(ip, DInode(sb, c.io.disk, i), c.held[i].pos, c.held[i].mid, step.m);
    }
  }

  /** Links and size, and itrunc. */
  lemma FieldsFit(sb: Super, c: Sys, step: Step, c': Sys)
    requires Tidy(sb, c) && Next(sb, c, step, c') && |c'.io.disk| == sb.size
    requires step.SetFields? || step.StartCut? || step.CutDirect? || step.CutEntry? || step.EndCut?
    requires Inner(c, step).Some? ==> I.OnDisk(sb, c.io, Inner(c, step).value, c'.io)
    ensures FitAt(sb, c', step.i)
  {
    hide I.Inv, DInode, Slot, Entry, I.View;
    assert FitAt(sb, c, step.i);
  }

  /** No step of any call forgets a block, or leaves an inode that could. */
  lemma StepTidy(sb: Super, c: Sys, step: Step, c': Sys)
    requires Tidy(sb, c) && Next(sb, c, step, c')
    ensures Tidy(sb, c')
  {
    hide I.Inv, I.OnDisk, FitAt, I.Next;
    InnerKeeps(sb, c, step, c');
    forall j | 0 <= j < sb.ninodes && j != step.i ensures FitAt(sb, c', j) {
      OthersFit(sb, c, step, c', j);
    }
    OwnFits(sb, c, step, c');
    HeldCached(sb, c, step, c');
  }

  lemma OwnFits(sb: Super, c: Sys, step: Step, c': Sys)
    requires Tidy(sb, c) && Next(sb, c, step, c') && |c'.io.disk| == sb.size
    requires Inner(c, step).Some? ==> I.OnDisk(sb, c.io, Inner(c, step).value, c'.io)
    ensures FitAt(sb, c', step.i)
  {
    hide I.OnDisk, FitAt, I.Next, Tidy, Slot;
    if step.Lock? || step.Unlock? || step.Forget? {
      HoldFits(sb, c, step, c');
    } else if step.Balloc? || step.PutDirect? || step.PutIndirect? || step.PutEntry? {
      MapFits(sb, c, step, c');
    } else if step.StartWrite? || step.Copy? || step.EndWrite? {
      WriteFits(sb, c, step, c');
    } else {
      FieldsFit(sb, c, step, c');
    }
  }

  lemma HeldCached(sb: Super, c: Sys, step: Step, c': Sys)
    requires Tidy(sb, c) && Next(sb, c, step, c')
    ensures forall i | i in c'.held :: i in c'.io.cached
  {
    hide I.Inv, I.Next, FitAt, Slot;
    var inner := Inner(c, step);
    if inner.Some? {
      I.StepInMemory(sb, c.io, inner.value, c'.io);
    }
  }

  // ---------------------------------------------------------------------------------------
  // Every run
  // ---------------------------------------------------------------------------------------

  /** A run over the image d. */
  ghost predicate Run(sb: Super, d: seq<Block>, owner: Owner, states: seq<Sys>, steps: seq<Step>) {
    && |states| == |steps| + 1 && states[0] == Sys(I.Sys(d, map[], map[], owner), map[])
    && forall k | 0 <= k < |steps| :: Next(sb, states[k], steps[k], states[k + 1])
  }

  /** Every inode of the image has the addresses that its size needs. */
  ghost predicate NoLowHole(sb: Super, d: seq<Block>)
    requires sb.Valid() && |d| == sb.size
  {
    forall i | 0 <= i < sb.ninodes :: Low(DInode(sb, d, i), DInode(sb, d, i).size)
  }

  lemma {:induction false} RunTidy(sb: Super, d: seq<Block>, owner: Owner, states: seq<Sys>, steps: seq<Step>, k: nat)
    requires I.Init(sb, I.Sys(d, map[], map[], owner)) && NoLowHole(sb, d)
    requires Run(sb, d, owner, states, steps) && k < |states|
    ensures Tidy(sb, states[k])
    decreases k
  {
    hide I.Init, Next, Low, DInode;
    if k > 0 {
      RunTidy(sb, d, owner, states, steps, k - 1);
      hide Tidy;
      StepTidy(sb, states[k - 1], steps[k - 1], states[k]);
    } else {
      I.InitInv(sb, states[0].io);
    }
  }

  // ---------------------------------------------------------------------------------------
  // With a hole
  // ---------------------------------------------------------------------------------------

  /** Block b is marked, and nobody has it. */
  ghost predicate Lost(sb: Super, s: I.Sys, b: nat) {
    && sb.Valid() && |s.disk| == sb.size && b < sb.size && Marked(sb, s.disk, b) && b !in s.spare.Values
    && forall j, l | 0 <= j < sb.ninodes && 0 <= l < SLOTS :: Slot(sb, I.View(sb, s, j), j, l) != b
  }

  /** Inode i is in the cache with one address more than on disk. */
  ghost predicate Ahead(sb: Super, s: I.Sys, i: nat, k: nat, b: Uint) {
    && I.Inv(sb, s) && sb.Valid() && |s.disk| == sb.size && i < sb.ninodes && i in s.cached && i !in s.spare
    && k <= NDIRECT && b != 0
    && DInode(sb, s.disk, i).addrs[k] == 0 && s.cached[i].addrs == DInode(sb, s.disk, i).addrs[k := b]
  }

  /** Forgetting it loses the block. */
  lemma ForgetLosesBlock(sb: Super, s: I.Sys, i: nat, k: nat, b: Uint, s': I.Sys)
    requires Ahead(sb, s, i, k, b) && I.Next(sb, s, I.Forget(i), s')
    ensures Lost(sb, s', b)
  {
    var v := I.View(sb, s, i);
    I.OwnedFrom(sb, s, i);
    hide DInode, Marked, I.Inv;
    assert Slot(sb, v, i, k) == b;
    OwnedOnce(sb, v, s.owner, s.spare.Values, i, k);
    I.SlotMeans(sb, v, s.owner, s.spare.Values, i, k, b);
    I.OwnedNotSpare(sb, s, i, b);
    forall j, l | 0 <= j < sb.ninodes && 0 <= l < SLOTS ensures Slot(sb, I.View(sb, s', j), j, l) != b {
      SlotForgotten(sb, s, i, k, b, s', j, l);
    }
  }

  lemma SlotForgotten(sb: Super, s: I.Sys, i: nat, k: nat, b: Uint, s': I.Sys, j: nat, l: nat)
    requires Ahead(sb, s, i, k, b) && I.Next(sb, s, I.Forget(i), s') && j < sb.ninodes && l < SLOTS
    ensures Slot(sb, I.View(sb, s', j), j, l) != b
  {
    var v := I.View(sb, s, j);
    I.OwnedFrom(sb, s, j);
    hide DInode, Marked, I.Inv, Ownership.Inv, Entry;
    assert Slot(sb, I.View(sb, s, i), i, k) == b;
    I.OwnedFrom(sb, s, i);
    I.SlotMeans(sb, I.View(sb, s, i), s.owner, s.spare.Values, i, k, b);
    I.SlotMeans(sb, v, s.owner, s.spare.Values, j, l, b);
    if j == i && l != k && !(k == NDIRECT && l > NDIRECT) {
      assert Slot(sb, I.View(sb, s', i), i, l) == Slot(sb, I.View(sb, s, i), i, l);
    }
  }

  lemma Extend(sb: Super, d: seq<Block>, owner: Owner, states: seq<Sys>, steps: seq<Step>, step: Step, c': Sys)
      returns (states': seq<Sys>, steps': seq<Step>)
    requires Run(sb, d, owner, states, steps) && Next(sb, states[|steps|], step, c')
    ensures Run(sb, d, owner, states', steps') && |states'| == |steps'| + 1 && states'[|steps'|] == c'
  {
    hide Next;
    states', steps' := states + [c'], steps + [step];
    assert forall k | 0 <= k < |states| :: states'[k] == states[k];
    assert forall k | 0 <= k < |steps| :: steps'[k] == steps[k];
  }

  /** Inode i alone in the cache and held by a reader. */
  function Alone(d: seq<Block>, i: nat, ip: Inode, spare: map<nat, nat>, owner: Owner): Sys {
    Sys(I.Sys(d, map[i := ip], spare, owner), map[i := Reading])
  }

  /** A reader's state on the way through bmap: ip is the inode in memory, and that of d is on disk. */
  ghost predicate OnTheWay(sb: Super, d: seq<Block>, d': seq<Block>, i: nat, ip: Inode, spare: map<nat, nat>,
      owner: Owner) {
    && sb.Valid() && |d| == |d'| == sb.size && i < sb.ninodes
    && I.Inv(sb, I.Sys(d', map[i := ip], spare, owner)) && DInode(sb, d', i) == DInode(sb, d, i)
  }

  lemma LockStep(sb: Super, d: seq<Block>, owner: Owner, i: nat)
    requires I.Init(sb, I.Sys(d, map[], map[], owner)) && i < sb.ninodes
    ensures sb.Valid() && |d| == sb.size
    ensures var ip := DInode(sb, d, i);
            && Next(sb, Sys(I.Sys(d, map[], map[], owner), map[]), Lock(i), Alone(d, i, ip, map[], owner))
            && OnTheWay(sb, d, d, i, ip, map[], owner)
  {
    hide DInode, I.Inv, Ownership.Inv;
    var s := I.Sys(d, map[], map[], owner);
    var s' := I.Sys(d, map[i := DInode(sb, d, i)], map[], owner);
    I.InitInv(sb, s);
    assert s'.cached == s.cached[i := DInode(sb, d, i)];
    I.StepKeepsExactly(sb, s, I.Load(i), s');
  }

  /** balloc can give out b. */
  lemma CanAlloc(sb: Super, d: seq<Block>, b: nat) returns (d': seq<Block>)
    requires sb.Valid() && |d| == sb.size && sb.DataStart() <= b < sb.size && !Marked(sb, d, b)
    ensures Allocated(sb, d, b, d')
  {
    var zero: Block := seq(BSIZE, i => 0);
    F.MarkAndZero(sb, d, b, zero);
    d' := d[BBlock(sb, b) := PutBit(d[BBlock(sb, b)], b % BPB, true)][b := zero];
  }

  lemma BallocStep(sb: Super, d0: seq<Block>, d: seq<Block>, i: nat, ip: Inode, owner: Owner, bn: nat, b: nat,
      d': seq<Block>)
    requires OnTheWay(sb, d0, d, i, ip, map[], owner) && Allocated(sb, d, b, d')
    requires bn < MAXFILE && BSIZE * bn < ip.size
    requires Slot(sb, I.View(sb, I.Sys(d, map[i := ip], map[], owner), i), i, DataSlot(bn)) == 0
    ensures Next(sb, Alone(d, i, ip, map[], owner), Balloc(i, bn, b, d'), Alone(d', i, ip, map[i := b], owner))
    ensures |d'| == sb.size && OnTheWay(sb, d0, d', i, ip, map[i := b], owner)
  {
    AllocatedSize(sb, d, b, d');
    hide DInode, I.Inv, Slot, Allocated;
    var s, s' := I.Sys(d, map[i := ip], map[], owner), I.Sys(d', map[i := ip], map[i := b], owner);
    assert s'.spare == s.spare[i := b];
    assert I.Next(sb, s, I.Alloc(i, b, d'), s');
    hide I.Next;
    I.StepKeepsExactly(sb, s, I.Alloc(i, b, d'), s');
    I.StepOnDisk(sb, s, I.Alloc(i, b, d'), s');
  }

  lemma AllocatedSize(sb: Super, d: seq<Block>, b: nat, d': seq<Block>)
    requires sb.Valid() && |d| == sb.size && Allocated(sb, d, b, d')
    ensures |d'| == sb.size
  {
  }

  lemma PutStep(sb: Super, d0: seq<Block>, d: seq<Block>, i: nat, ip: Inode, owner: Owner, k: nat, b: Uint)
    requires OnTheWay(sb, d0, d, i, ip, map[i := b as nat], owner) && k <= NDIRECT && ip.addrs[k] == 0 && b < sb.size
    requires BSIZE * k < ip.size
    ensures var ip' := ip.(addrs := ip.addrs[k := b]);
            var step := if k < NDIRECT then PutDirect(i, k) else PutIndirect(i, k);
            && Next(sb, Alone(d, i, ip, map[i := b as nat], owner), step,
                Alone(d, i, ip', map[], owner[b as nat := (i, k)]))
            && OnTheWay(sb, d0, d, i, ip', map[], owner[b as nat := (i, k)])
  {
    hide DInode, I.Inv, Slot;
    var ip' := ip.(addrs := ip.addrs[k := b]);
    var s, s' := I.Sys(d, map[i := ip], map[i := b as nat], owner),
        I.Sys(d, map[i := ip'], map[], owner[b as nat := (i, k)]);
    assert s'.spare == s.spare - {i} && s'.cached == s.cached[i := ip'];
    assert I.Next(sb, s, I.Direct(i, k), s');
    I.StepKeepsExactly(sb, s, I.Direct(i, k), s');
  }

  /** The end: unlocked and forgotten. */
  lemma LeaveSteps(sb: Super, d: seq<Block>, i: nat, ip: Inode, owner: Owner)
    requires sb.Valid() && |d| == sb.size && i < sb.ninodes
    ensures var c := Alone(d, i, ip, map[], owner);
            var c1, c2 := Sys(c.io, map[]), Sys(I.Sys(d, map[], map[], owner), map[]);
            && Next(sb, c, Unlock(i), c1) && Next(sb, c1, Forget(i), c2) && I.Next(sb, c.io, I.Forget(i), c2.io)
  {
    hide DInode, Slot;
    var c := Alone(d, i, ip, map[], owner);
    assert c.held - {i} == map[] && c.io.cached - {i} == map[];
  }

  lemma EntryStep(sb: Super, d0: seq<Block>, d: seq<Block>, i: nat, ip: Inode, owner: Owner, b: Uint, c: Uint)
    requires OnTheWay(sb, d0, d, i, ip, map[i := c as nat], owner) && ip.addrs[NDIRECT] == b && 0 < b < sb.size
             && c < sb.size
    requires BSIZE * NDIRECT < ip.size && Entry(d[b], 0) == 0
    ensures var d', owner' := d[b := FsLayout.PutEntry(d[b], 0, c)], owner[c as nat := (i, NDIRECT + 1)];
            && Next(sb, Alone(d, i, ip, map[i := c as nat], owner), PutEntry(i, NDIRECT),
                Alone(d', i, ip, map[], owner'))
            && OnTheWay(sb, d0, d', i, ip, map[], owner')
  {
    hide DInode, I.Inv, Slot, Entry, FsLayout.PutEntry;
    var d', owner' := d[b := FsLayout.PutEntry(d[b], 0, c)], owner[c as nat := (i, NDIRECT + 1)];
    var s, s' := I.Sys(d, map[i := ip], map[i := c as nat], owner), I.Sys(d', map[i := ip], map[], owner');
    assert s'.spare == s.spare - {i};
    assert I.Next(sb, s, I.Indirect(i, 0), s');
    hide I.Next;
    I.StepKeepsExactly(sb, s, I.Indirect(i, 0), s');
    I.StepOnDisk(sb, s, I.Indirect(i, 0), s');
  }

  /** Inode i of the image lacks address k, which its size needs. */
  ghost predicate Hole(sb: Super, d: seq<Block>, i: nat, k: nat) {
    && sb.Valid() && |d| == sb.size && i < sb.ninodes && k <= NDIRECT
    && BSIZE * k < DInode(sb, d, i).size && DInode(sb, d, i).addrs[k] == 0
  }

  /** A reader goes through the hole: bmap takes block b for address k. */
  lemma ThroughHole(sb: Super, d: seq<Block>, owner: Owner, i: nat, k: nat, b: Uint)
      returns (states: seq<Sys>, steps: seq<Step>, d': seq<Block>)
    requires I.Init(sb, I.Sys(d, map[], map[], owner)) && Hole(sb, d, i, k) && b < sb.size && !Marked(sb, d, b)
    ensures Run(sb, d, owner, states, steps) && |states| == |steps| + 1
    ensures Allocated(sb, d, b, d') && b != 0
    ensures var ip := DInode(sb, d, i);
            var ip', owner' := ip.(addrs := ip.addrs[k := b]), owner[b as nat := (i, k)];
            states[|steps|] == Alone(d', i, ip', map[], owner') && OnTheWay(sb, d, d', i, ip', map[], owner')
  {
    hide I.Init, OnTheWay, Next, Allocated, Marked, DInode, Slot;
    var ip := DInode(sb, d, i);
    LockStep(sb, d, owner, i);
    WaySizes(sb, d, d, i, ip, map[], owner, b);
    HoleSlot(sb, d, i, k, owner);
    d' := CanAlloc(sb, d, b);
    BallocStep(sb, d, d, i, ip, owner, k, b, d');
    PutStep(sb, d, d', i, ip, owner, k, b);
    states, steps := [Sys(I.Sys(d, map[], map[], owner), map[])], [];
    states, steps := Extend(sb, d, owner, states, steps, Lock(i), Alone(d, i, ip, map[], owner));
    states, steps := Extend(sb, d, owner, states, steps, Balloc(i, k, b, d'),
        Alone(d', i, ip, map[i := b as nat], owner));
    states, steps := Extend(sb, d, owner, states, steps, if k < NDIRECT then PutDirect(i, k) else PutIndirect(i, k),
                            Alone(d', i, ip.(addrs := ip.addrs[k := b]), map[], owner[b as nat := (i, k)]));
  }

  lemma WaySizes(sb: Super, d0: seq<Block>, d: seq<Block>, i: nat, ip: Inode, spare: map<nat, nat>, owner: Owner,
      b: nat)
    requires OnTheWay(sb, d0, d, i, ip, spare, owner) && b < sb.size && !Marked(sb, d, b)
    ensures sb.DataStart() <= b && 0 < b
  {
    hide I.Inv;
    I.MarkedBelow(sb, I.Sys(d, map[i := ip], spare, owner), i, b);
  }

  lemma HoleSlot(sb: Super, d: seq<Block>, i: nat, k: nat, owner: Owner)
    requires Hole(sb, d, i, k)
    ensures k < MAXFILE
    ensures Slot(sb, I.View(sb, I.Sys(d, map[i := DInode(sb, d, i)], map[], owner), i), i, DataSlot(k)) == 0
  {
    hide DInode, Entry;
  }

  /** If it was the indirect block, bmap takes another block for its first entry. */
  lemma ThroughIndirect(sb: Super, d: seq<Block>, owner: Owner, i: nat, b: Uint, c: Uint)
      returns (states: seq<Sys>, steps: seq<Step>, d': seq<Block>, owner': Owner)
    requires I.Init(sb, I.Sys(d, map[], map[], owner)) && Hole(sb, d, i, NDIRECT)
    requires b < sb.size && c < sb.size && b != c && !Marked(sb, d, b) && !Marked(sb, d, c)
    ensures Run(sb, d, owner, states, steps) && |states| == |steps| + 1 && b != 0
    ensures var ip := DInode(sb, d, i);
            var ip' := ip.(addrs := ip.addrs[NDIRECT := b]);
            states[|steps|] == Alone(d', i, ip', map[], owner') && OnTheWay(sb, d, d', i, ip', map[], owner')
  {
    hide I.Init, OnTheWay, Next, Marked, DInode, Slot, Entry, FsLayout.PutEntry;
    var d1;
    states, steps, d1 := ThroughHole(sb, d, owner, i, NDIRECT, b);
    var ip := DInode(sb, d, i);
    var ip1, owner1 := ip.(addrs := ip.addrs[NDIRECT := b]), owner[b as nat := (i, NDIRECT)];
    EmptyIndirect(sb, d, b, d1, i, ip1, owner1);
    WaySizes(sb, d, d1, i, ip1, map[], owner1, c);
    var d2 := CanAlloc(sb, d1, c);
    BallocStep(sb, d, d1, i, ip1, owner1, NDIRECT, c, d2);
    NotBitmap(sb, d, d1, i, ip1, owner1, b);
    EntryStep(sb, d, d2, i, ip1, owner1, b, c);
    d', owner' := d2[b := FsLayout.PutEntry(d2[b], 0, c)], owner1[c as nat := (i, NDIRECT + 1)];
    states, steps := Extend(sb, d, owner, states, steps, Balloc(i, NDIRECT, c, d2),
        Alone(d2, i, ip1, map[i := c as nat], owner1));
    states, steps := Extend(sb, d, owner, states, steps, PutEntry(i, NDIRECT), Alone(d', i, ip1, map[], owner'));
  }

  lemma EmptyIndirect(sb: Super, d: seq<Block>, b: Uint, d': seq<Block>, i: nat, ip: Inode, owner: Owner)
    requires sb.Valid() && |d| == sb.size && Allocated(sb, d, b, d') && i < sb.ninodes && ip.addrs[NDIRECT] == b
    ensures |d'| == sb.size && b < sb.size && Entry(d'[b], 0) == 0
    ensures Slot(sb, I.View(sb, I.Sys(d', map[i := ip], map[], owner), i), i, DataSlot(NDIRECT)) == 0
  {
    hide DInode, Marked;
    assert Entry(d'[b], 0) == 0;
    hide Entry;
  }

  lemma NotBitmap(sb: Super, d0: seq<Block>, d: seq<Block>, i: nat, ip: Inode, owner: Owner, b: Uint)
    requires OnTheWay(sb, d0, d, i, ip, map[], owner) && ip.addrs[NDIRECT] == b && 0 < b < sb.size
    ensures sb.DataStart() <= b
  {
    var s := I.Sys(d, map[i := ip], map[], owner);
    I.OwnedFrom(sb, s, i);
    hide I.Inv, Marked, DInode, Entry;
    OwnIndirect(sb, I.View(sb, s, i), owner, {}, 0);
  }

  /** On an image with a hole there is a run that reads through it, after which the block that bmap took
      is marked in the bitmap and nobody has it. */
  lemma LostInHole(sb: Super, d: seq<Block>, owner: Owner, i: nat, k: nat, b: Uint, c: Uint)
      returns (states: seq<Sys>, steps: seq<Step>)
    requires I.Init(sb, I.Sys(d, map[], map[], owner)) && Hole(sb, d, i, k)
    requires b < sb.size && c < sb.size && b != c && !Marked(sb, d, b) && !Marked(sb, d, c)
    ensures Run(sb, d, owner, states, steps) && |states| == |steps| + 1
    ensures Lost(sb, states[|steps|].io, b) && !I.Inv(sb, states[|steps|].io)
  {
    hide I.Init, OnTheWay, Next, Marked, DInode, Lost, I.Inv, Allocated;
    var d', owner';
    if k < NDIRECT {
      states, steps, d' := ThroughHole(sb, d, owner, i, k, b);
      owner' := owner[b as nat := (i, k)];
    } else {
      states, steps, d', owner' := ThroughIndirect(sb, d, owner, i, b, c);
    }
    var ip := DInode(sb, d, i).(addrs := DInode(sb, d, i).addrs[k := b]);
    var s, s' := I.Sys(d', map[i := ip], map[], owner'), I.Sys(d', map[], map[], owner');
    AheadFrom(sb, d, d', i, ip, owner', k, b);
    LeaveSteps(sb, d', i, ip, owner');
    ForgetLosesBlock(sb, s, i, k, b, s');
    LostBreaks(sb, s, i, k, b, s');
    states, steps := Extend(sb, d, owner, states, steps, Unlock(i), Sys(s, map[]));
    states, steps := Extend(sb, d, owner, states, steps, Forget(i), Sys(s', map[]));
  }

  lemma AheadFrom(sb: Super, d: seq<Block>, d': seq<Block>, i: nat, ip: Inode, owner: Owner, k: nat, b: Uint)
    requires OnTheWay(sb, d, d', i, ip, map[], owner) && Hole(sb, d, i, k) && b != 0
    requires ip == DInode(sb, d, i).(addrs := DInode(sb, d, i).addrs[k := b])
    ensures |d'| == sb.size && sb.Valid() && Ahead(sb, I.Sys(d', map[i := ip], map[], owner), i, k, b)
  {
    hide DInode, I.Inv;
  }

  lemma LostBreaks(sb: Super, s: I.Sys, i: nat, k: nat, b: Uint, s': I.Sys)
    requires Ahead(sb, s, i, k, b) && I.Next(sb, s, I.Forget(i), s')
    ensures !I.Inv(sb, s')
  {
    hide DInode, I.Inv;
    I.StepKeepsExactly(sb, s, I.Forget(i), s');
  }

  /** In no run over the image is a block lost, or owned twice. */
  ghost predicate AlwaysOwned(sb: Super, d: seq<Block>, owner: Owner) {
    forall states: seq<Sys>, steps: seq<Step> ::
      Run(sb, d, owner, states, steps) ==> I.Inv(sb, states[|steps|].io)
  }

  /** Every run of reads and writes keeps each block with its one owner if and only if every inode of the
      image has the addresses that its size needs. */
  lemma OwnedExactly(sb: Super, d: seq<Block>, owner: Owner, b: Uint, c: Uint)
    requires I.Init(sb, I.Sys(d, map[], map[], owner))
    requires b < sb.size && c < sb.size && b != c && sb.Valid() && |d| == sb.size && !Marked(sb, d, b)
             && !Marked(sb, d, c)
    ensures AlwaysOwned(sb, d, owner) <==> NoLowHole(sb, d)
  {
    hide I.Init, Next, Marked, DInode, Lost, I.Inv;
    if NoLowHole(sb, d) {
      forall states: seq<Sys>, steps: seq<Step> | Run(sb, d, owner, states, steps)
        ensures I.Inv(sb, states[|steps|].io)
      {
        RunTidy(sb, d, owner, states, steps, |steps|);
      }
    } else {
      var i: nat, k: nat :| i < sb.ninodes && k <= NDIRECT && BSIZE * k < DInode(sb, d, i).size
          && DInode(sb, d, i).addrs[k] == 0;
      var states, steps := LostInHole(sb, d, owner, i, k, b, c);
    }
  }
}

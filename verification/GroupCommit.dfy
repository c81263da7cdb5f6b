/** Group commit over every interleaving of file-system operations, crashes included.

    An operation is everything between one begin_op and its end_op (xv6/log.c). The machine
    below runs any number of them concurrently, one critical section at a time, and may lose
    power at any block write. log_write is two steps: it tests for a full list before it takes
    the lock, and appends under the lock, so that others may append in between. Beside the real log it carries what a
    client should be able to
    rely on: `durable`, the home blocks that survive a power failure now, and `pending`, the
    writes of the operations since the last commit. */
module GroupCommit {
  import opened LogDisk
  import opened Log

  datatype OpWrite = OpWrite(id: nat, bn: int, data: Block)

  /** Whether an operation is between the test and the append of a log_write. */
  datatype Call = Idle | Passed(bn: int)

  /** An active operation and the distinct blocks it has logged so far. */
  datatype Op = Op(id: nat, blocks: set<int>, call: Call)

  datatype Sys = Sys(log: State, ops: seq<Op>, ended: set<nat>, durable: Disk, pending: seq<OpWrite>)

  /** Steps name an active operation by its position in ops. Crash(k, ks): power is lost after k
      of the block writes under way, and then during as many recoveries as ks has entries,
      before one recovery completes. */
  datatype Step =
    | Begin(id: nat)
    | Test(i: nat, bn: int)
    | Append(i: nat, data: Block)
    | End(i: nat)
    | Commit
    | Crash(k: nat, ks: seq<nat>)

  /** The writes of operations, applied in order to the home blocks. */
  function Replay(d: Disk, ws: seq<OpWrite>): (e: Disk)
    ensures |e| == |d|
  {
    if ws == [] then d
    else
      var e, w := Replay(d, ws[..|ws| - 1]), ws[|ws| - 1];
      if 0 <= w.bn < |e| then e[w.bn := w.data] else e
  }

  /** Reserved but unspent log blocks of the active operations. */
  function Unspent(ops: seq<Op>): int {
    if ops == [] then 0 else MAXOPBLOCKS - |ops[0].blocks| + Unspent(ops[1..])
  }

  lemma {:induction false} UnspentSplit(a: seq<Op>, b: seq<Op>)
    ensures Unspent(a + b) == Unspent(a) + Unspent(b)
  {
    if a == [] {
      assert a + b == b;
    } else {
      UnspentSplit(a[1..], b);
      assert (a + b)[1..] == a[1..] + b;
    }
  }

  lemma UnspentFirst(ops: seq<Op>)
    requires ops != []
    ensures Unspent(ops) == MAXOPBLOCKS - |ops[0].blocks| + Unspent(ops[1..])
  {
  }

  lemma UnspentAt(ops: seq<Op>, i: nat)
    requires i < |ops|
    ensures Unspent(ops) == Unspent(ops[..i]) + MAXOPBLOCKS - |ops[i].blocks| + Unspent(ops[i + 1..])
  {
    var rest := ops[i..];
    assert ops == ops[..i] + rest && rest[0] == ops[i] && rest[1..] == ops[i + 1..];
    UnspentSplit(ops[..i], rest);
    UnspentFirst(rest);
    hide Unspent;
  }

  lemma {:induction false} UnspentBound(ops: seq<Op>)
    ensures Unspent(ops) <= MAXOPBLOCKS * |ops|
  {
    if ops != [] {
      UnspentBound(ops[1..]);
    }
  }

  lemma {:induction false} UnspentNonNegative(ops: seq<Op>)
    requires forall i | 0 <= i < |ops| :: |ops[i].blocks| <= MAXOPBLOCKS
    ensures Unspent(ops) >= 0
  {
    if ops != [] {
      UnspentNonNegative(ops[1..]);
    }
  }

  // ---------------------------------------------------------------------------------------
  // The invariant
  // ---------------------------------------------------------------------------------------

  /** Counters and budgets. */
  ghost predicate Budgets(s: Sys) {
    && s.log.outstanding == |s.ops|
    && (s.log.committing ==> s.ops == [])
    && (forall i | 0 <= i < |s.ops| :: s.ops[i].id !in s.ended && |s.ops[i].blocks| <= MAXOPBLOCKS)
    && (forall i, b | 0 <= i < |s.ops| && b in s.ops[i].blocks :: b in s.log.lh)
    && (forall i, j | 0 <= i < j < |s.ops| :: s.ops[i].id != s.ops[j].id)
    && |s.log.lh| + Unspent(s.ops) <= LOGSIZE
  }

  /** The cached view of the home blocks is the durable disk with the pending writes applied. */
  ghost predicate Agrees(lay: Layout, log: State, view: Disk)
    requires lay.HasDisk(log.disk)
  {
    && |view| == lay.total
    && forall bn | lay.IsHome(bn) :: view[bn] == if bn in log.dirty then log.dirty[bn] else log.disk[bn]
  }

  ghost predicate Owned(s: Sys) {
    forall i | 0 <= i < |s.pending| ::
      s.pending[i].id in s.ended || exists j | 0 <= j < |s.ops| :: s.ops[j].id == s.pending[i].id
  }

  /** Who has passed the test is within its budget. */
  ghost predicate Calls(lay: Layout, ops: seq<Op>) {
    forall i | 0 <= i < |ops| && ops[i].call.Passed? ::
      lay.size >= 2 && lay.IsHome(ops[i].call.bn) && |ops[i].blocks + {ops[i].call.bn}| <= MAXOPBLOCKS
  }

  /** What a log that is large enough keeps in every run. */
  ghost predicate Inv(lay: Layout, s: Sys) {
    && Good(lay, s.log)
    && lay.HeadOk(s.log.disk) && lay.Head(s.log.disk) == []
    && Budgets(s) && Calls(lay, s.ops)
    && HomeEq(lay, s.log.disk, s.durable)
    && Agrees(lay, s.log, Replay(s.durable, s.pending))
    && Owned(s)
  }

  // ---------------------------------------------------------------------------------------
  // The steps
  // ---------------------------------------------------------------------------------------

  /** The block writes that the machine is in the middle of. */
  ghost function Underway(lay: Layout, s: State): (ws: seq<Write>)
    requires Good(lay, s)
  {
    AllPinned(lay, s);
    if s.committing then CommitWrites(lay, s.disk, s.lh, s.dirty) else []
  }

  /** The disk that the completing recovery starts from. */
  ghost function CrashDisk(lay: Layout, s: State, k: nat, ks: seq<nat>): Maybe
    requires Good(lay, s) && lay.HeadOk(s.disk) && lay.Head(s.disk) == [] && k <= |Underway(lay, s)|
  {
    AllPinned(lay, s);
    if s.committing then CommitCrashAtomic(lay, s.disk, s.lh, s.dirty, k); Interrupted(lay,
        Apply(s.disk, Underway(lay, s)[..k]), ks)
    else Interrupted(lay, s.disk, ks)
  }

  /** The header of the transaction under way has reached the disk. */
  predicate Committed(s: State, k: nat) {
    s.committing && k > |s.lh|
  }

  ghost predicate Enabled(lay: Layout, s: Sys, step: Step)
    requires Inv(lay, s)
  {
    match step
    case Begin(id) => CanBegin(s.log) && id !in s.ended && forall i | 0 <= i < |s.ops| :: s.ops[i].id != id
    case Test(i, bn) =>
      && i < |s.ops| && s.ops[i].call.Idle? && lay.IsHome(bn)
      && |s.ops[i].blocks + {bn}| <= MAXOPBLOCKS
      && !LogWritePanics(lay, s.log)
    case Append(i, data) => i < |s.ops| && s.ops[i].call.Passed?
    case End(i) => i < |s.ops| && s.ops[i].call.Idle?
    case Commit => s.log.committing
    case Crash(k, ks) => k <= |Underway(lay, s.log)| && CrashDisk(lay, s.log, k, ks).Just?
  }

  /** Operation i has passed the test for bn. */
  function AfterTest(s: Sys, i: nat, bn: int): Sys
    requires i < |s.ops|
  {
    s.(ops := s.ops[i := s.ops[i].(call := Passed(bn))])
  }

  /** Operation i has appended its block. */
  function Appended(s: Sys, i: nat, data: Block): Sys
    requires i < |s.ops| && s.ops[i].call.Passed?
  {
    var op := s.ops[i];
    s.(log := AfterLogWrite(s.log, op.call.bn, data),
       ops := s.ops[i := Op(op.id, op.blocks + {op.call.bn}, Idle)],
       pending := s.pending + [OpWrite(op.id, op.call.bn, data)])
  }

  ghost function Do(lay: Layout, s: Sys, step: Step): Sys
    requires Inv(lay, s) && Enabled(lay, s, step)
  {
    match step
    case Begin(id) => s.(log := AfterBegin(s.log), ops := s.ops + [Op(id, {}, Idle)])
    case Test(i, bn) => AfterTest(s, i, bn)
    case Append(i, data) => Appended(s, i, data)
    case End(i) =>
      s.(log := AfterEnd(s.log), ops := s.ops[..i] + s.ops[i + 1..], ended := s.ended + {s.ops[i].id})
    case Commit =>
      s.(log := AfterCommit(lay, s.log), durable := Replay(s.durable, s.pending), pending := [])
    case Crash(k, ks) =>
      Sys(State(Recovered(lay, CrashDisk(lay, s.log, k, ks).disk), map[], [], 0, false),
          [], s.ended + (set i | 0 <= i < |s.ops| :: s.ops[i].id),
          if Committed(s.log, k) then Replay(s.durable, s.pending) else s.durable, [])
  }

  ghost predicate Init(lay: Layout, s: Sys) {
    && lay.HeadOk(s.durable) && lay.Head(s.durable) == []
    && s == Sys(State(s.durable, map[], [], 0, false), [], {}, s.durable, [])
  }

  /** One step leads from s to s'. A run is followed up to the first state outside Inv, and
      StepKeepsExactly says which step leads there. */
  ghost predicate Next(lay: Layout, s: Sys, step: Step, s': Sys) {
    Inv(lay, s) && Enabled(lay, s, step) && s' == Do(lay, s, step)
  }

  /** A run: the initial state and the states after each of the steps. */
  ghost predicate Run(lay: Layout, states: seq<Sys>, steps: seq<Step>) {
    && |states| == |steps| + 1
    && Init(lay, states[0])
    && forall k | 0 <= k < |steps| :: Next(lay, states[k], steps[k], states[k + 1])
  }

  // ---------------------------------------------------------------------------------------
  // Every step keeps the invariant, but for an append past the end of the log region
  // ---------------------------------------------------------------------------------------

  lemma BeginKeeps(lay: Layout, s: Sys, id: nat)
    requires Inv(lay, s) && Enabled(lay, s, Begin(id))
    ensures Inv(lay, Do(lay, s, Begin(id)))
  {
    var s' := Do(lay, s, Begin(id));
    BeginKeepsBudgets(lay, s, id);
    OwnedKept(s, s');
    hide Owned, Agrees, Budgets, Calls;
  }

  lemma BeginKeepsBudgets(lay: Layout, s: Sys, id: nat)
    requires Budgets(s) && Calls(lay, s.ops) && CanBegin(s.log) && id !in s.ended
    requires forall i | 0 <= i < |s.ops| :: s.ops[i].id != id
    ensures var s' := s.(log := AfterBegin(s.log), ops := s.ops + [Op(id, {}, Idle)]); Budgets(s') && Calls(lay, s'.ops)
  {
    UnspentSplit(s.ops, [Op(id, {}, Idle)]);
    UnspentBound(s.ops);
    var ops' := s.ops + [Op(id, {}, Idle)];
    assert forall j | 0 <= j < |s.ops| :: ops'[j] == s.ops[j];
    hide Unspent;
  }

  /** No operation leaves and nothing is written. */
  lemma OwnedKept(s: Sys, s': Sys)
    requires Owned(s) && s'.ended == s.ended && s'.pending == s.pending
    requires |s.ops| <= |s'.ops| && forall j | 0 <= j < |s.ops| :: s'.ops[j].id == s.ops[j].id
    ensures Owned(s')
  {
    forall k | 0 <= k < |s'.pending| && s'.pending[k].id !in s'.ended
      ensures exists j | 0 <= j < |s'.ops| :: s'.ops[j].id == s'.pending[k].id
    {
      var j :| 0 <= j < |s.ops| && s.ops[j].id == s.pending[k].id;
      assert s'.ops[j].id == s'.pending[k].id;
    }
  }

  lemma UnspentUpdate(ops: seq<Op>, i: nat, op: Op)
    requires i < |ops|
    ensures Unspent(ops[i := op]) == Unspent(ops) + |ops[i].blocks| - |op.blocks|
  {
    UnspentAt(ops, i);
    UnspentAt(ops[i := op], i);
    assert ops[i := op][..i] == ops[..i] && ops[i := op][i + 1..] == ops[i + 1..];
  }

  lemma TestKeeps(lay: Layout, s: Sys, i: nat, bn: int)
    requires Inv(lay, s) && Enabled(lay, s, Test(i, bn))
    ensures Inv(lay, Do(lay, s, Test(i, bn)))
  {
    hide Owned, Agrees, Budgets, Calls, Good;
    TestKeepsBudgets(lay, s, i, bn);
    OwnedKept(s, AfterTest(s, i, bn));
  }

  lemma TestKeepsBudgets(lay: Layout, s: Sys, i: nat, bn: int)
    requires Budgets(s) && Calls(lay, s.ops) && i < |s.ops|
    requires lay.IsHome(bn) && lay.size >= 2 && |s.ops[i].blocks + {bn}| <= MAXOPBLOCKS
    ensures var s' := AfterTest(s, i, bn); Budgets(s') && Calls(lay, s'.ops)
  {
    UnspentUpdate(s.ops, i, AfterTest(s, i, bn).ops[i]);
    hide Unspent;
  }

  lemma AppendKeepsBudgets(lay: Layout, s: Sys, i: nat, data: Block)
    requires Budgets(s) && Calls(lay, s.ops) && i < |s.ops| && s.ops[i].call.Passed?
    ensures var s' := Appended(s, i, data);
            Budgets(s') && Calls(lay, s'.ops) && |s'.log.lh| <= LOGSIZE
  {
    var s', bn := Appended(s, i, data), s.ops[i].call.bn;
    UnspentUpdate(s.ops, i, s'.ops[i]);
    if bn in s.ops[i].blocks {
      assert s.ops[i].blocks + {bn} == s.ops[i].blocks;
    }
    UnspentNonNegative(s'.ops);
    hide Unspent;
    assert forall b | b in s.log.lh :: b in s'.log.lh;
    assert bn in s'.log.lh;
  }

  lemma AppendKeepsView(lay: Layout, s: State, bn: int, data: Block, durable: Disk, pending: seq<OpWrite>, w: OpWrite)
    requires Good(lay, s) && Agrees(lay, s, Replay(durable, pending))
    requires lay.IsHome(bn) && lay.GoodList(AfterLogWrite(s, bn, data).lh) && w.bn == bn && w.data == data
    ensures var s' := AfterLogWrite(s, bn, data);
            Good(lay, s') && Agrees(lay, s', Replay(durable, pending + [w]))
  {
    assert (pending + [w])[..|pending|] == pending;
  }

  lemma AppendKeepsOwned(s: Sys, s': Sys, i: nat, w: OpWrite)
    requires Owned(s) && i < |s.ops| && s'.ended == s.ended
    requires w.id == s.ops[i].id && s'.pending == s.pending + [w]
    requires |s'.ops| == |s.ops| && forall j | 0 <= j < |s.ops| :: s'.ops[j].id == s.ops[j].id
    ensures Owned(s')
  {
    forall k | 0 <= k < |s'.pending|
      ensures s'.pending[k].id in s'.ended || exists j | 0 <= j < |s'.ops| :: s'.ops[j].id == s'.pending[k].id
    {
      if k == |s.pending| {
        assert s'.ops[i].id == s'.pending[k].id;
      } else if s.pending[k].id !in s.ended {
        var j :| 0 <= j < |s.ops| && s.ops[j].id == s.pending[k].id;
        assert s'.ops[j].id == s'.pending[k].id;
      }
    }
  }

  /** An append of a new block to a list that fills the log region. */
  ghost predicate Overruns(lay: Layout, s: Sys, step: Step) {
    && step.Append? && step.i < |s.ops| && s.ops[step.i].call.Passed?
    && s.ops[step.i].call.bn !in s.log.lh && |s.log.lh| >= lay.size - 1
  }

  lemma AppendKeepsExactly(lay: Layout, s: Sys, i: nat, data: Block)
    requires Inv(lay, s) && Enabled(lay, s, Append(i, data))
    ensures Inv(lay, Do(lay, s, Append(i, data))) <==> !Overruns(lay, s, Append(i, data))
  {
    hide Good, Agrees, Owned, Budgets, Replay;
    var bn := s.ops[i].call.bn;
    AppendKeepsBudgets(lay, s, i, data);
    AppendFits(lay, s.log, bn, data);
    hide Calls;
    if !Overruns(lay, s, Append(i, data)) {
      var w := OpWrite(s.ops[i].id, bn, data);
      AppendKeepsView(lay, s.log, bn, data, s.durable, s.pending, w);
      AppendKeepsOwned(s, Appended(s, i, data), i, w);
    }
  }

  lemma AppendFits(lay: Layout, log: State, bn: int, data: Block)
    requires Good(lay, log) && lay.IsHome(bn) && |AfterLogWrite(log, bn, data).lh| <= LOGSIZE
    ensures lay.GoodList(AfterLogWrite(log, bn, data).lh) <==> !(bn !in log.lh && |log.lh| >= lay.size - 1)
    ensures !lay.GoodList(AfterLogWrite(log, bn, data).lh) ==> !Good(lay, AfterLogWrite(log, bn, data))
  {
  }

  lemma EndKeepsBudgets(s: Sys, i: nat)
    requires Budgets(s) && i < |s.ops|
    ensures Budgets(s.(log := AfterEnd(s.log), ops := s.ops[..i] + s.ops[i + 1..], ended := s.ended + {s.ops[i].id}))
  {
    var ops' := s.ops[..i] + s.ops[i + 1..];
    UnspentAt(s.ops, i);
    UnspentSplit(s.ops[..i], s.ops[i + 1..]);
    assert forall j | 0 <= j < |ops'| :: ops'[j] == s.ops[if j < i then j else j + 1];
  }

  lemma EndKeepsOwned(s: Sys, s': Sys, i: nat)
    requires Owned(s) && i < |s.ops| && s'.pending == s.pending
    requires s'.ended == s.ended + {s.ops[i].id} && s'.ops == s.ops[..i] + s.ops[i + 1..]
    ensures Owned(s')
  {
    forall k | 0 <= k < |s'.pending|
      ensures s'.pending[k].id in s'.ended || exists j | 0 <= j < |s'.ops| :: s'.ops[j].id == s'.pending[k].id
    {
      if s.pending[k].id !in s'.ended {
        var j :| 0 <= j < |s.ops| && s.ops[j].id == s.pending[k].id;
        assert s'.ops[if j < i then j else j - 1] == s.ops[j];
      }
    }
  }

  lemma EndKeeps(lay: Layout, s: Sys, i: nat)
    requires Inv(lay, s) && Enabled(lay, s, End(i))
    ensures Inv(lay, Do(lay, s, End(i)))
  {
    EndKeepsBudgets(s, i);
    EndKeepsOwned(s, Do(lay, s, End(i)), i);
  }

  /** A disk whose home blocks are those of the cached view is the durable disk with the pending
      writes applied. */
  lemma InstalledIsReplay(lay: Layout, s: Sys, e: Disk)
    requires Inv(lay, s) && lay.HasDisk(e)
    requires forall i | 0 <= i < |s.log.lh| :: s.log.lh[i] in s.log.dirty
    requires Installed(lay, s.log.disk, s.log.lh, s.log.dirty, e)
    ensures HomeEq(lay, e, Replay(s.durable, s.pending))
  {
  }

  lemma CommitKeeps(lay: Layout, s: Sys)
    requires Inv(lay, s) && Enabled(lay, s, Commit)
    ensures Inv(lay, Do(lay, s, Commit))
  {
    AllPinned(lay, s.log);
    CommitCompletes(lay, s.log.disk, s.log.lh, s.log.dirty);
    InstalledIsReplay(lay, s, AfterCommit(lay, s.log).disk);
  }

  /** Recovery ends with the durable blocks, or with those after the pending writes. */
  lemma RecoversDurable(lay: Layout, s: Sys, k: nat, ks: seq<nat>)
    requires Inv(lay, s) && k <= |Underway(lay, s.log)| && CrashDisk(lay, s.log, k, ks).Just?
    ensures var d := CrashDisk(lay, s.log, k, ks).disk;
            && lay.HeadOk(d) && lay.HeadOk(Recovered(lay, d)) && lay.Head(Recovered(lay, d)) == []
            && HomeEq(lay, Recovered(lay, d), if Committed(s.log, k) then Replay(s.durable, s.pending) else s.durable)
  {
    hide Replay, Owned, Budgets, Calls;
    AllPinned(lay, s.log);
    if s.log.committing {
      CommitCrashTheorem(lay, s.log.disk, s.log.lh, s.log.dirty, k, ks);
      if Committed(s.log, k) {
        InstalledIsReplay(lay, s, Recovered(lay, CrashDisk(lay, s.log, k, ks).disk));
      }
    } else {
      RecoveredMeaning(lay, s.log.disk);
      RecoveredMeaning(lay, CrashDisk(lay, s.log, k, ks).disk);
    }
  }

  /** The machine after recovery. */
  lemma BlankInv(lay: Layout, durable: Disk, disk: Disk, ended: set<nat>)
    requires lay.HeadOk(disk) && lay.Head(disk) == [] && HomeEq(lay, disk, durable)
    ensures Inv(lay, Sys(State(disk, map[], [], 0, false), [], ended, durable, []))
  {
    var none: map<int, Block> := map[];
    assert forall bn | lay.IsHome(bn) :: bn !in none;
  }

  lemma CrashKeeps(lay: Layout, s: Sys, k: nat, ks: seq<nat>)
    requires Inv(lay, s) && Enabled(lay, s, Crash(k, ks))
    ensures Inv(lay, Do(lay, s, Crash(k, ks)))
  {
    RecoversDurable(lay, s, k, ks);
    hide Underway, CrashDisk, Recovered, Committed, Good, Agrees, Budgets, Calls, Owned;
    var s' := Do(lay, s, Crash(k, ks));
    BlankInv(lay, s'.durable, s'.log.disk, s'.ended);
  }

  /** Every step of every interleaving keeps the invariant, except exactly an append of a new block
      when the list fills the log region already. */
  lemma StepKeepsExactly(lay: Layout, s: Sys, step: Step)
    requires Inv(lay, s) && Enabled(lay, s, step)
    ensures Inv(lay, Do(lay, s, step)) <==> !Overruns(lay, s, step)
  {
    match step
    case Begin(id) => BeginKeeps(lay, s, id);
    case Test(i, bn) => TestKeeps(lay, s, i, bn);
    case Append(i, data) => AppendKeepsExactly(lay, s, i, data);
    case End(i) => EndKeeps(lay, s, i);
    case Commit => CommitKeeps(lay, s);
    case Crash(k, ks) => CrashKeeps(lay, s, k, ks);
  }

  /** With a block beside the header for each that begin_op reserves, or with none at all, no
      append goes past the end. */
  lemma NeverOverruns(lay: Layout, s: Sys, step: Step)
    requires Inv(lay, s) && (lay.size >= LOGSIZE + 1 || lay.size == 1)
    ensures !Overruns(lay, s, step)
  {
    if step.Append? && step.i < |s.ops| && s.ops[step.i].call.Passed? {
      AppendKeepsBudgets(lay, s, step.i, step.data);
    }
  }

  /** The list has fitted the log region up to here. */
  ghost predicate Fitted(lay: Layout, states: seq<Sys>, steps: seq<Step>, k: nat)
    requires |states| == |steps| + 1
  {
    lay.size >= LOGSIZE + 1 || forall j | 0 <= j < k && j < |steps| :: !Overruns(lay, states[j], steps[j])
  }

  /** Every state of every run satisfies the invariant: committing only while no operation is
      active, distinct logged blocks, log space for every reservation, and a cache that is the
      durable disk plus the pending writes. In a log region of at most LOGSIZE blocks this
      lasts until an append goes past its end. */
  lemma {:induction false} RunSafe(lay: Layout, states: seq<Sys>, steps: seq<Step>, k: nat)
    requires Run(lay, states, steps) && k < |states| && Fitted(lay, states, steps, k)
    ensures Inv(lay, states[k])
    decreases k
  {
    if k > 0 {
      assert Next(lay, states[k - 1], steps[k - 1], states[k]);
      hide Inv, Do, Enabled;
      if lay.size >= LOGSIZE + 1 {
        NeverOverruns(lay, states[k - 1], steps[k - 1]);
      }
      StepKeepsExactly(lay, states[k - 1], steps[k - 1]);
    } else {
      BlankInv(lay, states[0].durable, states[0].durable, {});
    }
  }

  /** No write is left behind: with no operation active and no commit under way, all that was ever written is durable
      and the list is empty. */
  lemma {:induction false} AllDurable(lay: Layout, states: seq<Sys>, steps: seq<Step>, k: nat)
    requires Run(lay, states, steps) && k < |states|
    ensures states[k].ops == [] && !states[k].log.committing ==> states[k].pending == [] && states[k].log.lh == []
    decreases k
  {
    if k > 0 {
      AllDurable(lay, states, steps, k - 1);
      assert Next(lay, states[k - 1], steps[k - 1], states[k]);
      hide Agrees, Owned, Calls, Replay, Underway, CrashDisk;
    }
  }

  /** What the log knows of the active operations: how many there are, and that each has logged blocks of the list,
      within its budget. */
  ghost predicate Consistent(s: State, ops: seq<Op>) {
    && |ops| == s.outstanding
    && forall i | 0 <= i < |ops| :: |ops[i].blocks| <= MAXOPBLOCKS && forall b | b in ops[i].blocks :: b in s.lh
  }

  lemma {:induction false} UnspentFresh(ops: seq<Op>)
    requires forall i | 0 <= i < |ops| :: ops[i].blocks == {}
    ensures Unspent(ops) == MAXOPBLOCKS * |ops|
  {
    if ops != [] { UnspentFresh(ops[1..]); }
  }

  /** begin_op lets an operation in exactly if no commit runs and the log can be sure of the space: whatever the
      active operations have logged, what is left of their budgets and that of the new one fits. */
  lemma BeginExactly(s: State)
    requires s.outstanding >= 0
    ensures CanBegin(s) <==>
            && !s.committing
            && forall ops: seq<Op> | Consistent(s, ops) :: |s.lh| + Unspent(ops) + MAXOPBLOCKS <= LOGSIZE
  {
    if CanBegin(s) {
      forall ops: seq<Op> | Consistent(s, ops) ensures |s.lh| + Unspent(ops) + MAXOPBLOCKS <= LOGSIZE {
        UnspentBound(ops);
      }
    } else if !s.committing {
      var ops := seq(s.outstanding, _ => Op(0, {}, Idle));
      UnspentFresh(ops);
      assert Consistent(s, ops);
    }
  }

  /** It is careful beyond need: with 20 blocks listed and one operation that has spent its budget, there is room
      for another, but begin_op does not know and refuses. */
  lemma RefusedWithRoom(lh: seq<int>, d: Disk) returns (s: State, op: Op)
    requires |lh| == 20 && forall i, j | 0 <= i < j < |lh| :: lh[i] != lh[j]
    ensures s.lh == lh && !s.committing && Consistent(s, [op]) && !CanBegin(s)
    ensures |s.lh| + Unspent([op]) + MAXOPBLOCKS <= LOGSIZE
  {
    var mine := FirstTen(lh, 10);
    op := Op(0, mine, Idle);
    s := State(d, map[], lh, 1, false);
    assert forall b | b in mine :: b in lh;
    assert |[op]| == 1 && [op][0] == op && Consistent(s, [op]);
    assert Unspent([op]) == MAXOPBLOCKS - |mine| + Unspent([]);
  }

  lemma {:induction false} FirstTen(lh: seq<int>, k: nat) returns (bs: set<int>)
    requires k <= |lh| && forall i, j | 0 <= i < j < |lh| :: lh[i] != lh[j]
    ensures |bs| == k && forall b | b in bs :: b in lh[..k]
    decreases k
  {
    if k == 0 {
      bs := {};
    } else {
      var rest := FirstTen(lh, k - 1);
      assert lh[..k] == lh[..k - 1] + [lh[k - 1]];
      forall b | b in rest ensures b != lh[k - 1] {
        assert b in lh[..k - 1];
        var i :| 0 <= i < k - 1 && lh[i] == b;
      }
      bs := rest + {lh[k - 1]};
    }
  }

  /** The client's view of a power failure at any point of any run: the home blocks come back as
      the durable disk, or, if the transaction's header had been written, as the durable disk
      with every pending write; and every one of those writes then belongs to an operation
      that had ended. */
  lemma CrashTheorem(lay: Layout, states: seq<Sys>, steps: seq<Step>, m: nat, k: nat, ks: seq<nat>)
    requires Run(lay, states, steps) && m < |states| && Fitted(lay, states, steps, m)
    ensures Inv(lay, states[m])
    ensures var s := states[m];
            k <= |Underway(lay, s.log)| && CrashDisk(lay, s.log, k, ks).Just? ==>
              var r := Recovered(lay, CrashDisk(lay, s.log, k, ks).disk);
              if Committed(s.log, k)
              then HomeEq(lay, r, Replay(s.durable, s.pending))
                   && forall i | 0 <= i < |s.pending| :: s.pending[i].id in s.ended
              else HomeEq(lay, r, s.durable)
  {
    hide Next, Init, Recovered, Underway, CrashDisk, Agrees;
    RunSafe(lay, states, steps, m);
    var s := states[m];
    if k <= |Underway(lay, s.log)| && CrashDisk(lay, s.log, k, ks).Just? {
      RecoversDurable(lay, s, k, ks);
    }
  }

  // ---------------------------------------------------------------------------------------
  // What mkfs's log of LOGSIZE blocks is too small for
  // ---------------------------------------------------------------------------------------

  /** Operation i of s may log bn within its budget of distinct blocks, and has not logged it. */
  ghost predicate FreshPut(lay: Layout, s: Sys, i: nat, bn: int) {
    && i < |s.ops| && s.ops[i].call.Idle? && lay.IsHome(bn)
    && bn !in s.ops[i].blocks && |s.ops[i].blocks| < MAXOPBLOCKS
  }

  /** No run reaches a state where an operation that keeps to its budget panics on a new block. */
  ghost predicate ReservationSuffices(lay: Layout) {
    forall states: seq<Sys>, steps: seq<Step>, i: nat, bn: int ::
      Run(lay, states, steps) && FreshPut(lay, states[|steps|], i, bn) ==> !LogWritePanics(lay, states[|steps|].log)
  }

  /** In no run is the list longer than the log region has blocks for copies. */
  ghost predicate ListFits(lay: Layout) {
    forall states: seq<Sys>, steps: seq<Step> ::
      Run(lay, states, steps) ==> |states[|steps|].log.lh| <= lay.size - 1
  }

  /** With room for LOGSIZE blocks beside the header, a new block never panics, and logging a
      block again panics exactly when the header is full, absorption notwithstanding. */
  lemma PanicExactly(lay: Layout, s: Sys, i: nat, bn: int)
    requires Inv(lay, s) && lay.size >= LOGSIZE + 1 && i < |s.ops|
    ensures FreshPut(lay, s, i, bn) ==> !LogWritePanics(lay, s.log)
    ensures LogWritePanics(lay, s.log) <==> |s.log.lh| == LOGSIZE
  {
    UnspentAt(s.ops, i);
    UnspentNonNegative(s.ops[..i]);
    UnspentNonNegative(s.ops[i + 1..]);
    UnspentNonNegative(s.ops);
  }

  /** Three operations have logged the first k of bs in turn. */
  ghost predicate Filled(s: Sys, bs: seq<int>, k: nat)
    requires k <= |bs|
  {
    && |s.ops| == 3 && s.log.outstanding == 3 && s.log.lh == bs[..k]
    && (k > 0 ==> bs[0] in s.ops[0].blocks)
    && forall j | 0 <= j < 3 :: s.ops[j].call.Idle? && |s.ops[j].blocks| == (k + 2 - j) / 3
  }

  /** LOGSIZE home blocks. */
  ghost predicate Homes(lay: Layout, bs: seq<int>) {
    && |bs| == LOGSIZE && (forall i | 0 <= i < |bs| :: lay.IsHome(bs[i]))
    && (forall i, j | 0 <= i < j < |bs| :: bs[i] != bs[j])
  }

  lemma RunExtend(lay: Layout, states: seq<Sys>, steps: seq<Step>, step: Step)
      returns (states': seq<Sys>, steps': seq<Step>)
    requires Run(lay, states, steps) && Inv(lay, states[|steps|]) && Enabled(lay, states[|steps|], step)
    ensures Run(lay, states', steps') && |steps'| == |steps| + 1
    ensures states'[|steps'|] == Do(lay, states[|steps|], step)
    ensures Inv(lay, states'[|steps'|]) <==> !Overruns(lay, states[|steps|], step)
  {
    hide Inv, Init, Enabled, Do, Overruns;
    StepKeepsExactly(lay, states[|steps|], step);
    var s' := Do(lay, states[|steps|], step);
    RunLonger(lay, states, steps, step, s');
    states', steps' := states + [s'], steps + [step];
  }

  lemma RunLonger(lay: Layout, states: seq<Sys>, steps: seq<Step>, step: Step, s': Sys)
    requires Run(lay, states, steps) && Next(lay, states[|steps|], step, s')
    ensures Run(lay, states + [s'], steps + [step])
  {
    hide Next, Init;
    var states', steps' := states + [s'], steps + [step];
    assert forall k | 0 <= k < |states| :: states'[k] == states[k];
    assert forall k | 0 <= k < |steps| :: steps'[k] == steps[k];
  }

  lemma RunTest(lay: Layout, states: seq<Sys>, steps: seq<Step>, i: nat, bn: int)
      returns (states': seq<Sys>, steps': seq<Step>)
    requires Run(lay, states, steps) && Inv(lay, states[|steps|]) && Enabled(lay, states[|steps|], Test(i, bn))
    ensures Run(lay, states', steps') && i < |states[|steps|].ops|
    ensures var s := states[|steps|];
            states'[|steps'|] == AfterTest(s, i, bn) && Inv(lay, states'[|steps'|])
  {
    states', steps' := RunExtend(lay, states, steps, Test(i, bn));
  }

  lemma RunAppend(lay: Layout, states: seq<Sys>, steps: seq<Step>, i: nat, data: Block)
      returns (states': seq<Sys>, steps': seq<Step>)
    requires Run(lay, states, steps) && Inv(lay, states[|steps|])
    requires i < |states[|steps|].ops| && states[|steps|].ops[i].call.Passed?
    ensures Run(lay, states', steps') && states'[|steps'|] == Appended(states[|steps|], i, data)
    ensures Inv(lay, states'[|steps'|]) <==> !Overruns(lay, states[|steps|], Append(i, data))
  {
    states', steps' := RunExtend(lay, states, steps, Append(i, data));
  }

  lemma RunBegin(lay: Layout, states: seq<Sys>, steps: seq<Step>, id: nat)
      returns (states': seq<Sys>, steps': seq<Step>)
    requires Run(lay, states, steps) && Inv(lay, states[|steps|]) && states[|steps|].ended == {}
    requires CanBegin(states[|steps|].log)
    requires forall j | 0 <= j < |states[|steps|].ops| :: states[|steps|].ops[j].id != id
    ensures Run(lay, states', steps') && Inv(lay, states'[|steps'|])
    ensures var s := states[|steps|];
            states'[|steps'|] == s.(log := AfterBegin(s.log), ops := s.ops + [Op(id, {}, Idle)])
  {
    states', steps' := RunExtend(lay, states, steps, Begin(id));
  }

  lemma FillStart(lay: Layout, d: Disk, bs: seq<int>) returns (states: seq<Sys>, steps: seq<Step>)
    requires lay.HeadOk(d) && lay.Head(d) == []
    ensures Run(lay, states, steps) && Inv(lay, states[|steps|]) && Filled(states[|steps|], bs, 0)
  {
    hide Inv, Next, lay.HeadOk;
    states, steps := [Sys(State(d, map[], [], 0, false), [], {}, d, [])], [];
    RunSafe(lay, states, steps, 0);
    hide Init;
    states, steps := RunBegin(lay, states, steps, 0);
    states, steps := RunBegin(lay, states, steps, 1);
    states, steps := RunBegin(lay, states, steps, 2);
  }

  /** Whose turn it is can log the next block. */
  lemma FillNew(lay: Layout, s: Sys, bs: seq<int>, k: nat, m: nat, j: nat)
    requires Homes(lay, bs) && k <= m < LOGSIZE && Budgets(s) && Filled(s, bs, k)
    requires j < 3 && (k + 2 - j) / 3 < MAXOPBLOCKS
    ensures FreshPut(lay, s, j, bs[m]) && |s.ops[j].blocks + {bs[m]}| == (k + 2 - j) / 3 + 1 && bs[m] !in s.log.lh
  {
    assert forall b | b in s.ops[j].blocks :: b in bs[..k];
    assert bs[m] !in bs[..k];
  }

  /** A log_write that the budget and the log have room for passes the test. */
  lemma TestPasses(lay: Layout, s: Sys, i: nat, bn: int)
    requires Inv(lay, s) && FreshPut(lay, s, i, bn)
    requires |s.log.lh| < LOGSIZE && |s.log.lh| < lay.size - 1 && s.log.outstanding >= 1
    ensures Enabled(lay, s, Test(i, bn))
  {
    hide Inv;
  }

  lemma InvBudgets(lay: Layout, s: Sys)
    requires Inv(lay, s)
    ensures Budgets(s)
  {
  }

  lemma FillAppend(s: Sys, bs: seq<int>, k: nat, data: Block)
    requires k < |bs| && Filled(s, bs, k) && bs[k] !in s.log.lh && bs[k] !in s.ops[k % 3].blocks
    ensures Filled(Appended(AfterTest(s, k % 3, bs[k]), k % 3, data), bs, k + 1)
  {
    assert bs[..k + 1] == bs[..k] + [bs[k]];
    var j := k % 3;
    assert |s.ops[j].blocks + {bs[k]}| == |s.ops[j].blocks| + 1;
  }

  /** One log_write that nobody comes in between of. */
  lemma FillStep(lay: Layout, states: seq<Sys>, steps: seq<Step>, bs: seq<int>, k: nat, data: Block)
      returns (states': seq<Sys>, steps': seq<Step>)
    requires Homes(lay, bs) && k < LOGSIZE && k < lay.size - 1
    requires Run(lay, states, steps) && Inv(lay, states[|steps|]) && Filled(states[|steps|], bs, k)
    ensures Run(lay, states', steps') && Inv(lay, states'[|steps'|]) && Filled(states'[|steps'|], bs, k + 1)
  {
    hide Next, Init, Inv, Filled, Enabled, Do, Overruns, Appended, Budgets;
    var s := states[|steps|];
    InvBudgets(lay, s);
    FilledFacts(s, bs, k);
    FillNew(lay, s, bs, k, k, k % 3);
    TestPasses(lay, s, k % 3, bs[k]);
    FillAppend(s, bs, k, data);
    assert !Overruns(lay, AfterTest(s, k % 3, bs[k]), Append(k % 3, data)) by { FitsYet(lay, AfterTest(s, k % 3,
        bs[k]), k % 3, data); }
    states', steps' := RunTest(lay, states, steps, k % 3, bs[k]);
    states', steps' := RunAppend(lay, states', steps', k % 3, data);
  }

  lemma {:induction false} Fill(lay: Layout, d: Disk, bs: seq<int>, k: nat) returns (states: seq<Sys>, steps: seq<Step>)
    requires lay.HeadOk(d) && lay.Head(d) == [] && Homes(lay, bs)
    requires k <= lay.size - 1 && k <= LOGSIZE
    ensures Run(lay, states, steps) && Inv(lay, states[|steps|]) && Filled(states[|steps|], bs, k)
    decreases k
  {
    hide Inv, Run, Filled, Homes;
    if k == 0 {
      states, steps := FillStart(lay, d, bs);
    } else {
      states, steps := Fill(lay, d, bs, k - 1);
      states, steps := FillStep(lay, states, steps, bs, k - 1, d[0]);
    }
  }

  lemma FilledFacts(s: Sys, bs: seq<int>, k: nat)
    requires k <= |bs| && Filled(s, bs, k)
    ensures |s.ops| == 3 && s.log.outstanding == 3 && s.log.lh == bs[..k] && |s.log.lh| == k
    ensures forall j | 0 <= j < 3 :: s.ops[j].call.Idle?
  {
  }

  lemma FitsYet(lay: Layout, s: Sys, i: nat, data: Block)
    requires |s.log.lh| < lay.size - 1
    ensures !Overruns(lay, s, Append(i, data))
  {
  }

  /** Both appends add a block. */
  lemma BothAppend(s: Sys, i: nat, b: int, j: nat, c: int, data: Block)
    requires i < |s.ops| && j < |s.ops| && i != j && b !in s.log.lh && c !in s.log.lh && b != c
    ensures var s1 := AfterTest(s, i, b);
            var s2 := AfterTest(s1, j, c);
            && s2.ops[i].call == Passed(b) && s2.log == s1.log == s.log
            && |Appended(s2, i, data).ops| == |s.ops| && Appended(s2, i, data).ops[j].call == Passed(c)
            && Appended(Appended(s2, i, data), j, data).log.lh == s.log.lh + [b, c]
  {
  }

  /** Two operations pass the test when there is room for one block, and both append. */
  lemma Overfill(lay: Layout, d: Disk, bs: seq<int>) returns (states: seq<Sys>, steps: seq<Step>)
    requires lay.HeadOk(d) && lay.Head(d) == [] && Homes(lay, bs) && 2 <= lay.size <= LOGSIZE
    ensures Run(lay, states, steps) && |bs| == LOGSIZE && states[|steps|].log.lh == bs[..lay.size]
  {
    hide Next, Init, Inv, Filled, Enabled, Do, Overruns, Budgets, Appended, Homes, FreshPut, Run;
    var k := lay.size - 2;
    var i, j := k % 3, (k + 1) % 3;
    states, steps := Fill(lay, d, bs, k);
    RunLength(lay, states, steps);
    var s := states[|steps|];
    InvBudgets(lay, s);
    HomesDiffer(lay, bs, k);
    FilledFacts(s, bs, k);
    FillNew(lay, s, bs, k, k, i);
    FillNew(lay, s, bs, k, k + 1, j);
    states, steps := BothPass(lay, states, steps, i, bs[k], j, bs[k + 1], d[0]);
    assert bs[..k] + [bs[k], bs[k + 1]] == bs[..k + 2];
  }

  lemma RunLength(lay: Layout, states: seq<Sys>, steps: seq<Step>)
    requires Run(lay, states, steps)
    ensures |states| == |steps| + 1
  {
  }

  lemma BothPass(lay: Layout, states0: seq<Sys>, steps0: seq<Step>, i: nat, b: int, j: nat, c: int, data: Block)
      returns (states: seq<Sys>, steps: seq<Step>)
    requires Run(lay, states0, steps0) && Inv(lay, states0[|steps0|]) && i != j && b != c
    requires var s := states0[|steps0|];
             && i < |s.ops| && j < |s.ops| && FreshPut(lay, s, i, b) && FreshPut(lay, s, j, c)
             && b !in s.log.lh && c !in s.log.lh && s.log.outstanding >= 1
             && |s.log.lh| + 2 == lay.size && |s.log.lh| < LOGSIZE
    ensures Run(lay, states, steps) && |states| == |steps| + 1
    ensures states[|steps|].log.lh == states0[|steps0|].log.lh + [b, c]
  {
    var s := states0[|steps0|];
    var s1 := AfterTest(s, i, b);
    BothAppend(s, i, b, j, c, data);
    assert FreshPut(lay, s1, j, c);
    hide Next, Init, Inv, Enabled, Do, Overruns, Appended, FreshPut, AfterTest;
    TestPasses(lay, s, i, b);
    states, steps := RunTest(lay, states0, steps0, i, b);
    TestPasses(lay, s1, j, c);
    states, steps := RunTest(lay, states, steps, j, c);
    FitsYet(lay, states[|steps|], i, data);
    states, steps := RunAppend(lay, states, steps, i, data);
    states, steps := RunAppend(lay, states, steps, j, data);
  }

  lemma HomesDiffer(lay: Layout, bs: seq<int>, k: nat)
    requires Homes(lay, bs) && k + 1 < LOGSIZE
    ensures |bs| == LOGSIZE && bs[k] != bs[k + 1]
  {
  }

  /** The list fits the log region in every run if and only if the region has a block beside the
      header for each that begin_op reserves, or none at all. In the LOGSIZE blocks of mkfs
      (xv6/mkfs.c) an overfull list has a block more than the region has copies for; what its
      commit comes to, CommitBuffers says. */
  lemma ListFitsExactly(lay: Layout, d: Disk, bs: seq<int>)
    requires lay.HeadOk(d) && lay.Head(d) == [] && Homes(lay, bs)
    ensures ListFits(lay) <==> lay.size >= LOGSIZE + 1 || lay.size == 1
  {
    if lay.size >= LOGSIZE + 1 || lay.size == 1 {
      forall states: seq<Sys>, steps: seq<Step> | Run(lay, states, steps)
        ensures |states[|steps|].log.lh| <= lay.size - 1
      {
        forall j | 0 <= j < |steps| ensures !Overruns(lay, states[j], steps[j]) {
          assert Next(lay, states[j], steps[j], states[j + 1]);
          NeverOverruns(lay, states[j], steps[j]);
        }
        RunSafe(lay, states, steps, |steps|);
      }
    } else {
      var states, steps := Overfill(lay, d, bs);
    }
  }

  /** begin_op's reservation keeps operations within their budgets from ever seeing "too big a
      transaction" on a new block exactly when the log region has a block more than LOGSIZE.
      mkfs makes it LOGSIZE blocks (xv6/mkfs.c), one too few. */
  lemma ReservationExact(lay: Layout, d: Disk, bs: seq<int>)
    requires lay.HeadOk(d) && lay.Head(d) == [] && Homes(lay, bs)
    ensures ReservationSuffices(lay) <==> lay.size >= LOGSIZE + 1
  {
    if lay.size >= LOGSIZE + 1 {
      forall states: seq<Sys>, steps: seq<Step>, i: nat, bn: int | Run(lay, states, steps)
          && FreshPut(lay, states[|steps|], i, bn)
        ensures !LogWritePanics(lay, states[|steps|].log)
      {
        RunSafe(lay, states, steps, |steps|);
        PanicExactly(lay, states[|steps|], i, bn);
      }
    } else {
      var k := lay.size - 1;
      var states, steps := Fill(lay, d, bs, k);
      FillNew(lay, states[|steps|], bs, k, k, k % 3);
      assert FreshPut(lay, states[|steps|], k % 3, bs[k]);
    }
  }

  /** In a log of any size, a run in which an operation within its budget logs one of its own
      blocks again and panics: the test for a full list comes before absorption. */
  lemma AgainPanics(lay: Layout, d: Disk, bs: seq<int>) returns (states: seq<Sys>, steps: seq<Step>, i: nat, bn: int)
    requires lay.HeadOk(d) && lay.Head(d) == [] && Homes(lay, bs) && lay.size >= 2
    ensures Run(lay, states, steps) && Inv(lay, states[|steps|])
    ensures var s := states[|steps|];
            && i < |s.ops| && s.ops[i].call.Idle? && bn in s.ops[i].blocks && bn in s.log.lh
            && |s.ops[i].blocks + {bn}| <= MAXOPBLOCKS && LogWritePanics(lay, s.log)
  {
    var k := if lay.size - 1 <= LOGSIZE then lay.size - 1 else LOGSIZE;
    states, steps := Fill(lay, d, bs, k);
    i := 0;
    bn := bs[0];
    var own := states[|steps|].ops[0].blocks;
    assert own + {bn} == own;
  }
}

/** Process creation and death in xv6/proc.c: allocproc, fork, exit, wait, sleep, wakeup and kill, as
    steps that each hold ptable.lock once, interleaved in any way. */
module ExitWait {
  import opened Basics

  datatype ProcState = UNUSED | EMBRYO | SLEEPING | RUNNABLE | RUNNING | ZOMBIE

  /** What a process sleeps on: nothing, a process (only wait does that), or anything else. */
  datatype Chan = NoChan | OnProc(slot: nat) | Other(id: int)

  datatype Proc = Proc(state: ProcState, pid: nat, parent: Option<nat>, chan: Chan, killed: bool)

  /** Where a process is: in fork with a child slot that may have its parent set already, in wait, or
      anywhere else. */
  datatype Pc = Elsewhere | Forking(child: nat, linked: bool) | InWait

  /** The table, and in exited and reaped the pids that have passed through exit and wait. */
  datatype System = System(procs: seq<Proc>, pcs: seq<Pc>, nextpid: nat, exited: seq<nat>, reaped: seq<nat>)

  predicate Live(p: Proc) {
    p.state == SLEEPING || p.state == RUNNABLE || p.state == RUNNING
  }

  // ---------------------------------------------------------------------------------------
  // What the loops compute
  // ---------------------------------------------------------------------------------------

  function Wake(p: Proc, chan: Chan): Proc {
    if p.state == SLEEPING && p.chan == chan then p.(state := RUNNABLE) else p
  }

  predicate ChildOf(p: Proc, i: nat) {
    p.parent == Some(i)
  }

  ghost predicate HasChild(t: seq<Proc>, i: nat) {
    exists c :: 0 <= c < |t| && ChildOf(t[c], i)
  }

  ghost predicate HasZombie(t: seq<Proc>, i: nat) {
    exists c :: 0 <= c < |t| && ChildOf(t[c], i) && t[c].state == ZOMBIE
  }

  /** wakeup1(chan) */
  ghost predicate Woken(t: seq<Proc>, chan: Chan, t': seq<Proc>) {
    |t'| == |t| && forall i | 0 <= i < |t| :: t'[i] == Wake(t[i], chan)
  }

  /** A process passes to init if its parent is exiting. */
  function Adopt(p: Proc, init: nat, me: nat): Proc {
    if ChildOf(p, me) then p.(parent := Some(init)) else p
  }

  /** The table after exit by process me. */
  ghost predicate Exited(t: seq<Proc>, init: nat, me: nat, t': seq<Proc>)
    requires me < |t| && t[me].parent.Some?
  {
    && |t'| == |t|
    && forall i | 0 <= i < |t| ::
         var p := Adopt(Wake(t[i], OnProc(t[me].parent.value)), init, me);
         var q := if HasZombie(t, me) then Wake(p, OnProc(init)) else p;
         t'[i] == if i == me then q.(state := ZOMBIE) else q
  }

  /** What allocproc, kill and wait look for. */
  datatype Query = Unused | WithPid(pid: nat) | DeadChildOf(i: nat)

  predicate Matches(p: Proc, q: Query) {
    match q
    case Unused => p.state == UNUSED
    case WithPid(pid) => p.pid == pid
    case DeadChildOf(i) => ChildOf(p, i) && p.state == ZOMBIE
  }

  /** They take the first slot that they find. */
  ghost predicate First(t: seq<Proc>, c: nat, q: Query) {
    c < |t| && Matches(t[c], q) && forall i | 0 <= i < c :: !Matches(t[i], q)
  }

  /** A slot that wait has reaped; the chan is left over. */
  function Reaped(p: Proc): Proc {
    Proc(UNUSED, 0, None, p.chan, false)
  }

  /** A process that kill has found. */
  function Killed(p: Proc): Proc {
    p.(killed := true, state := if p.state == SLEEPING then RUNNABLE else p.state)
  }

  // ---------------------------------------------------------------------------------------
  // The steps
  // ---------------------------------------------------------------------------------------

  datatype Step =
    | Dispatch(i: nat) | Yield(i: nat) | SleepOn(i: nat, id: int) | WakeUp(id: int) | Kill(c: nat)
    | AllocProc(i: nat, c: nat) | ForkFail(i: nat) | SetParent(i: nat) | SetRunnable(i: nat)
    | Exit(i: nat) | Reap(i: nat, c: nat) | WaitFails(i: nat) | WaitSleeps(i: nat)

  ghost predicate Runs(s: System, i: nat) {
    i < |s.procs| == |s.pcs| && s.procs[i].state == RUNNING
  }

  function SetState(t: seq<Proc>, i: nat, st: ProcState): seq<Proc>
    requires i < |t|
  {
    t[i := t[i].(state := st)]
  }

  ghost predicate Next(init: nat, s: System, step: Step, s': System) {
    match step
    case Dispatch(i) =>
      i < |s.procs| && s.procs[i].state == RUNNABLE && s' == s.(procs := SetState(s.procs, i, RUNNING))
    case Yield(i) =>
      Runs(s, i) && s' == s.(procs := SetState(s.procs, i, RUNNABLE))
    case SleepOn(i, id) =>
      && Runs(s, i) && s.pcs[i] == Elsewhere
      && s' == s.(procs := s.procs[i := s.procs[i].(state := SLEEPING, chan := Other(id))])
    case WakeUp(id) =>
      Woken(s.procs, Other(id), s'.procs) && s' == s.(procs := s'.procs)
    case Kill(c) =>
      && c < |s.procs| && First(s.procs, c, WithPid(s.procs[c].pid))
      && s' == s.(procs := s.procs[c := Killed(s.procs[c])])
    case AllocProc(i, c) =>
      && Runs(s, i) && s.pcs[i] == Elsewhere && First(s.procs, c, Unused)
      && s' == s.(procs := s.procs[c := s.procs[c].(state := EMBRYO, pid := s.nextpid)],
                  pcs := s.pcs[i := Forking(c, false)], nextpid := s.nextpid + 1)
    case ForkFail(i) =>
      && Runs(s, i) && s.pcs[i].Forking? && !s.pcs[i].linked && s.pcs[i].child < |s.procs|
      && s' == s.(procs := SetState(s.procs, s.pcs[i].child, UNUSED), pcs := s.pcs[i := Elsewhere])
    case SetParent(i) =>
      && Runs(s, i) && s.pcs[i].Forking? && !s.pcs[i].linked && s.pcs[i].child < |s.procs|
      && var c := s.pcs[i].child;
      && s' == s.(procs := s.procs[c := s.procs[c].(parent := Some(i))], pcs := s.pcs[i := Forking(c, true)])
    case SetRunnable(i) =>
      && Runs(s, i) && s.pcs[i].Forking? && s.pcs[i].linked && s.pcs[i].child < |s.procs|
      && s' == s.(procs := SetState(s.procs, s.pcs[i].child, RUNNABLE), pcs := s.pcs[i := Elsewhere])
    case Exit(i) =>
      && Runs(s, i) && s.pcs[i] == Elsewhere && i != init && s.procs[i].parent.Some?
      && Exited(s.procs, init, i, s'.procs)
      && s' == s.(procs := s'.procs, exited := s.exited + [s.procs[i].pid])
    case Reap(i, c) =>
      && Runs(s, i) && !s.pcs[i].Forking? && First(s.procs, c, DeadChildOf(i))
      && s' == s.(procs := s.procs[c := Reaped(s.procs[c])], pcs := s.pcs[i := Elsewhere],
                  reaped := s.reaped + [s.procs[c].pid])
    case WaitFails(i) =>
      && Runs(s, i) && !s.pcs[i].Forking? && !HasZombie(s.procs, i)
      && (!HasChild(s.procs, i) || s.procs[i].killed)
      && s' == s.(pcs := s.pcs[i := Elsewhere])
    case WaitSleeps(i) =>
      && Runs(s, i) && !s.pcs[i].Forking? && !HasZombie(s.procs, i)
      && HasChild(s.procs, i) && !s.procs[i].killed
      && s' == s.(procs := s.procs[i := s.procs[i].(state := SLEEPING, chan := OnProc(i))],
                  pcs := s.pcs[i := InWait])
  }

  // ---------------------------------------------------------------------------------------
  // The invariant
  // ---------------------------------------------------------------------------------------

  /** The parent of slot i, if it has one, is alive, and who must have one has. */
  ghost predicate Family(init: nat, t: seq<Proc>, i: nat)
    requires i < |t|
  {
    && (t[i].parent.Some? ==> t[i].parent.value < |t| && t[i].parent.value != i && Live(t[t[i].parent.value]))
    && (t[i].state == UNUSED || i == init ==> t[i].parent.None?)
    && (i == init ==> Live(t[i]))
    && ((Live(t[i]) || t[i].state == ZOMBIE) && i != init ==> t[i].parent.Some?)
  }

  /** Where slot i is fits the table. */
  ghost predicate Placed(s: System, i: nat)
    requires i < |s.procs| == |s.pcs|
  {
    var t := s.procs;
    && (s.pcs[i] != Elsewhere ==> Live(t[i]))
    && (s.pcs[i].Forking? ==>
          var c := s.pcs[i].child;
          && c < |t| && t[c].state == EMBRYO && t[c].parent == if s.pcs[i].linked then Some(i) else None)
    && (t[i].state == EMBRYO && t[i].parent.Some? ==>
          t[i].parent.value < |t| && s.pcs[t[i].parent.value] == Forking(i, true))
  }

  /** A process asleep in wait has a child to wait for and none to collect. */
  ghost predicate Patient(s: System, i: nat)
    requires i < |s.procs| == |s.pcs|
  {
    && (s.procs[i].state == SLEEPING && s.procs[i].chan.OnProc? ==> s.procs[i].chan == OnProc(i) && s.pcs[i] == InWait)
    && (s.procs[i].state == SLEEPING && s.pcs[i] == InWait ==>
          && s.procs[i].chan == OnProc(i) && !s.procs[i].killed
          && HasChild(s.procs, i) && !HasZombie(s.procs, i))
  }

  ghost predicate Distinct<T(!new)>(q: seq<T>) {
    forall k, l | 0 <= k < l < |q| :: q[k] != q[l]
  }

  /** Every pid that has exited has been reaped or is a zombie's, never both, and never twice. */
  ghost predicate Ledger(s: System) {
    && 0 < s.nextpid && Distinct(s.exited) && Distinct(s.reaped)
    && (forall i | 0 <= i < |s.procs| && s.procs[i].state != UNUSED ::
          && 0 < s.procs[i].pid < s.nextpid && s.procs[i].pid !in s.reaped
          && (s.procs[i].pid in s.exited <==> s.procs[i].state == ZOMBIE))
    && (forall i, j | 0 <= i < j < |s.procs| && s.procs[i].state != UNUSED && s.procs[j].state != UNUSED ::
          s.procs[i].pid != s.procs[j].pid)
    && (forall x | x in s.reaped :: x in s.exited)
    && (forall x | x in s.exited :: x < s.nextpid && (x in s.reaped || ZombieWith(s.procs, x)))
  }

  ghost predicate ZombieWith(t: seq<Proc>, pid: nat) {
    exists i :: 0 <= i < |t| && t[i].state == ZOMBIE && t[i].pid == pid
  }

  /** Two forks never work on the same slot. */
  ghost predicate Apart(pcs: seq<Pc>) {
    forall i, j | 0 <= i < j < |pcs| && pcs[i].Forking? && pcs[j].Forking? :: pcs[i].child != pcs[j].child
  }

  ghost predicate Shape(init: nat, s: System) {
    init < |s.procs| == |s.pcs|
  }

  ghost predicate Inv(init: nat, s: System) {
    && Shape(init, s)
    && (forall i | 0 <= i < |s.procs| :: Family(init, s.procs, i))
    && (forall i | 0 <= i < |s.procs| :: Placed(s, i))
    && (forall i | 0 <= i < |s.procs| :: Patient(s, i))
    && Apart(s.pcs) && Ledger(s)
  }

  // ---------------------------------------------------------------------------------------
  // Every step keeps it
  // ---------------------------------------------------------------------------------------

  /** What exit by process me does to slot i. */
  lemma ExitedAt(t: seq<Proc>, init: nat, me: nat, t': seq<Proc>, i: nat)
    requires me < |t| && t[me].parent.Some? && Exited(t, init, me, t') && i < |t|
    ensures t'[i].pid == t[i].pid && t'[i].chan == t[i].chan && t'[i].killed == t[i].killed
    ensures t'[i].parent == if ChildOf(t[i], me) then Some(init) else t[i].parent
    ensures t'[i].state == if i == me then ZOMBIE
                           else if t[i].state == SLEEPING
                                   && (t[i].chan == OnProc(t[me].parent.value)
                                       || (HasZombie(t, me) && t[i].chan == OnProc(init)))
                                then RUNNABLE else t[i].state
  {
  }

  lemma SameLength(init: nat, s: System, step: Step, s': System)
    requires Inv(init, s) && Next(init, s, step, s')
    ensures Shape(init, s') && |s'.procs| == |s.procs|
  {
    hide Family, Placed, Patient, Ledger, Apart, HasZombie, HasChild;
  }

  lemma FamilyExit(init: nat, s: System, me: nat, s': System, i: nat)
    requires Inv(init, s) && Next(init, s, Exit(me), s') && Shape(init, s') && |s'.procs| == |s.procs| && i < |s.procs|
    ensures Family(init, s'.procs, i)
  {
    hide Exited, Patient, Placed, Ledger, Apart;
    var t, t' := s.procs, s'.procs;
    assert Family(init, t, i) && Family(init, t, init);
    ExitedAt(t, init, me, t', i);
    ExitedAt(t, init, me, t', init);
    if t'[i].parent.Some? { ExitedAt(t, init, me, t', t'[i].parent.value); }
  }

  lemma FamilyKept(init: nat, s: System, step: Step, s': System, i: nat)
    requires Inv(init, s) && Next(init, s, step, s') && Shape(init, s') && |s'.procs| == |s.procs| && i < |s.procs|
    ensures Family(init, s'.procs, i)
  {
    hide Exited, HasZombie, HasChild, Patient, Ledger, Apart, Placed;
    assert Family(init, s.procs, i) && Family(init, s.procs, init);
    if step.Exit? {
      FamilyExit(init, s, step.i, s', i);
    } else if ForkStep(step) {
      FamilyFork(init, s, step, s', i);
    }
  }

  lemma FamilyFork(init: nat, s: System, step: Step, s': System, i: nat)
    requires Inv(init, s) && Next(init, s, step, s') && Shape(init, s') && |s'.procs| == |s.procs| && i < |s.procs|
    requires ForkStep(step)
    ensures Family(init, s'.procs, i)
  {
    hide Exited, HasZombie, HasChild, Patient, Ledger, Apart, Woken;
    assert Family(init, s.procs, i) && Family(init, s.procs, init) && Placed(s, step.i);
  }

  lemma PlacedExit(init: nat, s: System, me: nat, s': System, i: nat)
    requires Inv(init, s) && Next(init, s, Exit(me), s') && Shape(init, s') && |s'.procs| == |s.procs| && i < |s.procs|
    ensures Placed(s', i)
  {
    hide Exited, Patient, Ledger, Apart;
    var t, t' := s.procs, s'.procs;
    assert Placed(s, i) && Family(init, t, i);
    ExitedAt(t, init, me, t', i);
    if s.pcs[i].Forking? {
      ExitedAt(t, init, me, t', s.pcs[i].child);
    }
  }

  predicate ForkStep(step: Step) {
    step.AllocProc? || step.ForkFail? || step.SetParent? || step.SetRunnable?
  }

  lemma PlacedFork(init: nat, s: System, step: Step, s': System, i: nat)
    requires Inv(init, s) && Next(init, s, step, s') && Shape(init, s') && |s'.procs| == |s.procs| && i < |s.procs|
    requires ForkStep(step)
    ensures Placed(s', i)
  {
    hide Exited, HasZombie, HasChild, Patient, Ledger, Woken;
    assert Placed(s, i) && Placed(s, step.i) && Family(init, s.procs, i);
    if step.AllocProc? { assert Family(init, s.procs, step.c); }
  }

  lemma PlacedKept(init: nat, s: System, step: Step, s': System, i: nat)
    requires Inv(init, s) && Next(init, s, step, s') && Shape(init, s') && |s'.procs| == |s.procs| && i < |s.procs|
    ensures Placed(s', i)
  {
    hide Exited, HasZombie, HasChild, Patient, Ledger, Apart;
    assert Placed(s, i) && Family(init, s.procs, i);
    if step.Exit? {
      PlacedExit(init, s, step.i, s', i);
    } else if ForkStep(step) {
      PlacedFork(init, s, step, s', i);
    }
  }

  /** exit wakes everyone whose wait it ends: the parent of the dying process, and init if a zombie
      passes to it. */
  lemma PatientExit(init: nat, s: System, me: nat, s': System, i: nat)
    requires Inv(init, s) && Next(init, s, Exit(me), s') && Shape(init, s') && |s'.procs| == |s.procs| && i < |s.procs|
    ensures Patient(s', i)
  {
    hide Exited, Placed, Ledger, Apart;
    var t, t' := s.procs, s'.procs;
    assert Patient(s, i) && t[me].parent != Some(me) by { assert Family(init, t, me); }
    ExitedAt(t, init, me, t', i);
    if t'[i].state == SLEEPING && s'.pcs[i] == InWait {
      var c :| 0 <= c < |t| && ChildOf(t[c], i);
      ExitedAt(t, init, me, t', c);
      assert ChildOf(t'[c], i);
      forall x | 0 <= x < |t| && ChildOf(t'[x], i) ensures t'[x].state != ZOMBIE {
        ExitedAt(t, init, me, t', x);
      }
    }
  }

  /** A step that changes slot x only, makes no zombie and hands no zombie over. */
  lemma PatientOneSlot(s: System, x: nat, p: Proc, s': System, i: nat)
    requires |s.procs| == |s.pcs| == |s'.pcs| && x < |s.procs| && i < |s.procs| && i != x && s'.procs == s.procs[x := p]
    requires Patient(s, i) && (s'.pcs[i] == InWait ==> s.pcs[i] == InWait)
    requires s.procs[i].state == SLEEPING && s.procs[i].chan.OnProc? ==> s'.pcs[i] == s.pcs[i]
    requires s.procs[i].state == SLEEPING ==> (ChildOf(s.procs[x], i) ==> ChildOf(p, i))
    requires s.procs[i].state == SLEEPING && ChildOf(p, i) && p.state == ZOMBIE ==>
               ChildOf(s.procs[x], i) && s.procs[x].state == ZOMBIE
    ensures Patient(s', i)
  {
    var t, t' := s.procs, s'.procs;
    if t[i].state == SLEEPING && s'.pcs[i] == InWait {
      var c :| 0 <= c < |t| && ChildOf(t[c], i);
      assert ChildOf(t'[c], i);
    }
  }

  lemma PatientWakeUp(s: System, id: int, s': System, i: nat)
    requires |s.procs| == |s.pcs| && i < |s.procs| && Patient(s, i)
    requires Woken(s.procs, Other(id), s'.procs) && s' == s.(procs := s'.procs)
    ensures Patient(s', i)
  {
    var t, t' := s.procs, s'.procs;
    if t'[i].state == SLEEPING && s.pcs[i] == InWait {
      var c :| 0 <= c < |t| && ChildOf(t[c], i);
      assert ChildOf(t'[c], i);
    }
  }

  /** Going to sleep in wait: the scan has just shown that there is a child and no zombie. */
  lemma PatientWaiter(s: System, i: nat, s': System)
    requires |s.procs| == |s.pcs| == |s'.pcs| && i < |s.procs|
    requires HasChild(s.procs, i) && !HasZombie(s.procs, i) && !s.procs[i].killed && s'.pcs[i] == InWait
    requires s'.procs == s.procs[i := s.procs[i].(state := SLEEPING, chan := OnProc(i))]
    ensures Patient(s', i)
  {
    var c :| 0 <= c < |s.procs| && ChildOf(s.procs[c], i);
    assert ChildOf(s'.procs[c], i);
  }

  /** The slot that a step other than wakeup and exit changes. */
  function Changed(s: System, step: Step): nat
    requires !step.WakeUp? && !step.Exit?
    requires step.ForkFail? || step.SetParent? || step.SetRunnable? ==> step.i < |s.pcs| && s.pcs[step.i].Forking?
  {
    if step.Kill? || step.AllocProc? || step.Reap? then step.c
    else if step.ForkFail? || step.SetParent? || step.SetRunnable? then s.pcs[step.i].child
    else step.i
  }

  lemma PatientSelf(s: System, i: nat)
    requires i < |s.procs| == |s.pcs|
    requires s.procs[i].state == SLEEPING ==> s.procs[i].chan.Other? && s.pcs[i] == Elsewhere
    ensures Patient(s, i)
  {
  }

  lemma PatientKept(init: nat, s: System, step: Step, s': System, i: nat)
    requires Inv(init, s) && Next(init, s, step, s') && Shape(init, s') && |s'.procs| == |s.procs| && i < |s.procs|
    ensures Patient(s', i)
  {
    hide Exited, HasZombie, HasChild, Ledger, Apart, Woken, Patient;
    assert Family(init, s.procs, i) && Patient(s, i);
    if step.Exit? {
      PatientExit(init, s, step.i, s', i);
    } else if step.WakeUp? {
      PatientWakeUp(s, step.id, s', i);
    } else {
      var x := Changed(s, step);
      assert Family(init, s.procs, x);
      if step.ForkFail? || step.SetParent? || step.SetRunnable? { assert Placed(s, step.i); }
      if i != x {
        PatientOneSlot(s, x, s'.procs[x], s', i);
      } else if step.WaitSleeps? {
        PatientWaiter(s, i, s');
      } else {
        PatientSelf(s', i);
      }
    }
  }

  // ---------------------------------------------------------------------------------------
  // The ledger
  // ---------------------------------------------------------------------------------------

  /** Steps that end or begin no process leave the ledger alone. */
  lemma LedgerQuiet(s: System, s': System)
    requires Ledger(s) && |s'.procs| == |s.procs| && s'.exited == s.exited && s'.reaped == s.reaped
             && s'.nextpid == s.nextpid
    requires forall i | 0 <= i < |s.procs| ::
               && (s'.procs[i].state != UNUSED ==> s.procs[i].state != UNUSED && s'.procs[i].pid == s.procs[i].pid)
               && (s'.procs[i].state == ZOMBIE <==> s.procs[i].state == ZOMBIE)
    ensures Ledger(s')
  {
    forall x | x in s.exited && x !in s.reaped ensures ZombieWith(s'.procs, x) {
      assert ZombieWith(s.procs, x);
      var i :| 0 <= i < |s.procs| && s.procs[i].state == ZOMBIE && s.procs[i].pid == x;
      assert s'.procs[i].state == ZOMBIE && s'.procs[i].pid == x;
    }
  }

  lemma LedgerAlloc(s: System, c: nat, s': System)
    requires Ledger(s) && c < |s.procs| && s.procs[c].state == UNUSED
    requires s'.procs == s.procs[c := s.procs[c].(state := EMBRYO, pid := s.nextpid)]
    requires s'.exited == s.exited && s'.reaped == s.reaped && s'.nextpid == s.nextpid + 1
    ensures Ledger(s')
  {
    forall x | x in s.exited && x !in s.reaped ensures ZombieWith(s'.procs, x) {
      assert ZombieWith(s.procs, x);
      var i :| 0 <= i < |s.procs| && s.procs[i].state == ZOMBIE && s.procs[i].pid == x;
      assert s'.procs[i].state == ZOMBIE && s'.procs[i].pid == x;
    }
  }

  lemma LedgerReap(s: System, c: nat, s': System)
    requires Ledger(s) && c < |s.procs| && s.procs[c].state == ZOMBIE
    requires s'.procs == s.procs[c := Reaped(s.procs[c])]
    requires s'.exited == s.exited && s'.reaped == s.reaped + [s.procs[c].pid] && s'.nextpid == s.nextpid
    ensures Ledger(s')
  {
    forall x | x in s.exited && x !in s'.reaped ensures ZombieWith(s'.procs, x) {
      assert s.procs[c].pid in s'.reaped;
      assert ZombieWith(s.procs, x);
      var i :| 0 <= i < |s.procs| && s.procs[i].state == ZOMBIE && s.procs[i].pid == x;
      assert s'.procs[i].state == ZOMBIE && s'.procs[i].pid == x;
    }
  }

  lemma LedgerExit(init: nat, s: System, me: nat, s': System)
    requires Ledger(s) && me < |s.procs| && Live(s.procs[me]) && s.procs[me].parent.Some?
    requires Exited(s.procs, init, me, s'.procs) && |s'.procs| == |s.procs|
    requires s'.exited == s.exited + [s.procs[me].pid] && s'.reaped == s.reaped && s'.nextpid == s.nextpid
    ensures Ledger(s')
  {
    hide Exited;
    var t, t' := s.procs, s'.procs;
    ExitedAt(t, init, me, t', me);
    forall i | 0 <= i < |t|
      ensures t'[i].pid == t[i].pid && (t'[i].state == UNUSED <==> t[i].state == UNUSED)
      ensures t'[i].state == ZOMBIE <==> i == me || t[i].state == ZOMBIE
    {
      ExitedAt(t, init, me, t', i);
    }
    forall x | x in s'.exited && x !in s.reaped ensures ZombieWith(t', x) {
      if x == t[me].pid {
        assert t'[me].state == ZOMBIE && t'[me].pid == x;
      } else {
        assert ZombieWith(t, x);
        var i :| 0 <= i < |t| && t[i].state == ZOMBIE && t[i].pid == x;
        assert t'[i].state == ZOMBIE && t'[i].pid == x;
      }
    }
  }

  lemma LedgerKept(init: nat, s: System, step: Step, s': System)
    requires Inv(init, s) && Next(init, s, step, s') && Shape(init, s') && |s'.procs| == |s.procs|
    ensures Ledger(s')
  {
    hide Exited, HasZombie, HasChild, Ledger, Patient;
    if step.Exit? {
      LedgerExit(init, s, step.i, s');
    } else if step.Reap? {
      LedgerReap(s, step.c, s');
    } else if step.AllocProc? {
      LedgerAlloc(s, step.c, s');
    } else {
      if step.ForkFail? || step.SetParent? || step.SetRunnable? { assert Placed(s, step.i); }
      LedgerQuiet(s, s');
    }
  }

  lemma ApartKept(init: nat, s: System, step: Step, s': System)
    requires Inv(init, s) && Next(init, s, step, s') && Shape(init, s') && |s'.procs| == |s.procs|
    ensures Apart(s'.pcs)
  {
    hide Exited, HasZombie, HasChild, Ledger, Patient, Woken;
    if step.AllocProc? {
      forall j | 0 <= j < |s.pcs| && s.pcs[j].Forking? ensures s.pcs[j].child != step.c {
        assert Placed(s, j);
      }
    }
  }

  lemma InvIntro(init: nat, s: System)
    requires Shape(init, s) && Apart(s.pcs) && Ledger(s)
    requires forall i | 0 <= i < |s.procs| :: Family(init, s.procs, i) && Placed(s, i) && Patient(s, i)
    ensures Inv(init, s)
  {
    hide Family, Placed, Patient, Ledger, Apart;
  }

  lemma StepKeeps(init: nat, s: System, step: Step, s': System)
    requires Inv(init, s) && Next(init, s, step, s')
    ensures Inv(init, s')
  {
    hide Inv, Next, Family, Placed, Patient, Ledger, Apart;
    SameLength(init, s, step, s');
    forall i | 0 <= i < |s.procs| ensures Family(init, s'.procs, i) && Placed(s', i) && Patient(s', i) {
      FamilyKept(init, s, step, s', i);
      PlacedKept(init, s, step, s', i);
      PatientKept(init, s, step, s', i);
    }
    LedgerKept(init, s, step, s');
    ApartKept(init, s, step, s');
    InvIntro(init, s');
  }

  // ---------------------------------------------------------------------------------------
  // The life of a process
  // ---------------------------------------------------------------------------------------

  /** Step wakes slot i, which sleeps: a wakeup on its channel, a kill of it, or in wait an exit of a child, or of a
      process that leaves a zombie to init. */
  ghost predicate Wakes(init: nat, s: System, step: Step, i: nat)
    requires i < |s.procs|
  {
    var chan := s.procs[i].chan;
    match step
    case WakeUp(id) => chan == Other(id)
    case Kill(c) => c == i
    case Exit(me) =>
      && me < |s.procs| && s.procs[me].parent.Some?
      && (chan == OnProc(s.procs[me].parent.value) || (chan == OnProc(init) && HasZombie(s.procs, me)))
    case _ => false
  }

  /** The state that a step leaves slot i in: the only ways from one state to the next. */
  ghost function Follows(init: nat, s: System, step: Step, i: nat): ProcState
    requires i < |s.procs| == |s.pcs|
  {
    match s.procs[i].state
    case UNUSED => if step.AllocProc? && step.c == i then EMBRYO else UNUSED
    case EMBRYO =>
      if step.SetRunnable? && step.i < |s.pcs| && s.pcs[step.i] == Forking(i, true) then RUNNABLE
      else if step.ForkFail? && step.i < |s.pcs| && s.pcs[step.i] == Forking(i, false) then UNUSED
      else EMBRYO
    case SLEEPING => if Wakes(init, s, step, i) then RUNNABLE else SLEEPING
    case RUNNABLE => if step == Dispatch(i) then RUNNING else RUNNABLE
    case RUNNING =>
      if step == Yield(i) then RUNNABLE
      else if (step.SleepOn? || step.WaitSleeps?) && step.i == i then SLEEPING
      else if step == Exit(i) then ZOMBIE
      else RUNNING
    case ZOMBIE => if step.Reap? && step.c == i then UNUSED else ZOMBIE
  }

  /** Every step moves every slot along the life of a process and no other way. */
  lemma Lifecycle(init: nat, s: System, step: Step, s': System, i: nat)
    requires Inv(init, s) && Next(init, s, step, s') && i < |s.procs|
    ensures |s'.procs| == |s.procs| == |s.pcs| && s'.procs[i].state == Follows(init, s, step, i)
  {
    hide HasZombie, HasChild, Ledger, Apart, Patient, Inv, Exited, First, Next, Follows, Family, Placed;
    SameLength(init, s, step, s');
    LifeFacts(init, s, step, i);
    if ForkStep(step) {
      LifeFork(init, s, step, s', i);
    } else if step.Exit? {
      LifeExit(init, s, step.i, s', i);
    } else {
      LifeOther(init, s, step, s', i);
    }
  }

  lemma LifeFork(init: nat, s: System, step: Step, s': System, i: nat)
    requires Inv(init, s) && Next(init, s, step, s') && ForkStep(step) && i < |s.procs| == |s.pcs| == |s'.procs|
    ensures s'.procs[i].state == Follows(init, s, step, i)
  {
    hide HasZombie, HasChild, Ledger, Apart, Patient, Inv, Exited, First, Family, Placed, Woken;
    LifeFacts(init, s, step, i);
    if step.AllocProc? { FirstIs(s.procs, step.c, Unused); }
  }

  lemma LifeExit(init: nat, s: System, me: nat, s': System, i: nat)
    requires Inv(init, s) && Next(init, s, Exit(me), s') && i < |s.procs| == |s.pcs| == |s'.procs|
    ensures s'.procs[i].state == Follows(init, s, Exit(me), i)
  {
    hide HasZombie, HasChild, Ledger, Apart, Patient, Inv, Exited, Family, Placed;
    LifeFacts(init, s, Exit(me), i);
    ExitedAt(s.procs, init, me, s'.procs, i);
  }

  lemma LifeOther(init: nat, s: System, step: Step, s': System, i: nat)
    requires Inv(init, s) && Next(init, s, step, s') && i < |s.procs| == |s.pcs| == |s'.procs|
    requires !ForkStep(step) && !step.Exit?
    ensures s'.procs[i].state == Follows(init, s, step, i)
  {
    hide HasZombie, HasChild, Ledger, Apart, Patient, Inv, Exited, First, Family, Placed;
    if step.Reap? { FirstIs(s.procs, step.c, DeadChildOf(step.i)); }
  }

  /** Who falls asleep does so on its channel and stays on it, and only kill marks a process, until it is reaped. */
  lemma LifeFields(init: nat, s: System, step: Step, s': System, i: nat)
    requires Inv(init, s) && Next(init, s, step, s') && i < |s.procs|
    ensures |s'.procs| == |s.procs| == |s.pcs|
    ensures s'.procs[i].chan == if step.SleepOn? && step.i == i then Other(step.id)
                                else if step.WaitSleeps? && step.i == i then OnProc(i) else s.procs[i].chan
    ensures s'.procs[i].killed == (if step == Kill(i) then true else if step.Reap? && step.c == i then false
                                   else s.procs[i].killed)
  {
    hide HasZombie, HasChild, Ledger, Apart, Patient, Inv, Exited, First;
    SameLength(init, s, step, s');
    if step.Exit? {
      LifeFacts(init, s, step, i);
      ExitedAt(s.procs, init, step.i, s'.procs, i);
    }
  }

  lemma FirstIs(t: seq<Proc>, c: nat, q: Query)
    requires First(t, c, q)
    ensures c < |t| && Matches(t[c], q)
  {
  }

  lemma LifeFacts(init: nat, s: System, step: Step, i: nat)
    requires Inv(init, s) && i < |s.procs|
    ensures |s.procs| == |s.pcs|
    ensures (step.SetRunnable? || step.ForkFail? || step.SetParent?) && step.i < |s.pcs| && s.pcs[step.i].Forking? ==>
              s.pcs[step.i].child < |s.procs| && s.procs[s.pcs[step.i].child].state == EMBRYO
    ensures step.Exit? && step.i < |s.procs| && s.procs[step.i].parent.Some? ==>
              s.procs[step.i].parent.value < |s.procs|
  {
    hide Ledger, Apart, Patient;
    assert step.Exit? && step.i < |s.procs| ==> Family(init, s.procs, step.i);
    assert (step.SetRunnable? || step.ForkFail? || step.SetParent?) && step.i < |s.pcs| ==> Placed(s, step.i);
  }

  /** When fork is done, the child is runnable, has the caller for its parent, and a pid that nobody else has. */
  lemma ForkDone(init: nat, s: System, i: nat, s': System, j: nat)
    requires Inv(init, s) && Next(init, s, SetRunnable(i), s') && j < |s.procs|
    ensures var c := s.pcs[i].child;
            && c < |s'.procs| == |s.procs| && s'.procs[c].state == RUNNABLE && s'.procs[c].parent == Some(i)
            && 0 < s'.procs[c].pid < s'.nextpid
            && (j != c && s'.procs[j].state != UNUSED ==> s'.procs[j].pid != s'.procs[c].pid)
  {
    hide Apart, Patient, Family;
    assert Placed(s, i);
  }

  // ---------------------------------------------------------------------------------------
  // Every run
  // ---------------------------------------------------------------------------------------

  /** After userinit: init alone, about to run. */
  ghost predicate Init(init: nat, s: System) {
    && Shape(init, s) && s.exited == [] && s.reaped == [] && s.nextpid == 2
    && (forall i | 0 <= i < |s.procs| :: s.pcs[i] == Elsewhere)
    && (forall i | 0 <= i < |s.procs| && i != init :: s.procs[i] == Proc(UNUSED, 0, None, NoChan, false))
    && s.procs[init] == Proc(RUNNABLE, 1, None, NoChan, false)
  }

  ghost predicate Run(init: nat, states: seq<System>, steps: seq<Step>) {
    && |states| == |steps| + 1 && Init(init, states[0])
    && (forall k | 0 <= k < |steps| :: Next(init, states[k], steps[k], states[k + 1]))
  }

  lemma {:induction false} RunSafe(init: nat, states: seq<System>, steps: seq<Step>, k: nat)
    requires Run(init, states, steps) && k < |states|
    ensures Inv(init, states[k])
  {
    if k > 0 {
      RunSafe(init, states, steps, k - 1);
      StepKeeps(init, states[k - 1], steps[k - 1], states[k]);
    }
  }

  /** In every reachable state a process that is alive or a zombie, other than init, has a parent
      that is alive. */
  lemma NoOrphans(init: nat, states: seq<System>, steps: seq<Step>, k: nat, i: nat)
    requires Run(init, states, steps) && k < |states| && i < |states[k].procs| && i != init
    requires Live(states[k].procs[i]) || states[k].procs[i].state == ZOMBIE
    ensures var t := states[k].procs; t[i].parent.Some? && t[i].parent.value < |t| && Live(t[t[i].parent.value])
  {
    RunSafe(init, states, steps, k);
    assert Family(init, states[k].procs, i);
  }

  lemma {:induction false} FirstMatch(t: seq<Proc>, q: Query, z: nat) returns (c: nat)
    requires z < |t| && Matches(t[z], q)
    ensures First(t, c, q)
  {
    c := 0;
    while !Matches(t[c], q)
      invariant c <= z && forall i | 0 <= i < c :: !Matches(t[i], q)
      decreases z - c
    {
      c := c + 1;
    }
  }

  /** No exit is missed: the parent of a zombie is not asleep in wait, and if it runs outside fork
      then a call of wait collects a child at once. */
  lemma NoExitMissed(init: nat, states: seq<System>, steps: seq<Step>, k: nat, z: nat)
    requires Run(init, states, steps) && k < |states| && z < |states[k].procs| && states[k].procs[z].state == ZOMBIE
    ensures var s := states[k];
            && s.procs[z].parent.Some? && s.procs[z].parent.value < |s.procs| == |s.pcs|
            && var q := s.procs[z].parent.value;
            && !(s.procs[q].state == SLEEPING && s.pcs[q] == InWait)
            && (Runs(s, q) && !s.pcs[q].Forking? ==> exists c, s' :: Next(init, s, Reap(q, c), s'))
  {
    RunSafe(init, states, steps, k);
    var s := states[k];
    assert Family(init, s.procs, z);
    var q := s.procs[z].parent.value;
    assert Patient(s, q);
    assert ChildOf(s.procs[z], q);
    if Runs(s, q) && !s.pcs[q].Forking? {
      var c := FirstMatch(s.procs, DeadChildOf(q), z);
      var s' := s.(procs := s.procs[c := Reaped(s.procs[c])], pcs := s.pcs[q := Elsewhere],
                   reaped := s.reaped + [s.procs[c].pid]);
      assert Next(init, s, Reap(q, c), s');
    }
  }

  /** Right after a wakeup nobody sleeps on its channel, whatever it stands for. */
  lemma NobodySleepsOn(init: nat, states: seq<System>, steps: seq<Step>, k: nat, i: nat)
    requires Run(init, states, steps) && k < |steps| && steps[k].WakeUp? && i < |states[k + 1].procs|
    ensures var p := states[k + 1].procs[i]; !(p.state == SLEEPING && p.chan == Other(steps[k].id))
  {
    assert Next(init, states[k], steps[k], states[k + 1]);
  }

  /** Over a whole run no pid is reaped twice, none is reaped that has not exited, and one that has
      exited and is not reaped yet is still in the table as a zombie. */
  lemma ReapedOnce(init: nat, states: seq<System>, steps: seq<Step>, k: nat)
    requires Run(init, states, steps) && k < |states|
    ensures var s := states[k];
            && Distinct(s.reaped) && Distinct(s.exited)
            && (forall x | x in s.reaped :: x in s.exited && !ZombieWith(s.procs, x))
            && (forall x | x in s.exited && x !in s.reaped :: ZombieWith(s.procs, x))
  {
    RunSafe(init, states, steps, k);
  }
}

/** Readers and writers of one pipe, asleep and awake. A step is what one process does between taking
    the lock of the pipe and releasing it or falling asleep; what it does to the bytes is Buffer. */
module PipeSleepers {
  import opened Pipe

  /** The bytes written, how many are read, the open ends, who is inside piperead (with the count
      asked for) and pipewrite (with what is left to write), and who of them sleeps. */
  datatype State = State(written: seq<Byte>, taken: nat, readopen: bool, writeopen: bool,
                         readers: map<int, int>, writers: map<int, seq<Byte>>, sleepR: set<int>, sleepW: set<int>)

  datatype Step =
    | StartRead(pid: int, n: int, killed: bool) | ResumeRead(pid: int, killed: bool)
    | StartWrite(pid: int, bytes: seq<Byte>, killed: bool) | ResumeWrite(pid: int, killed: bool)
    | CloseRead | CloseWrite
    | Rouse(pid: int) // kill makes a sleeping process runnable

  function Room(s: State): int {
    s.taken + PIPESIZE - |s.written|
  }

  /** pipewrite with rest left to write. It wakes the readers when it is done and before it sleeps, but
      not when it gives up. */
  function WriteRun(s: State, pid: int, rest: seq<Byte>, killed: bool): State
    requires Room(s) >= 0
  {
    var m := Min(|rest|, Room(s));
    var s1 := s.(written := s.written + rest[..m]);
    if m == |rest| then s1.(writers := s.writers - {pid}, sleepR := {})
    else if !s.readopen || killed then s1.(writers := s.writers - {pid})
    else s1.(writers := s.writers[pid := rest[m..]], sleepR := {}, sleepW := s.sleepW + {pid})
  }

  function ReadRun(s: State, pid: int, n: int, killed: bool): State
    requires s.taken <= |s.written|
  {
    if s.taken == |s.written| && s.writeopen then
      if killed then s.(readers := s.readers - {pid})
      else s.(readers := s.readers[pid := n], sleepR := s.sleepR + {pid})
    else
      s.(taken := s.taken + Min(if n < 0 then 0 else n, |s.written| - s.taken), readers := s.readers - {pid},
          sleepW := {})
  }

  /** An end is closed only when nobody who got in through it is still inside. */
  ghost predicate Enabled(s: State, step: Step) {
    && Room(s) >= 0 && s.taken <= |s.written|
    && match step
       case StartRead(pid, _, _) => s.readopen && pid !in s.readers && pid !in s.writers
       case ResumeRead(pid, _) => pid in s.readers && pid !in s.sleepR
       case StartWrite(pid, _, _) => s.writeopen && pid !in s.readers && pid !in s.writers
       case ResumeWrite(pid, _) => pid in s.writers && pid !in s.sleepW
       case CloseRead => s.readopen && s.readers == map[]
       case CloseWrite => s.writeopen && s.writers == map[]
       case Rouse(pid) => true
  }

  ghost function Do(s: State, step: Step): State
    requires Enabled(s, step)
  {
    match step
    case StartRead(pid, n, killed) => ReadRun(s, pid, n, killed)
    case ResumeRead(pid, killed) => ReadRun(s, pid, s.readers[pid], killed)
    case StartWrite(pid, bytes, killed) => WriteRun(s, pid, bytes, killed)
    case ResumeWrite(pid, killed) => WriteRun(s, pid, s.writers[pid], killed)
    case CloseRead => s.(readopen := false, sleepW := {})
    case CloseWrite => s.(writeopen := false, sleepR := {})
    case Rouse(pid) => s.(sleepR := s.sleepR - {pid}, sleepW := s.sleepW - {pid})
  }

  /** A reader sleeps only on an empty pipe that can still be written, a writer only on a full one
      that can still be read. */
  ghost predicate Inv(s: State) {
    && s.taken <= |s.written| <= s.taken + PIPESIZE
    && s.sleepR <= s.readers.Keys && s.sleepW <= s.writers.Keys
    && (s.readers != map[] ==> s.readopen) && (s.writers != map[] ==> s.writeopen)
    && (s.sleepR != {} ==> s.taken == |s.written| && s.writeopen)
    && (s.sleepW != {} ==> |s.written| == s.taken + PIPESIZE && s.readopen)
  }

  /** A killed writer that the pipe is too full for. */
  ghost predicate GivesUp(s: State, step: Step)
    requires Enabled(s, step)
  {
    && (step.StartWrite? || step.ResumeWrite?) && step.killed && s.readopen
    && |Left(s, step)| > Room(s)
  }

  ghost function Left(s: State, step: Step): seq<Byte>
    requires Enabled(s, step) && (step.StartWrite? || step.ResumeWrite?)
  {
    if step.StartWrite? then step.bytes else s.writers[step.pid]
  }

  lemma ReadKeeps(s: State, pid: int, n: int, killed: bool)
    requires Inv(s) && pid !in s.sleepR && s.readopen
    ensures Inv(ReadRun(s, pid, n, killed))
  {
  }

  lemma WriteKeeps(s: State, pid: int, rest: seq<Byte>, killed: bool)
    requires Inv(s) && pid !in s.sleepW && s.writeopen
    ensures Inv(WriteRun(s, pid, rest, killed)) <==>
            !(killed && s.readopen && |rest| > Room(s) && Room(s) > 0 && s.sleepR != {})
  {
  }

  /** Every step keeps the invariant, except exactly a killed writer that has put bytes into the
      pipe and returns -1 while a reader sleeps: it leaves without the wakeup. */
  lemma StepKeepsExactly(s: State, step: Step)
    requires Inv(s) && Enabled(s, step)
    ensures Inv(Do(s, step)) <==> !(GivesUp(s, step) && Room(s) > 0 && s.sleepR != {})
  {
    match step
    case StartRead(pid, n, killed) => ReadKeeps(s, pid, n, killed);
    case ResumeRead(pid, killed) => assert s.readers != map[]; ReadKeeps(s, pid, s.readers[pid], killed);
    case StartWrite(pid, bytes, killed) => WriteKeeps(s, pid, bytes, killed);
    case ResumeWrite(pid, killed) => assert s.writers != map[]; WriteKeeps(s, pid, s.writers[pid], killed);
    case _ =>
  }

  // ---------------------------------------------------------------------------------------
  // The steps are what the ring buffer does
  // ---------------------------------------------------------------------------------------

  /** The ring buffer holds the bytes of s in flight, and its ends are those of s. */
  ghost predicate Shows(p: Buffer, s: State)
    reads p, p.data
  {
    && p.Valid() && p.written == s.written && p.taken == s.taken
    && p.readopen == s.readopen && p.writeopen == s.writeopen
  }

  /** A stretch of pipewrite is a step of a writer: left is what it keeps for after its sleep. */
  method PipeWrite(p: Buffer, ghost s: State, ghost pid: int, rest: seq<Byte>, killed: bool)
      returns (end: WriteEnd, left: seq<Byte>)
    requires Shows(p, s)
    modifies p, p.data
    ensures var s' := WriteRun(s, pid, rest, killed);
            && Shows(p, s') && (end.MustWait? <==> pid in s'.writers)
            && (end.MustWait? ==> pid in s'.sleepW && s'.writers[pid] == left)
            && (end.WriteFails? ==> s'.sleepR == s.sleepR)
            && (!end.WriteFails? ==> s'.sleepR == {})
  {
    var i;
    i, end := p.WriteSome(rest, 0, killed);
    left := rest[i..];
    assert rest[0..i] == rest[..i];
  }

  /** A stretch of piperead is a step of a reader. */
  method PipeRead(p: Buffer, ghost s: State, ghost pid: int, n: int, killed: bool) returns (r: ReadEnd)
    requires Shows(p, s)
    modifies p
    ensures var s' := ReadRun(s, pid, n, killed);
            && Shows(p, s') && (r.MustWaitForData? <==> pid in s'.readers)
            && (r.MustWaitForData? ==> pid in s'.sleepR && s'.readers[pid] == n)
            && (r.Got? ==> r.bytes == s.written[s.taken..s'.taken] && s'.sleepW == {})
            && (!r.Got? ==> s'.sleepW == s.sleepW)
  {
    r := p.ReadSome(n, killed);
  }

  // ---------------------------------------------------------------------------------------
  // Every run
  // ---------------------------------------------------------------------------------------

  const NEW := State([], 0, true, true, map[], map[], {}, {})

  ghost predicate Run(states: seq<State>, steps: seq<Step>) {
    && |states| == |steps| + 1 && states[0] == NEW
    && (forall k | 0 <= k < |steps| :: Enabled(states[k], steps[k]) && states[k + 1] == Do(states[k], steps[k]))
  }

  /** A killed writer gives up after putting bytes in, while a reader sleeps. */
  ghost predicate Strands(s: State, step: Step)
    requires Enabled(s, step)
  {
    GivesUp(s, step) && Room(s) > 0 && s.sleepR != {}
  }

  /** No reader is stranded up to state k; without kill none is. */
  ghost predicate NobodyStranded(states: seq<State>, steps: seq<Step>, k: nat)
    requires Run(states, steps) && k < |states|
  {
    forall j | 0 <= j < k :: !Strands(states[j], steps[j])
  }

  lemma {:induction false} RunSafe(states: seq<State>, steps: seq<Step>, k: nat)
    requires Run(states, steps) && k < |states| && NobodyStranded(states, steps, k)
    ensures Inv(states[k])
  {
    hide Do, Inv, GivesUp;
    if k > 0 {
      RunSafe(states, steps, k - 1);
      assert !Strands(states[k - 1], steps[k - 1]);
      StepKeepsExactly(states[k - 1], steps[k - 1]);
    } else {
      NewInv();
    }
  }

  lemma NewInv()
    ensures Inv(NEW)
  {
  }

  /** Readers and writers never sleep at the same time, and whoever sleeps can be woken from the other
      end, which is open. */
  lemma NeverBothAsleep(states: seq<State>, steps: seq<Step>, k: nat)
    requires Run(states, steps) && k < |states| && NobodyStranded(states, steps, k)
    ensures var s := states[k];
            && (s.sleepR == {} || s.sleepW == {})
            && (s.sleepR != {} ==> s.writeopen && s.taken == |s.written|)
            && (s.sleepW != {} ==> s.readopen && |s.written| == s.taken + PIPESIZE)
  {
    RunSafe(states, steps, k);
  }

  lemma StepGrows(s: State, step: Step)
    requires Enabled(s, step)
    ensures var s' := Do(s, step);
            s.written <= s'.written && s.taken <= s'.taken <= |s'.written| <= s'.taken + PIPESIZE
  {
  }

  lemma {:induction false} NeverOverfull(states: seq<State>, steps: seq<Step>, k: nat)
    requires Run(states, steps) && k < |states|
    ensures states[k].taken <= |states[k].written| <= states[k].taken + PIPESIZE
  {
    hide Do, Enabled;
    if k > 0 { StepGrows(states[k - 1], steps[k - 1]); }
  }

  /** What is written stays written, in order, and what is read is a growing prefix of it, also when
      writers are killed. */
  lemma {:induction false} PrefixGrows(states: seq<State>, steps: seq<Step>, j: nat, k: nat)
    requires Run(states, steps) && j <= k < |states|
    ensures states[j].written <= states[k].written && states[j].taken <= states[k].taken <= |states[k].written|
  {
    hide Do, Enabled;
    NeverOverfull(states, steps, k);
    if j < k {
      PrefixGrows(states, steps, j, k - 1);
      StepGrows(states[k - 1], steps[k - 1]);
      GrowsOn(states[j].written, states[k - 1].written, states[k].written);
    }
  }

  lemma GrowsOn(a: seq<Byte>, b: seq<Byte>, c: seq<Byte>)
    requires a <= b <= c
    ensures a <= c
  {
  }

  /** A killed writer strands a reader: process 1 sleeps on the empty pipe, and process 2, killed,
      fills the pipe and returns -1. */
  lemma StrandedReader() returns (states: seq<State>, steps: seq<Step>)
    ensures Run(states, steps) && |steps| == 2
    ensures 1 in states[2].sleepR && |states[2].written| == states[2].taken + PIPESIZE
  {
    var bytes: seq<Byte> := seq(PIPESIZE + 1, i => 0);
    steps := [StartRead(1, 1, false), StartWrite(2, bytes, true)];
    var s1 := Do(NEW, steps[0]);
    var s2 := Do(s1, steps[1]);
    states := [NEW, s1, s2];
    assert |s2.written| == PIPESIZE;
  }
}

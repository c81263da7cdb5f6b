/** The counting semaphores of xv6/proc.c. Each operation is split where it gives up the
    semaphore's lock: sem_acquire either completes at once or queues the caller and sleeps, and
    a woken sleeper completes later, without looking at the value again. kill wakes a sleeper
    without taking it off the queue, and sem_init empties the queue without waking anybody. */
module Semaphore {
  import opened Basics

  const NPROC := 64

  /** waiting is the queue, asleep are those in the sleep of sem_acquire, and woken those who have
      been woken there and have not run since. The counters are for the ledger; wasted counts
      the releases that took somebody off the queue who was not asleep. */
  datatype Sem = Sem(value: int, waiting: seq<nat>, asleep: set<nat>, woken: set<nat>,
                     start: int, acquires: nat, releases: nat, wasted: nat)

  datatype Step =
    | Enter(p: nat)       // sem_acquire up to its sleep, or to its end
    | Resume(p: nat)      // sem_acquire after its sleep
    | Release             // sem_release
    | Rouse(p: nat)       // kill of p, or a wakeup by another semaphore that p was killed at
    | Reset(value: int)   // sem_init

  predicate Enabled(s: Sem, step: Step) {
    match step
    case Enter(p) => p !in s.asleep && p !in s.woken
    case Resume(p) => p in s.woken
    case _ => true
  }

  function Do(s: Sem, step: Step): (s': Sem)
    requires Enabled(s, step)
  {
    match step
    case Enter(p) =>
      if s.value <= 0 then s.(waiting := s.waiting + [p], asleep := s.asleep + {p})
      else s.(value := s.value - 1, acquires := s.acquires + 1)
    case Resume(p) =>
      s.(value := s.value - 1, woken := s.woken - {p}, acquires := s.acquires + 1)
    case Release =>
      var s1 := s.(value := s.value + 1, releases := s.releases + 1);
      if s1.value <= 0 || s.waiting == [] then s1
      else
        var p, s2 := s.waiting[0], s1.(waiting := s.waiting[1..]);
        if p in s.asleep then WakeUp(s2, p) else s2.(wasted := s.wasted + 1)
    case Rouse(p) => if p in s.asleep then WakeUp(s, p) else s
    case Reset(value) => New(value).(asleep := s.asleep, woken := s.woken)
  }

  function WakeUp(s: Sem, p: nat): Sem {
    s.(asleep := s.asleep - {p}, woken := s.woken + {p})
  }

  function New(value: int): Sem {
    Sem(value, [], {}, {}, value, 0, 0, 0)
  }

  /** The ledger; sleepers are in the queue; and while anybody sleeps, the value is no more than
      those on their way to take it and the wakeups that went astray. */
  ghost predicate Inv(s: Sem) {
    && s.value == s.start - s.acquires + s.releases
    && (forall p | p in s.asleep :: p in s.waiting && p !in s.woken)
    && (s.asleep != {} ==> s.value <= |s.woken| + s.wasted)
  }

  /** The queue holds exactly the sleepers, once each. */
  ghost predicate Orderly(s: Sem) {
    Distinct(s.waiting) && (forall p | p in s.waiting :: p in s.asleep) && s.wasted == 0
  }

  /** Every step keeps the invariant, except exactly a reset while somebody sleeps. */
  lemma StepKeepsExactly(s: Sem, step: Step)
    requires Inv(s) && Enabled(s, step)
    ensures Inv(Do(s, step)) <==> !(step.Reset? && s.asleep != {})
  {
    if step.Release? {
      ReleaseKeeps(s);
    } else if step.Rouse? {
      RouseKeeps(s, step.p);
    } else if step.Reset? && s.asleep != {} {
      var p :| p in s.asleep;
      assert p in Do(s, step).asleep;
    }
  }

  lemma ReleaseKeeps(s: Sem)
    requires Inv(s)
    ensures Inv(Do(s, Release))
  {
    var q := s.waiting;
    if q != [] {
      assert q == [q[0]] + q[1..];
      assert q[0] in s.asleep ==> |s.woken + {q[0]}| == |s.woken| + 1;
    }
  }

  lemma RouseKeeps(s: Sem, p: nat)
    requires Inv(s)
    ensures Inv(Do(s, Rouse(p)))
  {
    assert p in s.asleep ==> |s.woken + {p}| == |s.woken| + 1;
  }

  /** And every step keeps the queue the queue of the sleepers, except exactly a kill of one. */
  lemma OrderlyExactly(s: Sem, step: Step)
    requires Inv(s) && Orderly(s) && Enabled(s, step)
    ensures Orderly(Do(s, step)) <==> !(step.Rouse? && step.p in s.asleep)
  {
    hide Distinct;
    if step.Release? && s.value + 1 > 0 && s.waiting != [] {
      DistinctTail(s.waiting);
    } else if step.Enter? {
      DistinctPush(s.waiting, step.p);
    } else if step.Reset? {
      DistinctNone();
    }
  }

  predicate Next(s: Sem, step: Step, s': Sem) {
    Enabled(s, step) && s' == Do(s, step)
  }

  ghost predicate Run(states: seq<Sem>, steps: seq<Step>) {
    && |states| == |steps| + 1 && states[0] == New(states[0].start)
    && forall k | 0 <= k < |steps| :: Next(states[k], steps[k], states[k + 1])
  }

  /** Nobody sleeps when the semaphore is initialised again. */
  ghost predicate ResetInPeace(states: seq<Sem>, steps: seq<Step>, k: nat)
    requires Run(states, steps) && k < |states|
  {
    forall j | 0 <= j < k && steps[j].Reset? :: states[j].asleep == {}
  }

  /** No sleeper is killed. */
  ghost predicate NoneKilled(states: seq<Sem>, steps: seq<Step>, k: nat)
    requires Run(states, steps) && k < |states|
  {
    forall j | 0 <= j < k && steps[j].Rouse? :: steps[j].p !in states[j].asleep
  }

  /** The ledger and the bound on the value hold after every run, and the queue is that of the
      sleepers if none was killed. */
  lemma {:induction false} RunSafe(states: seq<Sem>, steps: seq<Step>, k: nat)
    requires Run(states, steps) && k < |states| && ResetInPeace(states, steps, k)
    ensures Inv(states[k])
    ensures NoneKilled(states, steps, k) ==> Orderly(states[k])
    decreases k
  {
    if k > 0 {
      RunSafe(states, steps, k - 1);
      assert Next(states[k - 1], steps[k - 1], states[k]);
      hide Inv, Orderly, Do, Enabled;
      StepKeepsExactly(states[k - 1], steps[k - 1]);
      if NoneKilled(states, steps, k) {
        assert NoneKilled(states, steps, k - 1);
        OrderlyExactly(states[k - 1], steps[k - 1]);
      }
    }
  }

  /** With everybody who was woken back at work, a sleeper means that the semaphore is spent: at
      least as many acquires as its initial value are still outstanding. Each wakeup that a
      killed sleeper has drawn may leave one unit lying about. */
  lemma NobodyStranded(states: seq<Sem>, steps: seq<Step>, k: nat)
    requires Run(states, steps) && k < |states| && ResetInPeace(states, steps, k)
    requires states[k].asleep != {} && states[k].woken == {}
    ensures var s := states[k];
            && s.value <= s.wasted && s.acquires - s.releases >= s.start - s.wasted
            && (NoneKilled(states, steps, k) ==> s.wasted == 0)
  {
    RunSafe(states, steps, k);
  }

  /** A kill strands a sleeper: 1 and 2 hold both units, 3 and 4 sleep, 3 is killed and leaves
      with a unit, and of the two releases the second takes 3 off the queue. Process 4 sleeps on
      although the value is 1 and nobody has been woken. */
  lemma StrandedByKill() returns (states: seq<Sem>, steps: seq<Step>)
    ensures Run(states, steps) && ResetInPeace(states, steps, |steps|) && states[0].start == 2
    ensures var s := states[|steps|]; s.asleep == {4} && s.woken == {} && s.value == 1
  {
    hide Next;
    var s1, s2 := Sem(1, [], {}, {}, 2, 1, 0, 0), Sem(0, [], {}, {}, 2, 2, 0, 0);
    var s3, s4 := Sem(0, [3], {3}, {}, 2, 2, 0, 0), Sem(0, [3, 4], {3, 4}, {}, 2, 2, 0, 0);
    var s5, s6 := Sem(0, [3, 4], {4}, {3}, 2, 2, 0, 0), Sem(-1, [3, 4], {4}, {}, 2, 3, 0, 0);
    var s7, s8 := Sem(0, [3, 4], {4}, {}, 2, 3, 1, 0), Sem(1, [4], {4}, {}, 2, 3, 2, 1);
    BeforeKill();
    AfterKill();
    states := [New(2), s1, s2, s3, s4, s5, s6, s7, s8];
    steps := [Enter(1), Enter(2), Enter(3), Enter(4), Rouse(3), Resume(3), Release, Release];
  }

  lemma BeforeKill()
    ensures Next(New(2), Enter(1), Sem(1, [], {}, {}, 2, 1, 0, 0))
    ensures Next(Sem(1, [], {}, {}, 2, 1, 0, 0), Enter(2), Sem(0, [], {}, {}, 2, 2, 0, 0))
    ensures Next(Sem(0, [], {}, {}, 2, 2, 0, 0), Enter(3), Sem(0, [3], {3}, {}, 2, 2, 0, 0))
    ensures Next(Sem(0, [3], {3}, {}, 2, 2, 0, 0), Enter(4), Sem(0, [3, 4], {3, 4}, {}, 2, 2, 0, 0))
  {
  }

  lemma AfterKill()
    ensures Next(Sem(0, [3, 4], {3, 4}, {}, 2, 2, 0, 0), Rouse(3), Sem(0, [3, 4], {4}, {3}, 2, 2, 0, 0))
    ensures Next(Sem(0, [3, 4], {4}, {3}, 2, 2, 0, 0), Resume(3), Sem(-1, [3, 4], {4}, {}, 2, 3, 0, 0))
    ensures Next(Sem(-1, [3, 4], {4}, {}, 2, 3, 0, 0), Release, Sem(0, [3, 4], {4}, {}, 2, 3, 1, 0))
    ensures Next(Sem(0, [3, 4], {4}, {}, 2, 3, 1, 0), Release, Sem(1, [4], {4}, {}, 2, 3, 2, 1))
  {
  }

  /** Everybody who had to queue in a run, in order. */
  ghost function Arrivals(states: seq<Sem>, steps: seq<Step>, k: nat): seq<nat>
    requires Run(states, steps) && k < |states|
    decreases k
  {
    if k == 0 then []
    else
      var step := steps[k - 1];
      Arrivals(states, steps, k - 1) + (if step.Enter? && states[k - 1].value <= 0 then [step.p] else [])
  }

  /** How many of them have been taken off the queue. */
  ghost function Departures(states: seq<Sem>, steps: seq<Step>, k: nat): nat
    requires Run(states, steps) && k < |states|
    decreases k
  {
    if k == 0 then 0
    else
      var s, step := states[k - 1], steps[k - 1];
      if step.Reset? then |Arrivals(states, steps, k)|
      else Departures(states, steps, k - 1) + (if step.Release? && s.value >= 0 && s.waiting != [] then 1 else 0)
  }

  /** Releases take processes off the queue in the order in which they came: in every run, the queue
      at any time is the end of the sequence of all who ever had to queue. */
  lemma {:induction false} FirstComeFirstServed(states: seq<Sem>, steps: seq<Step>, k: nat)
    requires Run(states, steps) && k < |states|
    ensures Departures(states, steps, k) <= |Arrivals(states, steps, k)|
    ensures states[k].waiting == Arrivals(states, steps, k)[Departures(states, steps, k)..]
    decreases k
  {
    hide Next;
    if k > 0 {
      FirstComeFirstServed(states, steps, k - 1);
      QueueStep(states[k - 1], steps[k - 1], states[k]);
    }
  }

  /** What a step does to the queue. */
  lemma QueueStep(s: Sem, step: Step, s': Sem)
    requires Next(s, step, s')
    ensures s'.waiting == if step.Enter? && s.value <= 0 then s.waiting + [step.p]
                          else if step.Release? && s.value >= 0 && s.waiting != [] then s.waiting[1..]
                          else if step.Reset? then [] else s.waiting
  {
  }

  /** After an initialisation with v units and nobody asleep, the first v processes get in without sleeping, and the
      next one sleeps, alone in the queue. */
  lemma {:induction false} FirstUnits(s: Sem, v: nat, ps: seq<nat>) returns (states: seq<Sem>)
    requires s.asleep == {} && |ps| == v + 1 && Distinct(ps) && forall k | 0 <= k < |ps| :: ps[k] !in s.woken
    ensures |states| == v + 2 && Next(s, Reset(v), states[0])
    ensures forall k | 0 <= k <= v :: Next(states[k], Enter(ps[k]), states[k + 1])
    ensures forall k | 0 <= k <= v :: states[k].value == v - k && states[k].asleep == {} && states[k].waiting == []
    ensures states[v + 1].value == 0 && states[v + 1].asleep == {ps[v]} && states[v + 1].waiting == [ps[v]]
  {
    states := [Do(s, Reset(v))];
    for k := 0 to v
      invariant |states| == k + 1 && Next(s, Reset(v), states[0])
      invariant forall j | 0 <= j < k :: Next(states[j], Enter(ps[j]), states[j + 1])
      invariant forall j | 0 <= j <= k :: states[j].value == v - j && states[j].asleep == {} && states[j].waiting == []
      invariant forall j | 0 <= j <= k :: states[j].woken == s.woken
    {
      states := states + [Do(states[k], Enter(ps[k]))];
    }
    states := states + [Do(states[v], Enter(ps[v]))];
  }

  // ---------------------------------------------------------------------------------------
  // The code
  // ---------------------------------------------------------------------------------------

  /** The entries of a ring of slots, from its front. */
  function RingRead(q: seq<nat>, front: nat, size: nat): seq<nat>
    requires |q| == NPROC
  {
    seq(size, i requires 0 <= i => q[Place(front, i)])
  }

  /** Place i of the ring, from its front. */
  function Place(front: nat, i: nat): (k: nat)
    ensures k < NPROC
  {
    (front + i) % NPROC
  }

  lemma PlacesDiffer(front: nat, i: nat, j: nat)
    requires i < j < NPROC
    ensures Place(front, i) != Place(front, j)
  {
  }

  lemma PlaceNext(front: nat, i: nat)
    ensures Place(Place(front, 1), i) == Place(front, i + 1)
  {
  }

  lemma RingLength(q: seq<nat>, front: nat, size: nat)
    requires |q| == NPROC
    ensures |RingRead(q, front, size)| == size
  {
  }

  lemma RingPush(q: seq<nat>, front: nat, size: nat, p: nat)
    requires |q| == NPROC && front < NPROC && size < NPROC
    ensures RingRead(q[Place(front, size) := p], front, size + 1) == RingRead(q, front, size) + [p]
  {
    hide Place;
    forall i | 0 <= i < size ensures Place(front, i) != Place(front, size) {
      PlacesDiffer(front, i, size);
    }
  }

  lemma RingPop(q: seq<nat>, front: nat, size: nat)
    requires |q| == NPROC && front < NPROC && 0 < size <= NPROC
    ensures RingRead(q, Place(front, 1), size - 1) == RingRead(q, front, size)[1..]
    ensures RingRead(q, front, size)[0] == q[front]
  {
    assert Place(front, 0) == front;
    hide Place;
    forall i | 0 <= i < size - 1 ensures Place(Place(front, 1), i) == Place(front, i + 1) {
      PlaceNext(front, i);
    }
  }

  /** A queue of sleepers has room for one who is awake. */
  lemma RoomForOne(s: Sem, p: nat)
    requires Orderly(s) && p < NPROC && p !in s.asleep && forall i | 0 <= i < |s.waiting| :: s.waiting[i] < NPROC
    ensures |s.waiting| < NPROC
  {
    RoomLeft(s.waiting, p, NPROC);
  }

  /** One entry of semtable, its queue a ring of NPROC slots. */
  class SemEntry {
    var value: int
    var front: nat
    var size: nat
    const queue: array<nat>
    ghost var asleep: set<nat>
    ghost var woken: set<nat>
    ghost var start: int
    ghost var acquires: nat
    ghost var releases: nat
    ghost var wasted: nat

    ghost predicate Valid()
      reads this, queue
    {
      && queue.Length == NPROC && front < NPROC && size <= NPROC && Inv(Now())
      && forall i | 0 <= i < size :: Waiting()[i] < NPROC
    }

    /** The ring read from its front. */
    ghost function Waiting(): seq<nat>
      reads this, queue
      requires queue.Length == NPROC
    {
      RingRead(queue[..], front, size)
    }

    ghost function Now(): Sem
      reads this, queue
      requires queue.Length == NPROC
    {
      Sem(value, Waiting(), asleep, woken, start, acquires, releases, wasted)
    }

    constructor Init(value: int)
      ensures Valid() && fresh(queue) && Now() == New(value)
    {
      queue := new nat[NPROC](_ => 0);
      this.value, front, size := value, 0, 0;
      asleep, woken, start, acquires, releases, wasted := {}, {}, value, 0, 0, 0;
    }

    /** sem_init again: whoever sleeps is on no queue from now on. */
    method Initialise(value: int)
      requires Valid()
      modifies this
      ensures this.value == value && Waiting() == [] && asleep == old(asleep) && woken == old(woken)
      ensures Now() == Do(old(Now()), Reset(value))
      ensures Valid() <==> old(asleep) == {}
    {
      StepKeepsExactly(Now(), Reset(value));
      this.value, front, size := value, 0, 0;
      start, acquires, releases, wasted := value, 0, 0, 0;
    }

    /** sem_acquire up to the point where it gives up the lock. The queue has room for everybody as
        long as it holds nobody twice. */
    method Acquire(p: nat) returns (slept: bool)
      requires Valid() && p < NPROC && Enabled(Now(), Enter(p)) && (Orderly(Now()) || size < NPROC)
      modifies this, queue
      ensures Valid() && Now() == Do(old(Now()), Enter(p)) && slept == (old(value) <= 0)
      ensures value == if slept then old(value) else old(value) - 1
      ensures Waiting() == if slept then old(Waiting()) + [p] else old(Waiting())
      ensures asleep == (if slept then old(asleep) + {p} else old(asleep)) && woken == old(woken)
    {
      hide Inv, Orderly, RingRead, Place;
      ghost var s := Now();
      RingLength(queue[..], front, size);
      StepKeepsExactly(s, Enter(p));
      if Orderly(s) {
        RoomForOne(s, p);
      }
      if value <= 0 {
        RingPush(queue[..], front, size, p);
        var index := Place(front, size);
        size := size + 1;
        queue[index] := p;
        asleep := asleep + {p};
        return true;
      }
      value := value - 1;
      acquires := acquires + 1;
      return false;
    }

    /** sem_acquire after its sleep. */
    method AcquireAfterSleep(p: nat)
      requires Valid() && Enabled(Now(), Resume(p))
      modifies this`value, this`woken, this`acquires
      ensures Valid() && Now() == Do(old(Now()), Resume(p))
      ensures value == old(value) - 1 && woken == old(woken) - {p}
    {
      StepKeepsExactly(Now(), Resume(p));
      value := value - 1;
      woken, acquires := woken - {p}, acquires + 1;
    }

    /** sem_release: the front of the queue, if called, is woken if it sleeps. */
    method ReleaseOne() returns (called: bool, p: nat)
      requires Valid()
      modifies this`value, this`front, this`size, this`asleep, this`woken, this`releases, this`wasted
      ensures Valid() && Now() == Do(old(Now()), Release)
      ensures called == (old(value) >= 0 && old(Waiting()) != [])
      ensures called ==> p == old(Waiting())[0]
      ensures value == old(value) + 1 && Waiting() == if called then old(Waiting())[1..] else old(Waiting())
      ensures asleep == (if called then old(asleep) - {p} else old(asleep))
      ensures woken == (if called && p in old(asleep) then old(woken) + {p} else old(woken))
    {
      hide Inv, RingRead, Place;
      ghost var s := Now();
      RingLength(queue[..], front, size);
      StepKeepsExactly(s, Release);
      value := value + 1;
      releases := releases + 1;
      called, p := false, 0;
      if value > 0 && size > 0 {
        RingPop(queue[..], front, size);
        var index := front;
        front := Place(front, 1);
        size := size - 1;
        called, p := true, queue[index];
        if p in asleep {
          asleep, woken := asleep - {p}, woken + {p};
        } else {
          wasted := wasted + 1;
        }
      }
    }
  }
}

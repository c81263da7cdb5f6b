/** The three-queue scheduler of xv6/proc.c: aging, round robin by waiting time, lottery and
    best job first, and how long a round-robin process can be overtaken. Ticks and ranks are
    unbounded numbers here. */
module Scheduler {

  const NPROC := 64
  const STARVING_THRESHOLD := 8000
  const MIN_BJF_RANK: real := 1000000.0

  datatype State = Unused | Embryo | Sleeping | Runnable | Running | Zombie

  datatype Proc = Proc(state: State, queue: int, entered: int, tickets: int,
                       priority: int, priorityRatio: int, arrivalRatio: int, cycleRatio: int, cycles: real)

  predicate In(p: Proc, queue: int) {
    p.state.Runnable? && p.queue == queue
  }

  // ---------------------------------------------------------------------------------------
  // The code, and what it chooses
  // ---------------------------------------------------------------------------------------

  /** Aging of one process. */
  function Aged(p: Proc, ticks: int): Proc {
    if p.state.Runnable? && ticks - p.entered >= STARVING_THRESHOLD then p.(queue := 1, entered := ticks) else p
  }

  method FixQueues(a: array<Proc>, ticks: int)
    modifies a
    ensures forall i | 0 <= i < a.Length :: a[i] == Aged(old(a[i]), ticks)
    ensures forall i | 0 <= i < a.Length ::
              if old(a[i]).state.Runnable? && ticks - old(a[i]).entered >= 8000
              then a[i].queue == 1 && a[i].entered == ticks && a[i] == old(a[i]).(queue := 1, entered := ticks)
              else a[i] == old(a[i])
  {
    for i := 0 to a.Length
      invariant forall j | 0 <= j < i :: a[j] == Aged(old(a[j]), ticks)
      invariant forall j | i <= j < a.Length :: a[j] == old(a[j])
    {
      if a[i].state.Runnable? {
        if ticks - a[i].entered >= STARVING_THRESHOLD {
          a[i] := a[i].(queue := 1);
          a[i] := a[i].(entered := ticks);
        }
      }
    }
  }

  /** r is the queue-1 process that has waited longest, the first in the table among equals; -1
      when none has waited at all. */
  ghost predicate LongestWaiting(procs: seq<Proc>, ticks: int, r: int) {
    if r == -1 then forall i | 0 <= i < |procs| && In(procs[i], 1) :: procs[i].entered >= ticks
    else
      && 0 <= r < |procs| && In(procs[r], 1) && procs[r].entered < ticks
      && (forall i | 0 <= i < |procs| && In(procs[i], 1) :: procs[r].entered <= procs[i].entered)
      && (forall i | 0 <= i < r && In(procs[i], 1) :: procs[r].entered < procs[i].entered)
  }

  method RoundRobin(a: array<Proc>, ticks: int) returns (r: int)
    ensures LongestWaiting(a[..], ticks, r)
    ensures r == -1 || (0 <= r < a.Length && a[r].state.Runnable? && a[r].queue == 1)
  {
    r := -1;
    var starvation := 0;
    for i := 0 to a.Length
      invariant -1 <= r < i && starvation >= 0
      invariant r == -1 ==> starvation == 0
      invariant r >= 0 ==> In(a[r], 1) && starvation == ticks - a[r].entered > 0
      invariant forall j | 0 <= j < i && In(a[j], 1) :: ticks - a[j].entered <= starvation
      invariant forall j | 0 <= j < r && In(a[j], 1) :: ticks - a[j].entered < starvation
    {
      if !a[i].state.Runnable? || a[i].queue != 1 {
        continue;
      }
      var starved := ticks - a[i].entered;
      if starved > starvation {
        starvation := starved;
        r := i;
      }
    }
  }

  /** Tickets of the queue-2 processes among the first k of the table. */
  function TicketsBefore(procs: seq<Proc>, k: nat): int
    requires k <= |procs|
  {
    if k == 0 then 0 else TicketsBefore(procs, k - 1) + (if In(procs[k - 1], 2) then procs[k - 1].tickets else 0)
  }

  /** r is the first queue-2 process whose tickets, counted along the table, reach the winning
      one. */
  ghost predicate Winner(procs: seq<Proc>, winning: int, r: int) {
    if r == -1 then forall i | 0 <= i < |procs| && In(procs[i], 2) :: TicketsBefore(procs, i + 1) < winning
    else
      && 0 <= r < |procs| && In(procs[r], 2) && winning <= TicketsBefore(procs, r + 1)
      && forall i | 0 <= i < r && In(procs[i], 2) :: TicketsBefore(procs, i + 1) < winning
  }

  method Lottery(a: array<Proc>, winning: int) returns (r: int)
    ensures Winner(a[..], winning, r)
    ensures r == -1 || (0 <= r < a.Length && a[r].state.Runnable? && a[r].queue == 2)
  {
    var left := winning;
    for i := 0 to a.Length
      invariant left == winning - TicketsBefore(a[..], i)
      invariant forall j | 0 <= j < i && In(a[j], 2) :: TicketsBefore(a[..], j + 1) < winning
    {
      if !a[i].state.Runnable? || a[i].queue != 2 {
        continue;
      }
      left := left - a[i].tickets;
      if left <= 0 {
        return i;
      }
    }
    return -1;
  }

  lemma {:induction false} TicketsMonotone(procs: seq<Proc>, i: nat, j: nat)
    requires i <= j <= |procs| && forall k | 0 <= k < |procs| && In(procs[k], 2) :: procs[k].tickets >= 1
    ensures TicketsBefore(procs, i) <= TicketsBefore(procs, j)
    decreases j
  {
    if i < j {
      TicketsMonotone(procs, i, j - 1);
    }
  }

  lemma {:induction false} WinnerBefore(procs: seq<Proc>, winning: int, r: int, j: nat)
    requires Winner(procs, winning, r) && winning >= 1 && j <= |procs| && (r >= 0 ==> j <= r)
    ensures TicketsBefore(procs, j) < winning
    decreases j
  {
    if j > 0 && !In(procs[j - 1], 2) {
      WinnerBefore(procs, winning, r, j - 1);
    }
  }

  /** With positive tickets every number from 1 to the total makes exactly one process win, and a
      process wins with exactly as many numbers as it has tickets: those between the count
      before it and the count including it. */
  lemma EveryTicketWins(procs: seq<Proc>, winning: int, r: int)
    requires forall k | 0 <= k < |procs| && In(procs[k], 2) :: procs[k].tickets >= 1
    requires 1 <= winning <= TicketsBefore(procs, |procs|)
    requires Winner(procs, winning, r)
    ensures 0 <= r < |procs| && In(procs[r], 2)
    ensures forall i | 0 <= i < |procs| && In(procs[i], 2) ::
              i == r <==> TicketsBefore(procs, i) < winning <= TicketsBefore(procs, i) + procs[i].tickets
  {
    if r == -1 {
      WinnerBefore(procs, winning, r, |procs|);
      assert false;
    }
    WinnerBefore(procs, winning, r, r);
    forall i | 0 <= i < |procs| && In(procs[i], 2)
      ensures i == r <==> TicketsBefore(procs, i) < winning <= TicketsBefore(procs, i) + procs[i].tickets
    {
      assert TicketsBefore(procs, i + 1) == TicketsBefore(procs, i) + procs[i].tickets;
      if i > r {
        TicketsMonotone(procs, r + 1, i);
      }
    }
  }

  function Rank(p: Proc): real {
    (p.priority * p.priorityRatio + p.entered * p.arrivalRatio) as real + p.cycles * p.cycleRatio as real
  }

  /** Each part of the rank counts with its own ratio: more of priority, arrival time or cycles moves the rank
      by that much times that ratio, and a process without any of them has rank 0. */
  lemma RankLinear(p: Proc, x: real)
    ensures Rank(p.(priority := p.priority + 1)) == Rank(p) + p.priorityRatio as real
    ensures Rank(p.(entered := p.entered + 1)) == Rank(p) + p.arrivalRatio as real
    ensures Rank(p.(cycles := p.cycles + x)) == Rank(p) + x * p.cycleRatio as real
    ensures p.priority == p.entered == 0 && p.cycles == 0.0 ==> Rank(p) == 0.0
  {
    var a, b := p.priority * p.priorityRatio, p.entered * p.arrivalRatio;
    assert (p.priority + 1) * p.priorityRatio == a + p.priorityRatio;
    assert (p.entered + 1) * p.arrivalRatio == b + p.arrivalRatio;
    assert (p.cycles + x) * p.cycleRatio as real == p.cycles * p.cycleRatio as real + x * p.cycleRatio as real;
  }

  /** r is the queue-3 process of least rank, the first among equals; -1 when none ranks below
      MIN_BJF_RANK, even if there are runnable processes in the queue. */
  ghost predicate LeastRank(procs: seq<Proc>, r: int) {
    if r == -1 then forall i | 0 <= i < |procs| && In(procs[i], 3) :: Rank(procs[i]) >= MIN_BJF_RANK
    else
      && 0 <= r < |procs| && In(procs[r], 3) && Rank(procs[r]) < MIN_BJF_RANK
      && (forall i | 0 <= i < |procs| && In(procs[i], 3) :: Rank(procs[r]) <= Rank(procs[i]))
      && (forall i | 0 <= i < r && In(procs[i], 3) :: Rank(procs[r]) < Rank(procs[i]))
  }

  method BestJobFirst(a: array<Proc>) returns (r: int)
    ensures LeastRank(a[..], r)
    ensures r == -1 || (0 <= r < a.Length && a[r].state.Runnable? && a[r].queue == 3)
  {
    r := -1;
    var least := MIN_BJF_RANK;
    for i := 0 to a.Length
      invariant -1 <= r < i
      invariant r == -1 ==> least == MIN_BJF_RANK
      invariant r >= 0 ==> In(a[r], 3) && least == Rank(a[r]) < MIN_BJF_RANK
      invariant forall j | 0 <= j < i && In(a[j], 3) :: Rank(a[j]) >= least
      invariant forall j | 0 <= j < r && In(a[j], 3) :: Rank(a[j]) > least
    {
      if !a[i].state.Runnable? || a[i].queue != 3 {
        continue;
      }
      if Rank(a[i]) < least {
        r := i;
        least := Rank(a[i]);
      }
    }
  }

  /** What one pass of the scheduler loop picks after aging: round robin, failing that the
      lottery, failing that best job first; -1 for nobody. */
  ghost predicate Pick(procs: seq<Proc>, ticks: int, winning: int, r: int) {
    || (r != -1 && LongestWaiting(procs, ticks, r))
    || (r != -1 && LongestWaiting(procs, ticks, -1) && Winner(procs, winning, r))
    || (LongestWaiting(procs, ticks, -1) && Winner(procs, winning, -1) && LeastRank(procs, r))
  }

  /** The queues come in order: a process of queue 2 is picked only if nobody of queue 1 has waited, and one of queue 3
      only if, besides, no process of queue 2 holds the winning ticket. */
  lemma QueueOrder(procs: seq<Proc>, ticks: int, winning: int, r: int)
    requires Pick(procs, ticks, winning, r)
    ensures r != -1 ==> 0 <= r < |procs| && procs[r].state.Runnable? && 1 <= procs[r].queue <= 3
    ensures r == -1 || procs[r].queue > 1 ==>
              forall i | 0 <= i < |procs| && procs[i].state.Runnable? && procs[i].queue == 1 ::
                procs[i].entered >= ticks
    ensures r == -1 || procs[r].queue > 2 ==>
              forall i | 0 <= i < |procs| && procs[i].state.Runnable? && procs[i].queue == 2 ::
                TicketsBefore(procs, i) + procs[i].tickets < winning
    ensures r == -1 ==>
              forall i | 0 <= i < |procs| && procs[i].state.Runnable? && procs[i].queue == 3 ::
                Rank(procs[i]) >= 1000000.0
  {
    forall i | 0 <= i < |procs| && procs[i].state.Runnable? && procs[i].queue == 1 && LongestWaiting(procs, ticks, -1)
      ensures procs[i].entered >= ticks
    {
      assert In(procs[i], 1);
    }
    forall i | 0 <= i < |procs| && procs[i].state.Runnable? && procs[i].queue == 2 && Winner(procs, winning, -1)
      ensures TicketsBefore(procs, i) + procs[i].tickets < winning
    {
      assert In(procs[i], 2) && TicketsBefore(procs, i + 1) < winning;
    }
    forall i | 0 <= i < |procs| && procs[i].state.Runnable? && procs[i].queue == 3 && LeastRank(procs, -1)
      ensures Rank(procs[i]) >= 1000000.0
    {
      assert In(procs[i], 3);
    }
  }

  function AgedAll(procs: seq<Proc>, ticks: int): seq<Proc> {
    seq(|procs|, i requires 0 <= i < |procs| => Aged(procs[i], ticks))
  }

  function Started(p: Proc, ticks: int): Proc {
    p.(entered := ticks, state := Running)
  }

  /** One pass of the scheduler loop up to the switch. */
  method Dispatch(a: array<Proc>, ticks: int, winning: int) returns (r: int)
    modifies a
    ensures var aged := AgedAll(old(a[..]), ticks);
            && Pick(aged, ticks, winning, r) && -1 <= r < a.Length
            && a[..] == if r == -1 then aged else aged[r := Started(aged[r], ticks)]
    ensures forall i | 0 <= i < a.Length && i != r ::
              a[i] == if old(a[i]).state.Runnable? && ticks - old(a[i]).entered >= 8000
                      then old(a[i]).(queue := 1, entered := ticks) else old(a[i])
    ensures r != -1 ==> old(a[r]).state.Runnable? && a[r].state.Running? && a[r].entered == ticks
  {
    FixQueues(a, ticks);
    assert a[..] == AgedAll(old(a[..]), ticks);
    r := RoundRobin(a, ticks);
    if r == -1 {
      r := Lottery(a, winning);
    }
    if r == -1 {
      r := BestJobFirst(a);
    }
    if r == -1 {
      return;
    }
    a[r] := a[r].(entered := ticks);
    a[r] := a[r].(state := Running);
  }

  // ---------------------------------------------------------------------------------------
  // Bounded overtaking
  // ---------------------------------------------------------------------------------------

  datatype System = System(procs: seq<Proc>, ticks: int)

  datatype Step =
    | Tick                                  // the timer
    | Schedule(winning: int, r: int)        // a scheduler pass picks r
    | Change(q: int, p: Proc)               // process q changes in any other way

  /** Outside the scheduler a process may change state, queue and parameters in any way; its
      arrival time it keeps, or has it set to the present. */
  ghost predicate Next(s: System, step: Step, s': System) {
    match step
    case Tick => s' == s.(ticks := s.ticks + 1)
    case Schedule(winning, r) =>
      var aged := AgedAll(s.procs, s.ticks);
      && Pick(aged, s.ticks, winning, r) && -1 <= r < |s.procs|
      && s' == s.(procs := if r == -1 then aged else aged[r := Started(aged[r], s.ticks)])
    case Change(q, p) =>
      && 0 <= q < |s.procs| && (p.entered == s.procs[q].entered || p.entered == s.ticks)
      && s' == s.(procs := s.procs[q := p])
  }

  /** Process p waits in queue 1, has been there for at least a tick, and is not due for aging. */
  predicate Waiting(s: System, p: int) {
    && 0 <= p < |s.procs| && In(s.procs[p], 1)
    && 0 < s.ticks - s.procs[p].entered < STARVING_THRESHOLD
  }

  /** The other processes that arrived no later than p: the only ones that can go before it. */
  ghost function Ahead(s: System, p: int): set<int>
    requires 0 <= p < |s.procs|
  {
    set q | 0 <= q < |s.procs| && q != p && s.procs[q].entered <= s.procs[p].entered
  }

  /** A run during which p keeps waiting with the same arrival time. */
  ghost predicate WaitingRun(states: seq<System>, steps: seq<Step>, p: int) {
    && |states| == |steps| + 1 && 0 <= p < |states[0].procs|
    && (forall k | 0 <= k < |states| ::
          Waiting(states[k], p) && states[k].procs[p].entered == states[0].procs[p].entered)
    && (forall k | 0 <= k < |steps| :: Next(states[k], steps[k], states[k + 1]))
  }

  ghost function Dispatches(steps: seq<Step>, k: nat): nat
    requires k <= |steps|
  {
    if k == 0 then 0 else Dispatches(steps, k - 1) + (if steps[k - 1].Schedule? && steps[k - 1].r != -1 then 1 else 0)
  }

  /** While p waits nobody joins those ahead of it, and every dispatch takes one of them away. */
  lemma AheadShrinks(s: System, step: Step, s': System, p: int)
    requires Next(s, step, s') && Waiting(s, p) && Waiting(s', p) && s'.procs[p].entered == s.procs[p].entered
    ensures Ahead(s', p) <= Ahead(s, p)
    ensures step.Schedule? ==> step.r != -1 && step.r in Ahead(s, p) && step.r !in Ahead(s', p)
  {
    if step.Schedule? {
      var aged := AgedAll(s.procs, s.ticks);
      assert aged[p] == s.procs[p];
      assert step.r != -1 && LongestWaiting(aged, s.ticks, step.r);
      assert step.r != p;
    }
  }

  lemma {:induction false} AheadBound(s: set<int>, n: nat)
    requires forall q | q in s :: 0 <= q < n
    ensures |s| <= n
  {
    if n > 0 {
      AheadBound(s - {n - 1}, n - 1);
    } else {
      assert forall q :: q !in s;
    }
  }

  lemma {:induction false} OvertakenWhile(states: seq<System>, steps: seq<Step>, p: int, k: nat)
    requires WaitingRun(states, steps, p) && k <= |steps|
    ensures Dispatches(steps, k) + |Ahead(states[k], p)| <= |Ahead(states[0], p)|
    decreases k
  {
    hide Next;
    if k > 0 {
      OvertakenWhile(states, steps, p, k - 1);
      assert Waiting(states[k - 1], p) && Waiting(states[k], p);
      AheadShrinks(states[k - 1], steps[k - 1], states[k], p);
      var a, b := Ahead(states[k - 1], p), Ahead(states[k], p);
      assert |a - b| == |a| - |b|;
      if steps[k - 1].Schedule? {
        assert steps[k - 1].r in a - b;
      }
    }
  }

  /** Bounded overtaking: while a queue-1 process waits, at most as many dispatches go to others
      as there are others that arrived no later, and that is fewer than the table has slots. */
  lemma BoundedOvertaking(states: seq<System>, steps: seq<Step>, p: int)
    requires WaitingRun(states, steps, p) && |states[0].procs| == NPROC
    ensures Dispatches(steps, |steps|) <= |Ahead(states[0], p)| <= NPROC - 1
  {
    assert Waiting(states[0], p);
    OvertakenWhile(states, steps, p, |steps|);
    var ahead := Ahead(states[0], p);
    AheadBound(ahead + {p}, NPROC);
  }

  /** No process starves in its queue: one of any queue that has waited for the threshold is in queue 1 after the next
      pass of the scheduler, and from the next tick on it waits there as in BoundedOvertaking. */
  lemma StarvingRises(s: System, winning: int, r: int, s': System, p: int)
    requires Next(s, Schedule(winning, r), s') && 0 <= p < |s.procs| && s.procs[p].state.Runnable?
    requires s.ticks - s.procs[p].entered >= STARVING_THRESHOLD
    ensures r != p && |s'.procs| == |s.procs| && s'.procs[p] == s.procs[p].(queue := 1, entered := s.ticks)
    ensures Next(s', Tick, s'.(ticks := s'.ticks + 1)) && Waiting(s'.(ticks := s'.ticks + 1), p)
  {
    var aged := AgedAll(s.procs, s.ticks);
    assert aged[p] == s.procs[p].(queue := 1, entered := s.ticks);
  }

  /** So at most NPROC - 1 dispatches of others come between that tick and its own. */
  lemma StarvingServed(s: System, winning: int, r: int, s': System, states: seq<System>, steps: seq<Step>, p: int)
    requires Next(s, Schedule(winning, r), s') && 0 <= p < |s.procs| == NPROC && s.procs[p].state.Runnable?
    requires s.ticks - s.procs[p].entered >= STARVING_THRESHOLD
    requires |states| == |steps| + 1 && states[0] == s'.(ticks := s'.ticks + 1)
    requires forall k | 0 <= k < |steps| :: Next(states[k], steps[k], states[k + 1])
    requires forall k | 0 < k < |states| :: Waiting(states[k], p) && states[k].procs[p].entered == s.ticks
    ensures Dispatches(steps, |steps|) <= NPROC - 1
  {
    StarvingRises(s, winning, r, s', p);
    hide Next;
    assert forall k | 0 <= k < |states| ::
      Waiting(states[k], p) && states[k].procs[p].entered == states[0].procs[p].entered;
    BoundedOvertaking(states, steps, p);
  }

  /** And a pass of the scheduler picks p or somebody ahead of it; with nobody ahead, p. */
  lemma TurnComes(s: System, winning: int, r: int, s': System, p: int)
    requires Next(s, Schedule(winning, r), s') && Waiting(s, p)
    ensures r == p || r in Ahead(s, p)
    ensures Ahead(s, p) == {} ==> r == p && s'.procs[p].state.Running?
  {
    var aged := AgedAll(s.procs, s.ticks);
    assert aged[p] == s.procs[p];
    assert r != -1 && LongestWaiting(aged, s.ticks, r);
    assert aged[r].entered <= s.procs[p].entered;
  }
}

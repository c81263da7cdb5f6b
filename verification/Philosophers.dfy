/** The dining philosophers of xv6/phillsofs.c over the semaphores of xv6/proc.c, for any table
    of at least two seats and any number of rounds. Philosopher i sits at fork i, has fork
    i + 1 on the right, and carries the id i + 1. Nobody is killed and no fork is initialised
    again while the game is on: a killed philosopher would leave with the forks it holds. */
module Philosophers {
  import opened Basics
  import S = Semaphore

  /** Where a philosopher is in the loop: about to take the first fork, asleep or woken in that
      call, the same for the second, eating, with the left fork put down, done. */
  datatype Pc = First | FirstWait | Second | SecondWait | Eating | HalfDown | Done

  datatype Phil = Phil(pc: Pc, rounds: nat)

  datatype Table = Table(forks: seq<S.Sem>, phils: seq<Phil>)

  function Right(n: nat, i: nat): nat {
    if i + 1 < n then i + 1 else 0
  }

  /** Even ids, which are odd seats, start with the left fork. */
  function FirstFork(n: nat, i: nat): nat {
    if i % 2 == 1 then i else Right(n, i)
  }

  function SecondFork(n: nat, i: nat): nat {
    if i % 2 == 1 then Right(n, i) else i
  }

  /** The fork that the next semaphore call of philosopher i is about. */
  function Target(n: nat, i: nat, pc: Pc): nat {
    match pc
    case First => FirstFork(n, i)
    case FirstWait => FirstFork(n, i)
    case Second => SecondFork(n, i)
    case SecondWait => SecondFork(n, i)
    case Eating => i
    case HalfDown => Right(n, i)
    case Done => i
  }

  predicate Waits(pc: Pc) {
    pc.FirstWait? || pc.SecondWait?
  }

  /** The semaphore step that philosopher i makes next. */
  function Call(i: nat, pc: Pc): S.Step {
    match pc
    case First => S.Enter(i)
    case Second => S.Enter(i)
    case FirstWait => S.Resume(i)
    case SecondWait => S.Resume(i)
    case _ => S.Release
  }

  ghost predicate Shape(t: Table) {
    |t.forks| == |t.phils| >= 2
  }

  /** Philosopher i can move: not done, and not asleep. */
  ghost predicate CanMove(t: Table, i: nat)
    requires Shape(t)
  {
    && i < |t.phils| && !t.phils[i].pc.Done?
    && (Waits(t.phils[i].pc) ==> i in t.forks[Target(|t.phils|, i, t.phils[i].pc)].woken)
  }

  function After(p: Phil, blocked: bool): Phil {
    match p.pc
    case First => p.(pc := if blocked then FirstWait else Second)
    case FirstWait => p.(pc := Second)
    case Second => p.(pc := if blocked then SecondWait else Eating)
    case SecondWait => p.(pc := Eating)
    case Eating => p.(pc := HalfDown)
    case HalfDown => if p.rounds <= 1 then Phil(Done, 0) else Phil(First, p.rounds - 1)
    case Done => p
  }

  ghost function Move(t: Table, i: nat): Table
    requires Shape(t) && i < |t.phils|
    requires S.Enabled(t.forks[Target(|t.phils|, i, t.phils[i].pc)], Call(i, t.phils[i].pc))
  {
    var p := t.phils[i];
    var f := Target(|t.phils|, i, p.pc);
    Table(t.forks[f := S.Do(t.forks[f], Call(i, p.pc))], t.phils[i := After(p, t.forks[f].value <= 0)])
  }

  // ---------------------------------------------------------------------------------------
  // The invariant
  // ---------------------------------------------------------------------------------------

  function HoldsLeft(i: nat, pc: Pc): nat {
    if pc.Eating? || (i % 2 == 1 && (pc.Second? || pc.SecondWait?)) then 1 else 0
  }

  function HoldsRight(i: nat, pc: Pc): nat {
    if pc.Eating? || pc.HalfDown? || (i % 2 == 0 && (pc.Second? || pc.SecondWait?)) then 1 else 0
  }

  /** The seat whose right fork is f. */
  function Before(n: nat, f: nat): nat
    requires n >= 1
  {
    if f == 0 then n - 1 else f - 1
  }

  function Holders(n: nat, phils: seq<Phil>, f: nat): nat
    requires f < n == |phils|
  {
    HoldsLeft(f, phils[f].pc) + HoldsRight(Before(n, f), phils[Before(n, f)].pc)
  }

  /** The value of a fork is what its holders leave of the initial 1, and its queue and woken set
      are philosophers in the middle of acquiring it. */
  ghost predicate ForkInv(t: Table, f: nat)
    requires Shape(t) && f < |t.forks|
  {
    && S.Inv(t.forks[f]) && S.Orderly(t.forks[f])
    && t.forks[f].value == 1 - Holders(|t.phils|, t.phils, f)
    && (forall p | p in t.forks[f].waiting || p in t.forks[f].woken ::
          p < |t.phils| && Waits(t.phils[p].pc) && Target(|t.phils|, p, t.phils[p].pc) == f)
  }

  ghost predicate PhilInv(t: Table, i: nat)
    requires Shape(t) && i < |t.phils|
  {
    && (Waits(t.phils[i].pc) ==>
          var f := Target(|t.phils|, i, t.phils[i].pc);
          f < |t.forks| && (i in t.forks[f].waiting || i in t.forks[f].woken))
    && (t.phils[i].pc.Done? <==> t.phils[i].rounds == 0)
  }

  ghost predicate Inv(t: Table) {
    && Shape(t)
    && (forall f | 0 <= f < |t.forks| :: ForkInv(t, f))
    && (forall i | 0 <= i < |t.phils| :: PhilInv(t, i))
  }

  lemma MoveEnabled(t: Table, i: nat)
    requires Inv(t) && CanMove(t, i)
    ensures S.Enabled(t.forks[Target(|t.phils|, i, t.phils[i].pc)], Call(i, t.phils[i].pc))
  {
    var f := Target(|t.phils|, i, t.phils[i].pc);
    assert ForkInv(t, f);
  }

  /** The move changes how many hold the target fork by what it does to the value. */
  lemma HoldersChange(n: nat, phils: seq<Phil>, i: nat, blocked: bool, g: nat)
    requires 2 <= n == |phils| && i < n && g < n && !phils[i].pc.Done?
    ensures var pc := phils[i].pc;
            var change := if g != Target(n, i, pc) then 0
                          else if pc.Eating? || pc.HalfDown? then -1
                          else if blocked && (pc.First? || pc.Second?) then 0 else 1;
            Holders(n, phils[i := After(phils[i], blocked)], g) == Holders(n, phils, g) + change
  {
  }

  /** A step puts nobody but its caller into the queue and the woken set, and a Resume takes the
      caller out of both. */
  lemma OnlyCallerJoins(s: S.Sem, step: S.Step)
    requires S.Enabled(s, step) && S.Inv(s) && S.Orderly(s) && !step.Rouse? && !step.Reset?
    ensures var s' := S.Do(s, step);
            forall p | p in s'.waiting || p in s'.woken ::
              && (p in s.waiting || p in s.woken || (step == S.Enter(p) && s.value <= 0))
              && step != S.Resume(p)
  {
    hide Distinct;
    var q := s.waiting;
    assert step.Release? && q != [] ==> q[0] in q && forall p | p in q[1..] :: p in q;
  }

  /** Who waits for a fork after a move is still in the middle of acquiring it. */
  lemma QueueKept(t: Table, i: nat, g: nat, p: nat)
    requires Inv(t) && CanMove(t, i) && g < |t.forks|
    requires S.Enabled(t.forks[Target(|t.phils|, i, t.phils[i].pc)], Call(i, t.phils[i].pc))
    requires p in Move(t, i).forks[g].waiting || p in Move(t, i).forks[g].woken
    ensures var phils := Move(t, i).phils;
            p < |phils| && Waits(phils[p].pc) && Target(|phils|, p, phils[p].pc) == g
  {
    var pc := t.phils[i].pc;
    var f := Target(|t.phils|, i, pc);
    assert ForkInv(t, g) && PhilInv(t, i);
    if g == f {
      OnlyCallerJoins(t.forks[f], Call(i, pc));
    }
  }

  lemma ForkKept(t: Table, i: nat, g: nat)
    requires Inv(t) && CanMove(t, i) && g < |t.forks|
    requires S.Enabled(t.forks[Target(|t.phils|, i, t.phils[i].pc)], Call(i, t.phils[i].pc))
    ensures ForkInv(Move(t, i), g)
  {
    hide S.Inv, S.Orderly, Holders, ForkInv, PhilInv;
    ForkSame(t, i, g);
    var t' := Move(t, i);
    forall p | p in t'.forks[g].waiting || p in t'.forks[g].woken
      ensures p < |t.phils| && Waits(t'.phils[p].pc) && Target(|t.phils|, p, t'.phils[p].pc) == g
    {
      QueueKept(t, i, g, p);
    }
    ForkFrom(t', g);
  }

  lemma ForkFrom(t: Table, f: nat)
    requires Shape(t) && f < |t.forks| && S.Inv(t.forks[f]) && S.Orderly(t.forks[f])
    requires t.forks[f].value == 1 - Holders(|t.phils|, t.phils, f)
    requires forall p | p in t.forks[f].waiting || p in t.forks[f].woken ::
               p < |t.phils| && Waits(t.phils[p].pc) && Target(|t.phils|, p, t.phils[p].pc) == f
    ensures ForkInv(t, f)
  {
  }

  /** The semaphore of a fork stays in order, and its value goes with its holders. */
  lemma ForkSame(t: Table, i: nat, g: nat)
    requires Inv(t) && CanMove(t, i) && g < |t.forks|
    requires S.Enabled(t.forks[Target(|t.phils|, i, t.phils[i].pc)], Call(i, t.phils[i].pc))
    ensures var t' := Move(t, i);
            && S.Inv(t'.forks[g]) && S.Orderly(t'.forks[g])
            && t'.forks[g].value == 1 - Holders(|t'.phils|, t'.phils, g)
  {
    hide S.Inv, S.Orderly, Holders;
    var n, pc := |t.phils|, t.phils[i].pc;
    var f := Target(n, i, pc);
    assert ForkInv(t, g);
    hide Inv, ForkInv;
    HoldersChange(n, t.phils, i, t.forks[f].value <= 0, g);
    if g == f {
      S.StepKeepsExactly(t.forks[f], Call(i, pc));
      S.OrderlyExactly(t.forks[f], Call(i, pc));
    }
  }

  /** Only its own Resume takes a process out of the queue and the woken set. */
  lemma QueuedStay(s: S.Sem, step: S.Step, p: nat)
    requires S.Enabled(s, step) && S.Orderly(s) && !step.Rouse? && !step.Reset?
    requires (p in s.waiting || p in s.woken) && step != S.Resume(p)
    ensures var s' := S.Do(s, step); p in s'.waiting || p in s'.woken
  {
    assert s.waiting != [] ==> s.waiting == [s.waiting[0]] + s.waiting[1..];
  }

  lemma PhilKept(t: Table, i: nat, j: nat)
    requires Inv(t) && CanMove(t, i) && j < |t.phils|
    requires S.Enabled(t.forks[Target(|t.phils|, i, t.phils[i].pc)], Call(i, t.phils[i].pc))
    ensures PhilInv(Move(t, i), j)
  {
    var n, pc := |t.phils|, t.phils[i].pc;
    var f := Target(n, i, pc);
    assert PhilInv(t, j) && PhilInv(t, i) && ForkInv(t, f);
    if j != i && (j in t.forks[f].waiting || j in t.forks[f].woken) {
      QueuedStay(t.forks[f], Call(i, pc), j);
    }
  }

  lemma MoveKeeps(t: Table, i: nat)
    requires Inv(t) && CanMove(t, i)
    ensures S.Enabled(t.forks[Target(|t.phils|, i, t.phils[i].pc)], Call(i, t.phils[i].pc))
    ensures Inv(Move(t, i))
  {
    MoveEnabled(t, i);
    var t' := Move(t, i);
    forall g | 0 <= g < |t'.forks| ensures ForkInv(t', g) {
      ForkKept(t, i, g);
    }
    forall j | 0 <= j < |t'.phils| ensures PhilInv(t', j) {
      PhilKept(t, i, j);
    }
  }

  /** init_game and start_game: every fork down, every philosopher at the start of `rounds` rounds. */
  predicate Init(t: Table, rounds: nat) {
    && |t.forks| == |t.phils| >= 2 && rounds >= 1
    && (forall f | 0 <= f < |t.forks| :: t.forks[f] == S.New(1))
    && (forall i | 0 <= i < |t.phils| :: t.phils[i] == Phil(First, rounds))
  }

  /** init_game resets each fork to 1, which with nobody at the forks is the start of the game. */
  lemma InitGame(forks: seq<S.Sem>, forks': seq<S.Sem>, rounds: nat)
    requires |forks| == |forks'| >= 2 && rounds >= 1
    requires forall f | 0 <= f < |forks| :: forks[f].asleep == {} && forks[f].woken == {}
    requires forall f | 0 <= f < |forks| :: S.Next(forks[f], S.Reset(1), forks'[f])
    ensures Init(Table(forks', seq(|forks'|, _ => Phil(First, rounds))), rounds)
  {
  }

  ghost predicate Next(t: Table, i: nat, t': Table) {
    Inv(t) ==> CanMove(t, i) && (MoveEnabled(t, i); t' == Move(t, i))
  }

  /** A run: moves[k] is the philosopher that makes the k-th move. Inv in Next makes the move well
      defined; RunSafe shows that it always holds. */
  ghost predicate Run(states: seq<Table>, moves: seq<nat>, rounds: nat) {
    && |states| == |moves| + 1 && Init(states[0], rounds)
    && forall k | 0 <= k < |moves| :: Next(states[k], moves[k], states[k + 1])
  }

  lemma InitInv(t: Table, rounds: nat)
    requires Init(t, rounds)
    ensures Inv(t)
  {
  }

  lemma {:induction false} RunSafe(states: seq<Table>, moves: seq<nat>, rounds: nat, k: nat)
    requires Run(states, moves, rounds) && k < |states|
    ensures Inv(states[k])
    decreases k
  {
    if k > 0 {
      RunSafe(states, moves, rounds, k - 1);
      assert Next(states[k - 1], moves[k - 1], states[k]);
      MoveKeeps(states[k - 1], moves[k - 1]);
    } else {
      InitInv(states[0], rounds);
    }
  }

  // ---------------------------------------------------------------------------------------
  // No deadlock
  // ---------------------------------------------------------------------------------------

  /** The order in which every philosopher takes forks: odd forks, then fork 0, then the other
      even ones. */
  function Rank(f: nat): nat {
    if f % 2 == 1 then 0 else if f == 0 then 1 else 2
  }

  lemma RankIncreases(n: nat, i: nat)
    requires 2 <= n && i < n
    ensures Rank(FirstFork(n, i)) < Rank(SecondFork(n, i))
  {
  }

  /** A philosopher who sleeps for fork f while nobody can move would need a holder of f who also
      sleeps, for a fork of higher rank. */
  lemma {:induction false} SleepersNeedMover(t: Table, i: nat) returns (j: nat)
    requires Inv(t) && i < |t.phils| && Waits(t.phils[i].pc)
    ensures CanMove(t, j)
    decreases 2 - Rank(Target(|t.phils|, i, t.phils[i].pc))
  {
    var n := |t.phils|;
    var f := Target(n, i, t.phils[i].pc);
    assert PhilInv(t, i) && ForkInv(t, f);
    var s := t.forks[f];
    if s.woken != {} {
      j :| j in s.woken;
    } else {
      assert i in s.asleep && s.value <= 0;
      var h := if HoldsLeft(f, t.phils[f].pc) == 1 then f else Before(n, f);
      assert FirstFork(n, h) == f || SecondFork(n, h) == f;
      RankIncreases(n, h);
      if t.phils[h].pc.SecondWait? {
        j := SleepersNeedMover(t, h);
      } else {
        j := h;
      }
    }
  }

  /** In every reachable state with an unfinished philosopher somebody can move. */
  lemma NoDeadlock(states: seq<Table>, moves: seq<nat>, rounds: nat, k: nat, i: nat) returns (j: nat)
    requires Run(states, moves, rounds) && k < |states|
    requires i < |states[k].phils| && !states[k].phils[i].pc.Done?
    ensures Inv(states[k]) && CanMove(states[k], j)
  {
    RunSafe(states, moves, rounds, k);
    if Waits(states[k].phils[i].pc) {
      j := SleepersNeedMover(states[k], i);
    } else {
      j := i;
    }
  }

  // ---------------------------------------------------------------------------------------
  // The game ends
  // ---------------------------------------------------------------------------------------

  /** Moves that philosopher p may still make. */
  function Budget(p: Phil): nat {
    var done := match p.pc
                case First => 0 case FirstWait => 1 case Second => 2 case SecondWait => 3
                case Eating => 4 case HalfDown => 5 case Done => 6;
    if p.rounds == 0 then 0 else 6 * p.rounds - done
  }

  function Remaining(phils: seq<Phil>): nat {
    if phils == [] then 0 else Budget(phils[0]) + Remaining(phils[1..])
  }

  lemma {:induction false} RemainingUpdate(phils: seq<Phil>, i: nat, p: Phil)
    requires i < |phils|
    ensures Remaining(phils[i := p]) == Remaining(phils) - Budget(phils[i]) + Budget(p)
  {
    if i == 0 {
      assert phils[0 := p][1..] == phils[1..];
    } else {
      RemainingUpdate(phils[1..], i - 1, p);
      assert phils[i := p][1..] == phils[1..][i - 1 := p];
    }
  }

  lemma {:induction false} RemainingStart(phils: seq<Phil>, rounds: nat)
    requires forall i | 0 <= i < |phils| :: phils[i] == Phil(First, rounds)
    ensures Remaining(phils) == 6 * rounds * |phils|
  {
    if phils != [] {
      RemainingStart(phils[1..], rounds);
      assert 6 * rounds * |phils| == 6 * rounds * |phils[1..]| + 6 * rounds;
    }
  }

  /** No run makes more than six moves per philosopher and round; with NoDeadlock, every run that
      is not cut short ends with all of them done. */
  lemma {:induction false} GameEnds(states: seq<Table>, moves: seq<nat>, rounds: nat, k: nat)
    requires Run(states, moves, rounds) && k < |states|
    ensures k + Remaining(states[k].phils) <= 6 * rounds * |states[0].phils|
    decreases k
  {
    if k == 0 {
      RemainingStart(states[0].phils, rounds);
    } else {
      GameEnds(states, moves, rounds, k - 1);
      RunSafe(states, moves, rounds, k - 1);
      var t, i := states[k - 1], moves[k - 1];
      assert Next(t, i, states[k]) && PhilInv(t, i);
      MoveEnabled(t, i);
      RemainingUpdate(t.phils, i, states[k].phils[i]);
    }
  }

  // ---------------------------------------------------------------------------------------
  // What the semaphores do not give
  // ---------------------------------------------------------------------------------------

  /** How often philosopher i has begun to eat. */
  ghost function Meals(states: seq<Table>, moves: seq<nat>, rounds: nat, i: nat, k: nat): nat
    requires Run(states, moves, rounds) && k < |states| && i < |states[0].phils|
    decreases k
  {
    if k == 0 then 0
    else
      Meals(states, moves, rounds, i, k - 1)
      + if moves[k - 1] == i && i < |states[k].phils| && states[k].phils[i].pc.Eating? then 1 else 0
  }

  /** Everybody eats once a round: what a philosopher has eaten and what is left to eat make up the rounds, and who is
      done has eaten in every one. */
  lemma {:induction false} EatsEveryRound(states: seq<Table>, moves: seq<nat>, rounds: nat, i: nat, k: nat)
    requires Run(states, moves, rounds) && k < |states| && i < |states[0].phils|
    ensures |states[k].phils| == |states[0].phils|
    ensures var p := states[k].phils[i];
            Meals(states, moves, rounds, i, k) + p.rounds
            == rounds + if p.pc.Eating? || p.pc.HalfDown? then 1 else 0
    ensures states[k].phils[i].pc.Done? ==> Meals(states, moves, rounds, i, k) == rounds
    decreases k
  {
    if k > 0 {
      EatsEveryRound(states, moves, rounds, i, k - 1);
      RunSafe(states, moves, rounds, k - 1);
      var t, j := states[k - 1], moves[k - 1];
      assert Next(t, j, states[k]) && PhilInv(t, i);
      MoveEnabled(t, j);
      hide S.Do;
    }
    RunSafe(states, moves, rounds, k);
    assert PhilInv(states[k], i);
  }

  /** No fork is in two hands. */
  ghost predicate OneHand(t: Table) {
    Shape(t) && forall f | 0 <= f < |t.phils| :: Holders(|t.phils|, t.phils, f) <= 1
  }

  /** A move keeps every fork in one hand, except exactly that of a woken philosopher who finds that
      the neighbour has taken the fork again. */
  lemma OneHandExactly(t: Table, i: nat)
    requires Inv(t) && OneHand(t) && CanMove(t, i)
    requires S.Enabled(t.forks[Target(|t.phils|, i, t.phils[i].pc)], Call(i, t.phils[i].pc))
    ensures OneHand(Move(t, i)) <==>
            !(Waits(t.phils[i].pc) && t.forks[Target(|t.phils|, i, t.phils[i].pc)].value == 0)
  {
    var n, pc, t' := |t.phils|, t.phils[i].pc, Move(t, i);
    var f := Target(n, i, pc);
    assert ForkInv(t, f);
    hide Inv, ForkInv, Holders;
    forall g | 0 <= g < n ensures Holders(n, t'.phils, g) <= 1 <==>
                                  !(g == f && Waits(pc) && t.forks[f].value == 0)
    {
      assert Holders(n, t.phils, g) <= 1;
      HoldersChange(n, t.phils, i, t.forks[f].value <= 0, g);
      if g == f {
        ForkValue(t, f);
      }
    }
    UsersOf(n, i, pc);
    assert Holders(n, t'.phils, f) <= 1 <==> !(Waits(pc) && t.forks[f].value == 0);
  }

  lemma ForkValue(t: Table, f: nat)
    requires Shape(t) && f < |t.forks| && ForkInv(t, f)
    ensures t.forks[f].value == 1 - Holders(|t.phils|, t.phils, f)
  {
  }

  /** No run on n seats ever has a fork in two hands. */
  ghost predicate AlwaysOneHand(n: nat, rounds: nat) {
    forall states: seq<Table>, moves: seq<nat> ::
      Run(states, moves, rounds) && |states[0].phils| == n ==> OneHand(states[|moves|])
  }

  /** The neighbour with whom p shares fork f has put it down for good. */
  ghost predicate NeighbourPast(t: Table, f: nat, p: nat)
    requires Shape(t) && f < |t.phils|
  {
    if p == f then t.phils[Before(|t.phils|, f)].pc.Done?
    else t.phils[f].pc.HalfDown? || t.phils[f].pc.Done?
  }

  /** In a game of one round: who has been woken has the fork to itself. */
  ghost predicate LastRound(t: Table)
    requires Shape(t)
  {
    && (forall i | 0 <= i < |t.phils| :: t.phils[i].rounds <= 1)
    && (forall f, p | 0 <= f < |t.forks| && p in t.forks[f].woken :: NeighbourPast(t, f, p))
  }

  lemma UsersOf(n: nat, i: nat, pc: Pc)
    requires 2 <= n && i < n && !pc.Done?
    ensures Target(n, i, pc) < n
    ensures i == Target(n, i, pc) || i == Before(n, Target(n, i, pc))
    ensures Before(n, Target(n, i, pc)) != Target(n, i, pc)
  {
  }

  /** Whom a step wakes: the caller of Release wakes somebody who sleeps. */
  lemma NewlyWoken(s: S.Sem, step: S.Step, p: nat)
    requires S.Enabled(s, step) && S.Orderly(s) && !step.Rouse? && !step.Reset?
    requires p in S.Do(s, step).woken && p !in s.woken
    ensures step.Release? && p in s.waiting
  {
  }

  lemma WokenPast(t: Table, i: nat, g: nat, p: nat)
    requires Inv(t) && CanMove(t, i) && LastRound(t) && g < |t.forks|
    requires S.Enabled(t.forks[Target(|t.phils|, i, t.phils[i].pc)], Call(i, t.phils[i].pc))
    requires p in Move(t, i).forks[g].woken
    ensures NeighbourPast(Move(t, i), g, p)
  {
    var n, pc := |t.phils|, t.phils[i].pc;
    var f := Target(n, i, pc);
    assert ForkInv(t, g) && t.phils[i].rounds <= 1;
    UsersOf(n, i, pc);
    if p !in t.forks[g].woken {
      NewlyWoken(t.forks[f], Call(i, pc), p);
      assert g == f && (pc.Eating? || pc.HalfDown?);
      UsersOf(n, p, t.phils[p].pc);
    } else {
      assert NeighbourPast(t, g, p);
    }
  }

  lemma MoveKeepsLastRound(t: Table, i: nat)
    requires Inv(t) && CanMove(t, i) && LastRound(t) && OneHand(t)
    ensures S.Enabled(t.forks[Target(|t.phils|, i, t.phils[i].pc)], Call(i, t.phils[i].pc))
    ensures LastRound(Move(t, i)) && OneHand(Move(t, i))
  {
    MoveEnabled(t, i);
    var n, pc, t' := |t.phils|, t.phils[i].pc, Move(t, i);
    var f := Target(n, i, pc);
    forall g, p | 0 <= g < |t'.forks| && p in t'.forks[g].woken ensures NeighbourPast(t', g, p) {
      WokenPast(t, i, g, p);
    }
    OneHandExactly(t, i);
    if Waits(pc) {
      assert NeighbourPast(t, f, i) && ForkInv(t, f);
      UsersOf(n, i, pc);
      ForkValue(t, f);
      assert Holders(n, t.phils, f) == 0;
    }
  }

  lemma {:induction false} OneRoundSafe(states: seq<Table>, moves: seq<nat>, k: nat)
    requires Run(states, moves, 1) && k < |states|
    ensures Inv(states[k]) && OneHand(states[k]) && LastRound(states[k])
    decreases k
  {
    RunSafe(states, moves, 1, k);
    if k > 0 {
      OneRoundSafe(states, moves, k - 1);
      assert Next(states[k - 1], moves[k - 1], states[k]);
      MoveKeepsLastRound(states[k - 1], moves[k - 1]);
    }
  }

  /** No fork is ever in two hands if and only if the game is over after one round, on any number of
      seats: for a second round a philosopher can take a fork again before the neighbour whom
      it has woken runs. */
  lemma OneHandForOneRound(n: nat, rounds: nat)
    requires n >= 2 && rounds >= 1
    ensures AlwaysOneHand(n, rounds) <==> rounds == 1
  {
    if rounds == 1 {
      forall states: seq<Table>, moves: seq<nat> | Run(states, moves, rounds) && |states[0].phils| == n
        ensures OneHand(states[|moves|])
      {
        OneRoundSafe(states, moves, |moves|);
      }
    } else {
      var states, moves := TakenTwice(n, rounds);
    }
  }

  lemma Extend(states: seq<Table>, moves: seq<nat>, rounds: nat, i: nat)
      returns (states': seq<Table>, moves': seq<nat>)
    requires Run(states, moves, rounds) && Inv(states[|moves|]) && CanMove(states[|moves|], i)
    ensures S.Enabled(states[|moves|].forks[Target(|states[|moves|].phils|, i, states[|moves|].phils[i].pc)],
                      Call(i, states[|moves|].phils[i].pc))
    ensures Run(states', moves', rounds) && |states'| - 1 == |moves'| == |moves| + 1
    ensures states'[|moves'|] == Move(states[|moves|], i) && Inv(states'[|moves'|]) && states'[0] == states[0]
  {
    MoveKeeps(states[|moves|], i);
    states', moves' := states + [Move(states[|moves|], i)], moves + [i];
    assert Next(states[|moves|], i, Move(states[|moves|], i));
    hide Next, Inv, Init;
    assert forall k | 0 <= k < |states| :: states'[k] == states[k];
    assert forall k | 0 <= k < |moves| :: moves'[k] == moves[k];
  }

  /** Everybody at the start. */
  lemma Seated(n: nat, rounds: nat) returns (states: seq<Table>, moves: seq<nat>)
    requires n >= 2 && rounds >= 1
    ensures Run(states, moves, rounds) && |moves| == 0 && Inv(states[0])
    ensures |states[0].phils| == |states[0].forks| == n
    ensures forall i | 0 <= i < n :: states[0].phils[i] == Phil(First, rounds)
    ensures forall f | 0 <= f < n :: states[0].forks[f] == S.New(1)
  {
    var t := Table(seq(n, i => S.New(1)), seq(n, i => Phil(First, rounds)));
    states, moves := [t], [];
    InitInv(t, rounds);
  }

  /** Philosopher 0 eats a round while 1 falls asleep for the fork between them and is woken. */
  lemma EatOnce(n: nat, rounds: nat) returns (states: seq<Table>, moves: seq<nat>)
    requires n >= 2 && rounds >= 2
    ensures Run(states, moves, rounds) && Inv(states[|moves|]) && |states[|moves|].phils| == n == |states[0].phils|
    ensures states[|moves|].phils[0] == Phil(First, rounds - 1) && states[|moves|].phils[1] == Phil(FirstWait, rounds)
    ensures var forks := states[|moves|].forks;
            && |forks| == n && forks[0].value == forks[1].value == 1 && forks[1].woken == {1}
            && forall f | 2 <= f < n :: forks[f].value == 1
  {
    hide Run, Inv, S.Inv, S.Orderly;
    states, moves := BothReach(n, rounds);
    states, moves := Extend(states, moves, rounds, 0);
    states, moves := Extend(states, moves, rounds, 0);
    states, moves := Extend(states, moves, rounds, 0);
  }

  /** Philosopher 0 has fork 1, for which 1 has fallen asleep. */
  lemma BothReach(n: nat, rounds: nat) returns (states: seq<Table>, moves: seq<nat>)
    requires n >= 2 && rounds >= 2
    ensures Run(states, moves, rounds) && |states| == |moves| + 1 && Inv(states[|moves|])
    ensures var t := states[|moves|];
            && |t.phils| == |t.forks| == n == |states[0].phils|
            && t.phils[0] == Phil(Second, rounds) && t.phils[1] == Phil(FirstWait, rounds)
            && t.forks[1] == S.Sem(0, [1], {1}, {}, 1, 1, 0, 0)
            && forall f | 0 <= f < n && f != 1 :: t.forks[f] == S.New(1)
  {
    hide Run, Inv, S.Inv, S.Orderly;
    states, moves := Seated(n, rounds);
    states, moves := Extend(states, moves, rounds, 0);
    states, moves := Extend(states, moves, rounds, 1);
  }

  /** For the second round 0 takes fork 1 again, and 1, who has been woken, takes it too. */
  lemma TakenTwice(n: nat, rounds: nat) returns (states: seq<Table>, moves: seq<nat>)
    requires n >= 2 && rounds >= 2
    ensures Run(states, moves, rounds) && |states[0].phils| == n && !OneHand(states[|moves|])
  {
    hide Run, Inv, S.Inv, S.Orderly;
    states, moves := EatOnce(n, rounds);
    states, moves := Extend(states, moves, rounds, 0);
    states, moves := Extend(states, moves, rounds, 1);
    assert Holders(n, states[|moves|].phils, 1) == 2;
  }

  /** Neighbours 0 and 1 of the five can eat at the same time although fork 1 is between them: 0
      puts it down, which wakes 1, and takes it again for the next round before 1 runs. */
  lemma NeighboursEatTogether() returns (states: seq<Table>, moves: seq<nat>)
    ensures Run(states, moves, 5) && |states[|moves|].phils| == 5
    ensures states[|moves|].phils[0].pc.Eating? && states[|moves|].phils[1].pc.Eating?
  {
    hide Run, Inv, S.Inv, S.Orderly;
    states, moves := EatOnce(5, 5);
    states, moves := Extend(states, moves, 5, 0);
    states, moves := Extend(states, moves, 5, 0);
    states, moves := Extend(states, moves, 5, 1);
    states, moves := Extend(states, moves, 5, 1);
  }
}

/** Processes that use a semaphore of xv6/proc.c to share units of something: each holds at most one
    unit at a time, releases only what it holds, and is not killed. */
module Permits {
  import opened Basics
  import S = Semaphore

  datatype Group = Group(sem: S.Sem, holders: set<nat>)

  datatype Turn =
    | Take(p: nat)    // sem_acquire up to its sleep, or to its end
    | GoOn(p: nat)    // sem_acquire after its sleep
    | Give(p: nat)    // sem_release

  /** What one of n processes may do. */
  predicate Enabled(n: nat, g: Group, t: Turn) {
    match t
    case Take(p) => p < n && p !in g.holders && S.Enabled(g.sem, S.Enter(p))
    case GoOn(p) => S.Enabled(g.sem, S.Resume(p))
    case Give(p) => p in g.holders
  }

  function Do(n: nat, g: Group, t: Turn): Group
    requires Enabled(n, g, t)
  {
    match t
    case Take(p) => Group(S.Do(g.sem, S.Enter(p)), if g.sem.value > 0 then g.holders + {p} else g.holders)
    case GoOn(p) => Group(S.Do(g.sem, S.Resume(p)), g.holders + {p})
    case Give(p) => Group(S.Do(g.sem, S.Release), g.holders - {p})
  }

  ghost predicate Run(n: nat, v: int, states: seq<Group>, turns: seq<Turn>) {
    && |states| == |turns| + 1 && states[0] == Group(S.New(v), {})
    && forall k | 0 <= k < |turns| :: Enabled(n, states[k], turns[k]) && states[k + 1] == Do(n, states[k], turns[k])
  }

  /** The value is what the holders leave of v, and nobody holds and waits. With v == 0 nobody ever
      holds or is woken. */
  ghost predicate Inv(n: nat, v: int, g: Group) {
    && g.sem.value == v - |g.holders|
    && (forall p | p in g.holders :: p < n && p !in g.sem.asleep && p !in g.sem.woken)
    && (forall p | p in g.sem.asleep || p in g.sem.woken :: p < n)
    && (v <= 0 ==> g.holders == {} && g.sem.woken == {})
  }

  lemma TakeKeeps(n: nat, v: int, g: Group, p: nat)
    requires Inv(n, v, g) && Enabled(n, g, Take(p))
    ensures Inv(n, v, Do(n, g, Take(p)))
  {
    assert |g.holders + {p}| == |g.holders| + 1;
  }

  lemma GoOnKeeps(n: nat, v: int, g: Group, p: nat)
    requires Inv(n, v, g) && Enabled(n, g, GoOn(p)) && S.Inv(g.sem)
    ensures Inv(n, v, Do(n, g, GoOn(p)))
  {
    assert p !in g.holders && p !in g.sem.asleep;
    assert |g.holders + {p}| == |g.holders| + 1;
  }

  lemma GiveKeeps(n: nat, v: int, g: Group, p: nat)
    requires Inv(n, v, g) && Enabled(n, g, Give(p)) && S.Orderly(g.sem)
    ensures Inv(n, v, Do(n, g, Give(p)))
  {
    assert |g.holders - {p}| == |g.holders| - 1;
    if g.sem.waiting != [] {
      assert g.sem.waiting[0] in g.sem.asleep;
    }
    hide S.Orderly;
  }

  lemma TurnKeeps(n: nat, v: int, g: Group, t: Turn)
    requires Inv(n, v, g) && Enabled(n, g, t) && S.Inv(g.sem) && S.Orderly(g.sem)
    ensures Inv(n, v, Do(n, g, t)) && S.Inv(Do(n, g, t).sem) && S.Orderly(Do(n, g, t).sem)
  {
    hide Inv, S.Inv, S.Orderly, S.Do;
    var step := if t.Take? then S.Enter(t.p) else if t.GoOn? then S.Resume(t.p) else S.Release;
    S.StepKeepsExactly(g.sem, step);
    S.OrderlyExactly(g.sem, step);
    match t
    case Take(p) => TakeKeeps(n, v, g, p);
    case GoOn(p) => GoOnKeeps(n, v, g, p);
    case Give(p) => GiveKeeps(n, v, g, p);
  }

  lemma {:induction false} RunSafe(n: nat, v: int, states: seq<Group>, turns: seq<Turn>, k: nat)
    requires Run(n, v, states, turns) && k < |states|
    ensures Inv(n, v, states[k]) && S.Inv(states[k].sem) && S.Orderly(states[k].sem)
    decreases k
  {
    if k > 0 {
      RunSafe(n, v, states, turns, k - 1);
      assert Enabled(n, states[k - 1], turns[k - 1]) && states[k] == Do(n, states[k - 1], turns[k - 1]);
      TurnKeeps(n, v, states[k - 1], turns[k - 1]);
    }
  }

  /** In no run of n processes is the value negative, that is, more units out than there are. */
  ghost predicate NeverNegative(n: nat, v: int) {
    forall states: seq<Group>, turns: seq<Turn> ::
      Run(n, v, states, turns) ==> states[|turns|].sem.value >= 0
  }

  lemma Extend(n: nat, v: int, states: seq<Group>, turns: seq<Turn>, t: Turn)
      returns (states': seq<Group>, turns': seq<Turn>)
    requires Run(n, v, states, turns) && Enabled(n, states[|turns|], t)
    ensures Run(n, v, states', turns') && |turns'| == |turns| + 1
    ensures states'[|turns'|] == Do(n, states[|turns|], t)
  {
    hide Enabled, Do;
    states', turns' := states + [Do(n, states[|turns|], t)], turns + [t];
    assert forall k | 0 <= k < |states| :: states'[k] == states[k];
    assert forall k | 0 <= k < |turns| :: turns'[k] == turns[k];
  }

  /** The first m processes take a unit each. */
  lemma {:induction false} TakeAll(n: nat, v: nat, m: nat) returns (states: seq<Group>, turns: seq<Turn>)
    requires m <= v && m <= n
    ensures Run(n, v, states, turns)
    ensures var g := states[|turns|];
            && g.sem.value == v - m && g.sem.waiting == [] && g.sem.asleep == {} && g.sem.woken == {}
            && forall p: nat :: p in g.holders <==> p < m
    decreases m
  {
    if m == 0 {
      states, turns := [Group(S.New(v), {})], [];
    } else {
      states, turns := TakeAll(n, v, m - 1);
      hide Run;
      states, turns := Extend(n, v, states, turns, Take(m - 1));
    }
  }

  /** With one process more than units: the last one sleeps, a holder releases and takes the unit
      again before the one it has woken runs. */
  lemma BelowZero(n: nat, v: nat) returns (states: seq<Group>, turns: seq<Turn>)
    requires 0 < v < n
    ensures Run(n, v, states, turns) && states[|turns|].sem.value == -1
  {
    states, turns := TakeAll(n, v, v);
    hide Run;
    states, turns := Extend(n, v, states, turns, Take(v));
    states, turns := Extend(n, v, states, turns, Give(0));
    states, turns := Extend(n, v, states, turns, Take(0));
    states, turns := Extend(n, v, states, turns, GoOn(v));
  }

  /** Among n processes a semaphore of v units keeps a value of at least 0 in every run if and only
      if there are as many units as processes, so that nobody ever sleeps, or no unit at all,
      so that nobody ever gets in: sem_acquire does not look at the value again after its sleep. */
  lemma NonNegativeExactly(n: nat, v: int)
    ensures NeverNegative(n, v) <==> v == 0 || (0 < v && n <= v)
  {
    if v == 0 || (0 < v && n <= v) {
      forall states: seq<Group>, turns: seq<Turn> | Run(n, v, states, turns)
        ensures states[|turns|].sem.value >= 0
      {
        RunSafe(n, v, states, turns, |turns|);
        AtMost(states[|turns|].holders, n);
      }
    } else if v < 0 {
      var turns: seq<Turn> := [];
      assert Run(n, v, [Group(S.New(v), {})], turns);
    } else {
      var states, turns := BelowZero(n, v);
    }
  }
}

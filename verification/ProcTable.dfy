/** The loops over the process table in xv6/proc.c, as the code runs them under ptable.lock; each is
    one step of ExitWait. */
module ProcTable {
  import opened Basics
  import opened ExitWait

  /** What one pass of wait over the table ends with. */
  datatype WaitResult = Collected(pid: nat) | NoChild | MustSleep

  /** p after the wakeups and adoptions that exit by me has made once it has passed slots below k. */
  ghost function Passed(t: seq<Proc>, init: nat, me: nat, k: nat, i: nat): Proc
    requires me < |t| && i < |t| && t[me].parent.Some?
  {
    var p := Wake(t[i], OnProc(t[me].parent.value));
    var q := if i < k then Adopt(p, init, me) else p;
    if ZombieBelow(t, me, k) then Wake(q, OnProc(init)) else q
  }

  ghost predicate ZombieBelow(t: seq<Proc>, me: nat, k: nat) {
    exists c :: 0 <= c < k && c < |t| && ChildOf(t[c], me) && t[c].state == ZOMBIE
  }

  lemma PassedAll(t: seq<Proc>, init: nat, me: nat, t': seq<Proc>)
    requires me < |t| == |t'| && t[me].parent.Some?
    requires forall i | 0 <= i < |t| :: t'[i] == Passed(t, init, me, |t|, i)
    ensures Exited(t, init, me, t'[me := t'[me].(state := ZOMBIE)])
  {
    assert ZombieBelow(t, me, |t|) <==> HasZombie(t, me);
  }

  /** What one turn of the loop, at slot k, does to slot i, which holds p. */
  ghost function Turn(t: seq<Proc>, init: nat, me: nat, k: nat, i: nat, p: Proc): Proc
    requires k < |t|
  {
    var q := if i == k then Adopt(p, init, me) else p;
    if ChildOf(t[k], me) && t[k].state == ZOMBIE then Wake(q, OnProc(init)) else q
  }

  lemma PassedMore(t: seq<Proc>, init: nat, me: nat, k: nat)
    requires me < |t| && k < |t| && t[me].parent.Some?
    ensures Passed(t, init, me, k, k).state == ZOMBIE <==> t[k].state == ZOMBIE
    ensures ChildOf(Passed(t, init, me, k, k), me) <==> ChildOf(t[k], me)
    ensures forall i | 0 <= i < |t| :: Passed(t, init, me, k + 1, i) == Turn(t, init, me, k, i, Passed(t, init, me, k,
            i))
  {
    assert ZombieBelow(t, me, k + 1) <==> ZombieBelow(t, me, k) || (ChildOf(t[k], me) && t[k].state == ZOMBIE);
  }

  class Table {
    var proc: seq<Proc>
    var nextpid: nat
    const initproc: nat

    method Wakeup1(chan: Chan)
      modifies `proc
      ensures Woken(old(proc), chan, proc)
      ensures |proc| == |old(proc)| && forall i | 0 <= i < |proc| ::
                if old(proc)[i].state == SLEEPING && old(proc)[i].chan == chan
                then proc[i] == old(proc)[i].(state := RUNNABLE) else proc[i] == old(proc)[i]
    {
      var i := 0;
      while i < |proc|
        invariant i <= |proc| == |old(proc)|
        invariant forall j | 0 <= j < |proc| :: proc[j] == if j < i then Wake(old(proc)[j], chan) else old(proc)[j]
      {
        if proc[i].state == SLEEPING && proc[i].chan == chan {
          proc := proc[i := proc[i].(state := RUNNABLE)];
        }
        i := i + 1;
      }
    }

    /** exit by process me, from taking ptable.lock on; false is the panic "init exiting". */
    method Exit(me: nat) returns (ok: bool)
      requires me < |proc| && (me != initproc ==> proc[me].parent.Some?)
      modifies `proc
      ensures ok <==> me != initproc
      ensures if ok then Exited(old(proc), initproc, me, proc) else proc == old(proc)
      ensures ok ==> |proc| == |old(proc)| && forall i | 0 <= i < |proc| ::
                var p := old(proc)[i];
                var woken := p.state == SLEEPING && (p.chan == OnProc(old(proc)[me].parent.value)
                             || (p.chan == OnProc(initproc) && HasZombie(old(proc), me)));
                proc[i] == p.(state := if i == me then ZOMBIE else if woken then RUNNABLE else p.state,
                              parent := if p.parent == Some(me) then Some(initproc) else p.parent)
    {
      if me == initproc { return false; }
      ghost var t := proc;
      Wakeup1(OnProc(proc[me].parent.value));
      var i := 0;
      while i < |proc|
        invariant i <= |proc| == |t|
        invariant forall j | 0 <= j < |t| :: proc[j] == Passed(t, initproc, me, i, j)
      {
        PassedMore(t, initproc, me, i);
        if proc[i].parent == Some(me) {
          proc := proc[i := proc[i].(parent := Some(initproc))];
          if proc[i].state == ZOMBIE {
            Wakeup1(OnProc(initproc));
          }
        }
        i := i + 1;
      }
      PassedAll(t, initproc, me, proc);
      proc := proc[me := proc[me].(state := ZOMBIE)];
      ok := true;
    }

    /** One pass of wait by process me: the first zombie child is reaped, or none is there. */
    method WaitPass(me: nat) returns (r: WaitResult)
      requires me < |proc|
      modifies `proc
      ensures r.Collected? ==> HasZombie(old(proc), me)
      ensures r.Collected? ==>
                exists c: nat :: && First(old(proc), c, DeadChildOf(me)) && r.pid == old(proc)[c].pid
                                 && old(proc)[c].state == ZOMBIE && old(proc)[c].parent == Some(me)
                                 && proc == old(proc)[c := Proc(UNUSED, 0, None, old(proc)[c].chan, false)]
      ensures !r.Collected? ==> proc == old(proc) && !HasZombie(proc, me)
      ensures r == NoChild ==> !HasChild(proc, me) || proc[me].killed
      ensures r == MustSleep ==> HasChild(proc, me) && !proc[me].killed
    {
      var havekids := false;
      var i := 0;
      while i < |proc|
        invariant i <= |proc| && proc == old(proc)
        invariant forall j | 0 <= j < i :: !Matches(proc[j], DeadChildOf(me))
        invariant havekids <==> exists j :: 0 <= j < i && ChildOf(proc[j], me)
      {
        if proc[i].parent == Some(me) {
          havekids := true;
          assert ChildOf(proc[i], me);
          if proc[i].state == ZOMBIE {
            var pid := proc[i].pid;
            assert First(proc, i, DeadChildOf(me));
            proc := proc[i := proc[i].(pid := 0, parent := None, killed := false, state := UNUSED)];
            return Collected(pid);
          }
        }
        i := i + 1;
      }
      assert forall j | 0 <= j < |proc| :: !Matches(proc[j], DeadChildOf(me));
      r := if !havekids || proc[me].killed then NoChild else MustSleep;
    }

    /** The first UNUSED slot becomes an EMBRYO with a new pid. */
    method AllocProc() returns (c: Option<nat>)
      modifies `proc, `nextpid
      ensures c.None? ==> proc == old(proc) && nextpid == old(nextpid)
                          && forall j | 0 <= j < |proc| :: proc[j].state != UNUSED
      ensures c.Some? ==> First(old(proc), c.value, Unused) && old(proc)[c.value].state == UNUSED
                          && nextpid == old(nextpid) + 1
                          && proc == old(proc)[c.value := old(proc)[c.value].(state := EMBRYO, pid := old(nextpid))]
    {
      var i := 0;
      while i < |proc|
        invariant i <= |proc| && proc == old(proc) && nextpid == old(nextpid)
        invariant forall j | 0 <= j < i :: !Matches(proc[j], Unused)
      {
        if proc[i].state == UNUSED {
          proc := proc[i := proc[i].(state := EMBRYO, pid := nextpid)];
          nextpid := nextpid + 1;
          return Some(i);
        }
        i := i + 1;
      }
      assert forall j | 0 <= j < |proc| :: !Matches(proc[j], Unused);
      c := None;
    }

    /** The first process with the pid is marked, and woken if it sleeps. */
    method KillPid(pid: nat) returns (found: bool)
      modifies `proc
      ensures !found ==> proc == old(proc) && forall j | 0 <= j < |proc| :: proc[j].pid != pid
      ensures found ==> exists c: nat ::
          && First(old(proc), c, WithPid(pid)) && old(proc)[c].pid == pid
          && var p := old(proc)[c];
          && proc == old(proc)[c := p.(killed := true, state := if p.state == SLEEPING then RUNNABLE else p.state)]
    {
      var i := 0;
      while i < |proc|
        invariant i <= |proc| && proc == old(proc)
        invariant forall j | 0 <= j < i :: !Matches(proc[j], WithPid(pid))
      {
        if proc[i].pid == pid {
          assert First(proc, i, WithPid(pid));
          proc := proc[i := proc[i].(killed := true)];
          if proc[i].state == SLEEPING {
            proc := proc[i := proc[i].(state := RUNNABLE)];
          }
          return true;
        }
        i := i + 1;
      }
      assert forall j | 0 <= j < |proc| :: !Matches(proc[j], WithPid(pid));
      found := false;
    }
  }
}

/** malloc, free and morecore (xv6/umalloc.c), updating header cells and freep in place.
    Addresses count units of sizeof(Header), 8 bytes, as the source's pointer arithmetic does. */
module Heap {
  import opened FreeList

  const UINT := 0x1_0000_0000
  const HEADER := 8
  const MIN_UNITS := 4096

  /** The unit count malloc computes in unsigned 32-bit arithmetic. */
  function NUnits(nbytes: int): (n: int)
    requires 0 <= nbytes < UINT
    ensures n >= 1
  {
    (nbytes + HEADER - 1) % UINT / HEADER + 1
  }

  /** What morecore's request looks like to sbrk, whose argument is a signed 32-bit int. */
  function SbrkArgument(nu: int): int
    requires 0 <= nu
  {
    var bytes := nu * HEADER % UINT;
    if bytes < UINT / 2 then bytes else bytes - UINT
  }

  /** A block of NUnits units has room for nbytes after its header unless the sum wrapped, and one unit less has not. */
  lemma NUnitsExact(nbytes: int)
    requires 0 <= nbytes < UINT
    ensures (NUnits(nbytes) - 1) * HEADER >= nbytes <==> nbytes <= UINT - HEADER
    ensures nbytes <= UINT - HEADER ==> NUnits(nbytes) == 1 || (NUnits(nbytes) - 2) * HEADER < nbytes
    ensures nbytes > UINT - HEADER ==> NUnits(nbytes) == 1
  {
  }

  /** sbrk is asked for the bytes of nu units exactly when they are below 2 GB; from there on the
      argument turns negative and sbrk would shrink the process instead. */
  lemma SbrkArgumentExact(nu: int)
    requires 0 <= nu <= UINT / HEADER
    ensures SbrkArgument(nu) == nu * HEADER <==> nu < UINT / 2 / HEADER
  {
  }

  function MoreUnits(nu: int): int {
    if nu < MIN_UNITS then MIN_UNITS else nu
  }

  /** Steps along the list from node i to node f. */
  function Distance(k: nat, i: nat, f: nat): (d: nat)
    requires i < k && f < k
    ensures d < k && (d == 0 <==> i == f)
  {
    if i <= f then f - i else f - i + k
  }

  ghost function IndexOf(s: seq<int>, x: int): (i: nat)
    requires x in s
    ensures i < |s| && s[i] == x
  {
    var i :| 0 <= i < |s| && s[i] == x;
    i
  }

  class Heap {
    const base: int
    var mem: Memory
    /** 0 until the first malloc. */
    var freep: int
    ghost var cycle: seq<int>
    ghost var used: map<int, int>
    ghost var heap: set<int>

    ghost function Now(): State
      reads this
    {
      State(mem, base, cycle, used, heap)
    }

    ghost predicate Ok()
      reads this
    {
      && 0 < base
      && (freep == 0 ==> cycle == [] && used == map[] && heap == {})
      && (freep != 0 ==> Valid(Now()) && freep in cycle)
    }

    constructor (base: int)
      requires 0 < base
      ensures Ok() && this.base == base && used == map[] && heap == {} && cycle == []
    {
      this.base, mem, freep := base, map[], 0;
      cycle, used, heap := [], map[], {};
    }

    /** The list search of free: the loop stops, and stops at the last node below bp. */
    method FindSlot(bp: int) returns (p: int, ghost t: nat)
      requires Ring(mem, base, cycle) && freep in cycle && bp !in cycle && base < bp
      ensures t < |cycle| && cycle[t] == p && p < bp && (t + 1 < |cycle| ==> bp < cycle[t + 1])
    {
      ghost var n := |cycle|;
      ghost var goal := LastBelow(cycle, bp);
      p := freep;
      t := IndexOf(cycle, freep);
      assert Linked(mem, cycle, t);
      while !(bp > p && bp < mem[p].ptr)
        invariant t < n && cycle[t] == p && Linked(mem, cycle, t)
        decreases Distance(n, t, goal)
      {
        assert cycle[t] in cycle && cycle[Next(cycle, t)] in cycle;
        if p >= mem[p].ptr && (bp > p || bp < mem[p].ptr) {
          break;
        }
        p := mem[p].ptr;
        t := Next(cycle, t);
        assert Linked(mem, cycle, t);
      }
    }

    /** The header updates of free, once the place after p has been found. */
    method Relink(p: int, bp: int)
      requires p in mem && bp in mem && mem[p].ptr in mem && p != bp && mem[bp].size >= 1
      modifies this`mem
      ensures mem == FreedMemory(old(mem), p, bp)
    {
      if bp + mem[bp].size == mem[p].ptr {
        mem := mem[bp := mem[bp].(size := mem[bp].size + mem[mem[p].ptr].size)];
        mem := mem[bp := mem[bp].(ptr := mem[mem[p].ptr].ptr)];
      } else {
        mem := mem[bp := mem[bp].(ptr := mem[p].ptr)];
      }
      if p + mem[p].size == bp {
        mem := mem[p := mem[p].(size := mem[p].size + mem[bp].size)];
        mem := mem[p := mem[p].(ptr := mem[bp].ptr)];
      } else {
        mem := mem[p := mem[p].(ptr := bp)];
      }
    }

    /** Precondition: ap came from malloc and has not been freed. */
    method Free(ap: int)
      requires Ok() && ap - 1 in used
      modifies this`mem, this`freep, this`cycle, this`used
      ensures Ok() && freep != 0
      ensures used == old(used) - {ap - 1} && heap == old(heap)
      ensures freep in old(cycle) && freep < ap - 1 && forall c | c in old(cycle) :: !(freep < c < ap - 1)
    {
      hide Valid, Ring, Inv, FreedMemory;
      var bp := ap - 1;
      ghost var s := Now();
      FreeFacts(s, bp);
      var p, t := FindSlot(bp);
      SlotFacts(s, t, bp);
      NoneBetween(s, t, bp);
      ghost var s' := FreeKeeps(s, t, bp);
      NodeAbove(s, t);
      Relink(p, bp);
      freep := p;
      cycle, used := s'.cycle, s'.used;
      assert Now() == s';
    }

    /** The units at hp, fresh from sbrk, become a block in morecore's hands. */
    method AddRegion(hp: int, units: int)
      requires Valid(Now()) && units >= 1 && base < hp && forall u | hp <= u < hp + units :: u !in heap
      modifies this`mem, this`used, this`heap
      ensures Valid(Now()) && hp !in old(used)
      ensures used == old(used)[hp := units] && heap == old(heap) + Units(hp, units)
    {
      ghost var s := Now();
      mem := mem[hp := Header(if hp in mem then mem[hp].ptr else 0, units)];
      used, heap := used[hp := units], heap + Units(hp, units);
      hide Valid;
      ExtendKeeps(s, hp, units, Now());
    }

    /** brk is what sbrk returns: -1, or the first of the new units, none of which the heap has
        had before and all of which lie above the static data. */
    method Morecore(nu: int, brk: int) returns (r: int)
      requires Ok() && freep != 0 && nu >= 1
      requires brk != -1 ==> base < brk && forall u | brk <= u < brk + MoreUnits(nu) :: u !in heap
      modifies this`mem, this`freep, this`cycle, this`used, this`heap
      ensures Ok() && freep != 0 && used == old(used)
      ensures brk == -1 ==> r == 0 && Now() == old(Now()) && freep == old(freep)
      ensures brk != -1 ==> r == freep && heap == old(heap) + Units(brk, MoreUnits(nu))
      ensures brk != -1 ==> heap == old(heap) + Units(brk, if nu < 4096 then 4096 else nu)
      ensures brk != -1 ==> Fits(Now(), nu)
    {
      hide Valid;
      var units := nu;
      if units < MIN_UNITS {
        units := MIN_UNITS;
      }
      if brk == -1 {
        return 0;
      }
      ghost var s := Now();
      AddRegion(brk, units);
      assert used - {brk} == s.used;
      Free(brk + 1);
      ghost var c := RoomAfterExtend(s, brk, units, Now());
      return freep;
    }
  
    /** The fitting node i leaves the list, whole or by its last n units. */
    method Carve(prevp: int, p0: int, n: int, ghost i: nat) returns (p: int)
      requires Valid(Now()) && 1 <= i < |cycle| && cycle[i] == p0 && cycle[i - 1] == prevp
      requires p0 in mem && prevp in mem && 1 <= n <= mem[p0].size
      modifies this`mem, this`freep, this`cycle, this`used
      ensures Valid(Now()) && freep == prevp && freep in cycle
      ensures p !in old(used) && p + n == p0 + old(mem)[p0].size && used == old(used)[p := n]
    {
      hide Valid;
      ghost var s := Now();
      p := p0;
      if mem[p].size == n {
        mem := mem[prevp := mem[prevp].(ptr := mem[p].ptr)];
        cycle, used := cycle[..i] + cycle[i + 1..], used[p := n];
        TakeKeeps(s, i, Now());
      } else {
        mem := mem[p := mem[p].(size := mem[p].size - n)];
        p := p + mem[p].size;
        mem := mem[p := Header(if p in mem then mem[p].ptr else 0, n)];
        used := used[p := n];
        SplitKeeps(s, i, n, Now());
      }
      freep := prevp;
    }

    /** The first call makes base the whole list. */
    method Initialise()
      requires Ok() && freep == 0
      modifies this`mem, this`freep, this`cycle
      ensures Ok() && freep == base && cycle == [base] && !Fits(Now(), 1)
    {
      mem := mem[base := Header(base, 0)];
      freep := base;
      cycle := [base];
      StartsValid(Now());
    }

    /** malloc's walk around the list, calling morecore when it is back at freep: p is 0, or the
        node that fits, with prevp before it and at its position. */
    method Search(n: int, brk: int) returns (prevp: int, p: int, ghost at: Position, ghost grew: bool)
      requires freep in cycle && freep != 0 && 0 < base && Valid(Now()) && n >= 1
      requires brk != -1 ==> base < brk && forall u | brk <= u < brk + MoreUnits(n) :: u !in heap
      modifies this`mem, this`freep, this`cycle, this`used, this`heap
      ensures freep in cycle && freep != 0 && Valid(Now()) && used == old(used)
      ensures grew == (!old(Fits(Now(), n)) && brk != -1)
      ensures p == 0 <==> !old(Fits(Now(), n)) && brk == -1
      ensures heap == if grew then old(heap) + Units(brk, MoreUnits(n)) else old(heap)
      ensures p != 0 ==> 1 <= at.i < |cycle| && cycle[at.i] == p && cycle[at.i - 1] == prevp
      ensures p != 0 ==> p in mem && p >= base && mem[p].size >= n && prevp in mem && prevp >= base
      ensures p != 0 ==> at.f < |cycle| && cycle[at.f] == freep && NextFit(Now(), n, at.i, at.f)
      ensures !grew ==> Now() == old(Now()) && freep == old(freep)
    {
      hide Valid, Fits, Searching, Units, MoreUnits, Remaining;
      ghost var fits := Fits(Now(), n);
      prevp := freep;
      at := SearchStarts(Now(), freep, n);
      grew := false;
      p := mem[prevp].ptr;
      SearchFacts(Now(), n, at, freep, prevp, p, grew);
      while mem[p].size < n
        invariant freep in cycle && freep != 0 && Valid(Now()) && used == old(used)
        invariant Searching(Now(), n, at, freep, prevp, p, grew) && p in mem
        invariant heap == if grew then old(heap) + Units(brk, MoreUnits(n)) else old(heap)
        invariant if grew then !fits && brk != -1 else fits == Fits(Now(), n)
        invariant !grew ==> Now() == old(Now()) && freep == old(freep)
        decreases !grew, Remaining(Now(), at)
      {
        SearchFacts(Now(), n, at, freep, prevp, p, grew);
        if p == freep {
          p := Morecore(n, brk);
          if p == 0 {
            return;
          }
          grew := true;
          at := SearchRestarts(Now(), freep, n);
        } else {
          at := SearchStep(Now(), n, at, freep, prevp, p, grew);
        }
        prevp, p := p, mem[p].ptr;
        SearchFacts(Now(), n, at, freep, prevp, p, grew);
      }
      SearchFacts(Now(), n, at, freep, prevp, p, grew);
    }

    /** malloc once it has computed the unit count n. */
    method Allocate(n: int, brk: int) returns (r: int)
      requires Ok() && n >= 1
      requires brk != -1 ==> base < brk && forall u | brk <= u < brk + MoreUnits(n) :: u !in heap
      modifies this`mem, this`freep, this`cycle, this`used, this`heap
      ensures Ok()
      ensures r == 0 <==> !old(Fits(Now(), n)) && brk == -1
      ensures r == 0 ==> used == old(used)
      ensures r != 0 ==> r - 1 !in old(used) && used == old(used)[r - 1 := n]
      ensures heap == if old(Fits(Now(), n)) || brk == -1 then old(heap) else old(heap) + Units(brk, MoreUnits(n))
      ensures old(Fits(Now(), n)) ==> r != 0 && TakenFrom(old(Now()), old(freep), n, r - 1, freep)
    {
      hide Valid, Fits, Units, MoreUnits;
      if freep == 0 {
        EmptyFits(Now(), n);
        Initialise();
        NothingFits(Now(), n);
      }
      var prevp, p, at, grew := Search(n, brk);
      if p == 0 {
        return 0;
      }
      p := Carve(prevp, p, n, at.i);
      return p + 1;
    }

    /** brk is what sbrk returns if it is called; a result of 0 is the null pointer. The second
        precondition says that sbrk would be asked for what is meant; see SbrkArgumentExact. */
    method Malloc(nbytes: int, brk: int) returns (r: int)
      requires Ok() && 0 <= nbytes < UINT
      requires SbrkArgument(MoreUnits(NUnits(nbytes))) == MoreUnits(NUnits(nbytes)) * HEADER
      requires brk != -1 ==> base < brk && forall u | brk <= u < brk + MoreUnits(NUnits(nbytes)) :: u !in heap
      modifies this`mem, this`freep, this`cycle, this`used, this`heap
      ensures Ok()
      ensures r == 0 <==> !old(Fits(Now(), NUnits(nbytes))) && brk == -1
      ensures r == 0 ==> used == old(used)
      ensures r != 0 ==> r - 1 !in old(used) && used == old(used)[r - 1 := NUnits(nbytes)]
      ensures r != 0 ==> ((used[r - 1] - 1) * HEADER >= nbytes <==> nbytes <= UINT - HEADER)
      ensures heap == if old(Fits(Now(), NUnits(nbytes))) || brk == -1 then old(heap)
                      else old(heap) + Units(brk, MoreUnits(NUnits(nbytes)))
      ensures old(Fits(Now(), NUnits(nbytes))) ==>
                r != 0 && TakenFrom(old(Now()), old(freep), NUnits(nbytes), r - 1, freep)
    {
      NUnitsExact(nbytes);
      r := Allocate(NUnits(nbytes), brk);
    }
  }

  /** Where the search stands: at node i of the list, with freep at node f. */
  datatype Position = Position(i: nat, f: nat)

  ghost function Remaining(s: State, at: Position): nat {
    if at.i < |s.cycle| && at.f < |s.cycle| then Distance(|s.cycle|, at.i, at.f) else 0
  }

  /** Node i is the first from the one behind node f on that has n units, before the list is back at f. */
  ghost predicate NextFit(s: State, n: int, i: nat, f: nat) {
    && i < |s.cycle| && f < |s.cycle| && s.cycle[i] in s.mem && s.mem[s.cycle[i]].size >= n
    && if f < i then Small(s, n, f + 1, i) else Small(s, n, f + 1, |s.cycle|) && Small(s, n, 0, i)
  }

  /** Nodes a up to b have fewer than n units. */
  ghost predicate Small(s: State, n: int, a: int, b: int) {
    forall j | a <= j < b && 0 <= j < |s.cycle| :: s.cycle[j] in s.mem && s.mem[s.cycle[j]].size < n
  }

  /** The n units from p on are the end of the first free block behind freep that has as many, and the search goes on
      from the block before it. */
  ghost predicate TakenFrom(s: State, freep: int, n: int, p: int, freep': int) {
    exists i: nat, f: nat ::
      && 1 <= i < |s.cycle| && NextFit(s, n, i, f) && s.cycle[f] == freep && freep' == s.cycle[i - 1]
      && p + n == s.cycle[i] + s.mem[s.cycle[i]].size
  }

  lemma NextFitFrom(s: State, n: int, i: nat, f: nat)
    requires PassedSmall(s, n, i, f) && s.cycle[i] in s.mem && s.mem[s.cycle[i]].size >= n
    ensures NextFit(s, n, i, f)
  {
  }

  /** Every node passed is too small, and after morecore some node ahead is large enough. */
  ghost predicate Searching(s: State, n: int, at: Position, freep: int, prevp: int, p: int, grew: bool) {
    && at.i < |s.cycle| && at.f < |s.cycle| && s.cycle[at.f] == freep
    && s.cycle[at.i] == p && s.cycle[Previous(s.cycle, at.i)] == prevp
    && PassedSmall(s, n, at.i, at.f) && (grew ==> FitAhead(s, n, at.i, at.f))
  }

  lemma SearchFacts(s: State, n: int, at: Position, freep: int, prevp: int, p: int, grew: bool)
    requires Valid(s) && Searching(s, n, at, freep, prevp, p, grew)
    ensures at.i < |s.cycle| && s.cycle[at.i] == p && p in s.mem && prevp in s.mem && p >= s.base && prevp >= s.base
    ensures s.mem[p].size >= n ==> Fits(s, n)
    ensures s.mem[p].size >= 1 ==> at.i >= 1 && s.cycle[at.i - 1] == prevp
    ensures p == freep && s.mem[p].size < n ==> !grew && !Fits(s, n)
    ensures s.mem[p].size >= n ==> at.f < |s.cycle| && s.cycle[at.f] == freep && NextFit(s, n, at.i, at.f)
  {
    hide Valid, Fits, PassedSmall, FitAhead, NextFit;
    NodeFacts(s, at.i);
    NodeFacts(s, Previous(s.cycle, at.i));
    if s.mem[p].size >= n {
      FitsAt(s, n, at.i);
      NextFitFrom(s, n, at.i, at.f);
    } else if p == freep {
      NoneFits(s, n, at.i, at.f, grew);
    }
  }

  lemma SearchStarts(s: State, freep: int, n: int) returns (at: Position)
    requires Valid(s) && freep in s.cycle
    ensures freep in s.mem && Searching(s, n, at, freep, freep, s.mem[freep].ptr, false)
  {
    var f := IndexOf(s.cycle, freep);
    NodeFacts(s, f);
    NonePassed(s, n, f);
    at := Position(Next(s.cycle, f), f);
  }

  lemma SearchRestarts(s: State, freep: int, n: int) returns (at: Position)
    requires Valid(s) && freep in s.cycle && Fits(s, n)
    ensures freep in s.mem && Searching(s, n, at, freep, freep, s.mem[freep].ptr, true)
  {
    hide Valid, Fits, FitAhead;
    var f := IndexOf(s.cycle, freep);
    NodeFacts(s, f);
    FitAheadAll(s, n, f);
    NonePassed(s, n, f);
    at := Position(Next(s.cycle, f), f);
  }

  lemma SearchStep(s: State, n: int, at: Position, freep: int, prevp: int, p: int, grew: bool) returns (at': Position)
    requires Valid(s) && Searching(s, n, at, freep, prevp, p, grew) && p in s.mem && s.mem[p].size < n && p != freep
    ensures Searching(s, n, at', freep, p, s.mem[p].ptr, grew) && Remaining(s, at') < Remaining(s, at)
  {
    hide Valid, PassedSmall, FitAhead;
    NodeFacts(s, at.i);
    StepAhead(s, n, at.i, at.f, grew);
    at' := Position(Next(s.cycle, at.i), at.f);
  }

  function Previous(cycle: seq<int>, i: nat): nat
    requires i < |cycle|
  {
    if i == 0 then |cycle| - 1 else i - 1
  }

  /** Some free block has n units. */
  ghost predicate Fits(s: State, n: int) {
    exists c :: c in s.cycle && c in s.mem && s.mem[c].size >= n
  }

  /** Every node from freep's successor up to but excluding node i is too small. */
  ghost predicate PassedSmall(s: State, n: int, i: nat, f: nat) {
    && i < |s.cycle| && f < |s.cycle|
    && forall j | 0 <= j < |s.cycle| && Distance(|s.cycle|, j, f) > Distance(|s.cycle|, i, f) ::
         s.cycle[j] in s.mem && s.mem[s.cycle[j]].size < n
  }

  /** Some node from node i up to freep is large enough. */
  ghost predicate FitAhead(s: State, n: int, i: nat, f: nat) {
    && i < |s.cycle| && f < |s.cycle|
    && exists j | 0 <= j < |s.cycle| && Distance(|s.cycle|, j, f) <= Distance(|s.cycle|, i, f) ::
         s.cycle[j] in s.mem && s.mem[s.cycle[j]].size >= n
  }

  lemma NodeFacts(s: State, i: nat)
    requires Valid(s) && i < |s.cycle|
    ensures s.cycle[i] in s.mem && s.mem[s.cycle[i]].ptr == s.cycle[Next(s.cycle, i)]
    ensures s.cycle[i] >= s.base && (s.mem[s.cycle[i]].size >= 1 ==> i >= 1)
    ensures forall j | 0 <= j < |s.cycle| :: s.cycle[j] == s.cycle[i] ==> j == i
  {
    assert s.cycle[i] in s.cycle && Linked(s.mem, s.cycle, i);
  }

  lemma StartsValid(s: State)
    requires s.cycle == [s.base] && s.used == map[] && s.heap == {}
    requires s.base in s.mem && s.mem[s.base] == Header(s.base, 0)
    ensures Valid(s) && s.base in s.cycle && !Fits(s, 1)
  {
    assert Linked(s.mem, s.cycle, 0);
    assert Blocks(s) == map[];
  }

  lemma FitsAt(s: State, n: int, i: nat)
    requires i < |s.cycle| && s.cycle[i] in s.mem && s.mem[s.cycle[i]].size >= n
    ensures Fits(s, n)
  {
    var c := s.cycle[i];
    assert c in s.cycle && c in s.mem && s.mem[c].size >= n;
  }

  lemma EmptyFits(s: State, n: int)
    requires s.cycle == []
    ensures !Fits(s, n)
  {
  }

  lemma NothingFits(s: State, n: int)
    requires !Fits(s, 1) && n >= 1
    ensures !Fits(s, n)
  {
  }

  lemma StepAhead(s: State, n: int, i: nat, f: nat, grew: bool)
    requires i < |s.cycle| && f < |s.cycle| && i != f && s.cycle[i] in s.mem && s.mem[s.cycle[i]].size < n
    requires PassedSmall(s, n, i, f)
    requires grew ==> FitAhead(s, n, i, f)
    ensures Distance(|s.cycle|, Next(s.cycle, i), f) < Distance(|s.cycle|, i, f)
    ensures PassedSmall(s, n, Next(s.cycle, i), f)
    ensures grew ==> FitAhead(s, n, Next(s.cycle, i), f)
  {
    if grew {
      var j :| 0 <= j < |s.cycle| && Distance(|s.cycle|, j, f) <= Distance(|s.cycle|, i, f)
               && s.cycle[j] in s.mem && s.mem[s.cycle[j]].size >= n;
      assert j != i;
    }
  }

  /** Back at freep with nothing found, no free block fits, and morecore has not been called. */
  lemma NoneFits(s: State, n: int, f: nat, f': nat, grew: bool)
    requires f == f' < |s.cycle| && s.cycle[f] in s.mem && s.mem[s.cycle[f]].size < n
    requires PassedSmall(s, n, f, f)
    requires grew ==> FitAhead(s, n, f, f)
    ensures !grew && !Fits(s, n)
  {
    forall c | c in s.cycle && c in s.mem ensures s.mem[c].size < n {
      var j :| 0 <= j < |s.cycle| && s.cycle[j] == c;
      assert j == f || Distance(|s.cycle|, j, f) > 0;
    }
  }

  lemma NonePassed(s: State, n: int, f: nat)
    requires f < |s.cycle|
    ensures PassedSmall(s, n, Next(s.cycle, f), f)
  {
  }

  lemma FitAheadAll(s: State, n: int, f: nat)
    requires f < |s.cycle| && Fits(s, n)
    ensures FitAhead(s, n, Next(s.cycle, f), f)
  {
    var c :| c in s.cycle && c in s.mem && s.mem[c].size >= n;
    var j :| 0 <= j < |s.cycle| && s.cycle[j] == c;
    assert Distance(|s.cycle|, j, f) <= Distance(|s.cycle|, Next(s.cycle, f), f);
  }

  ghost function LastBelow(s: seq<int>, x: int): (t: nat)
    requires |s| > 0 && Sorted(s) && s[0] < x && x !in s
    ensures t < |s| && s[t] < x && (t + 1 < |s| ==> x < s[t + 1])
    decreases |s|
  {
    assert s[|s| - 1] in s;
    if s[|s| - 1] < x then |s| - 1 else LastBelow(s[..|s| - 1], x)
  }

  lemma FreeFacts(s: State, bp: int)
    requires Valid(s) && bp in s.used
    ensures Inv(s) && Ring(s.mem, s.base, s.cycle) && bp !in s.cycle && s.base < bp
  {
    SlotFacts(s, 0, bp);
  }

  lemma NoneBetween(s: State, t: nat, bp: int)
    requires Valid(s) && t < |s.cycle| && (t + 1 < |s.cycle| ==> bp < s.cycle[t + 1])
    ensures s.cycle[t] in s.cycle && forall c | c in s.cycle :: !(s.cycle[t] < c < bp)
  {
    forall c | c in s.cycle ensures !(s.cycle[t] < c < bp) {
      var j :| 0 <= j < |s.cycle| && s.cycle[j] == c;
    }
  }

  lemma NodeAbove(s: State, t: nat)
    requires Ring(s.mem, s.base, s.cycle) && t < |s.cycle|
    ensures s.base <= s.cycle[t]
  {
  }
}

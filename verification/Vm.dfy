/** walkpgdir, mappages, deallocuvm and freevm of xv6/vm.c over the page allocator of xv6/kalloc.c.
    own is the set of pages of the address space with page directory d; every other page, and so
    every other address space, is left alone. */
module Vm {
  import opened Basics
  import opened Kmem
  import opened PageTable

  datatype Outcome = Done | NoMemory | Panic

  /** The address space is sound and owns no free page. */
  ghost predicate Sound(s: Mem, d: nat, own: Own) {
    FreeInv(s) && SpaceInv(s.end, s.pages, d, own) && (forall p | p in s.chain :: p !in own)
  }

  /** Pages that are neither free nor in the space stay. */
  ghost predicate Outside(s: Mem, own: Own, s': Mem) {
    && s'.end == s.end && |s'.pages| == |s.pages|
    && (forall p | 0 <= p < |s.pages| && p !in s.chain && p !in own :: s'.pages[p] == s.pages[p])
  }

  /** Mapped user pages stay as they are, where they are. */
  ghost predicate LeavesKept(s: Mem, own: Own, s': Mem, own': Own) {
    && |s'.pages| == |s.pages|
    && (forall p | 0 <= p < |s.pages| && p in own && own[p].Leaf? ::
          p in own' && own'[p] == own[p] && s'.pages[p] == s.pages[p])
  }

  /** No page is lost or invented between the free list and the space. */
  ghost predicate Conserved(s: Mem, own: Own, s': Mem, own': Own) {
    forall p: nat :: (p in s'.chain || p in own') <==> (p in s.chain || p in own)
  }

  // ---------------------------------------------------------------------------------------
  // walkpgdir
  // ---------------------------------------------------------------------------------------

  /** A page fresh from the free list is nobody's, and the directory stays out of the list. */
  lemma NewPageFacts(s: Mem, d: nat, own: Own)
    requires Sound(s, d, own) && s.chain != []
    ensures s.chain[0] !in own && Usable(s.end, s.chain[0]) && s.chain[0] !in s.chain[1..]
    ensures d !in s.chain && d != s.chain[0] && d < NPAGES
  {
    FreePop(s, s.(head := s.pages[s.chain[0]][0], chain := s.chain[1..]));
  }

  /** What walkpgdir with alloc may have done for directory entry i. */
  ghost predicate Walked(s: Mem, own: Own, d: nat, i: nat, s': Mem, own': Own)
    requires d < |s.pages| && i < 1024
  {
    if Present(Pde(s.pages, d, i)) then s' == s && own' == own
    else
      && s.chain != [] && s'.end == s.end && s'.chain == s.chain[1..]
      && TableAdded(s.pages, d, i, s.chain[0], s'.pages) && own' == own[s.chain[0] := Table(i)]
  }

  lemma WalkedSound(s: Mem, d: nat, own: Own, i: nat, s': Mem, own': Own)
    requires Sound(s, d, own) && i < 1024 && Walked(s, own, d, i, s', own') && FreeInv(s')
    ensures Sound(s', d, own') && Conserved(s, own, s', own') && Outside(s, own, s') && LeavesKept(s, own, s', own')
    ensures Present(Pde(s'.pages, d, i)) && Ppn(Pde(s'.pages, d, i)) < NPAGES
    ensures forall vp | 0 <= vp < VPAGES :: Pte(s'.pages, d, vp) == Pte(s.pages, d, vp)
  {
    hide Pte, FreeInv;
    if Present(Pde(s.pages, d, i)) {
      assert TableOwned(s.pages, d, own, i);
      assert PageOwned(s.end, s.pages, d, own, Ppn(Pde(s.pages, d, i)));
    } else {
      NewPageFacts(s, d, own);
      FirstAndRest(s.chain);
      assert forall p | p in own :: PageOwned(s.end, s.pages, d, own, p);
      AddTable(s.end, s.pages, d, own, i, s.chain[0], s'.pages);
    }
  }

  /** memset(p, 0, PGSIZE) on a page that is not free. */
  method ZeroPage(k: Machine, p: nat)
    requires FreeInv(k.Now()) && p < |k.mem| && p !in k.chain
    modifies k`mem
    ensures FreeInv(k.Now()) && k.mem == old(k.mem)[p := k.mem[p]] && forall j | 0 <= j < 1024 :: k.mem[p][j] == 0
  {
    hide FreeInv;
    k.mem := k.mem[p := seq(1024, j => 0)];
    FreeFrame(old(k.Now()), k.Now());
  }

  /** The table with the entry for virtual page vp. None if there is no table and none is wanted or
      no page is left. */
  method Walk(k: Machine, d: nat, vp: nat, alloc: bool, ghost own: Own) returns (t: Option<nat>, ghost own': Own)
    requires Sound(k.Now(), d, own) && vp < VPAGES
    modifies k
    ensures t.None? ==> k.Now() == old(k.Now()) && own' == own
    ensures t.None? <==> !Present(old(Pde(k.mem, d, vp / 1024))) && (!alloc || old(k.chain) == [])
    ensures t.Some? ==> FreeInv(k.Now()) && Walked(old(k.Now()), own, d, vp / 1024, k.Now(), own')
    ensures t.Some? ==> |k.mem| == NPAGES && t.value == Ppn(Pde(k.mem, d, vp / 1024))
  {
    hide FreeInv;
    own' := own;
    FreeBounds(k.Now());
    var pde := k.mem[d][vp / 1024];
    if Present(pde) {
      t := Some(Ppn(pde));
    } else if !alloc {
      t := None;
    } else {
      var v := k.Kalloc();
      if v == 0 { return None, own; }
      var p := (v - KERNBASE) / PGSIZE;
      NewPageFacts(old(k.Now()), d, own);
      ZeroPage(k, p);
      ghost var s := k.Now();
      var page: Page := k.mem[d][vp / 1024 := PGSIZE * p + 7];
      k.mem := k.mem[d := page];
      FreeFrame(s, k.Now());
      own' := own[p := Table(vp / 1024)];
      AddTablePdes(old(k.mem), d, vp / 1024, p, k.mem);
      t := Some(p);
    }
  }

  // ---------------------------------------------------------------------------------------
  // mappages
  // ---------------------------------------------------------------------------------------

  /** perm | PTE_P */
  function Flags(perm: nat): nat {
    if perm % 2 == 1 then perm else perm + 1
  }

  /** Page p is mapped below KERNBASE by c pages from virtual page lo on, the first being page f. */
  predicate UserFrame(lo: nat, c: nat, f: nat, p: nat) {
    f <= p < f + c && lo + (p - f) < USER
  }

  /** A range to map: from virtual page lo on to physical address pa and up, with the given flags. */
  datatype Range = Range(lo: nat, pa: nat, flags: nat)
  {
    ghost predicate Valid() {
      pa % PGSIZE == 0 && flags % 2 == 1 && flags < PGSIZE
    }
  }

  /** c pages of the range, none of which was mapped, are mapped; everything else is as it was. */
  ghost predicate Mapping(s0: Mem, own0: Own, d: nat, r: Range, c: nat, s: Mem, own: Own) {
    && d < |s0.pages| && r.lo + c <= VPAGES && r.Valid()
    && Sound(s, d, own) && Outside(s0, own0, s) && LeavesKept(s0, own0, s, own)
    && (forall p: nat ::
          (p in s.chain || p in own) <==> (p in s0.chain || p in own0 || UserFrame(r.lo, c, r.pa / PGSIZE, p)))
    && (forall p | p in s.chain :: p in s0.chain)
    && (forall vp | 0 <= vp < VPAGES ::
          Pte(s.pages, d, vp) == if r.lo <= vp < r.lo + c then r.pa + PGSIZE * (vp - r.lo) + r.flags
                                 else Pte(s0.pages, d, vp))
    && (forall vp | r.lo <= vp < r.lo + c :: !Present(Pte(s0.pages, d, vp)))
  }

  lemma MappingStart(s: Mem, d: nat, own: Own, r: Range)
    requires Sound(s, d, own) && r.lo < VPAGES && r.Valid()
    ensures Mapping(s, own, d, r, 0, s, own)
  {
    hide Pte, FreeInv;
  }

  lemma EntryParts(pa: nat, c: nat, flags: nat, w: Word)
    requires pa % PGSIZE == 0 && flags % 2 == 1 && flags < PGSIZE && w == pa + PGSIZE * c + flags
    ensures Present(w) && Ppn(w) == pa / PGSIZE + c && w % PGSIZE == flags
  {
  }

  /** The user pages mapped so far are in own, as leaves. */
  lemma UserFramesAreLeaves(s0: Mem, own0: Own, d: nat, r: Range, c: nat, s: Mem, own: Own)
    requires Mapping(s0, own0, d, r, c, s, own)
    ensures forall p | UserFrame(r.lo, c, r.pa / PGSIZE, p) :: p in own && own[p].Leaf?
  {
    hide Pte, FreeInv, Ppn, Present;
    forall p: nat | UserFrame(r.lo, c, r.pa / PGSIZE, p) ensures p in own && own[p].Leaf? {
      var vp := r.lo + (p - r.pa / PGSIZE);
      EntryParts(r.pa, p - r.pa / PGSIZE, r.flags, Pte(s.pages, d, vp));
      assert LeafOwned(s.pages, d, own, vp);
    }
  }

  lemma MappingWalk(s0: Mem, own0: Own, d: nat, r: Range, c: nat, s: Mem, own: Own, i: nat, s': Mem, own': Own)
    requires Mapping(s0, own0, d, r, c, s, own)
    requires i < 1024 && Walked(s, own, d, i, s', own') && FreeInv(s')
    ensures Mapping(s0, own0, d, r, c, s', own')
    ensures d < |s'.pages| == NPAGES && Present(Pde(s'.pages, d, i)) && Ppn(Pde(s'.pages, d, i)) < NPAGES
  {
    hide Pte, FreeInv, SpaceInv;
    FreeBounds(s');
    WalkedSound(s, d, own, i, s', own');
    assert forall p | p in s'.chain :: p in s.chain;
    UserFramesAreLeaves(s0, own0, d, r, c, s, own);
  }

  /** Setting an entry changes a table and nothing else. */
  lemma SetPteFrame(s: Mem, d: nat, own: Own, vp: nat, w: Word, s': Mem)
    requires FreeInv(s) && SpaceInv(s.end, s.pages, d, own) && (forall p | p in s.chain && p in own :: own[p].Leaf?)
    requires PteSet(s.pages, d, vp, w, s'.pages) && s' == s.(pages := s'.pages)
    ensures FreeInv(s') && |s'.pages| == |s.pages|
    ensures forall p | 0 <= p < |s.pages| && (p !in own || own[p].Leaf?) :: s'.pages[p] == s.pages[p]
  {
    hide Pte, FreeInv;
    assert TableOwned(s.pages, d, own, vp / 1024);
    FreeBounds(s);
    FreeFrame(s, s');
  }

  lemma FrameMore(lo: nat, c: nat, c': nat, f: nat)
    requires c' == c + 1
    ensures forall p: nat :: UserFrame(lo, c', f, p) <==> (UserFrame(lo, c, f, p) || (p == f + c && lo + c < USER))
    ensures !UserFrame(lo, c, f, f + c)
  {
  }

  lemma MappingSetSound(s: Mem, d: nat, own: Own, vp: nat, w: Word, s': Mem, own': Own)
    requires Sound(s, d, own) && vp < VPAGES && !Present(Pte(s.pages, d, vp)) && Present(w)
    requires PteSet(s.pages, d, vp, w, s'.pages) && s' == s.(pages := s'.pages)
    requires if vp < USER then && Usable(s.end, Ppn(w)) && Ppn(w) !in s.chain && Ppn(w) !in own
                               && own' == own[Ppn(w) := Leaf(vp)]
             else own' == own
    ensures Sound(s', d, own') && LeavesKept(s, own, s', own')
    ensures forall p | 0 <= p < |s.pages| && p !in own :: s'.pages[p] == s.pages[p]
  {
    hide Pte, FreeInv, SpaceInv, Pde, Usable;
    SetPteFrame(s, d, own, vp, w, s');
    if vp < USER {
      MapUser(s.end, s.pages, d, own, vp, w, s'.pages);
    } else {
      SetKernel(s.end, s.pages, d, own, vp, w, s'.pages);
    }
  }

  /** One turn of the loop of mappages once the table is there. */
  lemma MappingSet(s0: Mem, own0: Own, d: nat, r: Range, c: nat, s: Mem, own: Own, w: Word, s': Mem, own': Own)
    requires Mapping(s0, own0, d, r, c, s, own)
    requires r.lo + c < VPAGES && !Present(Pte(s.pages, d, r.lo + c)) && w == r.pa + PGSIZE * c + r.flags
    requires PteSet(s.pages, d, r.lo + c, w, s'.pages) && s' == s.(pages := s'.pages)
    requires var f := r.pa / PGSIZE + c;
             if r.lo + c < USER then && Usable(s.end, f) && f !in s0.chain && f !in own0
                                     && own' == own[f := Leaf(r.lo + c)]
             else own' == own
    ensures Mapping(s0, own0, d, r, c + 1, s', own')
  {
    hide Pte, FreeInv, SpaceInv, Pde, UserFrame, Usable, Ppn, Present, LeafOwned;
    EntryParts(r.pa, c, r.flags, w);
    SetPtes(s.end, s.pages, d, own, r.lo + c, w, s'.pages);
    FrameMore(r.lo, c, c + 1, r.pa / PGSIZE);
    UserFramesAreLeaves(s0, own0, d, r, c, s, own);
    MappingSetSound(s, d, own, r.lo + c, w, s', own');
  }

  /** So far the page after the mapped ones is as it was. */
  lemma MappingFacts(s0: Mem, own0: Own, d: nat, r: Range, c: nat, s: Mem, own: Own)
    requires Mapping(s0, own0, d, r, c, s, own) && r.lo + c < VPAGES
    ensures Sound(s, d, own) && s.end == s0.end && d < |s.pages| == |s0.pages| && r.Valid()
    ensures Pte(s.pages, d, r.lo + c) == Pte(s0.pages, d, r.lo + c)
  {
    hide Pte, FreeInv, SpaceInv;
  }

  lemma PteIs(m: seq<Page>, d: nat, vp: nat)
    requires d < |m| && vp < VPAGES && Present(Pde(m, d, vp / 1024)) && Ppn(Pde(m, d, vp / 1024)) < |m|
    ensures Pte(m, d, vp) == m[Ppn(Pde(m, d, vp / 1024))][vp % 1024]
  {
  }

  /** One turn of the loop of mappages, for virtual page vp. */
  method MapOne(k: Machine, d: nat, vp: nat, frame: nat, flags: nat, ghost s0: Mem, ghost own0: Own, ghost r: Range,
                ghost c: nat, ghost own: Own) returns (o: Outcome, ghost own': Own)
    requires Mapping(s0, own0, d, r, c, k.Now(), own)
    requires vp == r.lo + c < VPAGES && frame == r.pa + PGSIZE * c < 0x1_0000_0000 && flags == r.flags
    requires var f := r.pa / PGSIZE + c; vp < USER ==> Usable(k.end, f) && f !in s0.chain && f !in own0
    modifies k
    ensures Mapping(s0, own0, d, r, if o == Done then c + 1 else c, k.Now(), own')
    ensures o == NoMemory ==> k.chain == []
    ensures o == Panic ==> Present(Pte(s0.pages, d, vp))
  {
    hide FreeInv, SpaceInv, Sound, Mapping, Walked, Pte, Pde, Ppn, Present;
    MappingFacts(s0, own0, d, r, c, k.Now(), own);
    var t;
    t, own' := Walk(k, d, vp, true, own);
    if t.None? { return NoMemory, own'; }
    MappingWalk(s0, own0, d, r, c, old(k.Now()), own, vp / 1024, k.Now(), own');
    MappingFacts(s0, own0, d, r, c, k.Now(), own');
    PteIs(k.mem, d, vp);
    var pte := k.mem[t.value][vp % 1024];
    if Present(pte) { return Panic, own'; }
    ghost var s1, own1 := k.Now(), own';
    k.mem := k.mem[t.value := k.mem[t.value][vp % 1024 := frame + flags]];
    if vp < USER {
      own' := own'[r.pa / PGSIZE + c := Leaf(vp)];
    }
    MappingSet(s0, own0, d, r, c, s1, own1, frame + flags, k.Now(), own');
    o := Done;
  }

  lemma FrameIn(lo: nat, n: nat, f: nat, c: nat)
    requires c < n && lo + c < USER
    ensures UserFrame(lo, n, f, f + c)
  {
  }

  /** The number of pages that size bytes from va on touch. */
  function Span(va: nat, size: nat): nat
    requires size > 0
  {
    (va + size - 1) / PGSIZE - va / PGSIZE + 1
  }

  lemma LastPage(va: Word, size: Word)
    requires size > 0 && va + size <= 0x1_0000_0000
    ensures (va + size - 1) % 0x1_0000_0000 / PGSIZE * PGSIZE == PGSIZE * (va / PGSIZE + Span(va, size) - 1)
    ensures va / PGSIZE + Span(va, size) <= VPAGES && Span(va, size) > 0
  {
  }

  /** Virtual pages va / PGSIZE up to (va + size - 1) / PGSIZE are mapped to pa and up, also when
      the last of them is the top page of the address space; c is how far it got. */
  method Mappages(k: Machine, d: nat, va: Word, size: Word, pa: Word, perm: nat, ghost own: Own)
      returns (o: Outcome, ghost own': Own, ghost c: nat)
    requires Sound(k.Now(), d, own) && size > 0 && va + size <= 0x1_0000_0000 && pa % PGSIZE == 0 && perm < PGSIZE
    requires pa + PGSIZE * Span(va, size) <= 0x1_0000_0000
    requires forall p: nat | UserFrame(va / PGSIZE, Span(va, size), pa / PGSIZE, p) ::
               Usable(k.end, p) && p !in k.chain && p !in own
    modifies k
    ensures Mapping(old(k.Now()), own, d, Range(va / PGSIZE, pa, Flags(perm)), c, k.Now(), own')
    ensures if o == Done then c == Span(va, size) else c < Span(va, size)
    ensures o == NoMemory ==> k.chain == []
    ensures o == Panic ==> Present(old(Pte(k.mem, d, va / PGSIZE + c)))
  {
    hide Mapping, Sound, Pte, Usable, UserFrame, Span;
    LastPage(va, size);
    ghost var n, r := Span(va, size), Range(va / PGSIZE, pa, Flags(perm));
    var a := va / PGSIZE * PGSIZE;
    var last := (va + size - 1) % 0x1_0000_0000 / PGSIZE * PGSIZE;
    var p := pa;
    own', c := own, 0;
    MappingStart(k.Now(), d, own, r);
    while true
      invariant c < n && a == PGSIZE * (r.lo + c) && p == pa + PGSIZE * c
      invariant Mapping(old(k.Now()), own, d, r, c, k.Now(), own')
      decreases n - c
    {
      if r.lo + c < USER { FrameIn(r.lo, n, pa / PGSIZE, c); }
      o, own' := MapOne(k, d, a / PGSIZE, p, Flags(perm), old(k.Now()), own, r, c, own');
      if o != Done { return; }
      c := c + 1;
      if a == last { return; }
      a := (a + PGSIZE) % 0x1_0000_0000;
      p := (p + PGSIZE) % 0x1_0000_0000;
    }
  }

  // ---------------------------------------------------------------------------------------
  // deallocuvm
  // ---------------------------------------------------------------------------------------

  /** The free list after a loop over virtual pages lo up to hi that frees each present page. */
  ghost function ByPage(m: seq<Page>, d: nat, lo: nat, hi: nat, chain: seq<nat>): seq<nat>
    requires d < |m| && lo <= hi <= USER
  {
    if lo == hi then chain
    else if Present(Pte(m, d, hi - 1)) then [Ppn(Pte(m, d, hi - 1))] + ByPage(m, d, lo, hi - 1, chain)
    else ByPage(m, d, lo, hi - 1, chain)
  }

  /** The loop frees the pages that the space has in the range, and no others. */
  lemma {:induction false} ByPageFrees(end: nat, m: seq<Page>, d: nat, own: Own, lo: nat, hi: nat, chain: seq<nat>)
    requires SpaceInv(end, m, d, own) && lo <= hi <= USER
    ensures forall p: nat ::
              p in ByPage(m, d, lo, hi, chain) <==> p in chain || (p in own && own[p].Leaf? && lo <= own[p].vp < hi)
  {
    hide Pte;
    if lo < hi {
      ByPageFrees(end, m, d, own, lo, hi - 1, chain);
      assert LeafOwned(m, d, own, hi - 1);
      assert forall p | p in own :: PageOwned(end, m, d, own, p);
    }
  }

  /** The space without virtual pages lo up to hi. */
  ghost function Drop(own: Own, lo: nat, hi: nat): Own {
    map p | p in own && !(own[p].Leaf? && lo <= own[p].vp < hi) :: own[p]
  }

  /** Virtual pages lo up to hi are unmapped and freed, page by page; nothing else has changed. */
  ghost predicate Unmapping(s0: Mem, own0: Own, d: nat, lo: nat, hi: nat, s: Mem) {
    && s.end == s0.end && |s.pages| == |s0.pages| && d < |s0.pages| && lo <= hi <= USER
    && Sound(s, d, Drop(own0, lo, hi))
    && s.chain == ByPage(s0.pages, d, lo, hi, s0.chain)
    && (forall vp | 0 <= vp < VPAGES ::
          Pte(s.pages, d, vp) == if lo <= vp < hi && Present(Pte(s0.pages, d, vp)) then 0 else Pte(s0.pages, d, vp))
    && s.pages[d] == s0.pages[d]
    && (forall p | 0 <= p < |s0.pages|
          && ((p !in own0 && p !in s0.chain) || (p in Drop(own0, lo, hi) && own0[p].Leaf?)) ::
            s.pages[p] == s0.pages[p])
  }

  lemma UnmapStart(s: Mem, d: nat, own: Own, lo: nat)
    requires Sound(s, d, own) && lo <= USER
    ensures Unmapping(s, own, d, lo, lo, s)
  {
    hide Pte, FreeInv;
    assert Drop(own, lo, lo) == own;
  }

  /** A page that is not there. */
  lemma UnmapAbsent(s0: Mem, own0: Own, d: nat, lo: nat, hi: nat, s: Mem)
    requires Unmapping(s0, own0, d, lo, hi, s) && SpaceInv(s0.end, s0.pages, d, own0)
    requires hi < USER && !Present(Pte(s.pages, d, hi))
    ensures Unmapping(s0, own0, d, lo, hi + 1, s)
  {
    hide Pte, FreeInv;
    assert forall p | p in own0 :: PageOwned(s0.end, s0.pages, d, own0, p);
    assert Drop(own0, lo, hi + 1) == Drop(own0, lo, hi);
  }

  /** The jump to the next directory entry skips only pages that are not there. */
  lemma {:induction false} UnmapSkip(s0: Mem, own0: Own, d: nat, lo: nat, hi: nat, hi': nat, s: Mem)
    requires Unmapping(s0, own0, d, lo, hi, s) && SpaceInv(s0.end, s0.pages, d, own0)
    requires hi <= hi' <= USER && (forall vp | hi <= vp < hi' :: !Present(Pte(s.pages, d, vp)))
    ensures Unmapping(s0, own0, d, lo, hi', s)
    decreases hi' - hi
  {
    hide Pte, Unmapping, SpaceInv;
    if hi < hi' {
      UnmapAbsent(s0, own0, d, lo, hi, s);
      UnmapSkip(s0, own0, d, lo, hi + 1, hi', s);
    }
  }

  /** kfree of the page behind a present entry, and clearing the entry. */
  ghost predicate Released(s: Mem, d: nat, vp: nat, s1: Mem, s': Mem)
    requires d < |s.pages| && vp < VPAGES
  {
    && Pushed(s, Ppn(Pte(s.pages, d, vp)), s1) && FreeInv(s1)
    && PteSet(s1.pages, d, vp, 0, s'.pages) && s' == s1.(pages := s'.pages)
  }

  lemma ReleaseSound(s: Mem, d: nat, own: Own, vp: nat, s1: Mem, s': Mem)
    requires Sound(s, d, own) && vp < USER && Present(Pte(s.pages, d, vp)) && Released(s, d, vp, s1, s')
    ensures var p := Ppn(Pte(s.pages, d, vp));
            && p in own && own[p] == Leaf(vp) && Sound(s', d, own - {p})
            && (forall q | 0 <= q < |s.pages| && q != p && (q !in own || own[q].Leaf?) :: s'.pages[q] == s.pages[q])
    ensures |s'.pages| == |s.pages| && s'.pages[d] == s.pages[d]
    ensures forall x | 0 <= x < VPAGES :: Pte(s'.pages, d, x) == if x == vp then 0 else Pte(s.pages, d, x)
  {
    hide Pte, FreeInv, Pde;
    assert LeafOwned(s.pages, d, own, vp);
    SpaceFrame(s.end, s.pages, d, own, s1.pages);
    SetPtes(s.end, s1.pages, d, own, vp, 0, s'.pages);
    UnmapUser(s.end, s1.pages, d, own, vp, s'.pages);
    SetPteFrame(s1, d, own, vp, 0, s');
  }

  /** Only one page is mapped at hi. */
  lemma DropOne(s: Mem, own0: Own, d: nat, lo: nat, hi: nat, p: nat)
    requires Sound(s, d, Drop(own0, lo, hi)) && lo <= hi < USER
    requires p in Drop(own0, lo, hi) && Drop(own0, lo, hi)[p] == Leaf(hi)
    ensures Drop(own0, lo, hi + 1) == Drop(own0, lo, hi) - {p}
  {
    hide FreeInv, Pte;
    var own := Drop(own0, lo, hi);
    assert forall q | q in own :: PageOwned(s.end, s.pages, d, own, q);
    assert forall q | q in own && own[q] == Leaf(hi) :: q == p;
  }

  lemma UnmapFree(s0: Mem, own0: Own, d: nat, lo: nat, hi: nat, s: Mem, s1: Mem, s': Mem)
    requires Unmapping(s0, own0, d, lo, hi, s)
    requires hi < USER && Present(Pte(s.pages, d, hi)) && Released(s, d, hi, s1, s')
    ensures Unmapping(s0, own0, d, lo, hi + 1, s')
  {
    hide Pte, Sound, FreeInv, PteSet;
    var p := Ppn(Pte(s.pages, d, hi));
    ReleaseSound(s, d, Drop(own0, lo, hi), hi, s1, s');
    DropOne(s, own0, d, lo, hi, p);
    assert Drop(own0, lo, hi + 1) == Drop(own0, lo, hi) - {p};
  }

  lemma NoTable(m: seq<Page>, d: nat, vp: nat)
    requires d < |m| && vp < USER && !Present(Pde(m, d, vp / 1024))
    ensures forall x | vp <= x < (vp / 1024 + 1) * 1024 :: !Present(Pte(m, d, x))
  {
    assert forall x | vp <= x < (vp / 1024 + 1) * 1024 :: x / 1024 == vp / 1024 && Pte(m, d, x) == 0;
  }

  /** kfree accepts page p. */
  ghost predicate Freeable(s: Mem, p: nat) {
    && p < NPAGES == |s.pages| && p !in s.chain && Va(p) % PGSIZE == 0 && (Va(p) - KERNBASE) / PGSIZE == p
    && s.end <= Va(p) < KERNBASE + PHYSTOP
  }

  lemma UsableIsFreeable(s: Mem, p: nat)
    requires FreeInv(s) && Usable(s.end, p) && p !in s.chain
    ensures Freeable(s, p)
  {
    hide FreeInv;
    FreeBounds(s);
    VaPage(p, KERNBASE);
  }

  /** A present user page is not free and is no table, so kfree takes it. */
  lemma PteAt(s: Mem, d: nat, own: Own, vp: nat)
    requires Sound(s, d, own) && vp < USER && Present(Pde(s.pages, d, vp / 1024))
    ensures var t := Ppn(Pde(s.pages, d, vp / 1024));
            t < NPAGES == |s.pages| && Pte(s.pages, d, vp) == s.pages[t][vp % 1024]
    ensures var p := Ppn(Pte(s.pages, d, vp));
            Present(Pte(s.pages, d, vp)) ==>
              Freeable(s, p) && p in own && p != d && p != Ppn(Pde(s.pages, d, vp / 1024))
  {
    hide FreeInv;
    assert TableOwned(s.pages, d, own, vp / 1024) && LeafOwned(s.pages, d, own, vp);
    assert PageOwned(s.end, s.pages, d, own, Ppn(Pde(s.pages, d, vp / 1024)));
    if Present(Pte(s.pages, d, vp)) {
      assert PageOwned(s.end, s.pages, d, own, Ppn(Pte(s.pages, d, vp)));
      UsableIsFreeable(s, Ppn(Pte(s.pages, d, vp)));
    }
  }

  /** One turn of the loop of deallocuvm at virtual page vp; the result is the next one. */
  method DeallocOne(k: Machine, d: nat, vp: nat, ghost hi: nat, ghost s0: Mem, ghost own: Own, ghost lo: nat)
      returns (next: nat)
    requires Unmapping(s0, own, d, lo, vp, k.Now()) && SpaceInv(s0.end, s0.pages, d, own) && vp < hi <= USER
    modifies k
    ensures vp < next && Unmapping(s0, own, d, lo, if next < hi then next else hi, k.Now())
  {
    hide FreeInv, SpaceInv, ByPage, Drop, Pte;
    var t, own' := Walk(k, d, vp, false, Drop(own, lo, vp));
    if t.None? {
      next := (vp / 1024 + 1) * 1024;
      NoTable(k.mem, d, vp);
      UnmapSkip(s0, own, d, lo, vp, if next < hi then next else hi, k.Now());
    } else {
      PteAt(k.Now(), d, Drop(own, lo, vp), vp);
      var pte := k.mem[t.value][vp % 1024];
      next := vp + 1;
      if Present(pte) {
        var ok := k.Kfree(Va(Ppn(pte)));
        assert ok;
        ghost var s1 := k.Now();
        k.mem := k.mem[t.value := k.mem[t.value][vp % 1024 := 0]];
        UnmapFree(s0, own, d, lo, vp, old(k.Now()), s1, k.Now());
      } else {
        UnmapAbsent(s0, own, d, lo, vp, k.Now());
      }
    }
  }

  /** The number of pages that sz bytes take. */
  function Pages(sz: nat): nat {
    (sz + PGSIZE - 1) / PGSIZE
  }

  /** After deallocuvm no access to a page from newsz up to oldsz succeeds, and below newsz all is as it was. */
  lemma UnmappedAccess(s0: Mem, own0: Own, d: nat, newsz: Word, oldsz: Word, s: Mem, va: Word, write: bool, user: bool)
    requires newsz < oldsz <= KERNBASE && Unmapping(s0, own0, d, Pages(newsz), Pages(oldsz), s)
    requires SpaceInv(s0.end, s0.pages, d, own0)
    ensures newsz <= va / PGSIZE * PGSIZE && va < oldsz ==> Mmu(s.pages, d, va, write, user) == None
    ensures va < newsz ==> Mmu(s.pages, d, va, write, user) == Mmu(s0.pages, d, va, write, user)
  {
    hide Pte, FreeInv, SpaceInv, Mmu, ByPage, Drop;
    var lo, hi := Pages(newsz), Pages(oldsz);
    MmuIs(s.end, s.pages, d, Drop(own0, lo, hi), va, write, user);
    MmuIs(s0.end, s0.pages, d, own0, va, write, user);
  }

  /** deallocuvm: with its jumps over missing tables it does what a loop over all the pages from
      PGROUNDUP(newsz) up to oldsz would do. */
  method Deallocuvm(k: Machine, d: nat, oldsz: Word, newsz: Word, ghost own: Own) returns (r: Word, ghost own': Own)
    requires Sound(k.Now(), d, own) && oldsz <= KERNBASE
    modifies k
    ensures newsz >= oldsz ==> r == oldsz && own' == own && k.Now() == old(k.Now())
    ensures newsz < oldsz ==>
              && r == newsz && own' == Drop(own, Pages(newsz), Pages(oldsz))
              && Unmapping(old(k.Now()), own, d, Pages(newsz), Pages(oldsz), k.Now())
  {
    hide FreeInv, SpaceInv, Unmapping, Drop;
    if newsz >= oldsz {
      return oldsz, own;
    }
    ghost var lo, hi := Pages(newsz), Pages(oldsz);
    var a := (newsz + PGSIZE - 1) / PGSIZE * PGSIZE;
    UnmapStart(k.Now(), d, own, lo);
    ghost var vp := lo;
    while a < oldsz
      invariant a == PGSIZE * vp
      invariant Unmapping(old(k.Now()), own, d, lo, if vp < hi then vp else hi, k.Now())
    {
      var next := DeallocOne(k, d, a / PGSIZE, hi, old(k.Now()), own, lo);
      a, vp := next * PGSIZE, next;
    }
    r, own' := newsz, Drop(own, lo, hi);
  }

  // ---------------------------------------------------------------------------------------
  // freevm
  // ---------------------------------------------------------------------------------------

  /** freevm after deallocuvm has freed the tables of the first i directory entries. */
  ghost predicate Dismantling(s0: Mem, own0: Own, d: nat, i: nat, s: Mem) {
    && i <= 1024 && d < |s0.pages| == |s.pages| && FreeInv(s) && s.end == s0.end && s.pages[d] == s0.pages[d]
    && (forall p: nat :: p in s.chain <==> p in s0.chain || (p in own0 && own0[p].Table? && own0[p].i < i))
    && (forall p | 0 <= p < |s.pages| && p !in s0.chain && p !in own0 :: s.pages[p] == s0.pages[p])
  }

  lemma DismantleStart(s: Mem, d: nat, own: Own)
    requires Sound(s, d, own)
    ensures Dismantling(s, own, d, 0, s)
  {
    hide FreeInv, Pte;
  }

  lemma DismantleStep(s0: Mem, own: Own, d: nat, i: nat, s: Mem, s': Mem)
    requires Sound(s0, d, own) && Dismantling(s0, own, d, i, s) && i < 1024
    requires var e := Pde(s0.pages, d, i); if Present(e) then Pushed(s, Ppn(e), s') && FreeInv(s') else s' == s
    ensures Dismantling(s0, own, d, i + 1, s')
  {
    hide FreeInv, Pte, Pde;
    assert TableOwned(s0.pages, d, own, i);
    assert forall p | p in own :: PageOwned(s0.end, s0.pages, d, own, p);
  }

  /** A table that is still there is not free yet. */
  lemma TableFacts(s0: Mem, d: nat, own: Own, i: nat, s: Mem)
    requires Sound(s0, d, own) && i < 1024 && Dismantling(s0, own, d, i, s)
    ensures s.pages[d][i] == Pde(s0.pages, d, i)
    ensures Present(Pde(s0.pages, d, i)) ==> Freeable(s, Ppn(Pde(s0.pages, d, i)))
  {
    hide FreeInv, Pte;
    assert TableOwned(s0.pages, d, own, i);
    if Present(Pde(s0.pages, d, i)) {
      assert PageOwned(s0.end, s0.pages, d, own, Ppn(Pde(s0.pages, d, i)));
      UsableIsFreeable(s, Ppn(Pde(s0.pages, d, i)));
    }
  }

  /** The tables of an address space whose user pages are gone. */
  method FreeTables(k: Machine, d: nat, ghost own: Own)
    requires Sound(k.Now(), d, own)
    modifies k
    ensures Dismantling(old(k.Now()), own, d, 1024, k.Now())
  {
    hide FreeInv, SpaceInv, Sound, Pde, Va;
    DismantleStart(k.Now(), d, own);
    var i := 0;
    while i < 1024
      invariant i <= 1024 && Dismantling(old(k.Now()), own, d, i, k.Now())
    {
      TableFacts(old(k.Now()), d, own, i, k.Now());
      ghost var s := k.Now();
      var pde := k.mem[d][i];
      if Present(pde) {
        var ok := k.Kfree(Va(Ppn(pde)));
        assert ok;
      }
      DismantleStep(old(k.Now()), own, d, i, s, k.Now());
      i := i + 1;
    }
  }

  lemma FreevmUser(s0: Mem, d: nat, own: Own, s: Mem)
    requires Sound(s0, d, own) && Unmapping(s0, own, d, 0, USER, s)
    ensures Sound(s, d, Drop(own, 0, USER)) && Outside(s0, own, s)
    ensures forall p: nat :: p in s.chain <==> p in s0.chain || (p in own && own[p].Leaf?)
  {
    hide FreeInv, Pte, ByPage;
    ByPageFrees(s0.end, s0.pages, d, own, 0, USER, s0.chain);
    assert forall p | p in own :: PageOwned(s0.end, s0.pages, d, own, p);
  }

  lemma FreevmTables(s0: Mem, d: nat, own: Own, s1: Mem, s: Mem)
    requires Sound(s0, d, own) && Outside(s0, own, s1) && Dismantling(s1, Drop(own, 0, USER), d, 1024, s)
    requires forall p: nat :: p in s1.chain <==> p in s0.chain || (p in own && own[p].Leaf?)
    ensures forall p: nat :: p in s.chain <==> p in s0.chain || (p in own && p != d)
    ensures Outside(s0, own, s) && FreeInv(s) && d in own && Freeable(s, d)
  {
    hide FreeInv, Pte;
    assert forall p | p in own :: PageOwned(s0.end, s0.pages, d, own, p);
    UsableIsFreeable(s, d);
  }

  /** freevm: every page of the space is back on the list, once, and nothing else is touched. */
  method Freevm(k: Machine, d: nat, ghost own: Own)
    requires Sound(k.Now(), d, own)
    modifies k
    ensures FreeInv(k.Now()) && Outside(old(k.Now()), own, k.Now())
    ensures forall p: nat :: p in k.chain <==> p in old(k.chain) || p in own
  {
    hide FreeInv, SpaceInv, Sound, Unmapping, Dismantling;
    var r, own1 := Deallocuvm(k, d, KERNBASE, 0, own);
    ghost var s1 := k.Now();
    FreevmUser(old(k.Now()), d, own, s1);
    FreeTables(k, d, own1);
    FreevmTables(old(k.Now()), d, own, s1, k.Now());
    var ok := k.Kfree(Va(d));
    assert ok;
  }
}

/** setupkvm, copyuvm and allocuvm of xv6/vm.c: address spaces built from free pages, and taken
    apart again when the pages run out. */
module UserVm {
  import opened Basics
  import opened Kmem
  import opened PageTable
  import opened Vm

  /** Space own0, or nothing, has grown with pages from the free list of s0; held are pages taken but
      not mapped yet. Nothing else has changed, and what was mapped below KERNBASE has not either. */
  ghost predicate Building(s0: Mem, own0: Own, held: set<nat>, d: nat, s: Mem, own: Own) {
    && Sound(s, d, own) && Outside(s0, own0, s) && LeavesKept(s0, own0, s, own)
    && (forall p: nat :: p in s.chain || p in own || p in held <==> p in s0.chain || p in own0)
    && (forall p | p in held :: p !in s.chain && p !in own)
  }

  lemma BuildingFacts(s0: Mem, own0: Own, held: set<nat>, d: nat, s: Mem, own: Own)
    requires Building(s0, own0, held, d, s, own)
    ensures Sound(s, d, own) && FreeInv(s) && SpaceInv(s.end, s.pages, d, own)
    ensures s.end == s0.end && d < |s.pages| == |s0.pages| == NPAGES
  {
  }

  lemma BuildingStart(s: Mem, d: nat, own: Own)
    requires Sound(s, d, own)
    ensures Building(s, own, {}, d, s, own)
  {
    hide FreeInv;
  }

  /** kalloc, and filling the page: one page is held. */
  lemma BuildTake(s0: Mem, own0: Own, d: nat, s: Mem, own: Own, s': Mem)
    requires Building(s0, own0, {}, d, s, own) && s.chain != [] && FreeInv(s')
    requires s'.end == s.end && s'.chain == s.chain[1..] && |s'.pages| == |s.pages| && s.chain[0] < |s.pages|
    requires s'.pages == s.pages[s.chain[0] := s'.pages[s.chain[0]]]
    ensures Building(s0, own0, {s.chain[0]}, d, s', own)
    ensures SameTables(s.pages, d, s'.pages) && Usable(s.end, s.chain[0]) && LeavesKept(s, own, s', own)
  {
    hide Pte, FreeInv, SpaceInv, Usable;
    FirstAndRest(s.chain);
    NewPageFacts(s, d, own);
    SpaceFrame(s.end, s.pages, d, own, s'.pages);
  }

  /** mappages of the held page p at vp. */
  lemma BuildMap(s0: Mem, own0: Own, p: nat, d: nat, s: Mem, own: Own, r: Range, c: nat, s': Mem, own': Own)
    requires Building(s0, own0, {p}, d, s, own) && r.lo < USER && c <= 1 && r.pa == PGSIZE * p
    requires Mapping(s, own, d, r, c, s', own')
    ensures Building(s0, own0, if c == 1 then {} else {p}, d, s', own')
  {
    hide FreeInv, SpaceInv, Pte;
    assert forall q: nat :: UserFrame(r.lo, c, r.pa / PGSIZE, q) <==> c == 1 && q == p;
    if c == 0 {
      assert p !in s'.chain && p !in own';
    }
  }

  /** kfree of the held page. */
  lemma BuildReturn(s0: Mem, own0: Own, p: nat, d: nat, s: Mem, own: Own, s': Mem)
    requires Building(s0, own0, {p}, d, s, own) && Pushed(s, p, s') && FreeInv(s')
    ensures Building(s0, own0, {}, d, s', own)
  {
    hide FreeInv, Pte;
    SpaceFrame(s.end, s.pages, d, own, s'.pages);
  }

  /** mappages above KERNBASE takes only tables. */
  lemma BuildKernel(s0: Mem, own0: Own, d: nat, s: Mem, own: Own, r: Range, c: nat, s': Mem, own': Own)
    requires Building(s0, own0, {}, d, s, own) && r.lo >= USER && Mapping(s, own, d, r, c, s', own')
    ensures Building(s0, own0, {}, d, s', own')
  {
    hide FreeInv, SpaceInv, Pte;
    assert forall p: nat :: !UserFrame(r.lo, c, r.pa / PGSIZE, p);
  }

  // ---------------------------------------------------------------------------------------
  // Pages in hand
  // ---------------------------------------------------------------------------------------

  /** kalloc and memmove: a page with a copy of page src. */
  method HoldCopy(k: Machine, src: nat, d: nat, ghost s0: Mem, ghost own0: Own, ghost own: Own)
      returns (page: Option<nat>)
    requires Building(s0, own0, {}, d, k.Now(), own) && src < |k.mem|
    modifies k
    ensures page.None? ==> Building(s0, own0, {}, d, k.Now(), own)
    ensures page.Some? ==>
              && Building(s0, own0, {page.value}, d, k.Now(), own)
              && page.value < |k.mem| && Usable(k.end, page.value) && k.mem[page.value] == old(k.mem)[src]
              && SameTables(old(k.mem), d, k.mem) && LeavesKept(old(k.Now()), own, k.Now(), own)
  {
    hide FreeInv, SpaceInv, Building, SameTables, LeavesKept;
    BuildingFacts(s0, own0, {}, d, k.Now(), own);
    FreeBounds(k.Now());
    var v := k.Kalloc();
    if v == 0 { return None; }
    var p := (v - KERNBASE) / PGSIZE;
    ghost var s := k.Now();
    k.mem := k.mem[p := k.mem[src]];
    FreeFrame(s, k.Now());
    BuildTake(s0, own0, d, old(k.Now()), own, k.Now());
    page := Some(p);
  }

  /** kalloc and memset: a zero page. */
  method HoldZero(k: Machine, d: nat, ghost s0: Mem, ghost own0: Own, ghost own: Own) returns (page: Option<nat>)
    requires Building(s0, own0, {}, d, k.Now(), own)
    modifies k
    ensures page.None? ==> k.Now() == old(k.Now())
    ensures page.Some? ==>
              && Building(s0, own0, {page.value}, d, k.Now(), own)
              && page.value < |k.mem| && Usable(k.end, page.value)
              && (forall j | 0 <= j < 1024 :: k.mem[page.value][j] == 0)
              && SameTables(old(k.mem), d, k.mem) && LeavesKept(old(k.Now()), own, k.Now(), own)
  {
    hide FreeInv, SpaceInv, Building, SameTables, LeavesKept;
    BuildingFacts(s0, own0, {}, d, k.Now(), own);
    FreeBounds(k.Now());
    var v := k.Kalloc();
    if v == 0 { return None; }
    var p := (v - KERNBASE) / PGSIZE;
    ZeroPage(k, p);
    BuildTake(s0, own0, d, old(k.Now()), own, k.Now());
    page := Some(p);
  }

  lemma PageBounds(vp: nat, page: nat)
    requires vp < USER && page < NPAGES
    ensures PGSIZE * vp / PGSIZE == vp && Span(PGSIZE * vp, PGSIZE) == 1 && PGSIZE * page / PGSIZE == page
    ensures PGSIZE * vp + PGSIZE <= 0x1_0000_0000 && PGSIZE * page + PGSIZE <= 0x1_0000_0000
  {
  }

  /** mappages of one held page at vp. */
  method MapHeld(k: Machine, d: nat, vp: nat, page: nat, flags: nat, ghost s0: Mem, ghost own0: Own, ghost own: Own)
      returns (o: Outcome, ghost own': Own)
    requires Building(s0, own0, {page}, d, k.Now(), own) && vp < USER && Usable(k.end, page) && flags < PGSIZE
    modifies k
    ensures Building(s0, own0, if o == Done then {} else {page}, d, k.Now(), own')
    ensures d < |old(k.mem)| == |k.mem|
    ensures (o == Panic ==> Present(Pte(old(k.mem), d, vp))) && (o == Done ==> !Present(Pte(old(k.mem), d, vp)))
    ensures LeavesKept(old(k.Now()), own, k.Now(), own') && page < |k.mem| && k.mem[page] == old(k.mem)[page]
    ensures forall x | 0 <= x < VPAGES ::
              Pte(k.mem, d, x) == if x == vp && o == Done then PGSIZE * page + Flags(flags) else Pte(old(k.mem), d, x)
  {
    hide FreeInv, SpaceInv, Pte, Flags;
    BuildingFacts(s0, own0, {page}, d, k.Now(), own);
    PageBounds(vp, page);
    ghost var c;
    o, own', c := Mappages(k, d, PGSIZE * vp, PGSIZE, PGSIZE * page, flags, own);
    BuildMap(s0, own0, page, d, old(k.Now()), own, Range(vp, PGSIZE * page, Flags(flags)), c, k.Now(), own');
  }

  /** kfree of a held page. */
  method ReturnHeld(k: Machine, d: nat, page: nat, ghost s0: Mem, ghost own0: Own, ghost own: Own)
    requires Building(s0, own0, {page}, d, k.Now(), own) && Usable(k.end, page)
    modifies k
    ensures Building(s0, own0, {}, d, k.Now(), own)
  {
    hide FreeInv, SpaceInv, Usable;
    UsableIsFreeable(k.Now(), page);
    var ok := k.Kfree(Va(page));
    BuildReturn(s0, own0, page, d, old(k.Now()), own, k.Now());
  }

  // ---------------------------------------------------------------------------------------
  // setupkvm
  // ---------------------------------------------------------------------------------------

  const EXTMEM := 0x10_0000
  const KERNLINK := KERNBASE + EXTMEM
  const DEVSPACE := 0xFE00_0000
  const PTE_W := 2
  const PTE_U := 4

  /** An entry of kmap: where, from which physical address, how many bytes, with which permission. */
  datatype Kmap = Kmap(virt: Word, phys: Word, size: Word, perm: nat)

  /** The writable data of the kernel start at a page boundary inside the image. */
  predicate ValidData(data: nat) {
    KERNLINK < data < KERNBASE + PHYSTOP && data % PGSIZE == 0
  }

  /** The table kmap. */
  function Kmaps(data: Word): seq<Kmap>
    requires ValidData(data)
  {
    [Kmap(KERNBASE, 0, EXTMEM, PTE_W),
     Kmap(KERNLINK, KERNLINK - KERNBASE, data - KERNLINK, 0),
     Kmap(data, data - KERNBASE, PHYSTOP - (data - KERNBASE), PTE_W),
     Kmap(DEVSPACE, DEVSPACE, 0x1_0000_0000 - DEVSPACE, PTE_W)]
  }

  /** What every page table maps virtual page vp to. */
  function KernelPte(data: Word, vp: nat): int {
    if KERNBASE <= PGSIZE * vp < KERNLINK then PGSIZE * vp - KERNBASE + 3
    else if KERNLINK <= PGSIZE * vp < data then PGSIZE * vp - KERNBASE + 1
    else if data <= PGSIZE * vp < KERNBASE + PHYSTOP then PGSIZE * vp - KERNBASE + 3
    else if DEVSPACE <= PGSIZE * vp then PGSIZE * vp + 3
    else 0
  }

  /** Virtual page vp is in one of the first i entries of kmap. */
  predicate Covered(data: Word, i: nat, vp: nat) {
    || (i > 0 && KERNBASE <= PGSIZE * vp < KERNLINK)
    || (i > 1 && KERNLINK <= PGSIZE * vp < data)
    || (i > 2 && data <= PGSIZE * vp < KERNBASE + PHYSTOP)
    || (i > 3 && DEVSPACE <= PGSIZE * vp)
  }

  /** From virtual page n on the first i entries of kmap are mapped, and nothing else. */
  ghost predicate KernelMapped(data: Word, i: nat, m: seq<Page>, d: nat, n: nat)
    requires d < |m|
  {
    forall vp | n <= vp < VPAGES :: Pte(m, d, vp) == if Covered(data, i, vp) then KernelPte(data, vp) else 0
  }

  lemma KmapFacts(data: Word, i: nat)
    requires ValidData(data) && i < 4
    ensures |Kmaps(data)| == 4
    ensures var e := Kmaps(data)[i];
            && e.size > 0 && e.virt + e.size <= 0x1_0000_0000 && e.phys % PGSIZE == 0 && e.perm < PGSIZE
            && e.phys + PGSIZE * Span(e.virt, e.size) <= 0x1_0000_0000 && e.virt / PGSIZE >= USER
            && e.virt / PGSIZE + Span(e.virt, e.size) <= VPAGES
            && forall vp | e.virt / PGSIZE <= vp < e.virt / PGSIZE + Span(e.virt, e.size) :: !Covered(data, i, vp)
  {
  }

  lemma KernelMore(data: Word, i: nat, s: Mem, own: Own, d: nat, s': Mem, own': Own)
    requires ValidData(data) && i < 4 && d < |s.pages| && KernelMapped(data, i, s.pages, d, 0)
    requires var e := Kmaps(data)[i];
             && e.size > 0
             && Mapping(s, own, d, Range(e.virt / PGSIZE, e.phys, Flags(e.perm)), Span(e.virt, e.size), s', own')
    ensures d < |s'.pages| && KernelMapped(data, i + 1, s'.pages, d, 0)
  {
    hide Pte, Sound, LeavesKept;
    forall vp | 0 <= vp < VPAGES
      ensures Pte(s'.pages, d, vp) == if Covered(data, i + 1, vp) then KernelPte(data, vp) else 0
    {
    }
  }

  /** What the kernel and the user can reach of the kernel's part of a space: all physical memory from KERNBASE on
      and the devices, each at its place, for the kernel alone; and not even the kernel may write its text. */
  lemma KernelAccess(data: Word, m: seq<Page>, end: nat, d: nat, own: Own, n: nat, va: Word, write: bool, user: bool)
    requires ValidData(data) && SpaceInv(end, m, d, own) && KernelMapped(data, 4, m, d, n) && va >= PGSIZE * n
    ensures Mmu(m, d, va, write, user) ==
              if user then None
              else if 0x8000_0000 <= va < 0x8E00_0000
              then (if write && 0x8010_0000 <= va < data then None else Some(va - 0x8000_0000))
              else if va >= 0xFE00_0000 then Some(va) else None
  {
    hide Pte, SpaceInv, Mmu;
    SpaceBounds(end, m, d, own);
    MmuIs(end, m, d, own, va, write, user);
    var vp := va / PGSIZE;
    var e := if Covered(data, 4, vp) then KernelPte(data, vp) else 0;
    assert Pte(m, d, vp) == e;
    hide KernelMapped;
    KernelEntry(data, va, vp);
  }

  lemma KernelEntry(data: Word, va: Word, vp: nat)
    requires ValidData(data) && vp == va / PGSIZE
    ensures var e := if Covered(data, 4, vp) then KernelPte(data, vp) else 0;
            && 0 <= e < 0x1_0000_0000
            && (Present(e) <==> 0x8000_0000 <= va < 0x8E00_0000 || va >= 0xFE00_0000)
            && (Present(e) ==> PGSIZE * Ppn(e) + va % PGSIZE == if va >= 0xFE00_0000 then va else va - 0x8000_0000)
            && (Present(e) ==> (e / 2 % 2 == 1 <==> !(0x8010_0000 <= va < data)) && e / 4 % 2 == 0)
  {
    var p := if va >= 0xFE00_0000 then vp else vp - 0x8_0000;
    if p >= 0 {
      EntryBits(p, 1);
      EntryBits(p, 3);
    }
    var q := data / PGSIZE;
    assert data == PGSIZE * q && va == PGSIZE * vp + va % PGSIZE;
    assert PGSIZE * vp < data <==> va < data;
  }

  lemma KernelAbsent(data: Word, i: nat, m: seq<Page>, d: nat, n: nat, vp: nat)
    requires d < |m| && KernelMapped(data, i, m, d, n) && n <= vp < VPAGES && !Covered(data, i, vp)
    ensures !Present(Pte(m, d, vp))
  {
    hide Pte, Covered;
  }

  /** One entry of kmap. */
  method MapKernel(k: Machine, d: nat, data: Word, i: nat, ghost s0: Mem, ghost own: Own)
      returns (ok: bool, ghost own': Own)
    requires ValidData(data) && i < 4 && d < |k.mem| && KernelMapped(data, i, k.mem, d, 0)
    requires Building(s0, map[], {}, d, k.Now(), own)
    modifies k
    ensures Building(s0, map[], {}, d, k.Now(), own')
    ensures d < |k.mem| && (ok ==> KernelMapped(data, i + 1, k.mem, d, 0))
  {
    hide FreeInv, Sound, KernelMapped, Covered, Kmaps, Pte, Usable, Outside, LeavesKept, Building, Span, Flags, Mapping;
    KmapFacts(data, i);
    BuildingFacts(s0, map[], {}, d, k.Now(), own);
    var e := Kmaps(data)[i];
    ghost var c;
    var o;
    o, own', c := Mappages(k, d, e.virt, e.size, e.phys, e.perm, own);
    ghost var r := Range(e.virt / PGSIZE, e.phys, Flags(e.perm));
    BuildKernel(s0, map[], d, old(k.Now()), own, r, c, k.Now(), own');
    BuildingFacts(s0, map[], {}, d, k.Now(), own');
    if o == Done {
      KernelMore(data, i, old(k.Now()), own, d, k.Now(), own');
    } else if o == Panic {
      KernelAbsent(data, i, old(k.mem), d, 0, e.virt / PGSIZE + c);
      assert false;
    }
    ok := o == Done;
  }

  lemma NewSpace(s0: Mem, d: nat, s: Mem, data: Word)
    requires FreeInv(s0) && s0.chain != [] && d == s0.chain[0] && s.chain == s0.chain[1..] && FreeInv(s)
             && s.end == s0.end
    requires |s.pages| == |s0.pages| && s.pages == s0.pages[d := s.pages[d]]
    requires forall j | 0 <= j < 1024 :: s.pages[d][j] == 0
    ensures Building(s0, map[], {}, d, s, map[d := Dir]) && KernelMapped(data, 0, s.pages, d, 0)
  {
    hide FreeInv, Pte;
    FreeBounds(s0);
    FreePop(s0, s0.(head := s0.pages[d][0], chain := s0.chain[1..]));
    EmptySpace(s.end, s.pages, d);
    FirstAndRest(s0.chain);
  }

  /** setupkvm: a space with the kernel's mappings and nothing below KERNBASE, or the free list as
      it was. */
  method Setupkvm(k: Machine, data: Word) returns (d: Option<nat>, ghost own: Own)
    requires FreeInv(k.Now()) && ValidData(data)
    modifies k
    ensures d.None? ==> FreeInv(k.Now()) && Outside(old(k.Now()), map[], k.Now())
    ensures d.None? ==> forall p: nat :: p in k.chain <==> p in old(k.chain)
    ensures d.Some? ==> Building(old(k.Now()), map[], {}, d.value, k.Now(), own)
                        && KernelMapped(data, 4, k.mem, d.value, 0)
  {
    hide FreeInv, Sound, KernelMapped, Covered, Kmaps, Pte, Usable, ValidData;
    FreeBounds(k.Now());
    own := map[];
    var v := k.Kalloc();
    if v == 0 { return None, own; }
    var pgdir := (v - KERNBASE) / PGSIZE;
    FirstIsUsable(old(k.Now()));
    ZeroPage(k, pgdir);
    NewSpace(old(k.Now()), pgdir, k.Now(), data);
    own := map[pgdir := Dir];
    var i := 0;
    while i < 4
      invariant i <= 4 && pgdir < |k.mem| && KernelMapped(data, i, k.mem, pgdir, 0)
      invariant Building(old(k.Now()), map[], {}, pgdir, k.Now(), own)
    {
      var ok;
      ok, own := MapKernel(k, pgdir, data, i, old(k.Now()), own);
      if !ok {
        Freevm(k, pgdir, own);
        return None, own;
      }
      i := i + 1;
    }
    d := Some(pgdir);
  }

  lemma FirstIsUsable(s: Mem)
    requires FreeInv(s) && s.chain != []
    ensures s.chain[0] < |s.pages|
  {
  }

  // ---------------------------------------------------------------------------------------
  // copyuvm
  // ---------------------------------------------------------------------------------------

  /** In the child, virtual pages below n hold copies of the parent's pages with the same flags; the
      parent is in the memory m0 of before. */
  ghost predicate Copied(m0: seq<Page>, parent: nat, m: seq<Page>, d: nat, n: nat) {
    && parent < |m0| == |m| && d < |m| && n <= USER
    && forall vp | 0 <= vp < n :: SamePage(m0, Pte(m0, parent, vp), m, Pte(m, d, vp))
  }

  ghost predicate SamePage(m0: seq<Page>, e: Word, m: seq<Page>, e': Word) {
    && Present(e) && Present(e') && e' % PGSIZE == e % PGSIZE
    && Ppn(e) < |m0| && Ppn(e') < |m| && m[Ppn(e')] == m0[Ppn(e)]
  }

  /** The parent is out of reach of what is built from the free list. */
  lemma ParentKept(s0: Mem, parent: nat, own: Own, held: set<nat>, d: nat, s: Mem, child: Own)
    requires Sound(s0, parent, own) && Building(s0, map[], held, d, s, child)
    ensures Sound(s, parent, own) && SameTables(s0.pages, parent, s.pages)
    ensures forall p | 0 <= p < |s0.pages| && p in own :: s.pages[p] == s0.pages[p]
    ensures forall p | p in child :: p !in own
  {
    hide FreeInv, Pte;
    SpaceFrame(s0.end, s0.pages, parent, own, s.pages);
  }

  /** The copies made so far are leaves of the child, so they stay. */
  lemma CopiedMore(m0: seq<Page>, parent: nat, s: Mem, d: nat, own: Own, vp: nat, s1: Mem, s': Mem, own': Own)
    requires Copied(m0, parent, s.pages, d, vp) && vp < USER && SpaceInv(s.end, s.pages, d, own)
    requires SameTables(s.pages, d, s1.pages) && LeavesKept(s, own, s1, own) && LeavesKept(s1, own, s', own')
    requires forall x | 0 <= x < vp :: Pte(s'.pages, d, x) == Pte(s1.pages, d, x)
    requires SamePage(m0, Pte(m0, parent, vp), s'.pages, Pte(s'.pages, d, vp))
    ensures Copied(m0, parent, s'.pages, d, vp + 1)
  {
    hide Pte, Ppn, Present;
    forall x | 0 <= x < vp ensures SamePage(m0, Pte(m0, parent, x), s'.pages, Pte(s'.pages, d, x)) {
      assert SamePage(m0, Pte(m0, parent, x), s.pages, Pte(s.pages, d, x));
      assert LeafOwned(s.pages, d, own, x);
    }
  }

  lemma KernelStays(data: Word, m: seq<Page>, d: nat, vp: nat, m1: seq<Page>, m': seq<Page>)
    requires d < |m| == |m1| == |m'| && KernelMapped(data, 4, m, d, vp) && SameTables(m, d, m1)
    requires forall x | 0 <= x < VPAGES && x != vp :: Pte(m', d, x) == Pte(m1, d, x)
    ensures KernelMapped(data, 4, m', d, vp + 1)
  {
    hide Pte, Covered;
  }

  lemma SameEntry(m: seq<Page>, d: nat, m': seq<Page>, vp: nat)
    requires SameTables(m, d, m') && vp < VPAGES
    ensures |m'| == |m| && d < |m| && Pte(m', d, vp) == Pte(m, d, vp)
  {
  }

  /** The entry that the copy of e gets. */
  lemma PteParts(page: nat, e: Word)
    requires Present(e) && page < NPAGES
    ensures var w := PGSIZE * page + Flags(e % PGSIZE);
            0 <= w < 0x1_0000_0000 && Present(w) && Ppn(w) == page && w % PGSIZE == e % PGSIZE
  {
    assert Flags(e % PGSIZE) == e % PGSIZE;
    EntryParts(0, page, e % PGSIZE, PGSIZE * page + e % PGSIZE);
  }

  datatype Copy = Copy(pgdir: nat) | CopyFailed | CopyPanic

  /** The entry of the parent for virtual page vp; None is one of the two panics of copyuvm. */
  method ParentPte(k: Machine, parent: nat, vp: nat, ghost own: Own) returns (e: Option<Word>)
    requires Sound(k.Now(), parent, own) && vp < USER
    modifies k
    ensures k.Now() == old(k.Now())
    ensures e == if Present(Pte(k.mem, parent, vp)) then Some(Pte(k.mem, parent, vp)) else None
    ensures e.Some? ==> Ppn(e.value) < |k.mem| && Ppn(e.value) in own
  {
    hide FreeInv;
    var t, own' := Walk(k, parent, vp, false, own);
    if t.None? { return None; }
    PteAt(k.Now(), parent, own, vp);
    var pte := k.mem[t.value][vp % 1024];
    e := if Present(pte) then Some(pte) else None;
  }

  /** One turn of the loop of copyuvm. */
  method CopyPage(k: Machine, data: Word, parent: nat, vp: nat, d: nat, ghost s0: Mem, ghost own: Own, ghost child: Own)
      returns (r: Copy, ghost child': Own)
    requires Sound(s0, parent, own) && Building(s0, map[], {}, d, k.Now(), child) && vp < USER && ValidData(data)
    requires Copied(s0.pages, parent, k.mem, d, vp) && KernelMapped(data, 4, k.mem, d, vp)
    modifies k
    ensures r.CopyPanic? ==> parent < |s0.pages| && !Present(Pte(s0.pages, parent, vp))
    ensures !r.CopyPanic? ==> Building(s0, map[], {}, d, k.Now(), child')
    ensures r.Copy? ==>
        r.pgdir == d && Copied(s0.pages, parent, k.mem, d, vp + 1) && KernelMapped(data, 4, k.mem, d, vp + 1)
  {
    hide FreeInv, SpaceInv, Pte, Building, Copied, Usable, Sound, LeavesKept, SameTables, Ppn, Present, Flags,
        KernelMapped;
    child' := child;
    BuildingFacts(s0, map[], {}, d, k.Now(), child);
    ParentKept(s0, parent, own, {}, d, k.Now(), child);
    SameEntry(s0.pages, parent, k.mem, vp);
    var e := ParentPte(k, parent, vp, own);
    if e.None? { return CopyPanic, child'; }
    KernelAbsent(data, 4, k.mem, d, vp, vp);
    ghost var s := k.Now();
    var page := HoldCopy(k, Ppn(e.value), d, s0, map[], child);
    if page.None? { return CopyFailed, child'; }
    SameEntry(s.pages, d, k.mem, vp);
    ghost var s1 := k.Now();
    var o;
    o, child' := MapHeld(k, d, vp, page.value, e.value % PGSIZE, s0, map[], child);
    if o != Done {
      ReturnHeld(k, d, page.value, s0, map[], child');
      return CopyFailed, child';
    }
    BuildingFacts(s0, map[], {}, d, k.Now(), child');
    PteParts(page.value, e.value);
    CopiedMore(s0.pages, parent, s, d, child, vp, s1, k.Now(), child');
    KernelStays(data, s.pages, d, vp, s1.pages, k.mem);
    r := Copy(d);
  }

  /** Every access below sz that the parent may make the child may make, and no other, and it finds the same there. */
  lemma CopiedAccess(s0: Mem, parent: nat, own0: Own, s: Mem, d: nat, own: Own, sz: Word, va: Word, write: bool,
                     user: bool)
    requires SpaceInv(s0.end, s0.pages, parent, own0) && SpaceInv(s.end, s.pages, d, own)
    requires Copied(s0.pages, parent, s.pages, d, Pages(sz)) && va < sz
    ensures var a, b := Mmu(s0.pages, parent, va, write, user), Mmu(s.pages, d, va, write, user);
            && a.Some? == b.Some?
            && (a.Some? ==> a.value / PGSIZE < |s0.pages| && b.value / PGSIZE < |s.pages|
                            && WordAt(s.pages, b.value) == WordAt(s0.pages, a.value))
  {
    hide Pte, SpaceInv, Mmu, Allows, Present;
    MmuIs(s0.end, s0.pages, parent, own0, va, write, user);
    MmuIs(s.end, s.pages, d, own, va, write, user);
    var e, e' := Pte(s0.pages, parent, va / PGSIZE), Pte(s.pages, d, va / PGSIZE);
    assert SamePage(s0.pages, e, s.pages, e');
    SameFlags(e, e', write, user);
    PhysicalParts(Ppn(e), va);
    PhysicalParts(Ppn(e'), va);
  }

  lemma CopyStart(m0: seq<Page>, parent: nat, m: seq<Page>, d: nat)
    requires parent < |m0| == |m| && d < |m|
    ensures Copied(m0, parent, m, d, 0)
  {
    hide Pte;
  }

  /** copyuvm: a child with equal pages and flags on pages of its own, with the parent as it was; or
      the free list as it was. A panic means that a page below sz is missing in the parent. */
  method Copyuvm(k: Machine, data: Word, parent: nat, sz: Word, ghost own: Own) returns (r: Copy, ghost child: Own)
    requires Sound(k.Now(), parent, own) && sz <= KERNBASE && ValidData(data)
    modifies k
    ensures r.CopyPanic? ==> exists vp :: 0 <= vp < Pages(sz) && !Present(Pte(old(k.mem), parent, vp))
    ensures r.CopyFailed? ==> FreeInv(k.Now()) && Outside(old(k.Now()), map[], k.Now())
                              && forall p: nat :: p in k.chain <==> p in old(k.chain)
    ensures r.Copy? ==> Building(old(k.Now()), map[], {}, r.pgdir, k.Now(), child)
                        && Copied(old(k.mem), parent, k.mem, r.pgdir, Pages(sz))
                        && KernelMapped(data, 4, k.mem, r.pgdir, Pages(sz))
    ensures r.Copy? ==> Sound(k.Now(), parent, own) && SameTables(old(k.mem), parent, k.mem)
                        && forall p | p in child :: p !in own
  {
    hide FreeInv, SpaceInv, Pte, Copied, KernelMapped, ValidData;
    SpaceBounds(k.end, k.mem, parent, own);
    var d;
    d, child := Setupkvm(k, data);
    if d.None? { return CopyFailed, child; }
    BuildingFacts(old(k.Now()), map[], {}, d.value, k.Now(), child);
    CopyStart(old(k.mem), parent, k.mem, d.value);
    var i := 0;
    while i < sz
      invariant i % PGSIZE == 0 && i / PGSIZE <= Pages(sz)
      invariant Building(old(k.Now()), map[], {}, d.value, k.Now(), child)
      invariant Copied(old(k.mem), parent, k.mem, d.value, i / PGSIZE)
      invariant d.value < |k.mem| && KernelMapped(data, 4, k.mem, d.value, i / PGSIZE)
    {
      r, child := CopyPage(k, data, parent, i / PGSIZE, d.value, old(k.Now()), own, child);
      if r.CopyPanic? { return; }
      if r.CopyFailed? {
        Freevm(k, d.value, child);
        return;
      }
      i := i + PGSIZE;
    }
    ParentKept(old(k.Now()), parent, own, {}, d.value, k.Now(), child);
    r := Copy(d.value);
  }

  // ---------------------------------------------------------------------------------------
  // allocuvm
  // ---------------------------------------------------------------------------------------

  /** Virtual pages lo up to hi, which were not mapped, are zero pages that the user may write; the
      other entries are as they were. */
  ghost predicate Grown(m0: seq<Page>, m: seq<Page>, d: nat, own: Own, lo: nat, hi: nat) {
    && d < |m0| == |m| && lo <= hi <= USER
    && (forall vp | 0 <= vp < VPAGES && !(lo <= vp < hi) :: Pte(m, d, vp) == Pte(m0, d, vp))
    && (forall vp | lo <= vp < hi :: !Present(Pte(m0, d, vp)) && ZeroPageAt(m, Pte(m, d, vp), own))
  }

  ghost predicate ZeroPageAt(m: seq<Page>, e: Word, own: Own) {
    && e % PGSIZE == 7 && Ppn(e) < |m| && Ppn(e) in own && own[Ppn(e)].Leaf?
    && forall j | 0 <= j < 1024 :: m[Ppn(e)][j] == 0
  }

  /** The user may read and write every address below newsz whose page lies behind oldsz, and reads zeros there. */
  lemma GrownAccess(m0: seq<Page>, s: Mem, d: nat, own: Own, oldsz: Word, newsz: Word, va: Word, write: bool)
    requires Grown(m0, s.pages, d, own, Pages(oldsz), Pages(newsz)) && SpaceInv(s.end, s.pages, d, own)
    requires oldsz <= va / PGSIZE * PGSIZE && va < newsz
    ensures var a := Mmu(s.pages, d, va, write, true);
            a.Some? && a.value / PGSIZE < |s.pages| && WordAt(s.pages, a.value) == 0
  {
    hide Pte, SpaceInv, Mmu;
    MmuIs(s.end, s.pages, d, own, va, write, true);
    var e := Pte(s.pages, d, va / PGSIZE);
    assert ZeroPageAt(s.pages, e, own);
    SameFlags(e, 7, write, true);
    PhysicalParts(Ppn(e), va);
  }

  /** What was below oldsz is as it was. */
  lemma GrownBelow(s0: Mem, own0: Own, s: Mem, d: nat, own: Own, oldsz: Word, newsz: Word, va: Word, write: bool,
                   user: bool)
    requires Grown(s0.pages, s.pages, d, own, Pages(oldsz), Pages(newsz)) && va < oldsz
    requires SpaceInv(s.end, s.pages, d, own) && SpaceInv(s0.end, s0.pages, d, own0)
    ensures Mmu(s.pages, d, va, write, user) == Mmu(s0.pages, d, va, write, user)
  {
    hide Pte, SpaceInv, Mmu, ZeroPageAt;
    SpaceBounds(s0.end, s0.pages, d, own0);
    MmuIs(s.end, s.pages, d, own, va, write, user);
    MmuIs(s0.end, s0.pages, d, own0, va, write, user);
  }

  lemma GrownMore(m0: seq<Page>, s: Mem, d: nat, own: Own, lo: nat, vp: nat, s1: Mem, page: nat, s': Mem, own': Own)
    requires Grown(m0, s.pages, d, own, lo, vp) && vp < USER && page < |s'.pages| && SpaceInv(s'.end, s'.pages, d, own')
    requires SameTables(s.pages, d, s1.pages) && LeavesKept(s, own, s1, own) && LeavesKept(s1, own, s', own')
    requires forall x | 0 <= x < VPAGES ::
               Pte(s'.pages, d, x) == if x == vp then PGSIZE * page + 7 else Pte(s1.pages, d, x)
    requires !Present(Pte(s1.pages, d, vp)) && forall j | 0 <= j < 1024 :: s'.pages[page][j] == 0
    ensures Grown(m0, s'.pages, d, own', lo, vp + 1)
  {
    hide Pte, Ppn, Present;
    EntryParts(0, page, 7, PGSIZE * page + 7);
    assert LeafOwned(s'.pages, d, own', vp);
    forall x | lo <= x < vp + 1
      ensures !Present(Pte(m0, d, x)) && ZeroPageAt(s'.pages, Pte(s'.pages, d, x), own')
    {
      assert x < vp ==> ZeroPageAt(s.pages, Pte(s.pages, d, x), own);
    }
  }

  /** A growth given up: nothing is mapped from lo to hi, and no page is lost. */
  ghost predicate Undone(s0: Mem, own0: Own, held: set<nat>, d: nat, lo: nat, hi: nat, s: Mem, own: Own) {
    && Sound(s, d, own) && Outside(s0, own0, s) && d < |s0.pages|
    && (forall p: nat :: p in s.chain || p in own || p in held <==> p in s0.chain || p in own0)
    && (forall p | p in held :: p !in s.chain && p !in own)
    && (forall vp | 0 <= vp < VPAGES ::
          if lo <= vp < hi then !Present(Pte(s.pages, d, vp)) else Pte(s.pages, d, vp) == Pte(s0.pages, d, vp))
  }

  lemma UndoGrowth(s0: Mem, own0: Own, held: set<nat>, d: nat, lo: nat, vp: nat, hi: nat, s1: Mem, own1: Own, s: Mem)
    requires Building(s0, own0, held, d, s1, own1) && d < |s0.pages| == |s1.pages| && lo <= vp <= hi <= USER
    requires forall x | 0 <= x < VPAGES && !(lo <= x < vp) :: Pte(s1.pages, d, x) == Pte(s0.pages, d, x)
    requires Unmapping(s1, own1, d, lo, hi, s)
    ensures Undone(s0, own0, held, d, lo, hi, s, Drop(own1, lo, hi))
  {
    hide FreeInv, Pte, ByPage;
    ByPageFrees(s1.end, s1.pages, d, own1, lo, hi, s1.chain);
    assert forall p: nat :: p in s.chain || p in Drop(own1, lo, hi) <==> p in s1.chain || p in own1;
  }

  lemma UndoReturn(s0: Mem, own0: Own, p: nat, d: nat, lo: nat, hi: nat, s: Mem, own: Own, s': Mem)
    requires Undone(s0, own0, {p}, d, lo, hi, s, own) && Pushed(s, p, s') && FreeInv(s')
    ensures Undone(s0, own0, {}, d, lo, hi, s', own)
  {
    hide FreeInv, Pte;
    SpaceFrame(s.end, s.pages, d, own, s'.pages);
  }

  lemma UndoneFacts(s0: Mem, own0: Own, p: nat, d: nat, lo: nat, hi: nat, s: Mem, own: Own)
    requires Undone(s0, own0, {p}, d, lo, hi, s, own)
    ensures FreeInv(s) && p !in s.chain
  {
  }

  /** Give up at virtual page vp, with perhaps a page in hand. */
  method GiveUp(k: Machine, d: nat, oldsz: Word, newsz: Word, page: Option<nat>, ghost vp: nat, ghost s0: Mem,
                ghost own0: Own, ghost own: Own) returns (ghost own': Own)
    requires Building(s0, own0, if page.Some? then {page.value} else {}, d, k.Now(), own)
    requires oldsz < newsz < KERNBASE && Pages(oldsz) <= vp <= Pages(newsz)
    requires page.Some? ==> Usable(k.end, page.value)
    requires d < |s0.pages| == |k.mem|
    requires forall x | 0 <= x < VPAGES && !(Pages(oldsz) <= x < vp) :: Pte(k.mem, d, x) == Pte(s0.pages, d, x)
    modifies k
    ensures Undone(s0, own0, {}, d, Pages(oldsz), Pages(newsz), k.Now(), own')
  {
    hide FreeInv, SpaceInv, Pte, Usable, Unmapping, Undone, Building, Sound;
    ghost var held := if page.Some? then {page.value} else {};
    ghost var lo, hi := Pages(oldsz), Pages(newsz);
    BuildingFacts(s0, own0, held, d, k.Now(), own);
    var r;
    r, own' := Deallocuvm(k, d, newsz, oldsz, own);
    UndoGrowth(s0, own0, held, d, lo, vp, hi, old(k.Now()), own, k.Now());
    if page.Some? {
      ghost var s := k.Now();
      UndoneFacts(s0, own0, page.value, d, lo, hi, s, own');
      UsableIsFreeable(s, page.value);
      var ok := k.Kfree(Va(page.value));
      UndoReturn(s0, own0, page.value, d, lo, hi, s, own', k.Now());
    }
  }

  /** One turn of the loop of allocuvm. */
  method AllocOne(k: Machine, d: nat, vp: nat, ghost lo: nat, ghost s0: Mem, ghost own0: Own, ghost own: Own)
      returns (o: Outcome, page: Option<nat>, ghost own': Own)
    requires Building(s0, own0, {}, d, k.Now(), own) && vp < USER && Grown(s0.pages, k.mem, d, own, lo, vp)
    modifies k
    ensures d < |s0.pages| == |k.mem|
    ensures o == Panic ==> Present(Pte(s0.pages, d, vp))
    ensures o == Done ==> Building(s0, own0, {}, d, k.Now(), own') && Grown(s0.pages, k.mem, d, own', lo, vp + 1)
    ensures o == NoMemory ==>
              && Building(s0, own0, if page.Some? then {page.value} else {}, d, k.Now(), own')
              && (page.Some? ==> Usable(k.end, page.value))
              && forall x | 0 <= x < VPAGES && !(lo <= x < vp) :: Pte(k.mem, d, x) == Pte(s0.pages, d, x)
  {
    hide FreeInv, SpaceInv, Pte, Building, Usable, Sound, LeavesKept, ZeroPageAt;
    own' := own;
    ghost var s := k.Now();
    BuildingFacts(s0, own0, {}, d, s, own);
    page := HoldZero(k, d, s0, own0, own);
    if page.None? { return NoMemory, page, own'; }
    ghost var s1 := k.Now();
    o, own' := MapHeld(k, d, vp, page.value, PTE_W + PTE_U, s0, own0, own);
    BuildingFacts(s0, own0, if o == Done then {} else {page.value}, d, k.Now(), own');
    if o == Done {
      GrownMore(s0.pages, s, d, own, lo, vp, s1, page.value, k.Now(), own');
    }
  }

  lemma GrowthStart(s: Mem, d: nat, own: Own, lo: nat)
    requires Sound(s, d, own) && lo <= USER
    ensures Grown(s.pages, s.pages, d, own, lo, lo)
  {
    hide FreeInv, Pte;
  }

  /** allocuvm: zero pages from PGROUNDUP(oldsz) up to newsz; or, when memory runs out, none of them
      and no page lost. A panic means that a page in the range was mapped already. */
  method Allocuvm(k: Machine, d: nat, oldsz: Word, newsz: Word, ghost own: Own)
      returns (o: Outcome, r: Word, ghost own': Own)
    requires Sound(k.Now(), d, own)
    modifies k
    ensures newsz >= KERNBASE || newsz < oldsz ==>
              o == Done && r == (if newsz >= KERNBASE then 0 else oldsz) && own' == own && k.Now() == old(k.Now())
    ensures oldsz <= newsz < KERNBASE && o == Panic ==>
              exists vp :: Pages(oldsz) <= vp < Pages(newsz) && Present(Pte(old(k.mem), d, vp))
    ensures oldsz <= newsz < KERNBASE && o == Done ==>
              && r == newsz && Building(old(k.Now()), own, {}, d, k.Now(), own')
              && Grown(old(k.mem), k.mem, d, own', Pages(oldsz), Pages(newsz))
    ensures oldsz <= newsz < KERNBASE && o == NoMemory ==>
              r == 0 && Undone(old(k.Now()), own, {}, d, Pages(oldsz), Pages(newsz), k.Now(), own')
  {
    hide FreeInv, SpaceInv, Pte, Building, Grown, Undone, Usable;
    own' := own;
    if newsz >= KERNBASE { return Done, 0, own'; }
    if newsz < oldsz { return Done, oldsz, own'; }
    ghost var lo := Pages(oldsz);
    BuildingStart(k.Now(), d, own);
    GrowthStart(k.Now(), d, own, lo);
    var a := (oldsz + PGSIZE - 1) / PGSIZE * PGSIZE;
    ghost var vp := lo;
    while a < newsz
      invariant a == PGSIZE * vp && vp <= Pages(newsz)
      invariant Building(old(k.Now()), own, {}, d, k.Now(), own') && Grown(old(k.mem), k.mem, d, own', lo, vp)
    {
      var page;
      o, page, own' := AllocOne(k, d, a / PGSIZE, lo, old(k.Now()), own, own');
      if o == Panic { return o, 0, own'; }
      if o == NoMemory {
        own' := GiveUp(k, d, oldsz, newsz, page, vp, old(k.Now()), own, own');
        return o, 0, own';
      }
      a, vp := a + PGSIZE, vp + 1;
    }
    o, r := Done, newsz;
  }
}

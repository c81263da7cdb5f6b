/** Two-level page tables in physical memory, and which pages an address space owns: its page
    directory, its page tables, and the pages mapped below KERNBASE. */
module PageTable {
  import opened Basics
  import opened Kmem

  /** Virtual pages, and those below KERNBASE. */
  const VPAGES := 0x10_0000
  const USER := 0x8_0000

  /** What an owned page is for: the directory, the table of directory entry i, or virtual page vp. */
  datatype Place = Dir | Table(i: nat) | Leaf(vp: nat)

  type Own = map<nat, Place>

  predicate Present(w: Word) {
    w % 2 == 1
  }

  function Ppn(w: Word): nat {
    w / PGSIZE
  }

  /** What the processor asks of an entry: PTE_P, and PTE_W for a write and PTE_U for an access by the user. */
  predicate Allows(w: Word, write: bool, user: bool) {
    Present(w) && (write ==> w / 2 % 2 == 1) && (user ==> w / 4 % 2 == 1)
  }

  function Pde(m: seq<Page>, d: nat, i: nat): Word
    requires d < |m| && i < 1024
  {
    m[d][i]
  }

  /** The entry for virtual page vp; 0 if there is no table for it. */
  function Pte(m: seq<Page>, d: nat, vp: nat): Word
    requires d < |m| && vp < VPAGES
  {
    var e := Pde(m, d, vp / 1024);
    if Present(e) && Ppn(e) < |m| then m[Ppn(e)][vp % 1024] else 0
  }

  /** The physical address that an access to virtual address va reaches; None is a page fault. Both entries on the
      way must allow the access, also to the kernel, which runs with CR0_WP. */
  function Mmu(m: seq<Page>, d: nat, va: Word, write: bool, user: bool): Option<nat>
    requires d < |m|
  {
    var pde := m[d][va / 0x40_0000];
    if !Allows(pde, write, user) || Ppn(pde) >= |m| then None
    else
      var pte := m[Ppn(pde)][va / PGSIZE % 1024];
      if Allows(pte, write, user) then Some(PGSIZE * Ppn(pte) + va % PGSIZE) else None
  }

  // ---------------------------------------------------------------------------------------
  // The invariant
  // ---------------------------------------------------------------------------------------

  ghost predicate TableOwned(m: seq<Page>, d: nat, own: Own, i: nat)
    requires d < |m| && i < 1024
  {
    Present(Pde(m, d, i)) ==>
      Ppn(Pde(m, d, i)) in own && own[Ppn(Pde(m, d, i))] == Table(i) && Allows(Pde(m, d, i), true, true)
  }

  ghost predicate LeafOwned(m: seq<Page>, d: nat, own: Own, vp: nat)
    requires d < |m| && vp < USER
  {
    Present(Pte(m, d, vp)) ==> Ppn(Pte(m, d, vp)) in own && own[Ppn(Pte(m, d, vp))] == Leaf(vp)
  }

  ghost predicate PageOwned(end: nat, m: seq<Page>, d: nat, own: Own, p: nat)
    requires d < |m| && p in own
  {
    && Usable(end, p)
    && match own[p]
       case Dir => p == d
       case Table(i) => i < 1024 && Present(Pde(m, d, i)) && Ppn(Pde(m, d, i)) == p
       case Leaf(vp) => vp < USER && Present(Pte(m, d, vp)) && Ppn(Pte(m, d, vp)) == p
  }

  /** Every page that the address space refers to below KERNBASE or as a table is there once, and
      own says where. */
  ghost predicate SpaceInv(end: nat, m: seq<Page>, d: nat, own: Own) {
    && |m| == NPAGES && d < NPAGES && KERNBASE < end
    && d in own && own[d] == Dir
    && (forall i | 0 <= i < 1024 :: TableOwned(m, d, own, i))
    && (forall vp | 0 <= vp < USER :: LeafOwned(m, d, own, vp))
    && (forall p | p in own :: PageOwned(end, m, d, own, p))
  }

  /** In a space of ours the table entry alone decides what may be done at an address. */
  lemma MmuIs(end: nat, m: seq<Page>, d: nat, own: Own, va: Word, write: bool, user: bool)
    requires SpaceInv(end, m, d, own)
    ensures var e := Pte(m, d, va / PGSIZE);
            Mmu(m, d, va, write, user) == if Allows(e, write, user) then Some(PGSIZE * Ppn(e) + va % PGSIZE) else None
  {
    var i := va / 0x40_0000;
    assert i == va / PGSIZE / 1024 && TableOwned(m, d, own, i);
    if Present(Pde(m, d, i)) {
      assert PageOwned(end, m, d, own, Ppn(Pde(m, d, i)));
    }
  }

  /** The word at physical address pa. */
  function WordAt(m: seq<Page>, pa: nat): Word
    requires pa / PGSIZE < |m|
  {
    m[pa / PGSIZE][pa % PGSIZE / 4]
  }

  /** Entries with the same low bits allow the same. */
  lemma SameFlags(w: Word, w': Word, write: bool, user: bool)
    requires w % PGSIZE == w' % PGSIZE
    ensures Allows(w, write, user) == Allows(w', write, user)
  {
    EntryBits(w / PGSIZE, w % PGSIZE);
    EntryBits(w' / PGSIZE, w' % PGSIZE);
  }

  /** The parts of an entry. */
  lemma EntryBits(p: nat, flags: nat)
    requires flags < PGSIZE
    ensures var w := PGSIZE * p + flags;
            && w / PGSIZE == p && w % PGSIZE == flags && w % 2 == flags % 2
            && w / 2 % 2 == flags / 2 % 2 && w / 4 % 2 == flags / 4 % 2
  {
    var w := PGSIZE * p + flags;
    assert w / 2 == 2 * (1024 * p) + flags / 2;
    assert w / 4 == 2 * (512 * p) + flags / 4;
    assert w == 2 * (2048 * p) + flags;
    Parity(2048 * p, flags);
    Parity(1024 * p, flags / 2);
    Parity(512 * p, flags / 4);
  }

  lemma Parity(a: nat, x: nat)
    ensures (2 * a + x) % 2 == x % 2
  {
  }

  lemma PhysicalParts(p: nat, va: nat)
    ensures (PGSIZE * p + va % PGSIZE) / PGSIZE == p && (PGSIZE * p + va % PGSIZE) % PGSIZE == va % PGSIZE
  {
  }

  lemma SpaceBounds(end: nat, m: seq<Page>, d: nat, own: Own)
    requires SpaceInv(end, m, d, own)
    ensures d < |m| == NPAGES
  {
  }

  ghost predicate SameTables(m: seq<Page>, d: nat, m': seq<Page>) {
    && d < |m| == |m'|
    && (forall i | 0 <= i < 1024 :: Pde(m', d, i) == Pde(m, d, i))
    && (forall vp | 0 <= vp < VPAGES :: Pte(m', d, vp) == Pte(m, d, vp))
  }

  /** A space lives in its own pages: what happens elsewhere does not concern it. */
  lemma SpaceFrame(end: nat, m: seq<Page>, d: nat, own: Own, m': seq<Page>)
    requires SpaceInv(end, m, d, own) && |m'| == |m|
    requires forall p | 0 <= p < |m| && p in own && !own[p].Leaf? :: m'[p] == m[p]
    ensures SpaceInv(end, m', d, own) && SameTables(m, d, m')
  {
    forall vp | 0 <= vp < VPAGES ensures Pte(m', d, vp) == Pte(m, d, vp) {
      assert TableOwned(m, d, own, vp / 1024);
    }
    SameTablesInv(end, m, d, own, m');
  }

  lemma SameTablesInv(end: nat, m: seq<Page>, d: nat, own: Own, m': seq<Page>)
    requires SpaceInv(end, m, d, own) && SameTables(m, d, m')
    ensures SpaceInv(end, m', d, own)
  {
    hide Pte, Pde, Allows;
    forall i | 0 <= i < 1024 ensures TableOwned(m', d, own, i) {
      assert TableOwned(m, d, own, i);
    }
    forall vp | 0 <= vp < USER ensures LeafOwned(m', d, own, vp) {
      assert LeafOwned(m, d, own, vp);
    }
    forall p | p in own ensures PageOwned(end, m', d, own, p) {
      assert PageOwned(end, m, d, own, p);
    }
  }

  // ---------------------------------------------------------------------------------------
  // The steps
  // ---------------------------------------------------------------------------------------

  /** An empty directory. */
  lemma EmptySpace(end: nat, m: seq<Page>, d: nat)
    requires |m| == NPAGES && KERNBASE < end && Usable(end, d) && forall i | 0 <= i < 1024 :: m[d][i] == 0
    ensures SpaceInv(end, m, d, map[d := Dir])
    ensures forall vp | 0 <= vp < VPAGES :: Pte(m, d, vp) == 0
  {
  }

  /** walkpgdir links a zeroed page t in as the table of entry i. */
  ghost predicate TableAdded(m: seq<Page>, d: nat, i: nat, t: nat, m': seq<Page>) {
    && |m'| == |m| && d < |m| && t < |m| && i < 1024 && t != d
    && (forall j | 0 <= j < 1024 :: m'[t][j] == 0)
    && (forall l | 0 <= l < 1024 :: m'[d][l] == if l == i then PGSIZE * t + 7 else m[d][l])
    && (forall p | 0 <= p < |m| && p != t && p != d :: m'[p] == m[p])
  }

  lemma AddTablePtes(end: nat, m: seq<Page>, d: nat, own: Own, i: nat, t: nat, m': seq<Page>, vp: nat)
    requires SpaceInv(end, m, d, own) && TableAdded(m, d, i, t, m') && t !in own && vp < VPAGES
    requires !Present(Pde(m, d, i))
    ensures Pte(m', d, vp) == Pte(m, d, vp)
  {
    assert TableOwned(m, d, own, vp / 1024);
  }

  lemma AddTablePdes(m: seq<Page>, d: nat, i: nat, t: nat, m': seq<Page>)
    requires TableAdded(m, d, i, t, m')
    ensures Present(Pde(m', d, i)) && Ppn(Pde(m', d, i)) == t && Allows(Pde(m', d, i), true, true)
    ensures forall l | 0 <= l < 1024 && l != i :: Pde(m', d, l) == Pde(m, d, l)
  {
  }

  lemma AddTable(end: nat, m: seq<Page>, d: nat, own: Own, i: nat, t: nat, m': seq<Page>)
    requires SpaceInv(end, m, d, own) && TableAdded(m, d, i, t, m') && t !in own && Usable(end, t)
    requires !Present(Pde(m, d, i))
    ensures SpaceInv(end, m', d, own[t := Table(i)])
    ensures Present(Pde(m', d, i)) && Ppn(Pde(m', d, i)) == t
    ensures forall vp | 0 <= vp < VPAGES :: Pte(m', d, vp) == Pte(m, d, vp)
    ensures forall l | 0 <= l < 1024 && l != i :: Pde(m', d, l) == Pde(m, d, l)
  {
    hide Pte, Pde, Ppn, Present, Allows;
    var own' := own[t := Table(i)];
    AddTablePdes(m, d, i, t, m');
    forall vp | 0 <= vp < VPAGES ensures Pte(m', d, vp) == Pte(m, d, vp) {
      AddTablePtes(end, m, d, own, i, t, m', vp);
    }
    forall l | 0 <= l < 1024 ensures TableOwned(m', d, own', l) {
      assert TableOwned(m, d, own, l);
    }
    forall vp | 0 <= vp < USER ensures LeafOwned(m', d, own', vp) {
      assert LeafOwned(m, d, own, vp);
    }
    forall p | p in own' ensures PageOwned(end, m', d, own', p) {
      assert p in own ==> PageOwned(end, m, d, own, p);
    }
  }

  /** *pte = w for virtual page vp, whose table is there. */
  ghost predicate PteSet(m: seq<Page>, d: nat, vp: nat, w: Word, m': seq<Page>) {
    && |m'| == |m| && d < |m| && vp < VPAGES
    && var t := Ppn(Pde(m, d, vp / 1024));
    && Present(Pde(m, d, vp / 1024)) && t < |m|
    && m' == m[t := m[t][vp % 1024 := w]]
  }

  lemma SetPtes(end: nat, m: seq<Page>, d: nat, own: Own, vp: nat, w: Word, m': seq<Page>)
    requires SpaceInv(end, m, d, own) && PteSet(m, d, vp, w, m')
    ensures forall x | 0 <= x < VPAGES :: Pte(m', d, x) == if x == vp then w else Pte(m, d, x)
    ensures forall l | 0 <= l < 1024 :: Pde(m', d, l) == Pde(m, d, l)
    ensures m'[d] == m[d]
  {
    assert TableOwned(m, d, own, vp / 1024);
    forall x | 0 <= x < VPAGES ensures Pte(m', d, x) == if x == vp then w else Pte(m, d, x) {
      assert TableOwned(m, d, own, x / 1024);
    }
  }

  /** Above KERNBASE nothing is owned. */
  lemma SetKernel(end: nat, m: seq<Page>, d: nat, own: Own, vp: nat, w: Word, m': seq<Page>)
    requires SpaceInv(end, m, d, own) && PteSet(m, d, vp, w, m') && vp >= USER
    ensures SpaceInv(end, m', d, own)
  {
    hide Pte, Pde, Ppn, Present, Allows;
    SetPtes(end, m, d, own, vp, w, m');
    forall i | 0 <= i < 1024 ensures TableOwned(m', d, own, i) {
      assert TableOwned(m, d, own, i);
    }
    forall x | 0 <= x < USER ensures LeafOwned(m', d, own, x) {
      assert LeafOwned(m, d, own, x);
    }
    forall p | p in own ensures PageOwned(end, m', d, own, p) {
      assert PageOwned(end, m, d, own, p);
    }
  }

  lemma MapUser(end: nat, m: seq<Page>, d: nat, own: Own, vp: nat, w: Word, m': seq<Page>)
    requires SpaceInv(end, m, d, own) && PteSet(m, d, vp, w, m') && vp < USER
    requires !Present(Pte(m, d, vp)) && Present(w) && Ppn(w) !in own && Usable(end, Ppn(w))
    ensures SpaceInv(end, m', d, own[Ppn(w) := Leaf(vp)])
  {
    hide Pte, Pde, Ppn, Present, Allows;
    SetPtes(end, m, d, own, vp, w, m');
    var own' := own[Ppn(w) := Leaf(vp)];
    forall i | 0 <= i < 1024 ensures TableOwned(m', d, own', i) {
      assert TableOwned(m, d, own, i);
    }
    forall x | 0 <= x < USER ensures LeafOwned(m', d, own', x) {
      assert LeafOwned(m, d, own, x);
    }
    forall p | p in own' ensures PageOwned(end, m', d, own', p) {
      assert p in own ==> PageOwned(end, m, d, own, p);
    }
  }

  lemma UnmapUser(end: nat, m: seq<Page>, d: nat, own: Own, vp: nat, m': seq<Page>)
    requires SpaceInv(end, m, d, own) && PteSet(m, d, vp, 0, m') && vp < USER && Present(Pte(m, d, vp))
    ensures Ppn(Pte(m, d, vp)) in own && own[Ppn(Pte(m, d, vp))] == Leaf(vp)
    ensures SpaceInv(end, m', d, own - {Ppn(Pte(m, d, vp))})
  {
    hide Pte, Pde, Ppn, Allows;
    SetPtes(end, m, d, own, vp, 0, m');
    assert LeafOwned(m, d, own, vp);
    var own' := own - {Ppn(Pte(m, d, vp))};
    forall i | 0 <= i < 1024 ensures TableOwned(m', d, own', i) {
      assert TableOwned(m, d, own, i);
    }
    forall x | 0 <= x < USER ensures LeafOwned(m', d, own', x) {
      assert LeafOwned(m, d, own, x);
    }
    forall p | p in own' ensures PageOwned(end, m', d, own', p) {
      assert PageOwned(end, m, d, own, p);
    }
  }
}

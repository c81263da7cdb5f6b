/** The page allocator of xv6/kalloc.c: physical pages of 1024 words, and a free list that runs
    through the first word of the free pages. */
module Kmem {
  import opened Basics

  const PGSIZE := 4096
  const KERNBASE := 0x8000_0000
  const PHYSTOP := 0xE00_0000
  const NPAGES := 0xE000

  type Word = x: int | 0 <= x < 0x1_0000_0000

  type Page = p: seq<Word> | |p| == 1024 witness seq(1024, i => 0)

  /** Physical memory: the first address after the kernel image, the pages, the head of the free
      list, and the free pages in list order. */
  datatype Mem = Mem(end: nat, pages: seq<Page>, head: nat, chain: seq<nat>)

  /** The kernel address of physical page p. */
  function Va(p: nat): nat {
    KERNBASE + PGSIZE * p
  }

  /** Page p is above the kernel image and below PHYSTOP. */
  predicate Usable(end: nat, p: nat) {
    end <= Va(p) && p < NPAGES
  }

  ghost function Link(chain: seq<nat>, k: nat): nat {
    if k < |chain| then Va(chain[k]) else 0
  }

  /** The links from head on visit the pages of chain, each once. */
  ghost predicate FreeInv(s: Mem) {
    && |s.pages| == NPAGES && KERNBASE < s.end
    && (forall k | 0 <= k < |s.chain| :: Usable(s.end, s.chain[k]))
    && Distinct(s.chain) && s.head == Link(s.chain, 0)
    && (forall k | 0 <= k < |s.chain| :: Threaded(s.pages, s.chain, k))
  }

  /** Page k of the chain points to the next one. */
  ghost predicate Threaded(pages: seq<Page>, chain: seq<nat>, k: nat)
    requires k < |chain|
  {
    chain[k] < |pages| && pages[chain[k]][0] == Link(chain, k + 1)
  }

  lemma FreeBounds(s: Mem)
    requires FreeInv(s)
    ensures |s.pages| == NPAGES && KERNBASE < s.end && s.head == Link(s.chain, 0)
    ensures s.chain != [] ==> Usable(s.end, s.chain[0])
  {
  }

  /** Pages that are not free are the user's to change. */
  lemma FreeFrame(s: Mem, s': Mem)
    requires FreeInv(s) && s' == s.(pages := s'.pages) && |s'.pages| == |s.pages|
    requires forall p | 0 <= p < |s.pages| && p in s.chain :: s'.pages[p] == s.pages[p]
    ensures FreeInv(s')
  {
    hide Link, Distinct;
    forall k | 0 <= k < |s.chain| ensures Threaded(s'.pages, s.chain, k) {
      assert s.chain[k] in s.chain && Threaded(s.pages, s.chain, k);
    }
  }

  /** What kfree of page p does. */
  ghost predicate Pushed(s: Mem, p: nat, s': Mem) {
    && s'.end == s.end && s'.head == Va(p) && s'.chain == [p] + s.chain
    && p < |s.pages| == |s'.pages| && s'.pages == s.pages[p := s'.pages[p]]
  }

  lemma FreePush(s: Mem, p: nat, s': Mem)
    requires FreeInv(s) && Usable(s.end, p) && p !in s.chain && Pushed(s, p, s') && s'.pages[p][0] == s.head
    ensures FreeInv(s')
  {
    hide Va, Distinct;
    DistinctFront(p, s.chain);
    forall k | 0 <= k < |s'.chain| ensures Usable(s.end, s'.chain[k]) && Threaded(s'.pages, s'.chain, k) {
      if k > 0 {
        ThreadedPush(s, p, s', k);
      }
    }
  }

  lemma ThreadedPush(s: Mem, p: nat, s': Mem, k: nat)
    requires FreeInv(s) && p !in s.chain && Pushed(s, p, s') && 0 < k < |s'.chain|
    ensures Usable(s.end, s'.chain[k]) && Threaded(s'.pages, s'.chain, k)
  {
    hide Va, Distinct;
    assert s'.chain[k] == s.chain[k - 1] && s.chain[k - 1] in s.chain && Threaded(s.pages, s.chain, k - 1);
    assert Link(s'.chain, k + 1) == Link(s.chain, k);
  }

  /** What kalloc does when there is a free page. */
  ghost predicate Popped(s: Mem, s': Mem) {
    s.chain != [] && s'.end == s.end && s'.pages == s.pages && s'.chain == s.chain[1..]
  }

  lemma FreePop(s: Mem, s': Mem)
    requires FreeInv(s) && Popped(s, s') && s'.head == s.pages[s.chain[0]][0]
    ensures FreeInv(s') && s.chain[0] !in s'.chain
  {
    hide Va, Distinct;
    DistinctTail(s.chain);
    assert Threaded(s.pages, s.chain, 0);
    forall k | 0 <= k < |s'.chain| ensures Usable(s.end, s'.chain[k]) && Threaded(s.pages, s'.chain, k) {
      assert s'.chain[k] == s.chain[k + 1] && Threaded(s.pages, s.chain, k + 1);
    }
  }

  lemma FirstAndRest(chain: seq<nat>)
    requires chain != []
    ensures forall p :: p in chain <==> p == chain[0] || p in chain[1..]
  {
    assert chain == [chain[0]] + chain[1..];
  }

  /** The first page at or after kernel address v. */
  function RoundUp(v: nat): nat
    requires v >= KERNBASE
  {
    (v - KERNBASE + PGSIZE - 1) / PGSIZE
  }

  /** The page that kernel address v lies in. */
  function PageOf(v: nat): nat
    requires v >= KERNBASE
  {
    (v - KERNBASE) / PGSIZE
  }

  /** PGROUNDUP */
  function PgRoundUp(v: nat): nat {
    (v + PGSIZE - 1) / PGSIZE * PGSIZE
  }

  lemma RoundUpVa(v: nat)
    requires v >= KERNBASE
    ensures PgRoundUp(v) == Va(RoundUp(v)) && v <= Va(RoundUp(v))
  {
  }

  lemma VaPage(n: nat, vend: nat)
    requires vend >= KERNBASE
    ensures Va(n) >= KERNBASE && Va(n) % PGSIZE == 0 && PageOf(Va(n)) == n && Va(n + 1) == Va(n) + PGSIZE
    ensures n < PageOf(vend) <==> Va(n) + PGSIZE <= vend
    ensures n <= PageOf(vend) <==> Va(n) <= vend
  {
  }

  /** Pages lo up to hi in the order in which freerange leaves them. */
  ghost function Descending(lo: nat, hi: nat): seq<nat>
    requires lo <= hi
  {
    if lo == hi then [] else [hi - 1] + Descending(lo, hi - 1)
  }

  lemma {:induction false} DescendingRange(lo: nat, hi: nat)
    requires lo <= hi
    ensures forall p: nat :: p in Descending(lo, hi) <==> lo <= p < hi
  {
    if lo < hi { DescendingRange(lo, hi - 1); }
  }

  /** The pages from the rounded start to where the loop of freerange stops are those that lie in the range. */
  lemma WholePages(vstart: nat, vend: nat, n: nat)
    requires KERNBASE <= vstart && RoundUp(vstart) <= n && Va(n) + PGSIZE > vend
    requires n > RoundUp(vstart) ==> Va(n) <= vend
    ensures forall p: nat :: RoundUp(vstart) <= p < n <==>
              vstart <= 0x8000_0000 + 4096 * p && 0x8000_0000 + 4096 * p + 4096 <= vend
  {
  }

  class Machine {
    const end: nat
    var mem: seq<Page>
    var freelist: Word
    ghost var chain: seq<nat>

    ghost function Now(): Mem
      reads this
    {
      Mem(end, mem, freelist, chain)
    }

    /** false is a panic: the address is misaligned or outside the managed memory. A page that is
        free already must not be freed again, which the code does not notice. */
    method Kfree(v: Word) returns (ok: bool)
      requires FreeInv(Now())
      requires v >= KERNBASE && v % PGSIZE == 0 ==> PageOf(v) !in chain
      modifies this
      ensures ok <==> v % PGSIZE == 0 && end <= v < KERNBASE + PHYSTOP
      ensures FreeInv(Now())
      ensures if ok then Pushed(old(Now()), PageOf(v), Now()) else Now() == old(Now())
      ensures ok ==> forall j | 1 <= j < 1024 :: mem[PageOf(v)][j] == 0x0101_0101
    {
      hide FreeInv;
      FreeBounds(Now());
      if v % PGSIZE != 0 || v < end || v - KERNBASE >= PHYSTOP {
        return false;
      }
      var p := (v - KERNBASE) / PGSIZE;
      assert v == Va(p);
      var page: Page := seq(1024, i => 0x0101_0101);
      mem := mem[p := page[0 := freelist]];
      freelist := v;
      chain := [p] + chain;
      FreePush(old(Now()), p, Now());
      ok := true;
    }

    /** The first page of the list; 0 if there is none. */
    method Kalloc() returns (v: Word)
      requires FreeInv(Now())
      modifies `freelist, `chain
      ensures FreeInv(Now())
      ensures v == 0 <==> old(chain) == []
      ensures v == 0 ==> Now() == old(Now())
      ensures v != 0 ==> v == Va(old(chain)[0]) && Popped(old(Now()), Now()) && old(chain)[0] !in chain
    {
      hide FreeInv;
      FreeBounds(Now());
      v := freelist;
      if v != 0 {
        freelist := mem[(v - KERNBASE) / PGSIZE][0];
        chain := chain[1..];
        FreePop(old(Now()), Now());
      }
    }

    /** Every whole page between the two addresses, which are in the managed memory, becomes free. */
    method Freerange(vstart: nat, vend: nat)
      requires FreeInv(Now()) && KERNBASE <= end <= vstart <= vend <= KERNBASE + PHYSTOP
      requires forall p | p in chain :: !(vstart <= Va(p) < vend)
      modifies this
      ensures FreeInv(Now())
      ensures var lo, hi := RoundUp(vstart), PageOf(vend);
              chain == if lo < hi then Descending(lo, hi) + old(chain) else old(chain)
      ensures forall p: nat :: p in chain <==>
                p in old(chain) || (vstart <= 0x8000_0000 + 4096 * p && 0x8000_0000 + 4096 * p + 4096 <= vend)
    {
      hide FreeInv, Va, RoundUp, PageOf, PgRoundUp;
      ghost var lo := RoundUp(vstart);
      var p := PgRoundUp(vstart);
      RoundUpVa(vstart);
      ghost var n := lo;
      assert chain == Descending(lo, n) + old(chain);
      while p + PGSIZE <= vend
        invariant lo <= n && p == Va(n) && vstart <= p && FreeInv(Now())
        invariant chain == Descending(lo, n) + old(chain) && (n > lo ==> p <= vend)
      {
        VaPage(n, vend);
        DescendingRange(lo, n);
        assert n !in chain;
        var ok := Kfree(p);
        n := n + 1;
        p := p + PGSIZE;
        assert chain == [n - 1] + (Descending(lo, n - 1) + old(chain));
      }
      VaPage(n, vend);
      DescendingRange(lo, n);
      WholePages(vstart, vend, n);
    }
  }
}

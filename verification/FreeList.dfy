/** The free list of the user-level allocator (xv6/umalloc.c) as a value: header cells in
    memory, the circular list through them, and the blocks handed out to clients. Addresses
    and sizes count units of sizeof(Header). */
module FreeList {

  datatype Header = Header(ptr: int, size: int)
  type Memory = map<int, Header>

  /** cycle lists the free blocks in list order starting from base; used maps each block in a
      client's hands to its units; heap is the set of units obtained from sbrk. */
  datatype State = State(mem: Memory, base: int, cycle: seq<int>, used: map<int, int>, heap: set<int>)

  // ---------------------------------------------------------------------------------------
  // The list
  // ---------------------------------------------------------------------------------------

  predicate Sorted(s: seq<int>) {
    forall i, j | 0 <= i < j < |s| :: s[i] < s[j]
  }

  function Next(cycle: seq<int>, i: nat): nat {
    if i + 1 < |cycle| then i + 1 else 0
  }

  predicate Linked(mem: Memory, cycle: seq<int>, i: nat) {
    i < |cycle| && cycle[i] in mem && mem[cycle[i]].ptr == cycle[Next(cycle, i)]
  }

  /** One address-ordered cycle through base, which is its lowest node and has no units. */
  ghost predicate Ring(mem: Memory, base: int, cycle: seq<int>) {
    && |cycle| >= 1 && cycle[0] == base
    && Sorted(cycle)
    && (forall b | b in cycle :: b in mem)
    && (forall i | 0 <= i < |cycle| :: Linked(mem, cycle, i))
    && base in mem && mem[base].size == 0
    && (forall b | b in cycle && b != base :: mem[b].size >= 1)
  }

  /** r is s with x put at position k. */
  ghost predicate Inserted(s: seq<int>, k: nat, x: int, r: seq<int>) {
    && k <= |s| && |r| == |s| + 1 && r[k] == x
    && (forall i | 0 <= i < k :: r[i] == s[i])
    && (forall i | k < i < |r| :: r[i] == s[i - 1])
  }

  lemma InsertedMembers(s: seq<int>, k: nat, x: int, r: seq<int>)
    requires Inserted(s, k, x, r)
    ensures forall y :: y in r <==> y in s || y == x
  {
    assert r == s[..k] + [x] + s[k..];
    assert s == s[..k] + s[k..];
  }

  lemma InsertedSorted(s: seq<int>, k: nat, x: int, r: seq<int>)
    requires Inserted(s, k, x, r) && Sorted(s)
    requires (k > 0 ==> s[k - 1] < x) && (k < |s| ==> x < s[k])
    ensures Sorted(r)
  {
  }

  lemma RemovedSorted(s: seq<int>, k: nat, x: int, r: seq<int>)
    requires Inserted(s, k, x, r) && Sorted(r)
    ensures Sorted(s) && x !in s
    ensures forall y :: y in r <==> y in s || y == x
  {
    InsertedMembers(s, k, x, r);
    assert forall i | 0 <= i < |s| :: s[i] == r[if i < k then i else i + 1];
  }

  /** Putting node x into a ring, or taking it out when read backwards: the links of r in mem'
      are those of s in mem but for x and its predecessor. */
  lemma RelinkInsert(mem: Memory, mem': Memory, s: seq<int>, k: nat, x: int, r: seq<int>)
    requires Inserted(s, k, x, r) && 1 <= k && Sorted(r)
    requires forall i | 0 <= i < |s| :: Linked(mem, s, i)
    requires s[k - 1] in s && forall b | b in s :: b in mem
    requires x in mem' && s[k - 1] in mem'
    requires mem'[x].ptr == mem[s[k - 1]].ptr && mem'[s[k - 1]].ptr == x
    requires forall b | b in s && b != s[k - 1] :: b in mem' && mem'[b].ptr == mem[b].ptr
    ensures forall i | 0 <= i < |r| :: Linked(mem', r, i)
  {
    forall i | 0 <= i < |r| ensures Linked(mem', r, i) {
      if i == k || i == k - 1 {
        assert Linked(mem, s, k - 1);
      } else {
        var j := if i < k then i else i - 1;
        assert Linked(mem, s, j) && s[j] in s && s[j] == r[i] && r[i] != r[k - 1];
      }
    }
  }

  lemma RelinkRemove(mem: Memory, mem': Memory, s: seq<int>, k: nat, x: int, r: seq<int>)
    requires Inserted(s, k, x, r) && 1 <= k && Sorted(r)
    requires forall i | 0 <= i < |r| :: Linked(mem, r, i)
    requires x in mem && forall b | b in s :: b in mem
    requires s[k - 1] in mem' && mem'[s[k - 1]].ptr == mem[x].ptr
    requires forall b | b in s && b != s[k - 1] :: b in mem' && mem'[b].ptr == mem[b].ptr
    ensures forall i | 0 <= i < |s| :: Linked(mem', s, i)
  {
    forall i | 0 <= i < |s| ensures Linked(mem', s, i) {
      if i == k - 1 {
        assert Linked(mem, r, k);
      } else {
        var j := if i < k then i else i + 1;
        assert Linked(mem, r, j) && s[i] in s && s[i] == r[j] && r[j] != r[k - 1];
      }
    }
  }

  // ---------------------------------------------------------------------------------------
  // The blocks
  // ---------------------------------------------------------------------------------------

  /** The blocks are disjoint, and together they are exactly the heap. */
  ghost predicate Partition(heap: set<int>, blocks: map<int, int>) {
    Within(heap, blocks) && Disjoint(blocks) && Covers(blocks, heap)
  }

  ghost predicate Within(heap: set<int>, blocks: map<int, int>) {
    && (forall b | b in blocks :: blocks[b] >= 1)
    && (forall b, u | b in blocks && b <= u < b + blocks[b] :: u in heap)
  }

  ghost predicate Disjoint(blocks: map<int, int>) {
    forall b, c | b in blocks && c in blocks && b < c :: b + blocks[b] <= c
  }

  ghost predicate Covers(blocks: map<int, int>, heap: set<int>) {
    forall u | u in heap :: Covered(blocks, u)
  }

  ghost predicate Covered(blocks: map<int, int>, u: int) {
    exists b :: b in blocks && b <= u < b + blocks[b]
  }

  lemma CoveredBy(blocks: map<int, int>, b: int, u: int)
    requires b in blocks && b <= u < b + blocks[b]
    ensures Covered(blocks, u)
  {
  }

  lemma PartitionMerge(heap: set<int>, blocks: map<int, int>, b: int, c: int)
    requires Partition(heap, blocks) && b in blocks && c in blocks && b + blocks[b] == c
    ensures Partition(heap, (blocks - {c})[b := blocks[b] + blocks[c]])
  {
    hide Disjoint, Covers;
    MergeWithin(heap, blocks, b, c);
    MergeDisjoint(heap, blocks, b, c);
    MergeCovers(heap, blocks, b, c);
  }

  lemma MergeWithin(heap: set<int>, blocks: map<int, int>, b: int, c: int)
    requires Within(heap, blocks) && b in blocks && c in blocks && b + blocks[b] == c
    ensures Within(heap, (blocks - {c})[b := blocks[b] + blocks[c]])
  {
  }

  lemma MergeDisjoint(heap: set<int>, blocks: map<int, int>, b: int, c: int)
    requires Within(heap, blocks) && Disjoint(blocks) && b in blocks && c in blocks && b + blocks[b] == c
    ensures Disjoint((blocks - {c})[b := blocks[b] + blocks[c]])
  {
  }

  lemma MergeCovers(heap: set<int>, blocks: map<int, int>, b: int, c: int)
    requires Covers(blocks, heap) && b in blocks && c in blocks && b + blocks[b] == c && blocks[b] >= 1
             && blocks[c] >= 1
    ensures Covers((blocks - {c})[b := blocks[b] + blocks[c]], heap)
  {
    hide Covered;
    var after := (blocks - {c})[b := blocks[b] + blocks[c]];
    forall u | u in heap ensures Covered(after, u) {
      var x := Block(blocks, u);
      CoveredBy(after, if x == c then b else x, u);
    }
  }

  ghost function Block(blocks: map<int, int>, u: int): (b: int)
    requires Covered(blocks, u)
    ensures b in blocks && b <= u < b + blocks[b]
  {
    var b :| b in blocks && b <= u < b + blocks[b];
    b
  }

  lemma PartitionSplit(heap: set<int>, blocks: map<int, int>, b: int, n: int)
    requires Partition(heap, blocks) && b in blocks && 1 <= n < blocks[b]
    ensures b + blocks[b] - n !in blocks
    ensures Partition(heap, blocks[b := blocks[b] - n][b + blocks[b] - n := n])
  {
    SplitDisjoint(heap, blocks, b, n);
    hide Within, Disjoint, Covers;
    SplitWithin(heap, blocks, b, n);
    SplitCovers(heap, blocks, b, n);
  }

  lemma SplitDisjoint(heap: set<int>, blocks: map<int, int>, b: int, n: int)
    requires Within(heap, blocks) && Disjoint(blocks) && b in blocks && 1 <= n < blocks[b]
    ensures b + blocks[b] - n !in blocks
    ensures Disjoint(blocks[b := blocks[b] - n][b + blocks[b] - n := n])
  {
  }

  lemma SplitWithin(heap: set<int>, blocks: map<int, int>, b: int, n: int)
    requires Within(heap, blocks) && b in blocks && 1 <= n < blocks[b]
    ensures Within(heap, blocks[b := blocks[b] - n][b + blocks[b] - n := n])
  {
  }

  lemma SplitCovers(heap: set<int>, blocks: map<int, int>, b: int, n: int)
    requires Covers(blocks, heap) && b in blocks && 1 <= n < blocks[b] && b + blocks[b] - n !in blocks
    ensures Covers(blocks[b := blocks[b] - n][b + blocks[b] - n := n], heap)
  {
    hide Covered;
    var c := b + blocks[b] - n;
    var after := blocks[b := blocks[b] - n][c := n];
    forall u | u in heap ensures Covered(after, u) {
      var x := Block(blocks, u);
      CoveredBy(after, if x == b && u >= c then c else x, u);
    }
  }

  lemma PartitionExtend(heap: set<int>, blocks: map<int, int>, b: int, n: int, more: set<int>)
    requires Partition(heap, blocks) && n >= 1
    requires forall u :: u in more <==> b <= u < b + n
    requires more !! heap
    ensures b !in blocks
    ensures Partition(heap + more, blocks[b := n])
  {
    assert b in more && b !in blocks;
    hide Covers, Covered;
    ExtendDisjoint(heap, blocks, b, n, more);
    ExtendCovers(heap, blocks, b, n, more);
  }

  lemma ExtendDisjoint(heap: set<int>, blocks: map<int, int>, b: int, n: int, more: set<int>)
    requires Within(heap, blocks) && Disjoint(blocks) && n >= 1 && b !in blocks
    requires forall u :: u in more <==> b <= u < b + n
    requires more !! heap
    ensures Disjoint(blocks[b := n])
  {
    forall x | x in blocks ensures if x < b then x + blocks[x] <= b else b + n <= x {
      assert x in heap;
      assert x < b < x + blocks[x] ==> b in heap;
    }
  }

  lemma ExtendCovers(heap: set<int>, blocks: map<int, int>, b: int, n: int, more: set<int>)
    requires Covers(blocks, heap) && n >= 1 && b !in blocks
    requires forall u :: u in more <==> b <= u < b + n
    ensures Covers(blocks[b := n], heap + more)
  {
    hide Covered;
    var after := blocks[b := n];
    forall u | u in heap + more ensures Covered(after, u) {
      CoveredBy(after, if u in more then b else Block(blocks, u), u);
    }
  }

  /** blocks holds the free and the used blocks with their units. */
  ghost predicate IsBlocks(s: State, blocks: map<int, int>) {
    && (forall b :: b in blocks <==> (b in s.cycle && b != s.base) || b in s.used)
    && (forall b | b in blocks :: b in s.mem && blocks[b] == s.mem[b].size)
    && (forall b | b in s.used :: b !in s.cycle && b in s.mem && s.mem[b].size == s.used[b])
  }

  ghost function Blocks(s: State): (blocks: map<int, int>)
    requires forall b | b in s.cycle :: b in s.mem
  {
    (map b | b in s.cycle && b != s.base :: s.mem[b].size) + s.used
  }

  lemma BlocksAre(s: State, blocks: map<int, int>)
    requires (forall b | b in s.cycle :: b in s.mem) && IsBlocks(s, blocks)
    ensures Blocks(s) == blocks
  {
    var mine := Blocks(s);
    assert forall b :: b in mine <==> b in blocks;
    forall b | b in blocks ensures mine[b] == blocks[b] {
      assert b in s.used ==> mine[b] == s.used[b];
    }
    assert mine.Keys == blocks.Keys;
  }

  ghost predicate Inv(s: State) {
    && Ring(s.mem, s.base, s.cycle)
    && (forall u | u in s.heap :: s.base < u)
    && IsBlocks(s, Blocks(s))
    && Partition(s.heap, Blocks(s))
  }

  /** Free block i does not touch the next one. */
  predicate Gap(s: State, i: nat) {
    i + 1 < |s.cycle| && s.cycle[i] in s.mem ==> s.cycle[i] + s.mem[s.cycle[i]].size < s.cycle[i + 1]
  }

  /** What holds between calls. */
  ghost predicate Valid(s: State) {
    Inv(s) && forall i | 0 <= i < |s.cycle| :: Gap(s, i)
  }

  // ---------------------------------------------------------------------------------------
  // The four changes that free and malloc are made of
  // ---------------------------------------------------------------------------------------

  /** Block bp goes back on the list after node t, without coalescing. */
  ghost predicate IsInsert(s: State, t: nat, bp: int, s': State) {
    && t < |s.cycle| && s.cycle[t] in s.mem && bp in s.used && bp in s.mem
    && Inserted(s.cycle, t + 1, bp, s'.cycle)
    && s'.mem == s.mem[bp := s.mem[bp].(ptr := s.mem[s.cycle[t]].ptr)][s.cycle[t] := s.mem[s.cycle[t]].(ptr := bp)]
    && s'.base == s.base && s'.heap == s.heap && s'.used == s.used - {bp}
  }

  lemma InsertParts(s: State, t: nat, bp: int, s': State)
    requires Sorted(s.cycle) && IsInsert(s, t, bp, s') && (t + 1 < |s.cycle| ==> bp < s.cycle[t + 1]) && s.cycle[t] < bp
    ensures t < |s.cycle| && s.cycle[t] in s.cycle && s.cycle[t] in s.mem && bp in s.mem
    ensures Inserted(s.cycle, t + 1, bp, s'.cycle) && s'.base == s.base && s'.cycle[0] == s.cycle[0] && |s'.cycle| >= 1
    ensures bp !in s.cycle
  {
    InsertedSorted(s.cycle, t + 1, bp, s'.cycle);
  }

  /** The headers after the insertion: two links and no size have changed. */
  lemma InsertMemory(s: State, t: nat, bp: int, s': State)
    requires IsInsert(s, t, bp, s') && bp !in s.cycle && s.cycle[t] in s.cycle
    ensures bp in s'.mem && s'.mem[bp].ptr == s.mem[s.cycle[t]].ptr && s'.mem[bp].size == s.mem[bp].size
    ensures s.cycle[t] in s'.mem && s'.mem[s.cycle[t]].ptr == bp
    ensures forall b | b in s.mem :: b in s'.mem && s'.mem[b].size == s.mem[b].size
    ensures forall b | b in s.cycle && b in s.mem && b != s.cycle[t] :: s'.mem[b].ptr == s.mem[b].ptr
  {
  }

  lemma InsertRing(s: State, t: nat, bp: int, s': State)
    requires Ring(s.mem, s.base, s.cycle) && IsInsert(s, t, bp, s') && s.mem[bp].size >= 1
    requires s.cycle[t] < bp && (t + 1 < |s.cycle| ==> bp < s.cycle[t + 1])
    ensures Ring(s'.mem, s'.base, s'.cycle)
  {
    hide Linked, Sorted, Inserted, IsInsert;
    InsertParts(s, t, bp, s');
    InsertedMembers(s.cycle, t + 1, bp, s'.cycle);
    InsertedSorted(s.cycle, t + 1, bp, s'.cycle);
    InsertMemory(s, t, bp, s');
    RelinkInsert(s.mem, s'.mem, s.cycle, t + 1, bp, s'.cycle);
  }

  lemma InsertInv(s: State, t: nat, bp: int, s': State)
    requires Inv(s) && IsInsert(s, t, bp, s')
    requires s.cycle[t] < bp && (t + 1 < |s.cycle| ==> bp < s.cycle[t + 1])
    ensures Inv(s') && Blocks(s') == Blocks(s)
  {
    assert bp in Blocks(s) && Blocks(s)[bp] == s.mem[bp].size;
    InsertRing(s, t, bp, s');
    InsertedMembers(s.cycle, t + 1, bp, s'.cycle);
    SameBlocks(s, s');
  }

  lemma SameBlocks(s: State, s': State)
    requires forall b | b in s.cycle :: b in s.mem
    requires forall b | b in s'.cycle :: b in s'.mem
    requires IsBlocks(s, Blocks(s)) && s'.base == s.base
    requires forall b ::
        (b in s'.cycle && b != s'.base) || b in s'.used <==> (b in s.cycle && b != s.base) || b in s.used
    requires forall b | b in s.mem && b in s'.mem :: s'.mem[b].size == s.mem[b].size
    requires forall b | b in s'.used :: b in s.used && b !in s'.cycle && b in s'.mem && s'.used[b] == s.used[b]
    ensures Blocks(s') == Blocks(s) && IsBlocks(s', Blocks(s'))
  {
    var blocks, blocks' := Blocks(s), Blocks(s');
    assert forall b :: b in blocks' <==> b in blocks;
    assert forall b | b in blocks :: blocks'[b] == blocks[b];
  }

  /** Node j + 1, which node j touches, is absorbed by node j. */
  ghost predicate IsMerge(s: State, j: nat, s': State) {
    && j + 1 < |s.cycle| && s.cycle[j] in s.mem && s.cycle[j + 1] in s.mem
    && Inserted(s'.cycle, j + 1, s.cycle[j + 1], s.cycle)
    && s'.mem == s.mem[s.cycle[j] := Header(s.mem[s.cycle[j + 1]].ptr,
        s.mem[s.cycle[j]].size + s.mem[s.cycle[j + 1]].size)]
    && s'.base == s.base && s'.heap == s.heap && s'.used == s.used
  }

  lemma MergeRing(s: State, j: nat, s': State)
    requires Ring(s.mem, s.base, s.cycle) && IsMerge(s, j, s') && 1 <= j
    ensures Ring(s'.mem, s'.base, s'.cycle)
  {
    assert s.cycle[j] in s.cycle && s.cycle[j + 1] in s.cycle && s.cycle[j] != s.base;
    RemovedSorted(s'.cycle, j + 1, s.cycle[j + 1], s.cycle);
    RelinkRemove(s.mem, s'.mem, s'.cycle, j + 1, s.cycle[j + 1], s.cycle);
  }

  lemma MergeInv(s: State, j: nat, s': State)
    requires Inv(s) && IsMerge(s, j, s') && 1 <= j
    requires s.cycle[j] + s.mem[s.cycle[j]].size == s.cycle[j + 1]
    ensures Inv(s')
  {
    hide Partition, IsBlocks, Blocks, Linked;
    var b, c := s.cycle[j], s.cycle[j + 1];
    assert b in s.cycle && c in s.cycle && b != s.base && c != s.base && b != c;
    RemovedSorted(s'.cycle, j + 1, c, s.cycle);
    MergeRing(s, j, s');
    hide Sorted, Inserted;
    MergeBlocks(s, s', b, c);
  }

  lemma MergeBlocks(s: State, s': State, b: int, c: int)
    requires forall x | x in s.cycle :: x in s.mem
    requires forall x | x in s'.cycle :: x in s'.mem
    requires IsBlocks(s, Blocks(s)) && b in s.cycle && c in s.cycle && b != s.base && c != s.base && b != c
    requires s'.base == s.base && s'.used == s.used && c !in s'.cycle
    requires s'.mem == s.mem[b := Header(s.mem[c].ptr, s.mem[b].size + s.mem[c].size)]
    requires forall y :: y in s.cycle <==> y in s'.cycle || y == c
    requires Partition(s.heap, Blocks(s)) && b + s.mem[b].size == c && s'.heap == s.heap
    ensures Partition(s'.heap, Blocks(s')) && IsBlocks(s', Blocks(s'))
  {
    hide Partition;
    PartitionMerge(s.heap, Blocks(s), b, c);
    assert Blocks(s') == (Blocks(s) - {c})[b := Blocks(s)[b] + Blocks(s)[c]];
  }

  /** Node j leaves the list whole and goes to a client. */
  ghost predicate IsTake(s: State, j: nat, s': State) {
    && 1 <= j < |s.cycle| && s.cycle[j - 1] in s.mem && s.cycle[j] in s.mem
    && Inserted(s'.cycle, j, s.cycle[j], s.cycle)
    && s'.mem == s.mem[s.cycle[j - 1] := s.mem[s.cycle[j - 1]].(ptr := s.mem[s.cycle[j]].ptr)]
    && s'.base == s.base && s'.heap == s.heap && s'.used == s.used[s.cycle[j] := s.mem[s.cycle[j]].size]
  }

  lemma TakeInv(s: State, j: nat, s': State)
    requires Inv(s) && IsTake(s, j, s')
    ensures Inv(s') && Blocks(s') == Blocks(s)
  {
    var x := s.cycle[j];
    assert x in s.cycle && s.cycle[j - 1] in s.cycle && x != s.base;
    hide Partition;
    TakeRing(s, j, s');
    RemovedSorted(s'.cycle, j, x, s.cycle);
    TakeBlocks(s, s', s.cycle[j - 1], x);
  }

  lemma TakeRing(s: State, j: nat, s': State)
    requires Ring(s.mem, s.base, s.cycle) && IsTake(s, j, s')
    ensures Ring(s'.mem, s'.base, s'.cycle)
  {
    assert s.cycle[j] in s.cycle && s.cycle[j - 1] in s.cycle && s.cycle[j] != s.base;
    RemovedSorted(s'.cycle, j, s.cycle[j], s.cycle);
    RelinkRemove(s.mem, s'.mem, s'.cycle, j, s.cycle[j], s.cycle);
  }

  lemma TakeBlocks(s: State, s': State, b: int, c: int)
    requires forall x | x in s.cycle :: x in s.mem
    requires forall x | x in s'.cycle :: x in s'.mem
    requires IsBlocks(s, Blocks(s)) && b in s.cycle && c in s.cycle && c != s.base
    requires s'.base == s.base && s'.used == s.used[c := s.mem[c].size] && c !in s'.cycle
    requires s'.mem == s.mem[b := s.mem[b].(ptr := s.mem[c].ptr)]
    requires forall y :: y in s.cycle <==> y in s'.cycle || y == c
    ensures Blocks(s') == Blocks(s) && IsBlocks(s', Blocks(s'))
  {
  }

  /** The last n units of node j go to a client. */
  ghost predicate IsSplit(s: State, j: nat, n: int, s': State) {
    && 1 <= j < |s.cycle| && s.cycle[j] in s.mem && 1 <= n < s.mem[s.cycle[j]].size
    && var p := s.cycle[j];
    && var q := p + s.mem[p].size - n;
    && q in s'.mem && s'.mem[q].size == n
    && (forall b | b != q :: (b in s'.mem <==> b in s.mem))
    && (forall b | b in s.mem && b != p && b != q :: s'.mem[b] == s.mem[b])
    && s'.mem[p] == s.mem[p].(size := s.mem[p].size - n)
    && s'.cycle == s.cycle && s'.base == s.base && s'.heap == s.heap && s'.used == s.used[q := n]
  }

  /** An address inside a free block is no block's address. */
  lemma InsideFree(s: State, p: int, q: int)
    requires Inv(s) && p in s.cycle && p != s.base && p < q < p + s.mem[p].size
    ensures p in Blocks(s) && q !in Blocks(s) && q !in s.cycle && s.base < q
  {
    assert p in Blocks(s) && Blocks(s)[p] == s.mem[p].size;
    assert q in s.heap;
  }

  lemma SplitInv(s: State, j: nat, n: int, s': State)
    requires Inv(s) && IsSplit(s, j, n, s')
    ensures Inv(s') && s.cycle[j] + s.mem[s.cycle[j]].size - n !in s.used
  {
    var p := s.cycle[j];
    assert p in s.cycle && p != s.base;
    var q := p + s.mem[p].size - n;
    hide Partition, Linked, Sorted;
    InsideFree(s, p, q);
    SameLinks(s, s');
    SplitBlocks(s, p, q, n, s');
  }

  lemma SameLinks(s: State, s': State)
    requires Ring(s.mem, s.base, s.cycle) && s'.cycle == s.cycle && s'.base == s.base
    requires forall b | b in s.cycle :: b in s'.mem && s'.mem[b].ptr == s.mem[b].ptr
    requires s'.mem[s.base].size == 0 && forall b | b in s.cycle && b != s.base :: s'.mem[b].size >= 1
    ensures Ring(s'.mem, s'.base, s'.cycle)
  {
    forall i | 0 <= i < |s'.cycle| ensures Linked(s'.mem, s'.cycle, i) {
      assert Linked(s.mem, s.cycle, i) && s.cycle[i] in s.cycle;
    }
  }

  lemma SplitBlocks(s: State, p: int, q: int, n: int, s': State)
    requires forall b | b in s.cycle :: b in s.mem
    requires forall b | b in s'.cycle :: b in s'.mem
    requires IsBlocks(s, Blocks(s)) && p in s.cycle && p != s.base && p in s'.mem && q !in Blocks(s) && q != s.base
             && p != q
    requires q in s'.mem && s'.mem[q].size == n && s'.mem[p].size == s.mem[p].size - n
    requires forall b | b in s.mem && b != p && b != q :: b in s'.mem && s'.mem[b] == s.mem[b]
    requires s'.cycle == s.cycle && s'.base == s.base && s'.used == s.used[q := n]
    requires Partition(s.heap, Blocks(s)) && q == p + s.mem[p].size - n && 1 <= n < s.mem[p].size && s'.heap == s.heap
    ensures Partition(s'.heap, Blocks(s')) && IsBlocks(s', Blocks(s'))
  {
    hide Partition, Blocks;
    PartitionSplit(s.heap, Blocks(s), p, n);
    BlocksAre(s', Blocks(s)[p := Blocks(s)[p] - n][q := n]);
  }

  lemma NodesInHeap(s: State)
    requires Inv(s)
    ensures forall b | b in s.cycle && b != s.base :: b in s.heap
  {
    forall b | b in s.cycle && b != s.base ensures b in s.heap {
      assert b in Blocks(s) && b <= b < b + Blocks(s)[b];
    }
  }

  function Units(b: int, n: int): (r: set<int>)
    ensures forall u :: u in r <==> b <= u < b + n
    decreases if n <= 0 then 0 else n
  {
    if n <= 0 then {} else Units(b, n - 1) + {b + n - 1}
  }

  /** sbrk adds the units of more, which become one block of n units at b, in morecore's hands. */
  ghost predicate IsExtend(s: State, b: int, n: int, s': State) {
    && n >= 1 && s.base < b && (forall u | b <= u < b + n :: u !in s.heap)
    && b in s'.mem && s'.mem[b].size == n
    && (forall x | x != b :: (x in s'.mem <==> x in s.mem))
    && (forall x | x in s.mem && x != b :: s'.mem[x] == s.mem[x])
    && s'.cycle == s.cycle && s'.base == s.base && s'.used == s.used[b := n]
    && s'.heap == s.heap + Units(b, n)
  }

  lemma ExtendInv(s: State, b: int, n: int, s': State)
    requires Inv(s) && IsExtend(s, b, n, s')
    ensures Inv(s') && b !in s.used && b !in s.cycle
  {
    hide Partition;
    NodesInHeap(s);
    assert Units(b, n) !! s.heap && b in Units(b, n);
    PartitionExtend(s.heap, Blocks(s), b, n, Units(b, n));
    SameLinks(s, s');
    ExtendBlocks(s, b, n, s');
  }

  lemma ExtendBlocks(s: State, b: int, n: int, s': State)
    requires forall x | x in s.cycle :: x in s.mem
    requires forall x | x in s'.cycle :: x in s'.mem
    requires IsBlocks(s, Blocks(s)) && IsExtend(s, b, n, s') && b !in s.cycle
    ensures Blocks(s') == Blocks(s)[b := n] && IsBlocks(s', Blocks(s'))
  {
  }

  // ---------------------------------------------------------------------------------------
  // No two free blocks touch
  // ---------------------------------------------------------------------------------------

  /** Inserting a block leaves only its own two borders in doubt. */
  lemma InsertGaps(s: State, t: nat, bp: int, s': State)
    requires IsInsert(s, t, bp, s') && Sorted(s'.cycle)
    requires forall b | b in s.cycle :: b in s.mem
    requires forall i | 0 <= i < |s.cycle| :: Gap(s, i)
    ensures forall i | 0 <= i < |s'.cycle| && i != t && i != t + 1 :: Gap(s', i)
  {
    forall i | 0 <= i < |s'.cycle| && i != t && i != t + 1 ensures Gap(s', i) {
      var j := if i < t then i else i - 1;
      assert Gap(s, j) && s.cycle[j] in s.cycle && s'.cycle[i] != s'.cycle[t] && s'.cycle[i] != s'.cycle[t + 1];
    }
  }

  lemma MergeGaps(s: State, j: nat, s': State)
    requires IsMerge(s, j, s') && Sorted(s.cycle) && forall b | b in s.cycle :: b in s.mem
    requires s.cycle[j] + s.mem[s.cycle[j]].size == s.cycle[j + 1]
    ensures forall i | 0 <= i < j :: Gap(s, i) ==> Gap(s', i)
    ensures Gap(s, j + 1) ==> Gap(s', j)
    ensures forall i | j < i < |s'.cycle| :: Gap(s, i + 1) ==> Gap(s', i)
  {
    forall i | 0 <= i < |s'.cycle| && i != j && Gap(s, if i < j then i else i + 1) ensures Gap(s', i) {
      var k := if i < j then i else i + 1;
      assert s.cycle[k] in s.cycle && s.cycle[k] != s.cycle[j];
    }
  }

  lemma TakeGaps(s: State, j: nat, s': State)
    requires IsTake(s, j, s') && Sorted(s.cycle) && forall b | b in s.cycle :: b in s.mem
    requires forall i | 0 <= i < |s.cycle| :: Gap(s, i)
    ensures forall i | 0 <= i < |s'.cycle| :: Gap(s', i)
  {
    forall i | 0 <= i < |s'.cycle| ensures Gap(s', i) {
      var k := if i < j then i else i + 1;
      assert Gap(s, k) && s'.cycle[i] == s.cycle[k] && s.cycle[k] in s.cycle;
      if i + 1 < |s'.cycle| {
        assert s'.cycle[i + 1] == s.cycle[if i + 1 < j then i + 1 else i + 2] >= s.cycle[k + 1];
      }
    }
  }

  lemma SplitGaps(s: State, j: nat, n: int, s': State)
    requires IsSplit(s, j, n, s') && s.cycle[j] + s.mem[s.cycle[j]].size - n !in s.cycle
    requires Sorted(s.cycle) && forall i | 0 <= i < |s.cycle| :: Gap(s, i)
    requires forall b | b in s.cycle :: b in s.mem
    ensures forall i | 0 <= i < |s'.cycle| :: Gap(s', i)
  {
    forall i | 0 <= i < |s'.cycle| ensures Gap(s', i) {
      assert Gap(s, i) && s.cycle[i] in s.cycle;
    }
  }

  /** Unit u belongs to the heap and to no client. */
  ghost predicate Unused(s: State, u: int) {
    u in s.heap && forall b | b in s.used :: !(b <= u < b + s.used[b])
  }

  lemma FreeBlockUnused(s: State, b: int, u: int)
    requires Inv(s) && b in s.cycle && b != s.base && b <= u < b + s.mem[b].size
    ensures Unused(s, u)
  {
    assert b in Blocks(s) && Blocks(s)[b] == s.mem[b].size;
    forall c | c in s.used ensures !(c <= u < c + s.used[c]) {
      assert c in Blocks(s) && b != c;
      if b < c { } else { assert c < b; }
    }
  }

  lemma UnitFree(s: State, u: int) returns (b: int)
    requires Inv(s) && Unused(s, u)
    ensures b in s.cycle && b != s.base && b <= u < b + s.mem[b].size
  {
    b :| b in Blocks(s) && b <= u < b + Blocks(s)[b];
  }

  lemma NoTouch(s: State, b: int, c: int)
    requires Valid(s) && b in s.cycle && c in s.cycle && b < c
    ensures b + s.mem[b].size < c
  {
    var i :| 0 <= i < |s.cycle| && s.cycle[i] == b;
    var j :| 0 <= j < |s.cycle| && s.cycle[j] == c;
    assert Gap(s, i) && i < j;
  }

  /** Coalescing is complete: a run of units that no client holds lies in one free block. */
  lemma {:induction false} RunInOneBlock(s: State, a: int, n: int) returns (b: int)
    requires Valid(s) && n >= 1 && forall u | a <= u < a + n :: Unused(s, u)
    ensures b in s.cycle && b != s.base && b <= a && a + n <= b + s.mem[b].size
    decreases n
  {
    if n == 1 {
      b := UnitFree(s, a);
    } else {
      b := RunInOneBlock(s, a, n - 1);
      if b + s.mem[b].size < a + n {
        var c := UnitFree(s, a + n - 1);
        assert c in Blocks(s) && b in Blocks(s) && b < c;
        NoTouch(s, b, c);
      }
    }
  }

  lemma FreeBlocksAgree(s: State, s': State, b: int)
    requires Valid(s) && Valid(s') && s.base == s'.base && s.used == s'.used && s.heap == s'.heap
    requires b in s.cycle && b != s.base
    ensures b in s'.cycle && s'.mem[b].size == s.mem[b].size
  {
    hide Valid, Unused;
    var b' := InsideOne(s, s', b);
    var b'' := InsideOne(s', s, b');
    SameBlock(s, b, b'');
  }

  /** A free block of one lies in a free block of the other. */
  lemma InsideOne(s: State, s': State, b: int) returns (b': int)
    requires Valid(s) && Valid(s') && s.base == s'.base && s.used == s'.used && s.heap == s'.heap
    requires b in s.cycle && b != s.base
    ensures b in s.mem && b' in s'.cycle && b' != s'.base && b' in s'.mem
    ensures b' <= b && b + s.mem[b].size <= b' + s'.mem[b'].size && s.mem[b].size >= 1
  {
    FreeBlockFacts(s, b);
    hide Inv;
    forall u | b <= u < b + s.mem[b].size ensures Unused(s', u) {
      FreeBlockUnused(s, b, u);
    }
    b' := RunInOneBlock(s', b, s.mem[b].size);
    FreeBlockFacts(s', b');
  }

  lemma FreeBlockFacts(s: State, b: int)
    requires Inv(s) && b in s.cycle && b != s.base
    ensures b in s.mem && s.mem[b].size >= 1
  {
    assert b in Blocks(s);
  }

  /** Two free blocks that overlap are one. */
  lemma SameBlock(s: State, b: int, c: int)
    requires Valid(s) && b in s.cycle && b != s.base && c in s.cycle && c != s.base
    requires b in s.mem && c in s.mem && c <= b < c + s.mem[c].size
    ensures b == c
  {
    assert b in Blocks(s) && c in Blocks(s);
  }

  lemma SortedLast(s: seq<int>)
    requires Sorted(s) && s != []
    ensures var s', x := s[..|s| - 1], s[|s| - 1];
            s == s' + [x] && Sorted(s') && x in s && (forall z | z in s :: z <= x)
                && (forall z :: z in s' <==> z in s && z != x)
  {
    var s', x := s[..|s| - 1], s[|s| - 1];
    assert s == s' + [x];
    assert forall z | z in s' :: z < x;
  }

  lemma {:induction false} SortedEqual(s: seq<int>, r: seq<int>)
    requires Sorted(s) && Sorted(r) && forall x :: x in s <==> x in r
    ensures s == r
    decreases |s|
  {
    assert s != [] ==> s[0] in s;
    assert r != [] ==> r[0] in r;
    if s != [] {
      SortedLast(s);
      SortedLast(r);
      assert s[|s| - 1] == r[|r| - 1];
      SortedEqual(s[..|s| - 1], r[..|r| - 1]);
    }
  }

  /** The free list is a function of what the clients hold: whatever malloc and free calls led
      there, the same heap and the same used blocks give the same list with the same sizes. */
  lemma HistoryIndependent(s: State, s': State)
    requires Valid(s) && Valid(s') && s.base == s'.base && s.used == s'.used && s.heap == s'.heap
    ensures s.cycle == s'.cycle && forall b | b in s.cycle :: s.mem[b] == s'.mem[b]
  {
    forall b ensures b in s.cycle <==> b in s'.cycle {
      if b in s.cycle && b != s.base { FreeBlocksAgree(s, s', b); }
      if b in s'.cycle && b != s.base { FreeBlocksAgree(s', s, b); }
      assert s.cycle[0] in s.cycle && s'.cycle[0] in s'.cycle;
    }
    SortedEqual(s.cycle, s'.cycle);
    forall b | b in s.cycle ensures s.mem[b] == s'.mem[b] {
      if b != s.base { FreeBlocksAgree(s, s', b); }
      var i :| 0 <= i < |s.cycle| && s.cycle[i] == b;
      assert Linked(s.mem, s.cycle, i) && Linked(s'.mem, s'.cycle, i);
    }
  }

  // ---------------------------------------------------------------------------------------
  // free, malloc and morecore as changes of the state
  // ---------------------------------------------------------------------------------------

  /** The header free writes at bp, which it puts after node p. */
  function FreedHeader(mem: Memory, p: int, bp: int): Header
    requires p in mem && bp in mem && mem[p].ptr in mem
  {
    var nxt := mem[p].ptr;
    if bp + mem[bp].size == nxt then Header(mem[nxt].ptr, mem[bp].size + mem[nxt].size)
    else Header(nxt, mem[bp].size)
  }

  /** The memory free leaves. */
  function FreedMemory(mem: Memory, p: int, bp: int): Memory
    requires p in mem && bp in mem && mem[p].ptr in mem
  {
    var h := FreedHeader(mem, p, bp);
    mem[bp := h][p := if p + mem[p].size == bp then Header(h.ptr, mem[p].size + h.size) else Header(bp, mem[p].size)]
  }

  lemma SlotFacts(s: State, t: nat, bp: int)
    requires Inv(s) && bp in s.used && t < |s.cycle|
    ensures s.cycle[t] in s.mem && bp in s.mem && s.mem[s.cycle[t]].ptr in s.mem && s.base < bp && s.mem[bp].size >= 1
    ensures s.mem[s.cycle[t]].ptr == s.cycle[Next(s.cycle, t)] && s.cycle[0] == s.base
  {
    assert s.cycle[t] in s.cycle && bp in Blocks(s);
    assert bp in s.heap by { assert bp <= bp < bp + Blocks(s)[bp]; }
    assert Linked(s.mem, s.cycle, t) && s.cycle[Next(s.cycle, t)] in s.cycle;
  }

  lemma InsertStep(s: State, t: nat, bp: int) returns (s': State)
    requires Valid(s) && bp in s.used && t < |s.cycle| && s.cycle[t] < bp
    requires t + 1 < |s.cycle| ==> bp < s.cycle[t + 1]
    ensures IsInsert(s, t, bp, s') && Inv(s')
    ensures forall i | 0 <= i < |s'.cycle| && i != t && i != t + 1 :: Gap(s', i)
  {
    hide Partition, IsBlocks, Blocks, Linked, Gap;
    SlotFacts(s, t, bp);
    s' := State(s.mem[bp := s.mem[bp].(ptr := s.mem[s.cycle[t]].ptr)][s.cycle[t] := s.mem[s.cycle[t]].(ptr := bp)],
                s.base, s.cycle[..t + 1] + [bp] + s.cycle[t + 1..], s.used - {bp}, s.heap);
    InsertInv(s, t, bp, s');
    InsertGaps(s, t, bp, s');
  }

  /** Node j absorbs node j + 1 if it touches it. */
  lemma MergeStep(s: State, j: nat) returns (s': State)
    requires Inv(s) && 1 <= j && j + 1 < |s.cycle| && s.cycle[j] in s.mem && s.cycle[j + 1] in s.mem
    requires s.cycle[j] + s.mem[s.cycle[j]].size == s.cycle[j + 1]
    ensures IsMerge(s, j, s') && Inv(s')
    ensures forall i | 0 <= i < j :: Gap(s, i) ==> Gap(s', i)
    ensures Gap(s, j + 1) ==> Gap(s', j)
    ensures forall i | j < i < |s'.cycle| :: Gap(s, i + 1) ==> Gap(s', i)
  {
    hide Partition, IsBlocks, Blocks, Linked, Gap;
    s' := State(s.mem[s.cycle[j] := Header(s.mem[s.cycle[j + 1]].ptr,
        s.mem[s.cycle[j]].size + s.mem[s.cycle[j + 1]].size)],
                s.base, s.cycle[..j + 1] + s.cycle[j + 2..], s.used, s.heap);
    MergeInv(s, j, s');
    MergeGaps(s, j, s');
  }

  /** Two consecutive free blocks touch or leave a gap. */
  lemma TouchOrGap(s: State, i: nat)
    requires Inv(s) && i + 1 < |s.cycle|
    ensures s.cycle[i] in s.mem && s.cycle[i + 1] in s.mem
    ensures Gap(s, i) <==> s.cycle[i] + s.mem[s.cycle[i]].size != s.cycle[i + 1]
    ensures i == 0 ==> Gap(s, i)
  {
    var b, c := s.cycle[i], s.cycle[i + 1];
    assert b in s.cycle && c in s.cycle && b < c && c != s.base;
    if i > 0 {
      assert b != s.base && b in Blocks(s) && c in Blocks(s);
    }
  }

  /** bp is back on the list after node t and has absorbed the block above it; only its border
      with the block below may still need coalescing. */
  ghost predicate UpperDone(s: State, t: nat, bp: int, s': State) {
    && t < |s.cycle| && s.cycle[t] in s.mem && bp in s.mem && s.mem[s.cycle[t]].ptr in s.mem
    && Inv(s') && s'.base == s.base && s'.used == s.used - {bp} && s'.heap == s.heap
    && s'.mem == s.mem[bp := FreedHeader(s.mem, s.cycle[t], bp)][s.cycle[t] := s.mem[s.cycle[t]].(ptr := bp)]
    && t + 1 < |s'.cycle| && s'.cycle[t] == s.cycle[t] && s'.cycle[t + 1] == bp
    && (forall i | 0 <= i < |s'.cycle| && i != t :: Gap(s', i))
  }

  lemma UpperMergeMemory(s: State, t: nat, bp: int, s1: State, s': State)
    requires IsInsert(s, t, bp, s1) && IsMerge(s1, t + 1, s')
    requires s.mem[s.cycle[t]].ptr == s.cycle[Next(s.cycle, t)] && s.mem[s.cycle[t]].ptr in s.mem
    requires bp != s.cycle[t] && bp + s.mem[bp].size == s1.cycle[t + 2]
    requires s1.cycle[t + 2] != bp && s1.cycle[t + 2] != s.cycle[t]
    ensures s'.mem == s.mem[bp := FreedHeader(s.mem, s.cycle[t], bp)][s.cycle[t] := s.mem[s.cycle[t]].(ptr := bp)]
    ensures t + 1 < |s'.cycle| && s'.cycle[t] == s.cycle[t] && s'.cycle[t + 1] == bp
  {
    assert s1.cycle[t + 2] == s.cycle[t + 1] == s.mem[s.cycle[t]].ptr;
    assert s1.cycle[t] == s.cycle[t];
  }

  lemma UpperMerge(s: State, t: nat, bp: int, s1: State) returns (s': State)
    requires Inv(s) && IsInsert(s, t, bp, s1) && Inv(s1) && t + 2 < |s1.cycle|
    requires forall i | 0 <= i < |s1.cycle| && i != t && i != t + 1 :: Gap(s1, i)
    requires bp + s.mem[bp].size == s1.cycle[t + 2]
    ensures UpperDone(s, t, bp, s')
  {
    SlotFacts(s, t, bp);
    TouchOrGap(s1, t + 1);
    assert s1.cycle[t] < s1.cycle[t + 1] < s1.cycle[t + 2] && s1.cycle[t] == s.cycle[t];
    hide Inv;
    s' := MergeStep(s1, t + 1);
    UpperMergeMemory(s, t, bp, s1, s');
    hide IsMerge, IsInsert;
  }

  lemma UpperKeep(s: State, t: nat, bp: int, s1: State)
    requires Inv(s) && IsInsert(s, t, bp, s1) && Inv(s1)
    requires forall i | 0 <= i < |s1.cycle| && i != t && i != t + 1 :: Gap(s1, i)
    requires t + 2 < |s1.cycle| ==> bp + s.mem[bp].size != s1.cycle[t + 2]
    ensures UpperDone(s, t, bp, s1)
  {
    SlotFacts(s, t, bp);
    if t + 2 < |s1.cycle| {
      TouchOrGap(s1, t + 1);
    }
  }

  lemma FreeUpper(s: State, t: nat, bp: int) returns (s': State)
    requires Valid(s) && bp in s.used && t < |s.cycle| && s.cycle[t] < bp
    requires t + 1 < |s.cycle| ==> bp < s.cycle[t + 1]
    ensures UpperDone(s, t, bp, s')
  {
    SlotFacts(s, t, bp);
    s' := InsertStep(s, t, bp);
    if t + 2 < |s'.cycle| && bp + s.mem[bp].size == s'.cycle[t + 2] {
      s' := UpperMerge(s, t, bp, s');
    } else {
      UpperKeep(s, t, bp, s');
    }
  }

  ghost predicate Freed(s: State, t: nat, bp: int, s': State) {
    && t < |s.cycle| && s.cycle[t] in s.mem && bp in s.mem && s.mem[s.cycle[t]].ptr in s.mem
    && Valid(s') && s'.mem == FreedMemory(s.mem, s.cycle[t], bp) && s.cycle[t] in s'.cycle
    && s'.base == s.base && s'.used == s.used - {bp} && s'.heap == s.heap
  }

  lemma LowerMergeMemory(s: State, t: nat, bp: int, s1: State, s': State)
    requires t < |s.cycle| && s.cycle[t] in s.mem && bp in s.mem && s.mem[s.cycle[t]].ptr in s.mem
    requires s1.mem == s.mem[bp := FreedHeader(s.mem, s.cycle[t], bp)][s.cycle[t] := s.mem[s.cycle[t]].(ptr := bp)]
    requires IsMerge(s1, t, s') && s1.cycle[t] == s.cycle[t] && s1.cycle[t + 1] == bp
    requires s.cycle[t] + s.mem[s.cycle[t]].size == bp && s.cycle[t] != bp
    ensures s'.mem == FreedMemory(s.mem, s.cycle[t], bp) && s.cycle[t] in s'.cycle
  {
    assert s'.cycle[t] == s.cycle[t];
  }

  lemma LowerMerge(s: State, t: nat, bp: int, s1: State) returns (s': State)
    requires UpperDone(s, t, bp, s1) && s.cycle[t] + s.mem[s.cycle[t]].size == bp && s.cycle[t] != bp
    ensures Freed(s, t, bp, s')
  {
    hide Inv, FreedMemory, FreedHeader;
    TouchOrGap(s1, t);
    s' := MergeStep(s1, t);
    LowerMergeMemory(s, t, bp, s1, s');
    hide IsMerge;
  }

  lemma LowerKeep(s: State, t: nat, bp: int, s1: State)
    requires UpperDone(s, t, bp, s1) && s.cycle[t] + s.mem[s.cycle[t]].size != bp && s.cycle[t] != bp
    ensures Freed(s, t, bp, s1)
  {
    TouchOrGap(s1, t);
    assert s1.cycle[t] == s.cycle[t];
  }

  /** Putting bp back after node t and coalescing on both sides keeps the allocator valid. */
  lemma FreeKeeps(s: State, t: nat, bp: int) returns (s': State)
    requires Valid(s) && bp in s.used && t < |s.cycle| && s.cycle[t] < bp
    requires t + 1 < |s.cycle| ==> bp < s.cycle[t + 1]
    ensures Freed(s, t, bp, s')
  {
    s' := FreeUpper(s, t, bp);
    if s.cycle[t] + s.mem[s.cycle[t]].size == bp {
      s' := LowerMerge(s, t, bp, s');
    } else {
      LowerKeep(s, t, bp, s');
    }
  }

  lemma TakeKeeps(s: State, j: nat, s': State)
    requires Valid(s) && IsTake(s, j, s')
    ensures Valid(s') && s.cycle[j] !in s.used && s.cycle[j - 1] in s'.cycle
  {
    assert s.cycle[j] in s.cycle;
    TakeGaps(s, j, s');
    assert s'.cycle[j - 1] == s.cycle[j - 1];
    hide Partition;
    TakeInv(s, j, s');
  }

  lemma SplitKeeps(s: State, j: nat, n: int, s': State)
    requires Valid(s) && IsSplit(s, j, n, s')
    ensures Valid(s') && s.cycle[j] + s.mem[s.cycle[j]].size - n !in s.used && s.cycle[j - 1] in s'.cycle
  {
    var p := s.cycle[j];
    assert p in s.cycle && p != s.base && s'.cycle[j - 1] == s.cycle[j - 1];
    hide Partition;
    InsideFree(s, p, p + s.mem[p].size - n);
    SplitGaps(s, j, n, s');
    SplitInv(s, j, n, s');
  }

  lemma ExtendKeeps(s: State, b: int, n: int, s': State)
    requires Valid(s) && IsExtend(s, b, n, s')
    ensures Valid(s') && b !in s.used
  {
    ExtendInv(s, b, n, s');
    forall i | 0 <= i < |s'.cycle| ensures Gap(s', i) {
      assert Gap(s, i) && s.cycle[i] in s.cycle;
    }
  }

  /** After sbrk's units have been freed, one free block holds all of them. */
  lemma RoomAfterExtend(s: State, b: int, n: int, s': State) returns (c: int)
    requires Valid(s) && n >= 1 && (forall u | b <= u < b + n :: u !in s.heap)
    requires Valid(s') && s'.base == s.base && s'.used == s.used && s'.heap == s.heap + Units(b, n)
    ensures c in s'.cycle && c in s'.mem && s'.mem[c].size >= n
  {
    forall u | b <= u < b + n ensures Unused(s', u) {
      forall x | x in s.used ensures !(x <= u < x + s.used[x]) {
        assert x in Blocks(s) && Blocks(s)[x] == s.used[x];
        assert x <= u < x + s.used[x] ==> u in s.heap;
      }
    }
    c := RunInOneBlock(s', b, n);
  }
}

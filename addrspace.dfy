/**
 * The per-process address space of kern/vm/addrspace.c. The page table is a
 * doubly-linked list of entries in the source; here it is the sequence of
 * those entries in list order, held in a field that each operation
 * reassigns. Regions, the stack and the heap are all entries of this one
 * list: regions first, then the 12 stack pages, then heap pages appended at
 * the tail by sbrk.
 */
module AddrSpaces {
  import opened Util
  import opened Kern
  import opened Coremap
  import opened TlbFault

  /** Page states of a page-table entry. Only PG_UNALOC is written by these files. */
  datatype PageState = PG_UNALOC | PG_MEM | PG_SWP | PG_BUSY

  /** One page-table entry: `ppage` is meaningful only once a frame is attached; `swpOffset` only when swapped out. */
  datatype PTE = PTE(vpage: U32, ppage: U32, state: PageState, swpOffset: int)

  /** The contents of physical memory, one byte string per frame address (what memmove reads and writes). */
  class PhysMem {
    var pages: map<U32, seq<bv8>>

    constructor (initial: map<U32, seq<bv8>>)
      ensures pages == initial
    {
      pages := initial;
    }
  }

  /** The bytes of the frame at `p`; a frame never written reads as empty. */
  function Bytes(m: map<U32, seq<bv8>>, p: U32): seq<bv8>
  {
    if p in m then m[p] else []
  }

  /** An entry as the definers create it: page `v`, no frame, unallocated (its swap offset is whatever it is). */
  predicate Unallocated(e: PTE, v: U32)
  {
    e.vpage == v && e.ppage == 0 && e.state == PG_UNALOC
  }

  /**
   * `u` is `t` followed by `n` fresh unallocated entries whose pages run from
   * `start` one page apart (32-bit arithmetic).
   */
  predicate AppendsRun(t: seq<PTE>, u: seq<PTE>, start: U32, n: nat)
  {
    && |u| == |t| + n
    && u[..|t|] == t
    && forall k :: 0 <= k < n ==> Unallocated(u[|t| + k], Wrap32(start + k * PAGE_SIZE))
  }

  lemma AppendsRunSnoc(t: seq<PTE>, u: seq<PTE>, start: U32, n: nat, e: PTE)
    requires AppendsRun(t, u, start, n)
    requires Unallocated(e, Wrap32(start + n * PAGE_SIZE))
    ensures AppendsRun(t, u + [e], start, n + 1)
  {
    assert (u + [e])[..|t|] == u[..|t|];
  }

  /** Entries that hold a frame (everything but PG_UNALOC): the ones as_copy gives a new frame. */
  function ResidentCount(t: seq<PTE>): (n: nat)
    ensures n <= |t|
  {
    if |t| == 0 then 0 else (if t[0].state != PG_UNALOC then 1 else 0) + ResidentCount(t[1..])
  }

  /** The frames attached to resident entries of `t`. */
  function ResidentFrames(t: seq<PTE>): set<U32>
  {
    set i | 0 <= i < |t| && t[i].state != PG_UNALOC :: t[i].ppage
  }

  /**
   * The number of pages as_define_region gives a region of `sz` bytes at
   * `vaddr`: the size is extended down to the page boundary and rounded up
   * to whole pages, all in 32-bit `size_t` arithmetic. When nothing wraps it
   * is the ceiling of (sz + vaddr mod PAGE_SIZE) / PAGE_SIZE.
   */
  function RegionPageCount(vaddr: U32, sz: U32): (n: nat)
    ensures n * PAGE_SIZE < WORD
    ensures sz + vaddr % PAGE_SIZE + PAGE_SIZE - 1 < WORD ==>
      (n - 1) * PAGE_SIZE < sz + vaddr % PAGE_SIZE <= n * PAGE_SIZE
  {
    var extended := Wrap32(sz + vaddr % PAGE_SIZE);
    var rounded := PageDown(Wrap32(extended + PAGE_SIZE - 1));
    var n := rounded / PAGE_SIZE;
    assert rounded == n * PAGE_SIZE;
    n
  }

  /** The pages of a defined region cover every byte of [vaddr, vaddr + sz). */
  lemma RegionCovers(vaddr: U32, sz: U32, a: int)
    requires sz + vaddr % PAGE_SIZE + PAGE_SIZE - 1 < WORD
    requires vaddr + sz <= WORD
    requires vaddr <= a < vaddr + sz
    ensures exists k :: 0 <= k < RegionPageCount(vaddr, sz) && PageDown(a) == PageDown(vaddr) + k * PAGE_SIZE
  {
    var n := RegionPageCount(vaddr, sz);
    var base := PageDown(vaddr);
    var k: int := (PageDown(a) - base) / PAGE_SIZE;
    assert PageDown(a) - base == (PageDown(a) / PAGE_SIZE - base / PAGE_SIZE) * PAGE_SIZE;
    assert PageDown(a) == base + k * PAGE_SIZE;
    assert k * PAGE_SIZE <= a - base < sz + vaddr % PAGE_SIZE <= n * PAGE_SIZE;
    if k >= n {
      MulGrows(n, k, PAGE_SIZE);
      assert false;
    }
  }

  /** The first stack page: `(USERSTACK - 1) & PAGE_FRAME`. */
  const STACK_TOP_PAGE: int := USERSTACK - PAGE_SIZE

  /** The page of the k-th stack entry, descending from the top. */
  function StackPage(k: nat): (v: U32)
    requires k < STACKPAGES
    ensures v % PAGE_SIZE == 0
    ensures STACKBASE <= v < USERSTACK
  {
    (0x7ffff - k) * PAGE_SIZE
  }

  /**
   * The 12 pages as_define_stack adds are exactly the pages vm_fault serves
   * from the stack region: every page-aligned address in [STACKBASE,
   * USERSTACK) is one of them, and they are pairwise distinct.
   */
  lemma StackPagesAreFaultStack(p: U32)
    requires p % PAGE_SIZE == 0 && STACKBASE <= p < USERSTACK
    ensures exists k :: 0 <= k < STACKPAGES && StackPage(k) == p
    ensures forall j, k :: 0 <= j < k < STACKPAGES ==> StackPage(j) != StackPage(k)
  {
    var q := p / PAGE_SIZE;
    assert p == q * PAGE_SIZE;
    var k := 0x7ffff - q;
    assert StackPage(k) == p;
  }

  /** sys_sbrk's `free_heap`: the unused bytes at the end of the break's page, once a heap page exists. */
  function FreeHeap(curBrk: U32, heapBase: U32): (r: int)
    ensures 0 <= r < PAGE_SIZE
    ensures r > 0 ==> curBrk != heapBase && curBrk + r == PageDown(curBrk) + PAGE_SIZE
    ensures r == 0 ==> curBrk == heapBase || curBrk % PAGE_SIZE == 0
  {
    if curBrk != heapBase then
      var f := PAGE_SIZE - curBrk % PAGE_SIZE;
      if f == PAGE_SIZE then 0 else f
    else 0
  }

  /** The heap pages a growth of `excess` bytes past the mapped tail needs: ceil(excess / PAGE_SIZE). */
  function GrowPages(excess: int): (n: nat)
    requires excess > 0
    ensures (n - 1) * PAGE_SIZE < excess <= n * PAGE_SIZE
  {
    var q := (excess - 1) / PAGE_SIZE;
    assert excess - 1 == q * PAGE_SIZE + (excess - 1) % PAGE_SIZE;
    1 + q
  }

  /** A growth that fits in the unused tail of the break's page stays within that (already mapped) page. */
  lemma GrowInPlaceStaysInPage(curBrk: U32, heapBase: U32, amount: int)
    requires 0 < amount <= FreeHeap(curBrk, heapBase)
    ensures curBrk + amount <= PageDown(curBrk) + PAGE_SIZE
    ensures curBrk + amount - 1 < WORD && PageDown(curBrk + amount - 1) == PageDown(curBrk)
  {
    var b := PageDown(curBrk);
    var c := curBrk + amount - 1;
    DivUnique(c, PAGE_SIZE, b / PAGE_SIZE, c - b);
  }

  /**
   * With a page-aligned heap base, the pages a larger growth appends, from
   * the page of `cur_brk + free_heap` on, reach the new break: every byte
   * below it that was not mapped before lies in an appended page.
   */
  lemma GrowCoversNewBreak(curBrk: U32, heapBase: U32, amount: int)
    requires heapBase % PAGE_SIZE == 0
    requires amount > FreeHeap(curBrk, heapBase)
    requires curBrk + amount < WORD
    ensures var fh := FreeHeap(curBrk, heapBase);
      var start := PageDown(Wrap32(curBrk + fh));
      start == curBrk + fh && curBrk + amount <= start + GrowPages(amount - fh) * PAGE_SIZE
  {
  }

  /** The first page free_vpages is asked to drop when the break moves down by -amount: the page after the new break's. */
  function ShrinkStart(curBrk: U32, amount: int): U32
  {
    Wrap32(PageDown(Wrap32(curBrk + amount)) + PAGE_SIZE)
  }

  /** How many pages free_vpages is asked to drop: the pages from the new break's page up to the old one's. */
  function ShrinkCount(curBrk: U32, amount: int): int
  {
    Wrap32(PageDown(curBrk) - PageDown(Wrap32(curBrk + amount))) / PAGE_SIZE
  }

  /**
   * The scan free_vpages performs, with the cursor at index `k` of the table
   * (`k == |t|` is the NULL pointer). It runs while the cursor is non-NULL OR
   * pages remain; an entry on `vpage` is handed to free_kpages, `vpage`
   * advances and `npages` drops; the entry is unlinked only when it has a
   * successor, so a matching tail stays in the list. Matching the head fails
   * the KASSERT, and reaching NULL with pages left dereferences NULL.
   * `freed` lists the addresses passed to free_kpages in order.
   */
  datatype Scan = Scan(crashed: bool, table: seq<PTE>, freed: seq<U32>, left: int)

  function After(f: seq<U32>, sc: Scan): Scan
  {
    sc.(freed := f + sc.freed)
  }

  lemma AfterAfter(f: seq<U32>, g: seq<U32>, sc: Scan)
    ensures After(f, After(g, sc)) == After(f + g, sc)
  {
    assert f + (g + sc.freed) == (f + g) + sc.freed;
  }

  function FreeScan(t: seq<PTE>, k: nat, vpage: U32, npages: int): Scan
    requires k <= |t|
    decreases |t| - k
  {
    if k == |t| then Scan(npages != 0, t, [], npages)
    else if t[k].vpage == vpage then
      var v := Wrap32(vpage + PAGE_SIZE);
      if k == 0 then Scan(true, t, [vpage], npages - 1)
      else if k + 1 < |t| then After([vpage], FreeScan(t[..k] + t[k + 1..], k, v, npages - 1))
      else After([vpage], FreeScan(t, k + 1, v, npages - 1))
    else FreeScan(t, k + 1, vpage, npages)
  }

  /** One matching step of the scan, as the loop performs it: the cursor moves on, the entry goes if it has a successor. */
  lemma FreeScanMatch(t: seq<PTE>, k: nat, v: U32, n: int, f: seq<U32>)
    requires 0 < k < |t| && t[k].vpage == v
    ensures var v' := Wrap32(v + PAGE_SIZE);
      After(f, FreeScan(t, k, v, n)) ==
        if k + 1 < |t| then After(f + [v], FreeScan(t[..k] + t[k + 1..], k, v', n - 1))
        else After(f + [v], FreeScan(t, k + 1, v', n - 1))
  {
    var v' := Wrap32(v + PAGE_SIZE);
    if k + 1 < |t| {
      AfterAfter(f, [v], FreeScan(t[..k] + t[k + 1..], k, v', n - 1));
    } else {
      AfterAfter(f, [v], FreeScan(t, k + 1, v', n - 1));
    }
  }

  /** The coremap after free_kpages is called on each address of `f` in turn. */
  function ReleaseAll(s: seq<Frame>, f: seq<U32>): (r: seq<Frame>)
    ensures |r| == |s|
    decreases |f|
  {
    if |f| == 0 then s else Released(ReleaseAll(s, f[..|f| - 1]), f[|f| - 1])
  }

  /**
   * What free_vpages hands to free_kpages is the consecutive run of pages
   * from `vpage`, one per page it counts down; when it returns at all it
   * returns 0, having freed exactly `npages` pages.
   */
  lemma {:induction false} FreeScanFreesRun(t: seq<PTE>, k: nat, vpage: U32, npages: int)
    requires k <= |t|
    ensures var sc := FreeScan(t, k, vpage, npages);
      && |sc.freed| == npages - sc.left
      && (forall j :: 0 <= j < |sc.freed| ==> sc.freed[j] == Wrap32(vpage + j * PAGE_SIZE))
      && (!sc.crashed ==> sc.left == 0 && |sc.freed| == npages)
    decreases |t| - k
  {
    if k < |t| && t[k].vpage == vpage && k > 0 {
      var v := Wrap32(vpage + PAGE_SIZE);
      var t' := if k + 1 < |t| then t[..k] + t[k + 1..] else t;
      var k' := if k + 1 < |t| then k else k + 1;
      FreeScanFreesRun(t', k', v, npages - 1);
      var sc := FreeScan(t, k, vpage, npages);
      forall j | 1 <= j < |sc.freed|
        ensures sc.freed[j] == Wrap32(vpage + j * PAGE_SIZE)
      {
        WrapAdd(vpage + PAGE_SIZE, (j - 1) * PAGE_SIZE);
      }
    } else if k < |t| && t[k].vpage != vpage {
      FreeScanFreesRun(t, k + 1, vpage, npages);
    }
  }

  /**
   * free_vpages keeps the entries in front of the cursor, never removes the
   * head of the list (a match there is a failed KASSERT) and never unlinks
   * the tail (its successor test fails).
   */
  lemma {:induction false} FreeScanKeepsEnds(t: seq<PTE>, k: nat, vpage: U32, npages: int)
    requires k <= |t|
    ensures var sc := FreeScan(t, k, vpage, npages);
      && k <= |sc.table| <= |t|
      && sc.table[..k] == t[..k]
      && (|t| > 0 ==> 0 < |sc.table| && sc.table[0] == t[0] && sc.table[|sc.table| - 1] == t[|t| - 1])
    decreases |t| - k
  {
    if k < |t| {
      var v := Wrap32(vpage + PAGE_SIZE);
      if t[k].vpage != vpage {
        FreeScanKeepsEnds(t, k + 1, vpage, npages);
      } else if k > 0 && k + 1 < |t| {
        var t' := t[..k] + t[k + 1..];
        FreeScanKeepsEnds(t', k, v, npages - 1);
        assert t'[..k] == t[..k];
      } else if k > 0 {
        FreeScanKeepsEnds(t, k + 1, v, npages - 1);
      }
    }
  }

  /** What free_vpages leaves is the old list with some entries deleted and the rest in their old order. */
  lemma {:induction false} FreeScanKeepsOrder(t: seq<PTE>, k: nat, vpage: U32, npages: int)
    requires k <= |t|
    ensures Subseq(FreeScan(t, k, vpage, npages).table, t)
    decreases |t| - k
  {
    if k == |t| {
      SubseqRefl(t);
    } else if t[k].vpage == vpage {
      var v := Wrap32(vpage + PAGE_SIZE);
      if k == 0 {
        SubseqRefl(t);
      } else if k + 1 < |t| {
        var t' := t[..k] + t[k + 1..];
        FreeScanKeepsOrder(t', k, v, npages - 1);
        SubseqDropOne(FreeScan(t', k, v, npages - 1).table, t, k);
      } else {
        FreeScanKeepsOrder(t, k + 1, v, npages - 1);
      }
    } else {
      FreeScanKeepsOrder(t, k + 1, vpage, npages);
    }
  }

  /**
   * free_vpages removes only entries of the run it frees: an entry whose
   * page was not handed to free_kpages is kept as often as it occurred, and
   * no more entries go than pages were freed.
   */
  lemma {:induction false} FreeScanRemovesOnlyRun(t: seq<PTE>, k: nat, vpage: U32, npages: int)
    requires k <= |t|
    ensures var sc := FreeScan(t, k, vpage, npages);
      && (forall e: PTE :: e.vpage !in sc.freed ==> multiset(sc.table)[e] == multiset(t)[e])
      && |t| - |sc.table| <= |sc.freed|
    decreases |t| - k
  {
    if k < |t| && t[k].vpage == vpage && k > 0 {
      var v := Wrap32(vpage + PAGE_SIZE);
      if k + 1 < |t| {
        var t' := t[..k] + t[k + 1..];
        FreeScanRemovesOnlyRun(t', k, v, npages - 1);
        assert t == t[..k] + [t[k]] + t[k + 1..];
        assert multiset(t) == multiset(t') + multiset{t[k]};
      } else {
        FreeScanRemovesOnlyRun(t, k + 1, v, npages - 1);
      }
    } else if k < |t| && t[k].vpage != vpage {
      FreeScanRemovesOnlyRun(t, k + 1, vpage, npages);
    }
  }

  /** A run that reaches past the last entry on its pages dereferences NULL: a missing page crashes the kernel. */
  lemma {:induction false} FreeScanMissingPageCrashes(t: seq<PTE>, k: nat, vpage: U32, npages: int)
    requires k <= |t|
    requires npages != 0
    requires forall i :: k <= i < |t| ==> t[i].vpage != vpage
    ensures FreeScan(t, k, vpage, npages).crashed
    decreases |t| - k
  {
    if k < |t| {
      FreeScanMissingPageCrashes(t, k + 1, vpage, npages);
    }
  }

  /**
   * Because the loop runs while the cursor is non-NULL *or* pages remain,
   * a count that has gone negative never returns to 0 and the scan always
   * ends in the NULL dereference.
   */
  lemma {:induction false} FreeScanNegativeCrashes(t: seq<PTE>, k: nat, vpage: U32, npages: int)
    requires k <= |t|
    requires npages < 0
    ensures FreeScan(t, k, vpage, npages).crashed
    decreases |t| - k
  {
    if k < |t| {
      var v := Wrap32(vpage + PAGE_SIZE);
      if t[k].vpage == vpage && k > 0 {
        if k + 1 < |t| {
          FreeScanNegativeCrashes(t[..k] + t[k + 1..], k, v, npages - 1);
        } else {
          FreeScanNegativeCrashes(t, k + 1, v, npages - 1);
        }
      } else if t[k].vpage != vpage {
        FreeScanNegativeCrashes(t, k + 1, vpage, npages);
      }
    }
  }

  /**
   * Shrinking the heap by one page from a page-aligned break crashes the
   * kernel whenever the page at the break itself is unmapped (sbrk only
   * maps pages below the break): free_vpages is sent to that page.
   */
  lemma AlignedShrinkCrashes(t: seq<PTE>, curBrk: U32, heapBase: U32)
    requires curBrk % PAGE_SIZE == 0 && heapBase + PAGE_SIZE <= curBrk
    requires forall i :: 0 <= i < |t| ==> t[i].vpage != curBrk
    ensures Wrap32(curBrk - PAGE_SIZE) >= heapBase
    ensures ShrinkStart(curBrk, -PAGE_SIZE) == curBrk && ShrinkCount(curBrk, -PAGE_SIZE) == 1
    ensures FreeScan(t, 0, ShrinkStart(curBrk, -PAGE_SIZE), ShrinkCount(curBrk, -PAGE_SIZE)).crashed
  {
    assert PageDown(curBrk - PAGE_SIZE) == curBrk - PAGE_SIZE;
    FreeScanMissingPageCrashes(t, 0, curBrk, 1);
  }

  /**
   * free_kpages matches kseg0 addresses, and a frame below 2 GiB has its
   * kseg0 address at or above MIPS_KSEG0; the user pages free_vpages hands
   * over lie below it, so no frame is ever released.
   */
  lemma {:induction false} UserPagesReleaseNothing(s: seq<Frame>, f: seq<U32>)
    requires forall j :: 0 <= j < |s| ==> s[j].ppage < MIPS_KSEG0
    requires forall j :: 0 <= j < |f| ==> f[j] < MIPS_KSEG0
    ensures ReleaseAll(s, f) == s
    decreases |f|
  {
    if |f| > 0 {
      UserPagesReleaseNothing(s, f[..|f| - 1]);
    }
  }

  lemma ReleaseAllSnoc(s: seq<Frame>, f: seq<U32>, v: U32)
    ensures ReleaseAll(s, f + [v]) == Released(ReleaseAll(s, f), v)
  {
    assert (f + [v])[..|f|] == f;
  }

  class AddrSpace {
    var pageTable: seq<PTE>
    var heapBase: U32
    var curBrk: U32
    var stackPBase: U32

    /** The fields as_create writes. */
    constructor ()
      ensures pageTable == [] && heapBase == 0 && curBrk == 0 && stackPBase == 0
    {
      pageTable := [];
      heapBase := 0;
      curBrk := 0;
      stackPBase := 0;
    }

    /**
     * as_define_region. The readable/writeable/executable flags are ignored.
     * An empty table gets its head entry first (swap offset 0) and the page
     * count is decremented in `size_t`, so the region must have at least one
     * page then; the loop appends the rest after the current tail.
     */
    method AsDefineRegion(vaddr: U32, sz: U32) returns (r: int)
      requires pageTable == [] ==> RegionPageCount(vaddr, sz) > 0
      modifies this
      ensures r == 0
      ensures AppendsRun(old(pageTable), pageTable, PageDown(vaddr), RegionPageCount(vaddr, sz))
      ensures old(pageTable) == [] ==> pageTable[0].swpOffset == 0
      ensures heapBase == old(heapBase) && curBrk == old(curBrk) && stackPBase == old(stackPBase)
    {
      var size := Wrap32(sz + vaddr % PAGE_SIZE);
      var va := PageDown(vaddr);
      size := PageDown(Wrap32(size + PAGE_SIZE - 1));
      var npages := size / PAGE_SIZE;
      assert npages == RegionPageCount(vaddr, sz);
      ghost var t0 := pageTable;
      ghost var start := va;
      ghost var done := 0;
      if pageTable == [] {
        pageTable := [PTE(va, 0, PG_UNALOC, 0)];
        assert AppendsRun(t0, pageTable, start, 1);
        npages := npages - 1;
        WrapAdd(start, PAGE_SIZE);
        va := Wrap32(va + PAGE_SIZE);
        done := 1;
      }
      var i := 0;
      r := 0;
      while i < npages
        invariant 0 <= i <= npages
        invariant va == Wrap32(start + (done + i) * PAGE_SIZE)
        invariant AppendsRun(t0, pageTable, start, done + i)
        invariant t0 == [] ==> pageTable[0].swpOffset == 0
        invariant heapBase == old(heapBase) && curBrk == old(curBrk) && stackPBase == old(stackPBase)
      {
        var swp: int := *;
        AppendsRunSnoc(t0, pageTable, start, done + i, PTE(va, 0, PG_UNALOC, swp));
        pageTable := pageTable + [PTE(va, 0, PG_UNALOC, swp)];
        WrapAdd(start + (done + i) * PAGE_SIZE, PAGE_SIZE);
        va := Wrap32(va + PAGE_SIZE);
        i := i + 1;
      }
    }

    /**
     * as_define_stack: the table must not be empty (KASSERT); 12 entries are
     * appended at the tail for the pages descending from just below
     * USERSTACK, and the initial stack pointer is USERSTACK.
     */
    method AsDefineStack() returns (r: int, stackptr: U32)
      requires pageTable != []
      modifies this
      ensures r == 0 && stackptr == USERSTACK
      ensures |pageTable| == |old(pageTable)| + STACKPAGES && pageTable[..|old(pageTable)|] == old(pageTable)
      ensures forall k :: 0 <= k < STACKPAGES ==> Unallocated(pageTable[|old(pageTable)| + k], StackPage(k))
      ensures heapBase == old(heapBase) && curBrk == old(curBrk) && stackPBase == old(stackPBase)
    {
      var stackPg: int := STACK_TOP_PAGE;
      var i := 0;
      while i < STACKPAGES
        invariant 0 <= i <= STACKPAGES
        invariant stackPg == STACK_TOP_PAGE - i * PAGE_SIZE
        invariant |pageTable| == |old(pageTable)| + i && pageTable[..|old(pageTable)|] == old(pageTable)
        invariant forall k :: 0 <= k < i ==> Unallocated(pageTable[|old(pageTable)| + k], StackPage(k))
        invariant heapBase == old(heapBase) && curBrk == old(curBrk) && stackPBase == old(stackPBase)
      {
        var swp: int := *;
        pageTable := pageTable + [PTE(stackPg, 0, PG_UNALOC, swp)];
        stackPg := stackPg - PAGE_SIZE;
        i := i + 1;
      }
      return 0, USERSTACK;
    }

    /**
     * free_vpages on this address space (the current thread's): the scan
     * FreeScan describes, calling free_kpages on the coremap for every
     * matching page. It returns the pages left uncounted, or crashes. The
     * entries that go are entries of the freed run, and the rest stay in
     * their old order.
     */
    method FreeVpages(vpage: U32, npages: int, cm: Coremap) returns (r: Status)
      modifies this, cm.frames
      ensures var sc := FreeScan(old(pageTable), 0, vpage, npages);
        && r == (if sc.crashed then Crash else Done(sc.left))
        && pageTable == sc.table
        && cm.frames[..] == (if cm.initialized then ReleaseAll(old(cm.frames[..]), sc.freed) else old(cm.frames[..]))
      ensures var sc := FreeScan(old(pageTable), 0, vpage, npages);
        && Subseq(pageTable, old(pageTable))
        && (forall e: PTE :: e.vpage !in sc.freed ==> multiset(pageTable)[e] == multiset(old(pageTable))[e])
        && |old(pageTable)| - |pageTable| <= |sc.freed|
      ensures heapBase == old(heapBase) && curBrk == old(curBrk) && stackPBase == old(stackPBase)
    {
      FreeScanKeepsOrder(pageTable, 0, vpage, npages);
      FreeScanRemovesOnlyRun(pageTable, 0, vpage, npages);
      ghost var freed: seq<U32> := [];
      var k := 0;
      var v: U32 := vpage;
      var n := npages;
      while k < |pageTable| || n != 0
        invariant k <= |pageTable|
        invariant FreeScan(old(pageTable), 0, vpage, npages) == After(freed, FreeScan(pageTable, k, v, n))
        invariant cm.frames[..] == (if cm.initialized then ReleaseAll(old(cm.frames[..]), freed) else old(cm.frames[..]))
        invariant heapBase == old(heapBase) && curBrk == old(curBrk) && stackPBase == old(stackPBase)
        decreases |pageTable| - k
      {
        if k == |pageTable| {
          // pte is NULL but pages remain: pte->entry dereferences NULL
          assert freed + [] == freed;
          return Crash;
        }
        if pageTable[k].vpage == v {
          cm.FreeKpages(v);
          ReleaseAllSnoc(old(cm.frames[..]), freed, v);
          if k > 0 {
            FreeScanMatch(pageTable, k, v, n, freed);
          }
          freed := freed + [v];
          v := Wrap32(v + PAGE_SIZE);
          n := n - 1;
          if k == 0 {
            // KASSERT(tmp->prev != NULL)
            return Crash;
          }
          if k + 1 < |pageTable| {
            pageTable := pageTable[..k] + pageTable[k + 1..];
          } else {
            k := k + 1;
          }
        } else {
          assert FreeScan(pageTable, k, v, n) == FreeScan(pageTable, k + 1, v, n);
          k := k + 1;
        }
      }
      assert FreeScan(pageTable, k, v, n) == Scan(false, pageTable, [], 0);
      assert freed + [] == freed;
      return Done(n);
    }

    /**
     * The growth half of sys_sbrk once the unused tail of the break's page
     * (`freeHeap` bytes) is not enough: `rest` more bytes need
     * GrowPages(rest) heap pages appended at the tail of the list from the
     * page of `cur_brk + free_heap`, one kmalloc'd node each; if kmalloc
     * runs dry the nodes added so far are unlinked and freed again. The walk
     * to the tail starts by reading `pte->next` of the head, so an empty
     * table is a NULL dereference before anything is added.
     */
    method GrowHeap(rest: int, freeHeap: int, kmallocBudget: nat) returns (r: Status)
      requires rest > 0 && 0 <= freeHeap < PAGE_SIZE
      modifies this
      ensures heapBase == old(heapBase) && stackPBase == old(stackPBase)
      ensures old(pageTable) == [] ==> r == Crash && curBrk == old(curBrk) && pageTable == []
      ensures old(pageTable) != [] ==>
        var n := GrowPages(rest);
        if n <= kmallocBudget then
          && r == Done(0) && curBrk == Wrap32(old(curBrk) + rest + freeHeap)
          && AppendsRun(old(pageTable), pageTable, PageDown(Wrap32(old(curBrk) + freeHeap)), n)
        else
          r == Done(ENOMEM) && curBrk == old(curBrk) && pageTable == old(pageTable)
    {
      var npages := 1 + (rest - 1) / PAGE_SIZE;
      assert npages == GrowPages(rest);
      if pageTable == [] {
        // while (pte->next != NULL) with pte == NULL
        return Crash;
      }
      var tailLen := |pageTable|;
      var heapPg := PageDown(Wrap32(curBrk + freeHeap));
      ghost var start := heapPg;
      var i := 0;
      while i < npages
        invariant 0 <= i <= npages
        invariant heapPg == Wrap32(start + i * PAGE_SIZE)
        invariant AppendsRun(old(pageTable), pageTable, start, i)
        invariant tailLen == |old(pageTable)|
        invariant heapBase == old(heapBase) && curBrk == old(curBrk) && stackPBase == old(stackPBase)
        invariant i <= kmallocBudget
      {
        if i == kmallocBudget {
          // kmalloc failed: unlink and free the nodes this call added
          if i == 0 {
            return Done(ENOMEM);
          }
          pageTable := pageTable[..tailLen];
          return Done(ENOMEM);
        }
        var swp: int := *;
        AppendsRunSnoc(old(pageTable), pageTable, start, i, PTE(heapPg, 0, PG_UNALOC, swp));
        pageTable := pageTable + [PTE(heapPg, 0, PG_UNALOC, swp)];
        WrapAdd(start + i * PAGE_SIZE, PAGE_SIZE);
        heapPg := Wrap32(heapPg + PAGE_SIZE);
        i := i + 1;
      }
      curBrk := Wrap32(curBrk + (rest + freeHeap));
      return Done(0);
    }

    /**
     * sys_sbrk on this address space (the current thread's). `amount` is an
     * `intptr_t`; the old break is reported as an `int32_t`. Growth first
     * uses the unused tail of the break's page, then appends heap pages at
     * the tail of the list; `kmallocBudget` is how many page-table nodes
     * kmalloc can still supply, and running out rolls back the nodes added
     * by this call; with an empty page table the walk to its tail
     * dereferences NULL and the growth crashes. A shrink below the heap base (compared in 32 bits) is
     * EINVAL; otherwise free_vpages drops the pages above the new break's
     * page, and its result must be 0 (KASSERT). The break is not lowered.
     */
    method SysSbrk(amount: int, kmallocBudget: nat, cm: Coremap) returns (r: Status, oldBrk: int)
      requires INT32_MIN <= amount <= INT32_MAX
      modifies this, cm.frames
      ensures oldBrk == ToInt32(old(curBrk))
      ensures heapBase == old(heapBase) && stackPBase == old(stackPBase)
      ensures amount >= 0 ==> cm.frames[..] == old(cm.frames[..])
      ensures amount == 0 ==> r == Done(0) && pageTable == old(pageTable) && curBrk == old(curBrk)
      ensures 0 < amount <= FreeHeap(old(curBrk), heapBase) ==>
        r == Done(0) && pageTable == old(pageTable) && curBrk == Wrap32(old(curBrk) + amount)
      ensures amount > FreeHeap(old(curBrk), heapBase) && old(pageTable) == [] ==>
        r == Crash && curBrk == old(curBrk) && pageTable == []
      ensures amount > FreeHeap(old(curBrk), heapBase) && old(pageTable) != [] ==>
        var fh := FreeHeap(old(curBrk), heapBase);
        var n := GrowPages(amount - fh);
        if n <= kmallocBudget then
          && r == Done(0) && curBrk == Wrap32(old(curBrk) + amount)
          && AppendsRun(old(pageTable), pageTable, PageDown(Wrap32(old(curBrk) + fh)), n)
        else
          r == Done(ENOMEM) && curBrk == old(curBrk) && pageTable == old(pageTable)
      ensures amount < 0 && Wrap32(old(curBrk) + amount) < heapBase ==>
        && r == Done(EINVAL) && curBrk == old(curBrk) && pageTable == old(pageTable)
        && cm.frames[..] == old(cm.frames[..])
      ensures amount < 0 && Wrap32(old(curBrk) + amount) >= heapBase ==>
        var sc := FreeScan(old(pageTable), 0, ShrinkStart(old(curBrk), amount), ShrinkCount(old(curBrk), amount));
        && curBrk == old(curBrk)
        && pageTable == sc.table
        && Subseq(pageTable, old(pageTable))
        && (forall e: PTE :: e.vpage !in sc.freed ==> multiset(pageTable)[e] == multiset(old(pageTable))[e])
        && |old(pageTable)| - |pageTable| <= |sc.freed|
        && r == (if sc.crashed || sc.left != 0 then Crash else Done(0))
        && cm.frames[..] == (if cm.initialized then ReleaseAll(old(cm.frames[..]), sc.freed) else old(cm.frames[..]))
    {
      oldBrk := ToInt32(curBrk);
      if amount == 0 {
        return Done(0), oldBrk;
      } else if amount > 0 {
        var freeHeap := 0;
        if curBrk != heapBase {
          freeHeap := PAGE_SIZE - curBrk % PAGE_SIZE;
          if freeHeap == PAGE_SIZE {
            freeHeap := 0;
          }
        }
        if amount <= freeHeap {
          curBrk := Wrap32(curBrk + amount);
          return Done(0), oldBrk;
        }
        assert freeHeap == FreeHeap(curBrk, heapBase);
        r := GrowHeap(amount - freeHeap, freeHeap, kmallocBudget);
        return r, oldBrk;
      } else {
        if Wrap32(curBrk + amount) < heapBase {
          return Done(EINVAL), oldBrk;
        }
        var oldBrkPage := PageDown(curBrk);
        var newBrkPage := PageDown(Wrap32(curBrk + amount));
        var ret := FreeVpages(Wrap32(newBrkPage + PAGE_SIZE), Wrap32(oldBrkPage - newBrkPage) / PAGE_SIZE, cm);
        if ret != Done(0) {
          // KASSERT(ret == 0)
          return Crash, oldBrk;
        }
      }
      return Done(0), oldBrk;
    }

    /**
     * as_destroy: every entry's frame is handed to free_coremap, in list
     * order (free_coremap is not part of this model, so the frames handed
     * over are the result), and the entries are discarded.
     */
    method AsDestroy() returns (freed: seq<U32>)
      modifies this
      ensures |freed| == |old(pageTable)|
      ensures forall i :: 0 <= i < |freed| ==> freed[i] == old(pageTable)[i].ppage
      ensures pageTable == []
    {
      freed := [];
      while pageTable != []
        invariant |freed| + |pageTable| == |old(pageTable)|
        invariant old(pageTable) == old(pageTable)[..|freed|] + pageTable
        invariant forall i :: 0 <= i < |freed| ==> freed[i] == old(pageTable)[i].ppage
      {
        freed := freed + [pageTable[0].ppage];
        pageTable := pageTable[1..];
      }
    }
  }

  /** as_create; `kmallocOk` is whether kmalloc found memory for the structure. */
  method AsCreate(kmallocOk: bool) returns (space: AddrSpace?)
    ensures !kmallocOk <==> space == null
    ensures space != null ==>
      (fresh(space) && space.pageTable == []
       && space.heapBase == 0 && space.curBrk == 0 && space.stackPBase == 0)
  {
    if !kmallocOk {
      return null;
    }
    space := new AddrSpace();
  }

  /** as_activate: every TLB slot gets the invalid entry (TLBHI_INVALID(i), TLBLO_INVALID). */
  method AsActivate(tlb: Tlb)
    requires tlb.slots.Length == NUM_TLB
    modifies tlb.slots
    ensures forall i :: 0 <= i < NUM_TLB ==> tlb.slots[i] == TlbEntry(TlbHiInvalid(i), 0)
    ensures forall i :: 0 <= i < NUM_TLB ==> !IsValid(tlb.slots[i])
  {
    var i := 0;
    while i < NUM_TLB
      invariant 0 <= i <= NUM_TLB
      invariant forall j :: 0 <= j < i ==> tlb.slots[j] == TlbEntry(TlbHiInvalid(j), 0)
    {
      tlb.slots[i] := TlbEntry(TlbHiInvalid(i), 0);
      i := i + 1;
    }
  }

  /** The entries as_activate writes never alias: each slot has its own EntryHi. */
  lemma InvalidEntriesDistinct(i: nat, j: nat)
    requires i < NUM_TLB && j < NUM_TLB
    ensures TlbHiInvalid(i) == TlbHiInvalid(j) <==> i == j
  {
  }

  lemma ResidentFramesSnoc(t: seq<PTE>, e: PTE)
    ensures ResidentFrames(t + [e]) == ResidentFrames(t) + (if e.state != PG_UNALOC then {e.ppage} else {})
  {
    var u := t + [e];
    assert forall i :: 0 <= i < |t| ==> u[i] == t[i];
    assert u[|t|] == e;
  }

  /**
   * The body of as_copy's loop for an entry that holds a frame: getppages(1)
   * claims the first free frame and memmove fills it with the bytes of the
   * entry's frame.
   */
  method CopyFrame(e: PTE, cm: Coremap, mem: PhysMem) returns (p: U32)
    requires cm.initialized
    requires DistinctPages(cm.frames[..])
    requires forall j :: 0 <= j < cm.frames.Length ==> cm.frames[j].ppage != 0
    requires FreeCount(cm.frames[..]) > 0
    modifies cm.frames, mem
    ensures p !in old(InUse(cm.frames[..]))
    ensures InUse(cm.frames[..]) == old(InUse(cm.frames[..])) + {p}
    ensures forall j :: 0 <= j < cm.frames.Length ==> cm.frames[j].ppage == old(cm.frames[j].ppage)
    ensures FreeCount(cm.frames[..]) == old(FreeCount(cm.frames[..])) - 1
    ensures mem.pages == old(mem.pages)[p := Bytes(old(mem.pages), e.ppage)]
  {
    ghost var before := cm.frames[..];
    FreeCountFindsFrame(before);
    ClaimAddsFrame(before);
    FreeCountClaimed(before, FirstFree(before).value);
    p := cm.GetPPages(1, 0);
    mem.pages := mem.pages[p := Bytes(mem.pages, e.ppage)];
  }

  /**
   * Entry `d` of the copy for entry `s` of the original: the same entry,
   * except that an entry with a frame has a frame that was not in use
   * (`used0`) holding the original frame's bytes.
   */
  predicate CopiedEntry(s: PTE, d: PTE, used0: set<U32>, m: map<U32, seq<bv8>>, m0: map<U32, seq<bv8>>)
  {
    && d == s.(ppage := d.ppage)
    && (s.state == PG_UNALOC ==> d == s)
    && (s.state != PG_UNALOC ==> d.ppage !in used0 && Bytes(m, d.ppage) == Bytes(m0, s.ppage))
  }

  /**
   * What as_copy's loop has established after `i` entries: `t` copies
   * src[..i] (CopiedEntry), the new frames are pairwise distinct, the frames
   * in use are the old ones plus the new ones, and the bytes of the frames
   * in use before are untouched.
   */
  ghost predicate CopyInv(src: seq<PTE>, t: seq<PTE>, used0: set<U32>, used: set<U32>,
                          m: map<U32, seq<bv8>>, m0: map<U32, seq<bv8>>)
  {
    && |t| <= |src|
    && (forall j :: 0 <= j < |t| ==> CopiedEntry(src[j], t[j], used0, m, m0))
    && (forall j1, j2 ::
         (0 <= j1 < j2 < |t| && src[j1].state != PG_UNALOC && src[j2].state != PG_UNALOC) ==> t[j1].ppage != t[j2].ppage)
    && used == used0 + ResidentFrames(t)
    && (forall p :: p in used0 ==> Bytes(m, p) == Bytes(m0, p))
  }

  lemma CopyStepResident(src: seq<PTE>, t: seq<PTE>, used0: set<U32>, used: set<U32>,
                         m: map<U32, seq<bv8>>, m0: map<U32, seq<bv8>>, p: U32)
    requires CopyInv(src, t, used0, used, m, m0)
    requires |t| < |src| && src[|t|].state != PG_UNALOC && src[|t|].ppage in used0
    requires p !in used
    ensures CopyInv(src, t + [src[|t|].(ppage := p)], used0, used + {p}, m[p := Bytes(m, src[|t|].ppage)], m0)
  {
    var e := src[|t|].(ppage := p);
    var t' := t + [e];
    var m' := m[p := Bytes(m, src[|t|].ppage)];
    ResidentFramesSnoc(t, e);
    forall j | 0 <= j < |t'|
      ensures CopiedEntry(src[j], t'[j], used0, m', m0)
    {
      if j < |t| && src[j].state != PG_UNALOC {
        assert t[j].ppage in ResidentFrames(t);
      }
    }
    forall j | 0 <= j < |t| && src[j].state != PG_UNALOC
      ensures t'[j].ppage != p
    {
      assert t[j].ppage in ResidentFrames(t);
    }
  }

  lemma CopyStepUnallocated(src: seq<PTE>, t: seq<PTE>, used0: set<U32>, used: set<U32>,
                            m: map<U32, seq<bv8>>, m0: map<U32, seq<bv8>>)
    requires CopyInv(src, t, used0, used, m, m0)
    requires |t| < |src| && src[|t|].state == PG_UNALOC
    ensures CopyInv(src, t + [src[|t|]], used0, used, m, m0)
  {
    ResidentFramesSnoc(t, src[|t|]);
  }

  /** as_copy's loop over the old list: the copied entries in list order. */
  method CopyTable(src: seq<PTE>, cm: Coremap, mem: PhysMem) returns (t: seq<PTE>)
    requires cm.initialized
    requires DistinctPages(cm.frames[..])
    requires forall j :: 0 <= j < cm.frames.Length ==> cm.frames[j].ppage != 0
    requires ResidentCount(src) <= FreeCount(cm.frames[..])
    requires ResidentFrames(src) <= InUse(cm.frames[..])
    modifies cm.frames, mem
    ensures |t| == |src|
    ensures CopyInv(src, t, old(InUse(cm.frames[..])), InUse(cm.frames[..]), mem.pages, old(mem.pages))
  {
    ghost var used0 := InUse(cm.frames[..]);
    ghost var frames0 := cm.frames[..];
    t := [];
    var i := 0;
    while i < |src|
      invariant 0 <= i <= |src| && |t| == i
      invariant CopyInv(src, t, used0, InUse(cm.frames[..]), mem.pages, old(mem.pages))
      invariant forall j :: 0 <= j < cm.frames.Length ==> cm.frames[j].ppage == frames0[j].ppage
      invariant FreeCount(cm.frames[..]) >= ResidentCount(src[i..])
    {
      var e := src[i];
      assert src[i..][1..] == src[i + 1..];
      if e.state != PG_UNALOC {
        assert DistinctPages(cm.frames[..]) by {
          assert forall j :: 0 <= j < cm.frames.Length ==> cm.frames[..][j].ppage == frames0[j].ppage;
        }
        assert e.ppage in ResidentFrames(src);
        ghost var used := InUse(cm.frames[..]);
        ghost var m := mem.pages;
        var p := CopyFrame(e, cm, mem);
        CopyStepResident(src, t, used0, used, m, old(mem.pages), p);
        e := e.(ppage := p);
      } else {
        CopyStepUnallocated(src, t, used0, InUse(cm.frames[..]), mem.pages, old(mem.pages));
      }
      t := t + [e];
      i := i + 1;
    }
  }

  /**
   * as_copy: a new address space (ENOMEM if as_create fails) whose list
   * copies the old one entry by entry; every entry with a frame gets a
   * frame of its own from getppages(1) and the old frame's bytes. The
   * coremap must be initialised, with distinct non-zero frame addresses,
   * enough free frames (getppages KASSERTs a non-zero address) and the old
   * entries' frames in use; the old list must not be empty (an empty one
   * leaves an uninitialised node behind). heap_base and cur_brk are not
   * copied: the copy gets as_create's zeros.
   */
  method AsCopy(src: AddrSpace, cm: Coremap, mem: PhysMem, kmallocOk: bool) returns (err: int, child: AddrSpace?)
    requires src.pageTable != []
    requires cm.initialized
    requires DistinctPages(cm.frames[..])
    requires forall j :: 0 <= j < cm.frames.Length ==> cm.frames[j].ppage != 0
    requires ResidentCount(src.pageTable) <= FreeCount(cm.frames[..])
    requires ResidentFrames(src.pageTable) <= InUse(cm.frames[..])
    modifies cm.frames, mem
    ensures !kmallocOk ==>
      err == ENOMEM && child == null && cm.frames[..] == old(cm.frames[..]) && mem.pages == old(mem.pages)
    ensures kmallocOk ==> err == 0 && child != null && fresh(child)
    ensures kmallocOk ==> child.heapBase == 0 && child.curBrk == 0 && child.stackPBase == 0
    ensures kmallocOk ==> |child.pageTable| == |src.pageTable|
    ensures kmallocOk ==>
      CopyInv(src.pageTable, child.pageTable, old(InUse(cm.frames[..])), InUse(cm.frames[..]), mem.pages, old(mem.pages))
  {
    child := AsCreate(kmallocOk);
    if child == null {
      return ENOMEM, null;
    }
    var t := CopyTable(src.pageTable, cm, mem);
    child.pageTable := t;
    return 0, child;
  }
}

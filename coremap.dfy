/**
 * The physical frame allocator of kern/arch/mips/vm/vm.c: the coremap, one
 * entry per usable frame of RAM, with a first-fit scan that claims frames and
 * a scan by kernel address that releases them.
 */
module Coremap {
  import opened Util
  import opened Kern

  /** sizeof(struct coremap_t) on 32-bit MIPS: a paddr_t, a pointer and three bools, padded to 12. */
  const COREMAP_ENTRY_SIZE: int := 12

  /**
   * One coremap entry. `pte` is the back-reference to the page-table entry
   * using the frame (a handle, never an ownership edge); `status` is the
   * in-use flag.
   */
  datatype Frame = Frame(ppage: U32, pte: Option<nat>, lruBit: bool, nxtPg: bool, status: bool)

  /** The entry coremap_init writes for the frame at `p`. */
  function FreshFrame(p: U32): Frame
  {
    Frame(p, None, false, false, false)
  }

  /** The index getppages claims: the lowest-index frame not in use. */
  function FirstFree(s: seq<Frame>): Option<nat>
  {
    FirstWhere(s, (f: Frame) => !f.status)
  }

  /** The index free_kpages releases: the first frame whose kernel address is `addr`. */
  function FrameAt(s: seq<Frame>, addr: U32): Option<nat>
  {
    FirstWhere(s, (f: Frame) => PaddrToKvaddr(f.ppage) == addr)
  }

  /** The coremap after frame `i` is marked in use. */
  function Claimed(s: seq<Frame>, i: nat): seq<Frame>
    requires i < |s|
  {
    s[i := s[i].(status := true)]
  }

  /** The coremap after free_kpages(addr) on an initialised allocator. */
  function Released(s: seq<Frame>, addr: U32): seq<Frame>
  {
    match FrameAt(s, addr)
    case None => s
    case Some(i) => s[i := s[i].(status := false)]
  }

  /** The physical addresses of the frames in use. */
  function InUse(s: seq<Frame>): set<U32>
  {
    set j | 0 <= j < |s| && s[j].status :: s[j].ppage
  }

  ghost predicate DistinctPages(s: seq<Frame>)
  {
    forall i, j :: 0 <= i < j < |s| ==> s[i].ppage != s[j].ppage
  }

  /** The number of frames not in use. */
  function FreeCount(s: seq<Frame>): (n: nat)
    ensures n <= |s|
  {
    if |s| == 0 then 0 else (if s[0].status then 0 else 1) + FreeCount(s[1..])
  }

  /** While a free frame is counted, the first-fit scan finds one. */
  lemma {:induction false} FreeCountFindsFrame(s: seq<Frame>)
    ensures FreeCount(s) > 0 <==> FirstFree(s).Some?
  {
    if |s| > 0 {
      FreeCountFindsFrame(s[1..]);
      if s[0].status && FirstFree(s[1..]).Some? {
        var k := FirstFree(s[1..]).value;
        assert !s[k + 1].status;
      }
      if s[0].status && FirstFree(s).Some? {
        var k := FirstFree(s).value;
        assert k > 0 && !s[1..][k - 1].status;
      }
    }
  }

  /** Claiming a free frame lowers the free count by exactly one. */
  lemma {:induction false} FreeCountClaimed(s: seq<Frame>, i: nat)
    requires i < |s| && !s[i].status
    ensures FreeCount(Claimed(s, i)) == FreeCount(s) - 1
  {
    if i > 0 {
      FreeCountClaimed(s[1..], i - 1);
      assert Claimed(s, i)[1..] == Claimed(s[1..], i - 1);
    } else {
      assert Claimed(s, i)[1..] == s[1..];
    }
  }

  /** coremap_pages: how many pages vm_bootstrap sets aside for the coremap of `n` frames. */
  function CoremapPages(n: nat): nat
  {
    (COREMAP_ENTRY_SIZE * n) / (PAGE_SIZE + 1) + 1
  }

  /**
   * The pages vm_bootstrap reserves hold the coremap entries of every frame
   * that remains usable after the reservation.
   */
  lemma ReservedPagesHoldCoremap(n: nat)
    ensures CoremapPages(n) >= 1
    ensures COREMAP_ENTRY_SIZE * (n - CoremapPages(n)) <= CoremapPages(n) * PAGE_SIZE
  {
    var q := (COREMAP_ENTRY_SIZE * n) / (PAGE_SIZE + 1);
    assert COREMAP_ENTRY_SIZE * n == (PAGE_SIZE + 1) * q + (COREMAP_ENTRY_SIZE * n) % (PAGE_SIZE + 1);
    assert COREMAP_ENTRY_SIZE * n < (PAGE_SIZE + 1) * (q + 1);
  }

  /** Claiming the first free frame adds exactly its address to the in-use set. */
  lemma ClaimAddsFrame(s: seq<Frame>)
    requires DistinctPages(s)
    requires FirstFree(s).Some?
    ensures var i := FirstFree(s).value;
      s[i].ppage !in InUse(s) && InUse(Claimed(s, i)) == InUse(s) + {s[i].ppage}
  {
    var i := FirstFree(s).value;
    var t := Claimed(s, i);
    forall p | p in InUse(t) ensures p in InUse(s) + {s[i].ppage} {
      var j :| 0 <= j < |t| && t[j].status && t[j].ppage == p;
      if j != i { assert s[j].status; }
    }
    forall p | p in InUse(s) + {s[i].ppage} ensures p in InUse(t) {
      if p == s[i].ppage {
        assert t[i].status;
      } else {
        var j :| 0 <= j < |s| && s[j].status && s[j].ppage == p;
        assert t[j] == s[j];
      }
    }
  }

  /**
   * Freeing the kernel address of a frame in use removes exactly that frame
   * from the in-use set.
   */
  lemma ReleaseRemovesFrame(s: seq<Frame>, i: nat)
    requires DistinctPages(s)
    requires i < |s| && s[i].status
    ensures InUse(Released(s, PaddrToKvaddr(s[i].ppage))) == InUse(s) - {s[i].ppage}
  {
    var kv := PaddrToKvaddr(s[i].ppage);
    var k := FrameAt(s, kv);
    assert k == Some(i) by {
      assert k.Some?;
      KvaddrInjective(s[k.value].ppage, s[i].ppage);
    }
    var t := Released(s, kv);
    forall p | p in InUse(t) ensures p in InUse(s) - {s[i].ppage} {
      var j :| 0 <= j < |t| && t[j].status && t[j].ppage == p;
      assert j != i && s[j] == t[j];
    }
    forall p | p in InUse(s) - {s[i].ppage} ensures p in InUse(t) {
      var j :| 0 <= j < |s| && s[j].status && s[j].ppage == p;
      assert j != i && s[j] == t[j];
    }
  }

  /** Allocating a frame and then freeing its kernel address restores the coremap exactly. */
  lemma ClaimThenReleaseRestores(s: seq<Frame>)
    requires DistinctPages(s)
    requires FirstFree(s).Some?
    ensures var i := FirstFree(s).value;
      Released(Claimed(s, i), PaddrToKvaddr(s[i].ppage)) == s
  {
    var i := FirstFree(s).value;
    var t := Claimed(s, i);
    var k := FrameAt(t, PaddrToKvaddr(s[i].ppage));
    assert k == Some(i) by {
      assert PaddrToKvaddr(t[i].ppage) == PaddrToKvaddr(s[i].ppage);
      assert k.Some?;
      KvaddrInjective(t[k.value].ppage, s[i].ppage);
    }
  }

  /** Two allocations in a row never hand out the same frame: the next one lies further up. */
  lemma ClaimedFrameNotReissued(s: seq<Frame>)
    requires FirstFree(s).Some?
    ensures var i := FirstFree(s).value;
      var n := FirstFree(Claimed(s, i));
      n.Some? ==> n.value > i
  {
  }

  class Coremap {
    /** coremap[0 .. ppages) */
    var frames: array<Frame>
    /** vm_initialized */
    var initialized: bool

    /** The allocator as the kernel image starts: no coremap, not initialised. */
    constructor ()
      ensures !initialized && frames.Length == 0 && fresh(frames)
    {
      frames := new Frame[0];
      initialized := false;
    }

    /** coremap_init: frame i at `loRam + i*PAGE_SIZE`, no owner, free. */
    method CoremapInit(loRam: U32)
      modifies frames
      ensures forall i :: 0 <= i < frames.Length ==> frames[i] == FreshFrame(Wrap32(loRam + i * PAGE_SIZE))
    {
      var lo: U32 := loRam;
      var i := 0;
      while i < frames.Length
        invariant 0 <= i <= frames.Length
        invariant lo == Wrap32(loRam + i * PAGE_SIZE)
        invariant forall j :: 0 <= j < i ==> frames[j] == FreshFrame(Wrap32(loRam + j * PAGE_SIZE))
      {
        frames[i] := FreshFrame(lo);
        WrapAddPage(loRam + i * PAGE_SIZE);
        lo := Wrap32(lo + PAGE_SIZE);
        i := i + 1;
      }
    }

    /**
     * vm_bootstrap: RAM [loRam, hiRam) as ram_getsize reports it; the first
     * CoremapPages(n) pages hold the coremap, the frames after them are
     * handed to the allocator, and the allocator is switched on.
     */
    method VmBootstrap(loRam: U32, hiRam: U32)
      requires loRam <= hiRam
      modifies this
      ensures initialized && fresh(frames)
      ensures var n := (hiRam - loRam) / PAGE_SIZE;
        frames.Length == (if n >= CoremapPages(n) then n - CoremapPages(n) else 0)
      ensures forall i :: 0 <= i < frames.Length ==>
        frames[i] == FreshFrame(loRam + (CoremapPages((hiRam - loRam) / PAGE_SIZE) + i) * PAGE_SIZE)
    {
      var ppages: int := (hiRam - loRam) / PAGE_SIZE;
      var coremapPages := CoremapPages(ppages);
      var lo := Wrap32(loRam + coremapPages * PAGE_SIZE);
      ppages := ppages - coremapPages;
      frames := new Frame[if ppages > 0 then ppages else 0];
      CoremapInit(lo);
      initialized := true;
      forall i | 0 <= i < frames.Length
        ensures frames[i] == FreshFrame(loRam + (coremapPages + i) * PAGE_SIZE)
      {
        assert (coremapPages + i) * PAGE_SIZE <= (hiRam - loRam) / PAGE_SIZE * PAGE_SIZE - PAGE_SIZE;
        assert lo == loRam + coremapPages * PAGE_SIZE;
        assert Wrap32(lo + i * PAGE_SIZE) == loRam + (coremapPages + i) * PAGE_SIZE;
      }
    }

    /**
     * getppages: before initialisation the frame is stolen from the top of
     * RAM (`stolen` is what ram_stealmem returned); afterwards the
     * lowest-index free frame is marked in use. `npages` is ignored once the
     * coremap exists: exactly one frame is claimed. The KASSERT that the
     * address is non-zero is the precondition.
     */
    method GetPPages(npages: int, stolen: U32) returns (addr: U32)
      requires !initialized ==> stolen != 0
      requires initialized ==> FirstFree(frames[..]).Some? && frames[FirstFree(frames[..]).value].ppage != 0
      modifies frames
      ensures addr != 0
      ensures !initialized ==> addr == stolen && frames[..] == old(frames[..])
      ensures initialized ==> var i := FirstFree(old(frames[..])).value;
        addr == old(frames[i].ppage) && frames[..] == Claimed(old(frames[..]), i)
    {
      addr := 0;
      if !initialized {
        addr := stolen;
      } else {
        ghost var i0 := FirstFree(frames[..]).value;
        var i := 0;
        while i < frames.Length
          invariant 0 <= i <= i0
          invariant frames[..] == old(frames[..])
        {
          if !frames[i].status {
            frames[i] := frames[i].(status := true);
            addr := frames[i].ppage;
            break;
          }
          i := i + 1;
        }
        assert frames[..] == Claimed(old(frames[..]), i0);
      }
      assert addr != 0;
    }

    /** alloc_kpages: the kseg0 address of the frame getppages returned (0 only if it returned 0). */
    method AllocKpages(npages: int, stolen: U32) returns (va: U32)
      requires !initialized ==> stolen != 0
      requires initialized ==> FirstFree(frames[..]).Some? && frames[FirstFree(frames[..]).value].ppage != 0
      modifies frames
      ensures !initialized ==> va == PaddrToKvaddr(stolen) && frames[..] == old(frames[..])
      ensures initialized ==> var i := FirstFree(old(frames[..])).value;
        va == PaddrToKvaddr(old(frames[i].ppage)) && frames[..] == Claimed(old(frames[..]), i)
    {
      var pa := GetPPages(npages, stolen);
      if pa == 0 {
        // getppages has already asserted a non-zero address
        assert false;
      }
      va := PaddrToKvaddr(pa);
    }

    /**
     * free_kpages: a no-op before initialisation; afterwards the first frame
     * whose kseg0 address is `addr` is marked free and nothing else changes.
     */
    method FreeKpages(addr: U32)
      modifies frames
      ensures frames[..] == if initialized then Released(old(frames[..]), addr) else old(frames[..])
    {
      if !initialized {
        return;
      }
      var i := 0;
      while i < frames.Length
        invariant 0 <= i <= frames.Length
        invariant frames[..] == old(frames[..])
        invariant forall j :: 0 <= j < i ==> PaddrToKvaddr(frames[j].ppage) != addr
      {
        var va := PaddrToKvaddr(frames[i].ppage);
        if va == addr {
          frames[i] := frames[i].(status := false);
          assert FrameAt(old(frames[..]), addr) == Some(i);
          return;
        }
        i := i + 1;
      }
    }
  }

  lemma WrapAddPage(x: int)
    ensures Wrap32(Wrap32(x) + PAGE_SIZE) == Wrap32(x + PAGE_SIZE)
  {
  }
}

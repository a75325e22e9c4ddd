/**
 * The software-managed TLB and the fault handler vm_fault of
 * kern/arch/mips/vm/vm.c. The hardware TLB is an array of (EntryHi,
 * EntryLo) pairs that tlb_read/tlb_write reach slot by slot. vm_fault reads
 * the dumbvm-style region fields (`as_vbase1`, `as_pbase1`, `as_npages1`,
 * ..., `as_stackpbase`) of the faulting address space; they are the
 * abstract parameters `Regions` here.
 */
module TlbFault {
  import opened Util
  import opened Kern

  const TLBLO_DIRTY: int := 0x400
  const TLBLO_VALID: int := 0x200

  const VM_FAULT_READ: int := 0
  const VM_FAULT_WRITE: int := 1
  const VM_FAULT_READONLY: int := 2

  datatype TlbEntry = TlbEntry(ehi: U32, elo: U32)

  /** TLBHI_INVALID(i): a distinct kseg0 page number per slot, so no two invalid entries clash. */
  function TlbHiInvalid(i: nat): U32
    requires i < NUM_TLB
  {
    (0x80000 + i) * PAGE_SIZE
  }

  /** `elo & TLBLO_VALID` is non-zero. */
  predicate IsValid(e: TlbEntry)
  {
    (e.elo / TLBLO_VALID) % 2 == 1
  }

  /** The EntryLo word vm_fault installs: `paddr | TLBLO_DIRTY | TLBLO_VALID` for a page-aligned paddr. */
  function MappingLo(paddr: U32): (elo: U32)
    requires paddr % PAGE_SIZE == 0
    ensures IsValid(TlbEntry(0, elo))
    ensures PageDown(elo) == paddr
    ensures (elo / TLBLO_DIRTY) % 2 == 1
  {
    var k := paddr / PAGE_SIZE;
    var elo := paddr + TLBLO_DIRTY + TLBLO_VALID;
    DivUnique(elo, TLBLO_VALID, 8 * k + 3, 0);
    DivUnique(elo, TLBLO_DIRTY, 4 * k + 1, 0x200);
    DivUnique(elo, PAGE_SIZE, k, 0x600);
    DivUnique(8 * k + 3, 2, 4 * k + 1, 1);
    DivUnique(4 * k + 1, 2, 2 * k, 1);
    elo
  }

  /** The hardware TLB. */
  class Tlb {
    var slots: array<TlbEntry>

    constructor (initial: seq<TlbEntry>)
      requires |initial| == NUM_TLB
      ensures slots[..] == initial && fresh(slots)
    {
      slots := new TlbEntry[NUM_TLB](i requires 0 <= i < NUM_TLB => initial[i]);
    }
  }

  /** The region fields vm_fault reads from the address space. */
  datatype Regions = Regions(vbase1: U32, pbase1: U32, npages1: U32,
                             vbase2: U32, pbase2: U32, npages2: U32,
                             stackpbase: U32)

  /** The KASSERTs vm_fault makes about the address space before using it. */
  predicate RegionsSetUp(rg: Regions)
  {
    && rg.vbase1 != 0 && rg.pbase1 != 0 && rg.npages1 != 0
    && rg.vbase2 != 0 && rg.pbase2 != 0 && rg.npages2 != 0
    && rg.stackpbase != 0
    && rg.vbase1 % PAGE_SIZE == 0 && rg.pbase1 % PAGE_SIZE == 0
    && rg.vbase2 % PAGE_SIZE == 0 && rg.pbase2 % PAGE_SIZE == 0
    && rg.stackpbase % PAGE_SIZE == 0
  }

  const STACKBASE: int := USERSTACK - STACKPAGES * PAGE_SIZE

  /** `vbase <= page < vtop`, with vtop computed in 32 bits as the C code does. */
  predicate InRegion(page: U32, vbase: U32, npages: U32)
  {
    vbase <= page < Wrap32(vbase + npages * PAGE_SIZE)
  }

  /**
   * Region classification of a page-aligned fault address: region 1, then
   * region 2, then the fixed 12-page stack below USERSTACK; the frame is the
   * region's physical base plus the page's offset into the region.
   */
  function RegionPaddr(rg: Regions, page: U32): (r: Option<U32>)
    requires RegionsSetUp(rg) && page % PAGE_SIZE == 0
    ensures r.None? <==>
      !InRegion(page, rg.vbase1, rg.npages1) && !InRegion(page, rg.vbase2, rg.npages2)
      && !(STACKBASE <= page < USERSTACK)
    ensures r.Some? ==> r.value % PAGE_SIZE == 0
  {
    if InRegion(page, rg.vbase1, rg.npages1) then Some(Translate(page, rg.vbase1, rg.pbase1))
    else if InRegion(page, rg.vbase2, rg.npages2) then Some(Translate(page, rg.vbase2, rg.pbase2))
    else if STACKBASE <= page < USERSTACK then Some(Translate(page, STACKBASE, rg.stackpbase))
    else None
  }

  /** `(faultaddress - vbase) + pbase` in 32 bits: page-aligned when all three are. */
  function Translate(page: U32, vbase: int, pbase: U32): (paddr: U32)
    requires page % PAGE_SIZE == 0 && vbase % PAGE_SIZE == 0 && pbase % PAGE_SIZE == 0
    ensures paddr % PAGE_SIZE == 0
  {
    AlignedSum(page - vbase, pbase);
    Wrap32(page - vbase + pbase)
  }

  lemma AlignedSum(a: int, b: int)
    requires a % PAGE_SIZE == 0 && b % PAGE_SIZE == 0
    ensures Wrap32(a + b) % PAGE_SIZE == 0
  {
    var s := a + b;
    var k := a / PAGE_SIZE + b / PAGE_SIZE;
    assert s == k * PAGE_SIZE;
    var w := s / WORD;
    assert Wrap32(s) == s - w * WORD;
    assert Wrap32(s) == (k - w * 0x10_0000) * PAGE_SIZE;
    DivUnique(Wrap32(s), PAGE_SIZE, k - w * 0x10_0000, 0);
  }

  /**
   * Within one region the translation is one-to-one: two different pages of
   * region 1 never share a frame, so long as the region's frames do not run
   * past the top of the physical address space.
   */
  lemma {:induction false} Region1Injective(rg: Regions, p: U32, q: U32)
    requires RegionsSetUp(rg) && p % PAGE_SIZE == 0 && q % PAGE_SIZE == 0
    requires InRegion(p, rg.vbase1, rg.npages1) && InRegion(q, rg.vbase1, rg.npages1)
    requires rg.pbase1 + rg.npages1 * PAGE_SIZE <= WORD
    requires vbase1Fits: rg.vbase1 + rg.npages1 * PAGE_SIZE <= WORD
    ensures RegionPaddr(rg, p) == RegionPaddr(rg, q) <==> p == q
    ensures RegionPaddr(rg, p) == Some(rg.pbase1 + (p - rg.vbase1))
  {
    assert Wrap32(rg.vbase1 + rg.npages1 * PAGE_SIZE) <= rg.vbase1 + rg.npages1 * PAGE_SIZE;
    assert p - rg.vbase1 + rg.pbase1 < WORD;
    assert q - rg.vbase1 + rg.pbase1 < WORD;
  }

  /**
   * The same for region 2, for the pages region 1 does not claim first.
   */
  lemma {:induction false} Region2Injective(rg: Regions, p: U32, q: U32)
    requires RegionsSetUp(rg) && p % PAGE_SIZE == 0 && q % PAGE_SIZE == 0
    requires !InRegion(p, rg.vbase1, rg.npages1) && !InRegion(q, rg.vbase1, rg.npages1)
    requires InRegion(p, rg.vbase2, rg.npages2) && InRegion(q, rg.vbase2, rg.npages2)
    requires rg.pbase2 + rg.npages2 * PAGE_SIZE <= WORD
    requires vbase2Fits: rg.vbase2 + rg.npages2 * PAGE_SIZE <= WORD
    ensures RegionPaddr(rg, p) == RegionPaddr(rg, q) <==> p == q
    ensures RegionPaddr(rg, p) == Some(rg.pbase2 + (p - rg.vbase2))
  {
    assert Wrap32(rg.vbase2 + rg.npages2 * PAGE_SIZE) <= rg.vbase2 + rg.npages2 * PAGE_SIZE;
    assert p - rg.vbase2 + rg.pbase2 < WORD;
    assert q - rg.vbase2 + rg.pbase2 < WORD;
  }

  /**
   * And for the 12 stack pages, for the pages neither region claims: the
   * stack frames are `as_stackpbase` plus the page's offset above STACKBASE.
   */
  lemma {:induction false} StackInjective(rg: Regions, p: U32, q: U32)
    requires RegionsSetUp(rg) && p % PAGE_SIZE == 0 && q % PAGE_SIZE == 0
    requires !InRegion(p, rg.vbase1, rg.npages1) && !InRegion(q, rg.vbase1, rg.npages1)
    requires !InRegion(p, rg.vbase2, rg.npages2) && !InRegion(q, rg.vbase2, rg.npages2)
    requires STACKBASE <= p < USERSTACK && STACKBASE <= q < USERSTACK
    requires rg.stackpbase + STACKPAGES * PAGE_SIZE <= WORD
    ensures RegionPaddr(rg, p) == RegionPaddr(rg, q) <==> p == q
    ensures RegionPaddr(rg, p) == Some(rg.stackpbase + (p - STACKBASE))
  {
    assert p - STACKBASE + rg.stackpbase < WORD;
    assert q - STACKBASE + rg.stackpbase < WORD;
  }

  /** vm_fault as a function of its inputs and the TLB contents: the result and the new TLB. */
  function Fault(faulttype: int, faultaddress: U32, space: Option<Regions>, tlb: seq<TlbEntry>): (r: (Status, seq<TlbEntry>))
    requires (faulttype == VM_FAULT_READ || faulttype == VM_FAULT_WRITE) && space.Some? ==> RegionsSetUp(space.value)
    ensures |r.1| == |tlb|
    ensures r.0 != Done(0) ==> r.1 == tlb
    ensures r.0 == Done(0) ==>
      exists i :: 0 <= i < |tlb| && !IsValid(tlb[i]) && r.1 == tlb[i := r.1[i]]
                  && IsValid(r.1[i]) && r.1[i].ehi == PageDown(faultaddress)
  {
    var page := PageDown(faultaddress);
    if faulttype == VM_FAULT_READONLY then (Crash, tlb)
    else if faulttype != VM_FAULT_READ && faulttype != VM_FAULT_WRITE then (Done(EINVAL), tlb)
    else if space.None? then (Done(EFAULT), tlb)
    else match RegionPaddr(space.value, page)
      case None => (Done(EFAULT), tlb)
      case Some(paddr) =>
        match FirstWhere(tlb, (e: TlbEntry) => !IsValid(e))
        case None => (Done(EFAULT), tlb)
        case Some(i) => (Done(0), tlb[i := TlbEntry(page, MappingLo(paddr))])
  }

  /** Read faults and write faults are handled identically. */
  lemma ReadWriteAlike(faultaddress: U32, space: Option<Regions>, tlb: seq<TlbEntry>)
    requires space.Some? ==> RegionsSetUp(space.value)
    ensures Fault(VM_FAULT_READ, faultaddress, space, tlb) == Fault(VM_FAULT_WRITE, faultaddress, space, tlb)
  {
  }

  /**
   * A successful fault writes the mapping (page, paddr|DIRTY|VALID) into the
   * lowest-index slot that lacks VALID, for the frame the region lookup gives.
   */
  lemma FaultInstallsInLowestInvalidSlot(faulttype: int, faultaddress: U32, rg: Regions, tlb: seq<TlbEntry>)
    requires faulttype == VM_FAULT_READ || faulttype == VM_FAULT_WRITE
    requires RegionsSetUp(rg)
    requires Fault(faulttype, faultaddress, Some(rg), tlb).0 == Done(0)
    ensures var page := PageDown(faultaddress);
      var i := FirstWhere(tlb, (e: TlbEntry) => !IsValid(e));
      && RegionPaddr(rg, page).Some? && i.Some?
      && Fault(faulttype, faultaddress, Some(rg), tlb).1
         == tlb[i.value := TlbEntry(page, MappingLo(RegionPaddr(rg, page).value))]
      && forall j :: 0 <= j < i.value ==> IsValid(tlb[j])
  {
  }

  /** A fault outside both regions and the stack fails with EFAULT and changes nothing. */
  lemma FaultOutsideRegionsIsEfault(faulttype: int, faultaddress: U32, rg: Regions, tlb: seq<TlbEntry>)
    requires faulttype == VM_FAULT_READ || faulttype == VM_FAULT_WRITE
    requires RegionsSetUp(rg)
    requires var page := PageDown(faultaddress);
      !InRegion(page, rg.vbase1, rg.npages1) && !InRegion(page, rg.vbase2, rg.npages2)
      && !(STACKBASE <= page < USERSTACK)
    ensures Fault(faulttype, faultaddress, Some(rg), tlb) == (Done(EFAULT), tlb)
  {
  }

  /** A full TLB (every slot valid) makes the fault fail with EFAULT and leaves the TLB alone. */
  lemma FullTlbIsEfault(faulttype: int, faultaddress: U32, space: Option<Regions>, tlb: seq<TlbEntry>)
    requires (faulttype == VM_FAULT_READ || faulttype == VM_FAULT_WRITE) && space.Some? ==> RegionsSetUp(space.value)
    requires forall j :: 0 <= j < |tlb| ==> IsValid(tlb[j])
    ensures Fault(faulttype, faultaddress, space, tlb).0 != Done(0)
    ensures Fault(faulttype, faultaddress, space, tlb).1 == tlb
  {
  }

  /**
   * vm_fault. The read-only fault is the panic of the source (`Crash`); the
   * KASSERTs on the address space are the precondition; the TLB slot loop
   * reads each slot and writes the mapping into the first one without VALID.
   */
  method VmFault(faulttype: int, faultaddress: U32, space: Option<Regions>, tlb: Tlb) returns (r: Status)
    requires tlb.slots.Length == NUM_TLB
    requires (faulttype == VM_FAULT_READ || faulttype == VM_FAULT_WRITE) && space.Some? ==> RegionsSetUp(space.value)
    modifies tlb.slots
    ensures (r, tlb.slots[..]) == Fault(faulttype, faultaddress, space, old(tlb.slots[..]))
  {
    var page := PageDown(faultaddress);
    if faulttype == VM_FAULT_READONLY {
      return Crash;
    } else if faulttype != VM_FAULT_READ && faulttype != VM_FAULT_WRITE {
      return Done(EINVAL);
    }
    if space.None? {
      return Done(EFAULT);
    }
    var rg := space.value;
    var vtop1 := Wrap32(rg.vbase1 + rg.npages1 * PAGE_SIZE);
    var vtop2 := Wrap32(rg.vbase2 + rg.npages2 * PAGE_SIZE);
    var paddr: U32;
    if page >= rg.vbase1 && page < vtop1 {
      paddr := Wrap32((page - rg.vbase1) + rg.pbase1);
    } else if page >= rg.vbase2 && page < vtop2 {
      paddr := Wrap32((page - rg.vbase2) + rg.pbase2);
    } else if page >= STACKBASE && page < USERSTACK {
      paddr := Wrap32((page - STACKBASE) + rg.stackpbase);
    } else {
      return Done(EFAULT);
    }
    assert RegionPaddr(rg, page) == Some(paddr);
    var i := 0;
    while i < NUM_TLB
      invariant 0 <= i <= NUM_TLB
      invariant tlb.slots[..] == old(tlb.slots[..])
      invariant forall j :: 0 <= j < i ==> IsValid(tlb.slots[j])
    {
      var e := tlb.slots[i];
      if IsValid(e) {
        i := i + 1;
        continue;
      }
      tlb.slots[i] := TlbEntry(page, MappingLo(paddr));
      assert FirstWhere(old(tlb.slots[..]), (e: TlbEntry) => !IsValid(e)) == Some(i);
      return Done(0);
    }
    return Done(EFAULT);
  }
}

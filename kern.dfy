/**
 * Machine and kernel constants shared by the memory manager and the
 * system-call layer (MIPS r3000, 4 KiB pages, 32-bit words), and the
 * 32-bit arithmetic the C code performs on `vaddr_t`, `paddr_t` and `size_t`.
 */
module Kern {

  const WORD: int := 0x1_0000_0000
  const INT32_MIN: int := -0x8000_0000
  const INT32_MAX: int := 0x7fff_ffff

  /** An unsigned 32-bit C value (`vaddr_t`, `paddr_t`, `size_t`, `uint32_t`). */
  type U32 = x: int | 0 <= x < 0x1_0000_0000

  const PAGE_SIZE: int := 4096
  /** PADDR_TO_KVADDR adds the base of the direct-mapped kernel segment kseg0. */
  const MIPS_KSEG0: int := 0x8000_0000
  /** Top of the user stack: the end of user space. */
  const USERSTACK: int := 0x8000_0000
  const NUM_TLB: int := 64
  /** Pages given to every user stack (`_STACKPAGES` / `STACKPAGES`). */
  const STACKPAGES: int := 12

  // errno values
  const ENOSYS: int := 1
  const ENOMEM: int := 3
  const EFAULT: int := 6
  const EINVAL: int := 8
  const EMFILE: int := 28
  const EBADF: int := 30

  /** How a kernel operation ended: it returned `err`, or the kernel died
      (panic, failed KASSERT, NULL dereference). */
  datatype Status = Done(err: int) | Crash

  /** Reduction of an integer to the 32-bit unsigned C type. */
  function Wrap32(x: int): (r: U32)
    ensures x - r == (x / WORD) * WORD
  {
    x % WORD
  }

  /** `a & PAGE_FRAME`: the address of the page holding `a`. */
  function PageDown(a: U32): (r: U32)
    ensures r <= a < r + PAGE_SIZE && r % PAGE_SIZE == 0
  {
    a - a % PAGE_SIZE
  }

  /** Conversion of an unsigned 32-bit value to a two's-complement `int32_t`. */
  function ToInt32(x: U32): (r: int)
    ensures INT32_MIN <= r <= INT32_MAX
    ensures Wrap32(r) == x
  {
    if x <= INT32_MAX then x else x - WORD
  }

  /** A value that fits in an `int32_t` survives the trip through 32 unsigned bits. */
  lemma Int32Unique(x: int, u: U32)
    requires INT32_MIN <= x <= INT32_MAX && Wrap32(x) == u
    ensures ToInt32(u) == x
  {
  }

  /** PADDR_TO_KVADDR: the kseg0 address through which the kernel reaches a frame. */
  function PaddrToKvaddr(p: U32): U32
  {
    Wrap32(p + MIPS_KSEG0)
  }

  /** Reducing to 32 bits before or after an addition gives the same word. */
  lemma WrapAdd(x: int, d: int)
    ensures Wrap32(Wrap32(x) + d) == Wrap32(x + d)
  {
    var q := x / WORD;
    assert Wrap32(x) + d == (x + d) - q * WORD;
    ModShift(x + d, q);
  }

  /** Reduction to 32 bits keeps a multiple of 4 a multiple of 4. */
  lemma WrapKeepsMultipleOf4(m: int)
    ensures Wrap32(4 * m) % 4 == 0
  {
    var q := (4 * m) / WORD;
    assert Wrap32(4 * m) == 4 * (m - q * 0x4000_0000);
    DivUnique(Wrap32(4 * m), 4, m - q * 0x4000_0000, 0);
  }

  /** Division by a positive constant is determined by any quotient/remainder pair. */
  lemma DivUnique(x: int, d: int, q: int, m: int)
    requires 0 < d && x == q * d + m && 0 <= m < d
    ensures x / d == q && x % d == m
  {
    var q', m' := x / d, x % d;
    assert x == q' * d + m';
    if q' > q {
      MulGrows(q + 1, q', d);
      assert false;
    } else if q' < q {
      MulGrows(q' + 1, q, d);
      assert false;
    }
  }

  lemma MulGrows(a: int, b: int, d: int)
    requires a <= b && 0 < d
    ensures a * d <= b * d
  {
    assert b * d - a * d == (b - a) * d;
  }

  lemma ModShift(y: int, q: int)
    ensures (y - q * WORD) % WORD == y % WORD
  {
  }

  lemma KvaddrInjective(p: U32, q: U32)
    ensures PaddrToKvaddr(p) == PaddrToKvaddr(q) <==> p == q
  {
  }
}

/**
 * The system-call dispatcher of kern/arch/mips/syscall/syscall.c: the call
 * number comes in `v0`; the handler for it runs; its error code or its
 * return value goes back in `v0`, with `a3` saying which of the two it is;
 * and `epc` moves past the `syscall` instruction. The handlers themselves
 * are modelled in their own modules; here what a handler does is an input.
 */
module Syscall {
  import opened Util
  import opened Kern

  // call numbers
  const SYS_fork: int := 0
  const SYS__exit: int := 3
  const SYS_waitpid: int := 4
  const SYS_getpid: int := 5
  const SYS_open: int := 45
  const SYS_close: int := 49
  const SYS_read: int := 50
  const SYS_write: int := 55
  const SYS___time: int := 113
  const SYS_reboot: int := 119

  /** The call numbers the dispatcher has a case for. */
  predicate Known(callno: int)
  {
    callno in {SYS_fork, SYS__exit, SYS_waitpid, SYS_getpid, SYS_open, SYS_close,
               SYS_read, SYS_write, SYS___time, SYS_reboot}
  }

  /** The handlers that are handed `&retval` and may store a return value through it. */
  predicate SetsRetval(callno: int)
  {
    callno in {SYS_fork, SYS_waitpid, SYS_getpid, SYS_open, SYS_read, SYS_write}
  }

  /** The registers of struct trapframe the dispatcher reads and writes. */
  class Trapframe {
    var v0: U32
    var a0: U32
    var a3: U32
    var epc: U32

    constructor (v0: U32, a0: U32, a3: U32, epc: U32)
      ensures this.v0 == v0 && this.a0 == a0 && this.a3 == a3 && this.epc == epc
    {
      this.v0 := v0;
      this.a0 := a0;
      this.a3 := a3;
      this.epc := epc;
    }
  }

  /**
   * What a handler did: the error it returned and, when it stored one, the
   * value it wrote through `&retval` (an `int32_t`).
   */
  datatype HandlerResult = HandlerResult(err: int, stored: Option<int>)

  /** `retval` before the handler runs: 0, or `a0` as an `int32_t` for waitpid. */
  function InitialRetval(callno: int, a0: U32): (r: int)
    ensures INT32_MIN <= r <= INT32_MAX
    ensures callno != SYS_waitpid ==> r == 0
    ensures callno == SYS_waitpid ==> Wrap32(r) == a0
  {
    if callno == SYS_waitpid then ToInt32(a0) else 0
  }

  /** `err` after the switch: the handler's, or ENOSYS when no case matches. */
  function DispatchErr(callno: int, h: HandlerResult): int
  {
    if Known(callno) then h.err else ENOSYS
  }

  /** `retval` after the switch: what the handler stored, else its initial value. */
  function DispatchRetval(callno: int, a0: U32, h: HandlerResult): int
  {
    if SetsRetval(callno) && h.stored.Some? then h.stored.value else InitialRetval(callno, a0)
  }

  /** The `(v0, a3)` pair the dispatcher leaves for user level. */
  function EncodeResult(err: int, retval: int): (r: (U32, U32))
    ensures r.1 == 1 <==> err != 0
    ensures r.1 == 0 <==> err == 0
  {
    if err != 0 then (Wrap32(err), 1) else (Wrap32(retval), 0)
  }

  /** What a user program receives: an error code for errno, or a return value. */
  datatype UserResult = Failed(errno: int) | Succeeded(value: int)

  /**
   * The user-level side of the convention: `a3` set means `v0` is an error
   * code, clear means `v0` is the (signed) return value.
   */
  function DecodeResult(v0: U32, a3: U32): UserResult
  {
    if a3 != 0 then Failed(ToInt32(v0)) else Succeeded(ToInt32(v0))
  }

  /**
   * User level recovers exactly what the kernel meant: the error when there
   * is one, else the return value, for any error code and return value
   * that fit in 32 signed bits.
   */
  lemma EncodeDecode(err: int, retval: int)
    requires INT32_MIN <= err <= INT32_MAX && INT32_MIN <= retval <= INT32_MAX
    ensures var (v0, a3) := EncodeResult(err, retval);
      DecodeResult(v0, a3) == if err != 0 then Failed(err) else Succeeded(retval)
  {
    if err != 0 {
      Int32Unique(err, Wrap32(err));
    } else {
      Int32Unique(retval, Wrap32(retval));
    }
  }

  /** A call number with no case fails with ENOSYS, whatever the handler would have done. */
  lemma UnknownCallFails(callno: int, a0: U32, h: HandlerResult)
    requires !Known(callno)
    ensures var (v0, a3) := EncodeResult(DispatchErr(callno, h), DispatchRetval(callno, a0, h));
      DecodeResult(v0, a3) == Failed(ENOSYS)
  {
    EncodeDecode(ENOSYS, 0);
  }

  /**
   * A handler that succeeds without storing a value leaves 0 in v0, except
   * waitpid, which hands back its own argument.
   */
  lemma QuietSuccessReturnsInitial(callno: int, a0: U32, h: HandlerResult)
    requires Known(callno) && h.err == 0 && h.stored.None?
    ensures var (v0, a3) := EncodeResult(DispatchErr(callno, h), DispatchRetval(callno, a0, h));
      && a3 == 0
      && (callno != SYS_waitpid ==> v0 == 0)
      && (callno == SYS_waitpid ==> v0 == a0)
  {
  }

  /**
   * syscall(tf): dispatch on `v0` (read as an `int`), then write the
   * result back and step `epc` over the instruction, in 32-bit arithmetic.
   * _exit does not come back (its handler ends the thread), so the
   * trapframe is left as it was.
   */
  method Dispatch(tf: Trapframe, h: HandlerResult)
    modifies tf
    ensures tf.a0 == old(tf.a0)
    ensures ToInt32(old(tf.v0)) == SYS__exit ==> unchanged(tf)
    ensures ToInt32(old(tf.v0)) != SYS__exit ==>
      var callno := ToInt32(old(tf.v0));
      && (tf.v0, tf.a3) == EncodeResult(DispatchErr(callno, h), DispatchRetval(callno, old(tf.a0), h))
      && tf.epc == Wrap32(old(tf.epc) + 4)
  {
    var callno := ToInt32(tf.v0);
    var retval := 0;
    var err := 0;
    if callno == SYS__exit {
      return;
    } else if callno == SYS_waitpid {
      retval := ToInt32(tf.a0);
      err := h.err;
      if h.stored.Some? {
        retval := h.stored.value;
      }
    } else if SetsRetval(callno) {
      err := h.err;
      if h.stored.Some? {
        retval := h.stored.value;
      }
    } else if Known(callno) {
      err := h.err;
    } else {
      err := ENOSYS;
    }
    if err != 0 {
      tf.v0 := Wrap32(err);
      tf.a3 := 1;
    } else {
      tf.v0 := Wrap32(retval);
      tf.a3 := 0;
    }
    tf.epc := Wrap32(tf.epc + 4);
  }
}

/**
 * kern/process/wait_exit.c: sys_waitpid unlinks a child from the caller's
 * child list and reports its exit status, destroy_process_table returns
 * the child's PID to the allocator, adopt_grand_children hands an exiting
 * process's children to its father, and sys__exit drops the exiting
 * process's references to its open files. The locks and the condition
 * variable the source waits on are not part of this model; the path
 * modelled is a child that exits while its parent is already blocked in
 * cv_wait. A child that exits first has spent its one cv_signal with
 * nobody waiting, and the parent then sleeps forever, which is not
 * represented.
 */
module WaitExit {
  import opened Util
  import opened Kern
  import opened Processes
  import Pids

  // ------------------------------------------------------- status encoding

  /** __WEXITED: the low two bits of a status for a process that exited. */
  const WEXITED: int := 0

  /** `_MKWVAL(exit_code) | __WEXITED`: the code shifted up two bits, as the 32 bits copied out. */
  function MkWaitStatus(exitCode: int): (s: U32)
    ensures s % 4 == WEXITED
  {
    WrapKeepsMultipleOf4(exitCode);
    Wrap32(4 * exitCode)
  }

  /** WEXITSTATUS: the status shifted back down, arithmetically, as a signed int. */
  function WExitStatus(s: U32): int
  {
    ToInt32(s) / 4
  }

  /**
   * Every status waitpid reports says "exited", and an exit code that fits
   * in the 30 bits left after the shift comes back out unchanged.
   */
  lemma WaitStatusRoundTrip(exitCode: int)
    requires -0x2000_0000 <= exitCode < 0x2000_0000
    ensures MkWaitStatus(exitCode) % 4 == WEXITED
    ensures WExitStatus(MkWaitStatus(exitCode)) == exitCode
  {
    Int32Unique(4 * exitCode, MkWaitStatus(exitCode));
  }

  // ------------------------------------------------------------- waitpid

  /** The position of the first child with PID `pid`: where the list walk stops. */
  function WaitTarget(children: seq<Process>, pid: int): (r: Option<nat>)
    ensures r.Some? ==> r.value < |children| && children[r.value].pid == pid
    ensures r.Some? ==> forall j :: 0 <= j < r.value ==> children[j].pid != pid
    ensures r.None? <==> forall j :: 0 <= j < |children| ==> children[j].pid != pid
  {
    FirstWhere(children, (c: Process) => c.pid == pid)
  }

  /** The list with its node at position `k` unlinked. */
  function RemoveAt<T>(s: seq<T>, k: nat): seq<T>
    requires k < |s|
  {
    s[..k] + s[k + 1..]
  }

  /**
   * Unlinking a node removes exactly that one child: one element fewer, the
   * others kept in their order.
   */
  lemma RemoveAtDropsOne<T>(s: seq<T>, k: nat)
    requires k < |s|
    ensures |RemoveAt(s, k)| == |s| - 1
    ensures multiset(RemoveAt(s, k)) + multiset{s[k]} == multiset(s)
    ensures Subseq(RemoveAt(s, k), s)
  {
    assert s == s[..k] + [s[k]] + s[k + 1..];
    SubseqRefl(RemoveAt(s, k));
    SubseqDropOne(RemoveAt(s, k), s, k);
  }

  /**
   * destroy_process_table: the child's PID goes back to the allocator. A
   * PID outside the bitmap (get_pid's -1, which create_process_table keeps)
   * makes clear_pid shift by a negative amount: undefined, Crash here.
   */
  method DestroyProcessTable(child: Process, pids: Pids.PidTable) returns (r: Status)
    requires pids.Valid()
    modifies pids, pids.pidMap
    ensures pids.Valid() && pids.pidMap == old(pids.pidMap)
    ensures !(0 <= child.pid < Pids.MAX_PID) ==> r == Crash && unchanged(pids, pids.pidMap)
    ensures 0 <= child.pid < Pids.MAX_PID ==>
      && r == Done(0)
      && pids.pidMap[..] == old(pids.pidMap[..])[child.pid / 32 := Pids.ClearWord(old(pids.pidMap[child.pid / 32]), Pids.BitOf(child.pid))]
      && pids.pidCount == old(pids.pidCount) - 1
  {
    if !(0 <= child.pid < Pids.MAX_PID) {
      return Crash;
    }
    pids.ClearPid(child.pid);
    r := Done(0);
  }

  /**
   * sys_waitpid for the caller `cur`. `pid` is the PID asked for, `options`
   * the options word; `copyinOk`/`copyoutOk` say whether the user-copy
   * routines succeed (a failure trips a KASSERT). The error cases return 1,
   * not an errno. Unlinking the head node dereferences its successor, so
   * waiting for an only child crashes after the list has been emptied.
   * `pidOut` is what is written back through `pid`.
   */
  method SysWaitpid(cur: Process, pid: int, options: int, copyinOk: bool, copyoutOk: bool,
                    pids: Pids.PidTable)
    returns (r: Status, pidOut: int, status: U32)
    requires pids.Valid()
    modifies cur, pids, pids.pidMap
    ensures pids.Valid() && pids.pidMap == old(pids.pidMap)
    ensures cur.status == old(cur.status) && cur.father == old(cur.father)
    ensures cur.exitCode == old(cur.exitCode) && cur.openFileCount == old(cur.openFileCount)
    ensures !copyinOk ==> r == Crash && cur.children == old(cur.children)
    ensures copyinOk && (options != 0 || WaitTarget(old(cur.children), pid).None?) ==>
      && r == Done(1) && pidOut == pid
      && cur.children == old(cur.children)
      && unchanged(pids, pids.pidMap)
    ensures copyinOk && options == 0 && WaitTarget(old(cur.children), pid).Some? ==>
      var k := WaitTarget(old(cur.children), pid).value;
      var child := old(cur.children)[k];
      if k == 0 && |old(cur.children)| == 1 then
        r == Crash && cur.children == []
      else
        && cur.children == RemoveAt(old(cur.children), k)
        && status == MkWaitStatus(child.exitCode)
        && pidOut == child.pid
        && (!copyoutOk || !(0 <= child.pid < Pids.MAX_PID) ==> r == Crash)
        && (copyoutOk && 0 <= child.pid < Pids.MAX_PID ==>
              && r == Done(0)
              && pids.pidMap[..] == old(pids.pidMap[..])[child.pid / 32 := Pids.ClearWord(old(pids.pidMap[child.pid / 32]), Pids.BitOf(child.pid))]
              && pids.pidCount == old(pids.pidCount) - 1)
  {
    pidOut := pid;
    status := 0;
    if !copyinOk {
      return Crash, pidOut, status;
    }
    if options != 0 {
      return Done(1), pidOut, status;
    }
    if |cur.children| == 0 {
      return Done(1), pidOut, status;
    }
    var i := 0;
    var child: Process? := null;
    while i < |cur.children|
      invariant 0 <= i <= |cur.children|
      invariant cur.children == old(cur.children)
      invariant forall j :: 0 <= j < i ==> cur.children[j].pid != pid
      decreases |cur.children| - i
    {
      if cur.children[i].pid == pid {
        child := cur.children[i];
        assert WaitTarget(old(cur.children), pid) == Some(i);
        if i == 0 {
          cur.children := cur.children[1..];
          if |cur.children| == 0 {
            return Crash, pidOut, status;
          }
          assert cur.children == RemoveAt(old(cur.children), 0);
        } else {
          cur.children := RemoveAt(cur.children, i);
        }
        break;
      }
      i := i + 1;
    }
    if child == null {
      return Done(1), pidOut, status;
    }
    status := MkWaitStatus(child.exitCode);
    pidOut := child.pid;
    if !copyoutOk {
      return Crash, pidOut, status;
    }
    r := DestroyProcessTable(child, pids);
  }

  // ------------------------------------------------------------- exit

  /**
   * adopt_grand_children: every child gets `newParent` as its father, then
   * the children are appended after the last node of `newParent`'s list.
   * Finding that last node dereferences the father and its list head, and
   * linking back dereferences the first child, so a missing father, a
   * father without children, or no children to hand over all crash, after
   * the fathers have been reassigned.
   */
  method AdoptGrandChildren(children: seq<Process>, newParent: Process?) returns (r: Status)
    modifies (set c | c in children), newParent
    ensures forall c :: c in children ==> c.father == newParent
    ensures r == Crash <==> newParent == null || old(newParent.children) == [] || children == []
    ensures r != Crash ==> r == Done(0) && newParent.children == old(newParent.children) + children
    ensures r == Crash && newParent != null ==> newParent.children == old(newParent.children)
    ensures forall c :: c in children ==> c.children == old(c.children) || c == newParent
    ensures newParent != null && newParent !in children ==> newParent.father == old(newParent.father)
    ensures forall c :: c in children ==> c.openFileCount == old(c.openFileCount)
    ensures newParent != null ==> newParent.openFileCount == old(newParent.openFileCount)
  {
    var i := 0;
    while i < |children|
      invariant 0 <= i <= |children|
      invariant forall j :: 0 <= j < i ==> children[j].father == newParent
      invariant newParent != null ==> newParent.children == old(newParent.children)
      invariant forall c :: c in children ==> c.children == old(c.children)
      invariant forall c :: c in children ==> c.openFileCount == old(c.openFileCount)
      invariant newParent != null ==> newParent.openFileCount == old(newParent.openFileCount)
      invariant newParent != null && newParent !in children ==> newParent.father == old(newParent.father)
    {
      children[i].father := newParent;
      i := i + 1;
    }
    if newParent == null || newParent.children == [] || children == [] {
      return Crash;
    }
    // the walk to the last node of newParent's list ends at its last element
    newParent.children := newParent.children + children;
    r := Done(0);
  }

  /**
   * Slot `i` points at a handle whose count already came down to 0 at an
   * earlier slot of the table, when every slot drops one reference in
   * order: the count it started with equals the slots before `i` that
   * point at it.
   */
  ghost predicate ReleasedBefore(t: seq<FileHandle?>, i: int)
    requires 0 <= i < |t|
    reads Handles(t)
  {
    t[i] != null && 1 <= t[i].openCount == Count(t[..i], t[i])
  }

  /**
   * When every count covers its slots, the exit loop never meets a
   * released handle: each handle's last reference is the one that brings
   * it to 0.
   */
  lemma CoveredTableNeverReleasedEarly(t: seq<FileHandle?>, i: int)
    requires 0 <= i < |t|
    requires CountsCoverSlots(t)
    ensures !ReleasedBefore(t, i)
  {
    if t[i] != null {
      CountPrefix(t, i + 1, t[i]);
      assert t[..i + 1] == t[..i] + [t[i]];
      CountSnoc(t[..i], t[i], t[i]);
    }
  }

  /**
   * The file-table loop of sys__exit: every slot, in order, drops one
   * reference to its handle, and a handle whose count reaches 0 is closed
   * and freed (`closed`, in the order they are closed). Every slot is
   * dereferenced, so an empty slot crashes (`crashed`), and so does a slot
   * whose handle an earlier slot already freed.
   */
  method ReleaseSlots(table: array<FileHandle?>) returns (crashed: bool, closed: seq<FileHandle>)
    modifies Handles(table[..])
    ensures crashed <==> exists i :: 0 <= i < table.Length &&
                           (table[i] == null || old(ReleasedBefore(table[..], i)))
    ensures !crashed ==> forall g :: g in Handles(table[..]) ==>
                           g.openCount == old(g.openCount) - Count(table[..], g)
    ensures !crashed ==> forall g :: g in closed <==>
                           g in Handles(table[..]) && old(g.openCount) == Count(table[..], g)
  {
    ghost var t := table[..];
    closed := [];
    var i := 0;
    while i < table.Length
      invariant 0 <= i <= table.Length
      invariant forall j :: 0 <= j < i ==> t[j] != null
      invariant forall j :: 0 <= j < i ==> !old(ReleasedBefore(t, j))
      invariant forall g :: g in Handles(t) ==> g.openCount == old(g.openCount) - Count(t[..i], g)
      invariant forall g :: g in closed <==> g in Handles(t) && 1 <= Count(t[..i], g) && g.openCount == 0
    {
      var fh := table[i];
      if fh == null {
        return true, closed;
      }
      assert fh in Handles(t);
      if fh in closed {
        assert old(ReleasedBefore(t, i));
        return true, closed;
      }
      assert !old(ReleasedBefore(t, i));
      assert t[..i + 1] == t[..i] + [fh];
      forall g | g in Handles(t)
        ensures Count(t[..i + 1], g) == Count(t[..i], g) + (if fh == g then 1 else 0)
      {
        CountSnoc(t[..i], fh, g);
      }
      fh.openCount := fh.openCount - 1;
      if fh.openCount == 0 {
        closed := closed + [fh];
      }
      i := i + 1;
    }
    assert t[..i] == t;
    forall g | g in Handles(t) && old(g.openCount) == Count(t, g)
      ensures g in closed
    {
      var k :| 0 <= k < |t| && t[k] == g;
      assert g in t;
    }
    crashed := false;
  }

  /**
   * sys__exit for the exiting process `cur`: its children go to its father
   * (each child's father becomes cur's, and their list is appended to the
   * father's), then the file-table loop runs over all MAX_FILES_PER_PROCESS slots;
   * then the exit code is recorded and the process becomes a zombie.
   */
  method SysExit(cur: Process, exitCode: int) returns (r: Status, closed: seq<FileHandle>)
    requires cur.Valid()
    modifies cur, (set c | c in cur.children), cur.father, Handles(cur.fileTable[..])
    ensures forall c :: c in old(cur.children) ==> c.father == old(cur.father)
    ensures cur.openFileCount == old(cur.openFileCount)
    ensures cur != old(cur.father) ==> cur.children == old(cur.children)
    ensures cur !in old(cur.children) ==> cur.father == old(cur.father)
    ensures old(cur.father == null || cur.father.children == [] || cur.children == []) ==> r == Crash
    ensures old(cur.father != null && cur.father.children != [] && cur.children != []) ==>
      && (r == Crash <==> exists i :: 0 <= i < MAX_FILES_PER_PROCESS &&
                            (cur.fileTable[i] == null || old(ReleasedBefore(cur.fileTable[..], i))))
      && (r != Crash ==>
            && r == Done(0)
            && old(cur.father).children == old(cur.father.children) + old(cur.children)
            && cur.exitCode == exitCode && cur.status == PS_ZTERM
            && (forall g :: g in Handles(cur.fileTable[..]) ==>
                  g.openCount == old(g.openCount) - Count(cur.fileTable[..], g))
            && (forall g :: g in closed <==>
                  g in Handles(cur.fileTable[..]) && old(g.openCount) == Count(cur.fileTable[..], g)))
  {
    closed := [];
    r := AdoptGrandChildren(cur.children, cur.father);
    if r == Crash {
      return;
    }
    var crashed;
    crashed, closed := ReleaseSlots(cur.fileTable);
    if crashed {
      return Crash, closed;
    }
    cur.exitCode := exitCode;
    cur.status := PS_ZTERM;
  }
}

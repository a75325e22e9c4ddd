/**
 * The per-process record of kern/include/process.h and the open-file
 * handle of kern/include/file.h, and create_process_table from
 * kern/process/process.c. The running process (`curthread->process_table`
 * in the kernel) is passed to each system call as `cur`.
 */
module Processes {
  import opened Util
  import opened Kern
  import Pids

  const MAX_FILES_PER_PROCESS: int := 32
  /**
   * The bound file_io.c tests against; no header of the repository defines
   * it, so it is taken to be the size of the table, MAX_FILES_PER_PROCESS.
   */
  const FILES_PER_PROCESS: int := 32

  datatype ProcState = PS_CREATE | PS_FAIL | PS_RUN | PS_WAIT | PS_ZSTOP | PS_ZTERM

  /**
   * struct global_file_handler: one open file, shared by every descriptor
   * slot that points at it. The vnode is an opaque identifier.
   */
  class FileHandle {
    var vnode: int
    var offset: int
    var openCount: int
    var openFlags: bv32

    constructor (vnode: int, offset: int, openCount: int, openFlags: bv32)
      ensures this.vnode == vnode && this.offset == offset
      ensures this.openCount == openCount && this.openFlags == openFlags
    {
      this.vnode := vnode;
      this.offset := offset;
      this.openCount := openCount;
      this.openFlags := openFlags;
    }
  }

  /**
   * struct process_struct. The child list, a doubly-linked list of
   * child_process_list nodes in the source, is the sequence of the children
   * in list order.
   */
  class Process {
    const pid: int
    var status: ProcState
    const fileTable: array<FileHandle?>
    var openFileCount: int
    var children: seq<Process>
    var father: Process?
    var exitCode: int

    ghost predicate Valid()
      reads this
    {
      fileTable.Length == MAX_FILES_PER_PROCESS
    }

    /** The field values create_process_table gives a new record. */
    constructor (pid: int, father: Process?)
      ensures Valid() && fresh(fileTable)
      ensures this.pid == pid && status == PS_RUN && openFileCount == 0
      ensures children == [] && this.father == father && exitCode == 0
      ensures forall i :: 0 <= i < MAX_FILES_PER_PROCESS ==> fileTable[i] == null
    {
      this.pid := pid;
      status := PS_RUN;
      fileTable := new FileHandle?[MAX_FILES_PER_PROCESS](_ => null);
      openFileCount := 0;
      children := [];
      this.father := father;
      exitCode := 0;
    }
  }

  /**
   * create_process_table: a new record whose PID is whatever get_pid
   * returns (-1 included: the source does not check), running, with no
   * open files, no children, exit code 0, and the caller's process as
   * father.
   */
  method CreateProcessTable(pids: Pids.PidTable, current: Process?) returns (p: Process)
    requires pids.Valid()
    modifies pids, pids.pidMap
    ensures fresh(p) && fresh(p.fileTable) && p.Valid()
    ensures pids.Valid() && pids.pidMap == old(pids.pidMap)
    ensures (p.pid, pids.pidMap[..], pids.pidCount) == Pids.PidAlloc(old(pids.pidMap[..]), old(pids.pidCount))
    ensures p.status == PS_RUN && p.openFileCount == 0 && p.children == []
    ensures p.father == current && p.exitCode == 0
    ensures forall i :: 0 <= i < MAX_FILES_PER_PROCESS ==> p.fileTable[i] == null
  {
    var pid := pids.GetPid();
    p := new Process(pid, current);
  }

  /** The handles a descriptor table points at. */
  function Handles(t: seq<FileHandle?>): set<FileHandle>
  {
    set i | 0 <= i < |t| && t[i] != null :: t[i]
  }

  /**
   * Every handle's open count is at least the number of slots that point
   * at it: no slot refers to a handle whose count already says it is
   * released.
   */
  ghost predicate CountsCoverSlots(t: seq<FileHandle?>)
    reads Handles(t)
  {
    forall i :: 0 <= i < |t| && t[i] != null ==> t[i].openCount >= Count(t, t[i])
  }
}

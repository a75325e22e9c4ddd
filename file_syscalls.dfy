/**
 * The descriptor-table system calls of kern/syscall/file.c (sys_lseek,
 * sys_dup2) and kern/syscall/file_io.c (sys_open, sys_write, sys_close).
 * What the VFS and the user-copy routines report (copyin, copyinstr,
 * vfs_open, VOP_STAT, VOP_TRYSEEK, VOP_WRITE) arrives as parameters. A slot
 * index the C code reads outside the 32-entry table is undefined behaviour
 * and ends in `Crash`, as does a NULL handle it dereferences.
 */
module FileSyscalls {
  import opened Util
  import opened Kern
  import opened Processes

  const O_RDONLY: bv32 := 0
  const O_WRONLY: bv32 := 1
  const O_RDWR: bv32 := 2
  const O_CREAT: bv32 := 4
  const O_EXCL: bv32 := 8
  const O_TRUNC: bv32 := 16
  const O_APPEND: bv32 := 32

  const SEEK_SET: int := 0
  const SEEK_CUR: int := 1
  const SEEK_END: int := 2

  /** The slot `fd` exists in the table. */
  predicate InTable(fd: int)
  {
    0 <= fd < MAX_FILES_PER_PROCESS
  }

  /** The handle in slot `fd`, as a frame: empty when there is none. */
  function SlotHandle(cur: Process, fd: int): set<FileHandle>
    requires cur.Valid()
    reads cur, cur.fileTable
  {
    if InTable(fd) && cur.fileTable[fd] != null then {cur.fileTable[fd]} else {}
  }

  // ---------------------------------------------------------------- lseek

  /**
   * The position sys_lseek aims for: `pos` from the start, from the current
   * offset or from the end of the file; None for an unknown `whence`.
   */
  function SeekTarget(whence: int, pos: int, offset: int, size: int): (r: Option<int>)
    ensures r.None? <==> whence !in {SEEK_SET, SEEK_CUR, SEEK_END}
  {
    if whence == SEEK_SET then Some(pos)
    else if whence == SEEK_CUR then Some(offset + pos)
    else if whence == SEEK_END then Some(size + pos)
    else None
  }

  /**
   * The three origins agree with each other: seeking by `pos` from the
   * current offset or from the end is seeking to that absolute position,
   * and a relative seek by 0 stays put.
   */
  lemma SeekOrigins(pos: int, offset: int, size: int)
    ensures SeekTarget(SEEK_CUR, pos, offset, size) == SeekTarget(SEEK_SET, offset + pos, offset, size)
    ensures SeekTarget(SEEK_END, pos, offset, size) == SeekTarget(SEEK_SET, size + pos, offset, size)
    ensures SeekTarget(SEEK_CUR, 0, offset, size) == Some(offset)
    ensures forall o :: SeekTarget(SEEK_SET, pos, o, size) == Some(pos)
  {
  }

  /**
   * sys_lseek. `copyinErr` is what copying `whence` in from user space
   * returned, `statErr`/`size` what VOP_STAT reports, `trySeekErr` what
   * VOP_TRYSEEK answers. The bound test is `fd > MAX_FILES_PER_PROCESS`, so
   * fd 32 passes it and the table is read one past its end.
   */
  method SysLseek(cur: Process, fd: int, pos: int, copyinErr: int, whence: int,
                  statErr: int, size: int, trySeekErr: int)
    returns (r: Status, newPos: int)
    requires cur.Valid()
    modifies SlotHandle(cur, fd)
    ensures copyinErr != 0 ==> r == Done(copyinErr)
    ensures copyinErr != 0 && InTable(fd) && cur.fileTable[fd] != null ==>
      cur.fileTable[fd].offset == old(cur.fileTable[fd].offset)
    ensures copyinErr == 0 && (fd < 0 || fd > MAX_FILES_PER_PROCESS) ==> r == Done(EBADF)
    ensures copyinErr == 0 && fd == MAX_FILES_PER_PROCESS ==> r == Crash
    ensures copyinErr == 0 && InTable(fd) && cur.fileTable[fd] == null ==> r == Done(EBADF)
    ensures InTable(fd) && cur.fileTable[fd] != null ==>
      var h := cur.fileTable[fd];
      h.vnode == old(h.vnode) && h.openFlags == old(h.openFlags) && h.openCount == old(h.openCount)
    ensures copyinErr == 0 && InTable(fd) && cur.fileTable[fd] != null ==>
      var h := cur.fileTable[fd];
      if whence == SEEK_END && statErr != 0 then r == Crash
      else match SeekTarget(whence, pos, old(h.offset), size)
        case None => r == Done(EINVAL) && h.offset == old(h.offset)
        case Some(p) =>
          && newPos == p
          && (trySeekErr != 0 ==> r == Done(trySeekErr) && h.offset == old(h.offset))
          && (trySeekErr == 0 ==> r == Done(0) && h.offset == p)
  {
    newPos := 0;
    if copyinErr != 0 {
      return Done(copyinErr), newPos;
    }
    if fd < 0 || fd > MAX_FILES_PER_PROCESS {
      return Done(EBADF), newPos;
    }
    if fd == MAX_FILES_PER_PROCESS {
      return Crash, newPos;
    }
    var h := cur.fileTable[fd];
    if h == null {
      return Done(EBADF), newPos;
    }
    if whence == SEEK_SET {
      newPos := pos;
    } else if whence == SEEK_CUR {
      newPos := h.offset + pos;
    } else if whence == SEEK_END {
      if statErr != 0 {
        return Crash, newPos;
      }
      newPos := size + pos;
    } else {
      return Done(EINVAL), newPos;
    }
    if trySeekErr != 0 {
      return Done(trySeekErr), newPos;
    }
    h.offset := newPos;
    r := Done(0);
  }

  // ----------------------------------------------------------------- dup2

  /**
   * sys_dup2. Both descriptors are bounds-checked with `> MAX_FILES_PER_PROCESS`,
   * so 32 passes and reads past the table. A busy `newfd` is handed to
   * __close, which no file of the repository defines; the model lets it
   * change nothing, and the slot is then overwritten.
   */
  method SysDup2(cur: Process, oldfd: int, newfd: int) returns (r: Status, fdRet: int)
    requires cur.Valid()
    modifies cur, cur.fileTable, SlotHandle(cur, oldfd)
    ensures oldfd < 0 || oldfd > MAX_FILES_PER_PROCESS ==> r == Done(EBADF)
    ensures oldfd == MAX_FILES_PER_PROCESS ==> r == Crash
    ensures InTable(oldfd) && old(cur.fileTable[oldfd]) == null ==> r == Done(EBADF)
    ensures InTable(oldfd) && old(cur.fileTable[oldfd]) != null ==>
      var h := old(cur.fileTable[oldfd]);
      if newfd < 0 || newfd > MAX_FILES_PER_PROCESS then r == Done(EBADF)
      else if newfd == oldfd then r == Done(0) && fdRet == newfd
      else if newfd == MAX_FILES_PER_PROCESS then r == Crash
      else if old(cur.openFileCount) == MAX_FILES_PER_PROCESS then r == Done(EMFILE)
      else
        && r == Done(0) && fdRet == newfd
        && cur.fileTable[..] == old(cur.fileTable[..])[newfd := h]
        && h.openCount == old(h.openCount) + 1
        && cur.openFileCount == old(cur.openFileCount) + 1
    ensures r != Done(0) || fdRet != newfd || newfd == oldfd ==>
      unchanged(cur.fileTable) && cur.openFileCount == old(cur.openFileCount) && unchanged(old(SlotHandle(cur, oldfd)))
    ensures cur.status == old(cur.status) && cur.children == old(cur.children)
    ensures cur.father == old(cur.father) && cur.exitCode == old(cur.exitCode)
    ensures InTable(oldfd) && old(cur.fileTable[oldfd]) != null ==>
      var h := old(cur.fileTable[oldfd]);
      h.vnode == old(h.vnode) && h.offset == old(h.offset) && h.openFlags == old(h.openFlags)
    ensures r == Done(0) && old(CountsCoverSlots(cur.fileTable[..])) ==> CountsCoverSlots(cur.fileTable[..])
  {
    fdRet := -1;
    if oldfd < 0 || oldfd > MAX_FILES_PER_PROCESS {
      return Done(EBADF), fdRet;
    }
    if oldfd == MAX_FILES_PER_PROCESS {
      return Crash, fdRet;
    }
    var h := cur.fileTable[oldfd];
    if h == null {
      return Done(EBADF), fdRet;
    }
    if newfd < 0 || newfd > MAX_FILES_PER_PROCESS {
      return Done(EBADF), fdRet;
    }
    if newfd == oldfd {
      return Done(0), newfd;
    }
    if newfd == MAX_FILES_PER_PROCESS {
      return Crash, fdRet;
    }
    if cur.openFileCount == MAX_FILES_PER_PROCESS {
      return Done(EMFILE), fdRet;
    }
    ghost var t0 := cur.fileTable[..];
    ghost var covered := CountsCoverSlots(t0);
    cur.openFileCount := cur.openFileCount + 1;
    cur.fileTable[newfd] := h;
    h.openCount := h.openCount + 1;
    if covered {
      // one more slot and one more count for h; every other handle keeps its count
      forall i | 0 <= i < MAX_FILES_PER_PROCESS && cur.fileTable[i] != null
        ensures cur.fileTable[i].openCount >= Count(cur.fileTable[..], cur.fileTable[i])
      {
        CountUpdate(t0, newfd, h, cur.fileTable[i]);
        if i != newfd {
          assert cur.fileTable[i] == t0[i];
        } else {
          assert t0[oldfd] == h;
        }
      }
    }
    return Done(0), newfd;
  }

  // ----------------------------------------------------------------- open

  /** The access-mode test of sys_open fails: none of the bits O_RDONLY (which is 0), O_WRONLY, O_RDWR is set. */
  predicate AccessRejected(flags: bv32)
  {
    flags & O_RDONLY == 0 && flags & O_WRONLY == 0 && flags & O_RDWR == 0
  }

  /** The second test of sys_open fails: none of O_CREAT, O_CREAT & O_EXCL (which is 0), O_TRUNC, O_APPEND is set. */
  predicate CreationRejected(flags: bv32)
  {
    flags & O_CREAT == 0 && flags & O_CREAT & O_EXCL == 0 && flags & O_TRUNC == 0 && flags & O_APPEND == 0
  }

  /**
   * Since O_RDONLY is 0, the access test accepts exactly the opens for
   * writing: a read-only open is refused. And an open that neither creates,
   * truncates nor appends is refused whatever else it asks for.
   */
  lemma OpenFlagTests(flags: bv32)
    ensures AccessRejected(flags) <==> flags & (O_WRONLY | O_RDWR) == 0
    ensures AccessRejected(O_RDONLY) && AccessRejected(O_RDONLY | O_CREAT)
    ensures CreationRejected(flags) <==> flags & (O_CREAT | O_TRUNC | O_APPEND) == 0
    ensures CreationRejected(O_WRONLY | O_EXCL)
  {
  }

  /** The error sys_open returns before it touches the table, if any. */
  function OpenEarlyError(openFileCount: int, flags: bv32, copyErr: int, openErr: int): (e: Option<int>)
    ensures e.Some? ==> e.value != 0
    ensures e.None? <==> openFileCount != FILES_PER_PROCESS && !AccessRejected(flags) && !CreationRejected(flags)
                         && copyErr == 0 && openErr == 0
  {
    if openFileCount == FILES_PER_PROCESS then Some(EMFILE)
    else if AccessRejected(flags) then Some(EINVAL)
    else if CreationRejected(flags) then Some(EINVAL)
    else if copyErr != 0 then Some(copyErr)
    else if openErr != 0 then Some(openErr)
    else None
  }

  /**
   * sys_open. `copyErr` is what copyinstr returned, `openErr`/`vnode` what
   * vfs_open did, `statErr`/`size` what VOP_STAT reports for O_APPEND. The
   * descriptor is the lowest empty slot; with no empty slot the source
   * writes through an uninitialised index, which the model ends in Crash.
   * The handle comes from kmalloc, which does not clear memory: its open
   * count is one more than whatever was there, and on the O_APPEND error
   * path its offset is never set. open_file_count is not changed.
   */
  method SysOpen(cur: Process, flags: bv32, copyErr: int, openErr: int, vnode: int,
                 statErr: int, size: int)
    returns (r: Status, fd: int)
    requires cur.Valid()
    modifies cur.fileTable
    ensures cur.openFileCount == old(cur.openFileCount)
    ensures OpenEarlyError(cur.openFileCount, flags, copyErr, openErr).Some? ==>
      r == Done(OpenEarlyError(cur.openFileCount, flags, copyErr, openErr).value) && unchanged(cur.fileTable)
    ensures OpenEarlyError(cur.openFileCount, flags, copyErr, openErr).None? ==>
      match FirstWhere(old(cur.fileTable[..]), (h: FileHandle?) => h == null)
        case None => r == Crash && unchanged(cur.fileTable)
        case Some(k) =>
          var h := cur.fileTable[k];
          && fd == k
          && h != null && fresh(h)
          && cur.fileTable[..] == old(cur.fileTable[..])[k := h]
          && h.vnode == vnode && h.openFlags == flags
          && (flags & O_APPEND != 0 && statErr != 0 ==> r == Done(statErr))
          && (flags & O_APPEND != 0 && statErr == 0 ==> r == Done(0) && h.offset == size)
          && (flags & O_APPEND == 0 ==> r == Done(0) && h.offset == 0)
  {
    fd := -1;
    if cur.openFileCount == FILES_PER_PROCESS {
      return Done(EMFILE), fd;
    }
    if flags & O_RDONLY == 0 && flags & O_WRONLY == 0 && flags & O_RDWR == 0 {
      return Done(EINVAL), fd;
    }
    if flags & O_CREAT == 0 && flags & O_CREAT & O_EXCL == 0 && flags & O_TRUNC == 0 && flags & O_APPEND == 0 {
      return Done(EINVAL), fd;
    }
    if copyErr != 0 {
      return Done(copyErr), fd;
    }
    if openErr != 0 {
      return Done(openErr), fd;
    }
    var i := 0;
    var found := false;
    while i < FILES_PER_PROCESS
      invariant 0 <= i <= FILES_PER_PROCESS
      invariant !found ==> forall j :: 0 <= j < i ==> cur.fileTable[j] != null
      invariant found ==> FirstWhere(cur.fileTable[..], (h: FileHandle?) => h == null) == Some(fd)
      invariant found ==> i == FILES_PER_PROCESS
    {
      if cur.fileTable[i] == null {
        fd := i;
        found := true;
        assert FirstWhere(cur.fileTable[..], (h: FileHandle?) => h == null) == Some(fd);
        i := FILES_PER_PROCESS;
      } else {
        i := i + 1;
      }
    }
    if !found {
      assert FirstWhere(cur.fileTable[..], (h: FileHandle?) => h == null) == None;
      return Crash, fd;
    }
    var stale: int := *;
    var staleOffset: int := *;
    var h := new FileHandle(vnode, staleOffset, stale + 1, flags);
    cur.fileTable[fd] := h;
    if flags & O_APPEND != 0 {
      if statErr != 0 {
        return Done(statErr), fd;
      }
      h.offset := size;
    } else {
      h.offset := 0;
    }
    r := Done(0);
  }

  // ---------------------------------------------------------------- write

  /** The open flags allow writing: O_WRONLY or O_RDWR is set. */
  predicate Writable(flags: bv32)
  {
    flags & O_WRONLY != 0 || flags & O_RDWR != 0
  }

  /**
   * sys_write. `fd` is not bounds-checked. `writeErr`/`resid` are what
   * VOP_WRITE reports: its error, and the bytes it left unwritten. The
   * offset advances by the whole request, written or not.
   */
  method SysWrite(cur: Process, fd: int, size: int, writeErr: int, resid: int)
    returns (r: Status, retval: int)
    requires cur.Valid()
    modifies SlotHandle(cur, fd)
    ensures !InTable(fd) ==> r == Crash
    ensures InTable(fd) && cur.fileTable[fd] == null ==> r == Done(EBADF)
    ensures InTable(fd) && cur.fileTable[fd] != null ==>
      var h := cur.fileTable[fd];
      && h.openFlags == old(h.openFlags) && h.vnode == old(h.vnode) && h.openCount == old(h.openCount)
      && (!Writable(h.openFlags) ==> r == Done(-1) && h.offset == old(h.offset))
      && (Writable(h.openFlags) && writeErr != 0 ==> r == Done(writeErr) && h.offset == old(h.offset))
      && (Writable(h.openFlags) && writeErr == 0 ==>
            r == Done(0) && h.offset == old(h.offset) + size && retval == size - resid)
  {
    retval := 0;
    if !InTable(fd) {
      return Crash, retval;
    }
    var h := cur.fileTable[fd];
    if h == null {
      return Done(EBADF), retval;
    }
    var flag := h.openFlags;
    if flag & O_WRONLY != 0 || flag & O_RDWR != 0 {
      var offset := h.offset;
      if writeErr != 0 {
        return Done(writeErr), retval;
      }
      offset := offset + size;
      h.offset := offset;
      retval := size - resid;
      return Done(0), retval;
    } else {
      return Done(-1), retval;
    }
  }

  // ---------------------------------------------------------------- close

  /**
   * sys_close: one reference fewer on the handle, and the vnode is closed
   * (`closes`) exactly when the count reaches 0. Neither the descriptor nor
   * the bounds are checked, the slot is left pointing at the handle, and
   * the function returns no value, so the status it hands back is
   * arbitrary.
   */
  method SysClose(cur: Process, fd: int) returns (r: Status, closes: bool)
    requires cur.Valid()
    modifies SlotHandle(cur, fd)
    ensures !InTable(fd) || cur.fileTable[fd] == null ==> r == Crash
    ensures InTable(fd) && cur.fileTable[fd] != null ==>
      var h := cur.fileTable[fd];
      && r.Done?
      && h.openCount == old(h.openCount) - 1
      && h.offset == old(h.offset) && h.openFlags == old(h.openFlags) && h.vnode == old(h.vnode)
      && (closes <==> old(h.openCount) == 1)
  {
    closes := false;
    if !InTable(fd) || cur.fileTable[fd] == null {
      return Crash, closes;
    }
    var h := cur.fileTable[fd];
    h.openCount := h.openCount - 1;
    closes := h.openCount == 0;
    var garbage: int := *;
    r := Done(garbage);
  }
}

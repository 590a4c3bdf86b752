/** The open-file table of the library and the checks its API functions
    make before they touch file data: is_file_open, new_file_fd, File_Seek,
    File_Close, and the argument and error checks of File_Read, File_Write,
    Dir_Size and Dir_Read.

    The table `open_files` and the global `osErrno` are fields of a
    `FileSystem` object over the disk.  Each check is a function of the
    table entry (and the disk); the methods of `FileSystem` carry it out on
    the object's state. */
module FileApi {
  import opened Layout
  import opened Codec
  import opened Volume
  import opened Directory
  import opened Options
  import Bitmap

  /** The values stored in `osErrno` by the operations modelled here;
      `Unset` is the 0 a C global starts with.  Their numeric values are
      defined in LibFS.h, which is not part of this model. */
  datatype Errno = Unset | General | BadFd | SeekOutOfBounds | FileTooBig | BufferTooSmall

  /** An entry of the open-file table (open_file_t): the file's inode (0
      when the entry is unused), its size and the read/write position. */
  datatype OpenFile = OpenFile(inode: int, size: int, pos: int)

  /** The unused entry (what `memset(open_files, 0, ...)` leaves). */
  function Unused(): (e: OpenFile)
    ensures e.inode == 0
  {
    OpenFile(0, 0, 0)
  }

  /** `osErrno` after an operation that sets it to `err`, or leaves it. */
  function AfterErr(old_err: Errno, err: Option<Errno>): Errno
  {
    if err.Some? then err.value else old_err
  }

  // ---------------------------------------------------------------------
  // is_file_open and new_file_fd

  /** is_file_open: some entry of the table names `inode`. */
  predicate Opened(table: seq<OpenFile>, inode: int)
  {
    exists i :: 0 <= i < |table| && table[i].inode == inode
  }

  /** new_file_fd, searching from `from`: the first entry whose inode is not
      positive, or -1 when every entry is in use. */
  function FirstFreeFd(table: seq<OpenFile>, from: nat): (fd: int)
    ensures fd == -1 || from <= fd < |table|
    ensures fd >= 0 ==> table[fd].inode <= 0
    ensures fd >= 0 ==> forall i :: from <= i < fd ==> table[i].inode > 0
    ensures fd == -1 ==> forall i :: from <= i < |table| ==> table[i].inode > 0
    decreases |table| - from
  {
    if from >= |table| then -1
    else if table[from].inode <= 0 then from
    else FirstFreeFd(table, from + 1)
  }

  // ---------------------------------------------------------------------
  // File_Seek

  /** The outcome of File_Seek on one entry: the entry with its new
      position, or the error it stores in `osErrno` (and returns -1). */
  datatype Seeked = Moved(entry: OpenFile) | Refused(err: Errno)

  /** File_Seek (HW4/LibFS.c:923-942) on the entry of `fd`. */
  function Seek(e: OpenFile, offset: int): (r: Seeked)
    ensures r.Moved? <==> e.inode != 0 && 0 <= offset <= e.size
    ensures r.Moved? ==> r.entry.inode == e.inode && r.entry.size == e.size && r.entry.pos == offset
    ensures r.Refused? ==> r.err == if e.inode == 0 then BadFd else SeekOutOfBounds
  {
    if e.inode == 0 then Refused(BadFd)
    else if offset > e.size || offset < 0 then Refused(SeekOutOfBounds)
    else Moved(e.(pos := offset))
  }

  /** A position inside the file: what a successful seek always leaves. */
  predicate WithinFile(e: OpenFile)
  {
    0 <= e.pos <= e.size
  }

  /** A successful seek leaves the position inside the file, and a second
      seek from there acts as if the first had not happened: the last seek
      wins. */
  lemma SeekLastWins(e: OpenFile, a: int, b: int)
    requires Seek(e, a).Moved?
    ensures WithinFile(Seek(e, a).entry)
    ensures Seek(Seek(e, a).entry, b) == Seek(e, b)
  {
    var e' := Seek(e, a).entry;
    assert e'.(pos := b) == e.(pos := b);
  }

  // ---------------------------------------------------------------------
  // File_Close

  /** File_Close's bound check as written (HW4/LibFS.c:946): it rejects
      `0 > fd || fd > MAX_OPEN_FILES`, so it admits `fd == MAX_OPEN_FILES`. */
  predicate CloseAdmitsAsWritten(fd: int)
  {
    !(0 > fd || fd > MAX_OPEN_FILES)
  }

  /** The outcome of File_Close as written, over a table of `|table|`
      entries: past the bound check it reads entry `fd`, which for the
      admitted `fd == MAX_OPEN_FILES` lies past the end of `open_files`. */
  datatype CloseAsWrittenOutcome = ClosedAsWritten(table: seq<OpenFile>) | RejectedAsWritten | ReadsPastTable

  /** File_Close as written (HW4/LibFS.c:944-960). */
  function CloseAsWritten(table: seq<OpenFile>, fd: int): (r: CloseAsWrittenOutcome)
    requires |table| == MAX_OPEN_FILES
  {
    if !CloseAdmitsAsWritten(fd) then RejectedAsWritten
    else if fd >= |table| then ReadsPastTable
    else if table[fd].inode <= 0 then RejectedAsWritten
    else ClosedAsWritten(table[fd := table[fd].(inode := 0)])
  }

  /** The as-written bound check lets one descriptor through that names no
      entry of the table. */
  lemma CloseAsWrittenPastTable(table: seq<OpenFile>)
    requires |table| == MAX_OPEN_FILES
    ensures CloseAdmitsAsWritten(MAX_OPEN_FILES)
    ensures CloseAsWritten(table, MAX_OPEN_FILES) == ReadsPastTable
    ensures forall fd :: CloseAdmitsAsWritten(fd) && CloseAsWritten(table, fd) != ReadsPastTable ==> 0 <= fd < |table|
  {
  }

  /** The outcome of File_Close: the table with the entry released (the call
      returns 0), or nothing changed, -1 returned and E_BAD_FD stored. */
  datatype Closed = Released(table: seq<OpenFile>) | NotOpen

  /** File_Close (HW4/LibFS.c:944-960) with the bound check it evidently
      intends, `0 <= fd < MAX_OPEN_FILES`: an entry of the table that is in
      use has its inode set to 0; nothing else changes. */
  function Close(table: seq<OpenFile>, fd: int): (r: Closed)
    requires |table| == MAX_OPEN_FILES
    ensures r.Released? <==> 0 <= fd < |table| && table[fd].inode > 0
    ensures r.Released? ==> |r.table| == |table| && r.table[fd] == table[fd].(inode := 0)
    ensures r.Released? ==> forall i :: 0 <= i < |table| && i != fd ==> r.table[i] == table[i]
  {
    if !(0 <= fd < MAX_OPEN_FILES) then NotOpen
    else if table[fd].inode <= 0 then NotOpen
    else Released(table[fd := table[fd].(inode := 0)])
  }

  /** Wherever the as-written File_Close stays inside the table it agrees
      with `Close`. */
  lemma CloseAgreesInsideTable(table: seq<OpenFile>, fd: int)
    requires |table| == MAX_OPEN_FILES && fd != MAX_OPEN_FILES
    ensures CloseAsWritten(table, fd) == match Close(table, fd)
              case Released(t) => ClosedAsWritten(t)
              case NotOpen => RejectedAsWritten
  {
  }

  /** A closed descriptor is free again: new_file_fd then returns it or an
      earlier free one, and closing it a second time fails. */
  lemma CloseFreesDescriptor(table: seq<OpenFile>, fd: int)
    requires |table| == MAX_OPEN_FILES && Close(table, fd).Released?
    ensures 0 <= FirstFreeFd(Close(table, fd).table, 0) <= fd
    ensures Close(Close(table, fd).table, fd) == NotOpen
  {
    var t := Close(table, fd).table;
    assert t[fd].inode == 0;
  }

  /** Closing a descriptor leaves every other open file open: an inode
      other than the closed entry's stays open exactly when it was. */
  lemma CloseKeepsOtherFiles(table: seq<OpenFile>, fd: int, inode: int)
    requires |table| == MAX_OPEN_FILES && Close(table, fd).Released?
    requires inode != 0 && inode != table[fd].inode
    ensures Opened(Close(table, fd).table, inode) <==> Opened(table, inode)
  {
    var t := Close(table, fd).table;
    if Opened(table, inode) {
      var i :| 0 <= i < |table| && table[i].inode == inode;
      assert t[i].inode == inode;
    }
    if Opened(t, inode) {
      var i :| 0 <= i < |t| && t[i].inode == inode;
      assert table[i].inode == inode;
    }
  }

  // ---------------------------------------------------------------------
  // File_Read and File_Write: the checks before any data moves

  /** Where File_Read stops or starts: E_BAD_FD for an unused entry; -1
      for a failed read of the inode's sector or of the first block; 0 when
      the position is at MAX_FILE_SIZE or its block is not allocated;
      otherwise the copy starts in `sector` at byte `offset`. */
  datatype ReadStart = ReadBadFd | ReadFails | NothingToRead | FromBlock(sector: int, offset: nat)

  /** The checks of File_Read (HW4/LibFS.c:798-828) for an entry whose
      position lies in `0 .. MAX_FILE_SIZE`. */
  function StartRead(d: Disk, g: Geometry, e: OpenFile): (r: ReadStart)
    requires WellFormed(d, g) && e.inode >= 0 && 0 <= e.pos <= g.maxFileSize
    ensures r.ReadBadFd? <==> e.inode == 0
    ensures r.FromBlock? || r.NothingToRead? ==> HasInode(d, g, e.inode)
    ensures r.FromBlock? || r.NothingToRead? ==>
      r == FromBlocks(d, InodeAt(d, g, e.inode).data, e.pos, g.sectorSize, g.maxFileSize)
  {
    if e.inode == 0 then ReadBadFd
    else if !HasInode(d, g, e.inode) then ReadFails
    else FromBlocks(d, InodeAt(d, g, e.inode).data, e.pos, g.sectorSize, g.maxFileSize)
  }

  /** Where reading at byte `pos` of a file with block list `data` starts:
      nothing at MAX_FILE_SIZE or in an unallocated block, a failed read for
      a block number off the disk, otherwise the block holding byte `pos`,
      at that byte's offset. */
  function FromBlocks(d: Disk, data: seq<int>, pos: nat, ss: nat, maxFileSize: nat): (r: ReadStart)
    requires ss > 0 && pos <= maxFileSize <= |data| * ss
    ensures !r.ReadBadFd?
    ensures r.NothingToRead? <==> pos == maxFileSize || data[pos / ss] == 0
    ensures r.FromBlock? ==>
      pos < maxFileSize && pos / ss < |data| && r.sector == data[pos / ss] && r.sector != 0
      && Readable(d, r.sector) && r.offset == pos % ss
  {
    if pos == maxFileSize then NothingToRead
    else
      var next := pos / ss;
      QuotBelow(pos, ss, |data|);
      assert pos - next * ss == pos % ss;
      if data[next] == 0 then NothingToRead
      else if !Readable(d, data[next]) then ReadFails
      else FromBlock(data[next], pos - next * ss)
  }

  /** After a successful seek to `offset` below MAX_FILE_SIZE, a read of
      an inode that can be loaded starts at byte `offset` of the file's
      block list. */
  lemma ReadAfterSeek(d: Disk, g: Geometry, e: OpenFile, offset: nat)
    requires WellFormed(d, g) && e.inode > 0 && HasInode(d, g, e.inode)
    requires Seek(e, offset).Moved? && offset < g.maxFileSize
    ensures StartRead(d, g, Seek(e, offset).entry)
      == FromBlocks(d, InodeAt(d, g, e.inode).data, offset, g.sectorSize, g.maxFileSize)
  {
    assert Seek(e, offset).entry == e.(pos := offset);
  }

  /** Where File_Write stops or starts: E_BAD_FD for an unused entry,
      E_FILE_TOO_BIG when the cached size plus `size` exceeds MAX_FILE_SIZE,
      otherwise the write goes ahead. */
  datatype WriteStart = WriteBadFd | TooBig | WriteProceeds

  /** The checks of File_Write as written (HW4/LibFS.c:862-876): the sum
      `openFileEntry.size + size` is C `int` arithmetic, which wraps. */
  function StartWriteAsWritten(e: OpenFile, size: int, maxFileSize: int): WriteStart
    requires IsInt32(e.size) && IsInt32(size)
  {
    if e.inode == 0 then WriteBadFd
    else if Wrap32(e.size + size) > maxFileSize then TooBig
    else WriteProceeds
  }

  /** The checks of File_Write as evidently intended: the file with `size`
      more bytes must not exceed MAX_FILE_SIZE. */
  function StartWrite(e: OpenFile, size: int, maxFileSize: int): (r: WriteStart)
    ensures r.WriteBadFd? <==> e.inode == 0
    ensures r.WriteProceeds? <==> e.inode != 0 && e.size + size <= maxFileSize
  {
    if e.inode == 0 then WriteBadFd
    else if e.size + size > maxFileSize then TooBig
    else WriteProceeds
  }

  /** The two agree whenever the sum fits in an `int`; with an open file of
      one byte, a write of INT_MAX bytes passes the as-written check because
      the sum wraps to a negative number. */
  lemma StartWriteOverflow(e: OpenFile, size: int, maxFileSize: int)
    requires IsInt32(e.size) && IsInt32(size)
    ensures IsInt32(e.size + size) ==> StartWriteAsWritten(e, size, maxFileSize) == StartWrite(e, size, maxFileSize)
    ensures 0 <= maxFileSize < 0x8000_0000 && e == OpenFile(1, 1, 0) && size == 0x7fff_ffff ==>
              StartWriteAsWritten(e, size, maxFileSize) == WriteProceeds && StartWrite(e, size, maxFileSize) == TooBig
  {
    if e == OpenFile(1, 1, 0) && size == 0x7fff_ffff {
      assert Wrap32(e.size + size) == -0x8000_0000;
    }
  }

  // ---------------------------------------------------------------------
  // Dir_Size and Dir_Read

  /** What an API call returns and the value it stores in `osErrno`, if any. */
  datatype Reply = Reply(code: int, err: Option<Errno>)

  /** Dir_Size (HW4/LibFS.c:973-993): the byte size of the directory's
      entries, `size * sizeof(dirent_t)` cast to `int`; -1 with E_GENERAL
      when the path names a regular file; 0 when the path names nothing.
      When follow_path fails, the C reads an uninitialised `inode_index`;
      this model treats that case as a path that names nothing. */
  function DirSize(d: Disk, g: Geometry, path: Option<string>): (r: Reply)
    requires WellFormed(d, g) && (path.Some? ==> IsCString(path.value))
    ensures IsInt32(r.code)
    ensures r.err.Some? ==> r.code == -1 && r.err == Some(General)
  {
    var res := ResolvePath(d, g, path);
    if res.Failed? || res.child < 0 then Reply(0, None)
    else
      var ino := InodeAt(d, g, res.child);
      if ino.kind != 1 then Reply(-1, Some(General))
      else Reply(Wrap32(ino.size * DIRENT_SIZE), None)
  }

  /** The size of the root directory "/" is twenty bytes per entry (as a C
      `int`), or -1 with E_GENERAL if the root inode is not a directory. */
  lemma DirSizeOfRoot(d: Disk, g: Geometry)
    requires WellFormed(d, g)
    ensures HasInode(d, g, 0)
    ensures var root := InodeAt(d, g, 0);
      DirSize(d, g, Some("/")) ==
        if root.kind != 1 then Reply(-1, Some(General)) else Reply(Wrap32(root.size * DIRENT_SIZE), None)
  {
    ResolveRootAndRelative(d, g, "/");
    RootReadable(d, g);
  }

  /** Dir_Size for every path: an error (-1, E_GENERAL) exactly when the
      path resolves to an inode that is not a directory; 0 with no error
      when it resolves to nothing (or cannot be resolved); for a directory,
      twenty bytes per entry as a C `int`, which is the byte count itself
      when that fits. */
  lemma DirSizeCases(d: Disk, g: Geometry, path: Option<string>)
    requires WellFormed(d, g) && (path.Some? ==> IsCString(path.value))
    ensures var res := ResolvePath(d, g, path);
      (DirSize(d, g, path).err.Some? <==>
         res.Resolved? && res.child >= 0 && InodeAt(d, g, res.child).kind != 1)
      && (!(res.Resolved? && res.child >= 0) ==> DirSize(d, g, path) == Reply(0, None))
    ensures var res := ResolvePath(d, g, path);
      res.Resolved? && res.child >= 0 && InodeAt(d, g, res.child).kind == 1 ==>
        var n := InodeAt(d, g, res.child).size * DIRENT_SIZE;
        DirSize(d, g, path).err.None?
        && (DirSize(d, g, path).code - n) % 0x1_0000_0000 == 0
        && (0 <= n < 0x8000_0000 ==> DirSize(d, g, path).code == n)
  {
    var res := ResolvePath(d, g, path);
    if res.Resolved? && res.child >= 0 {
      DirSizeOfInode(d, g, path, res.child);
    } else {
      DirSizeUnresolved(d, g, path);
    }
  }

  /** Dir_Size of a path that resolves to no inode. */
  lemma DirSizeUnresolved(d: Disk, g: Geometry, path: Option<string>)
    requires WellFormed(d, g) && (path.Some? ==> IsCString(path.value))
    requires !(ResolvePath(d, g, path).Resolved? && ResolvePath(d, g, path).child >= 0)
    ensures DirSize(d, g, path) == Reply(0, None)
  {
  }

  /** Dir_Size of a path that resolves to inode `n`. */
  lemma DirSizeOfInode(d: Disk, g: Geometry, path: Option<string>, n: nat)
    requires WellFormed(d, g) && (path.Some? ==> IsCString(path.value))
    requires ResolvePath(d, g, path).Resolved? && ResolvePath(d, g, path).child == n
    ensures InodeAt(d, g, n).kind != 1 ==> DirSize(d, g, path) == Reply(-1, Some(General))
    ensures InodeAt(d, g, n).kind == 1 ==>
      var b := InodeAt(d, g, n).size * DIRENT_SIZE;
      DirSize(d, g, path).err.None?
      && (DirSize(d, g, path).code - b) % 0x1_0000_0000 == 0
      && (0 <= b < 0x8000_0000 ==> DirSize(d, g, path).code == b)
  {
    if InodeAt(d, g, n).kind == 1 {
      var b := InodeAt(d, g, n).size * DIRENT_SIZE;
      assert DirSize(d, g, path) == Reply(Wrap32(b), None);
    }
  }

  /** Where Dir_Read stops or starts (HW4/LibFS.c:995-1007): E_BUFFER_TOO_SMALL
      when Dir_Size exceeds the buffer, -1 when the path names nothing,
      otherwise the copy of inode `inode`'s sectors starts. */
  datatype DirReadStart = DirBufferTooSmall | DirNotFound | CopyFrom(inode: int)

  /** The checks of Dir_Read, with the `osErrno` they leave: Dir_Size's,
      unless the buffer check overrides it.  When follow_path fails, the C
      reads an uninitialised `inode_index`; this model stops with
      `DirNotFound` in that case. */
  function StartDirRead(d: Disk, g: Geometry, path: Option<string>, size: int): (r: (DirReadStart, Option<Errno>))
    requires WellFormed(d, g) && (path.Some? ==> IsCString(path.value))
    ensures r.0.DirBufferTooSmall? <==> DirSize(d, g, path).code > size
    ensures r.0.DirBufferTooSmall? ==> r.1 == Some(BufferTooSmall)
    ensures !r.0.DirBufferTooSmall? ==> r.1 == DirSize(d, g, path).err
    ensures r.0.CopyFrom? ==> HasInode(d, g, r.0.inode)
  {
    var ds := DirSize(d, g, path);
    var res := ResolvePath(d, g, path);
    if ds.code > size then (DirBufferTooSmall, Some(BufferTooSmall))
    else if res.Resolved? && res.child >= 0 then (CopyFrom(res.child), ds.err)
    else (DirNotFound, ds.err)
  }

  /** As written, Dir_Read's only check on the path is Dir_Size's: a path
      naming a regular file gets -1 from Dir_Size, which passes the buffer
      check for every `size >= -1`, and the copy starts from the file's inode
      with E_GENERAL stored. */
  lemma DirReadOfRegularFile(d: Disk, g: Geometry, path: Option<string>, size: int)
    requires WellFormed(d, g) && (path.Some? ==> IsCString(path.value)) && size >= -1
    requires var res := ResolvePath(d, g, path);
      res.Resolved? && res.child >= 0 && InodeAt(d, g, res.child).kind != 1
    ensures StartDirRead(d, g, path, size) == (CopyFrom(ResolvePath(d, g, path).child), Some(General))
  {
  }

  // ---------------------------------------------------------------------
  // The library's state

  /** The state these operations share: the disk, the table `open_files`
      and `osErrno`. */
  class FileSystem {
    const g: Geometry
    const disk: array<seq<bv8>>
    const openFiles: array<OpenFile>
    var errno: Errno

    ghost predicate Valid()
      reads this, disk
    {
      WellFormed(disk[..], g) && openFiles.Length == MAX_OPEN_FILES
    }

    /** A mounted disk with every entry of the table unused (FS_Boot's
        `memset(open_files, 0, ...)`). */
    constructor(disk: array<seq<bv8>>, g: Geometry)
      requires WellFormed(disk[..], g)
      ensures Valid() && this.disk == disk && this.g == g && errno == Unset
      ensures forall i :: 0 <= i < openFiles.Length ==> openFiles[i] == Unused()
    {
      this.g := g;
      this.disk := disk;
      openFiles := new OpenFile[MAX_OPEN_FILES](_ => Unused());
      errno := Unset;
    }

    /** is_file_open (HW4/LibFS.c:549-555): 1 when some entry names
        `inode`, otherwise 0. */
    method IsFileOpen(inode: int) returns (r: int)
      requires Valid()
      ensures r == if Opened(openFiles[..], inode) then 1 else 0
    {
      var i := 0;
      while i < MAX_OPEN_FILES
        invariant 0 <= i <= MAX_OPEN_FILES
        invariant forall k :: 0 <= k < i ==> openFiles[k].inode != inode
      {
        if openFiles[i].inode == inode {
          assert openFiles[..][i].inode == inode;
          return 1;
        }
        i := i + 1;
      }
      assert forall k :: 0 <= k < |openFiles[..]| ==> openFiles[..][k].inode != inode;
      return 0;
    }

    /** new_file_fd (HW4/LibFS.c:558-564): the first entry whose inode is
        not positive, or -1. */
    method NewFileFd() returns (fd: int)
      requires Valid()
      ensures fd == FirstFreeFd(openFiles[..], 0)
    {
      ghost var table := openFiles[..];
      var i := 0;
      while i < MAX_OPEN_FILES
        invariant 0 <= i <= MAX_OPEN_FILES
        invariant FirstFreeFd(table, 0) == FirstFreeFd(table, i)
      {
        if openFiles[i].inode <= 0 {
          return i;
        }
        i := i + 1;
      }
      return -1;
    }

    /** File_Seek (HW4/LibFS.c:923-942).  The C does not check `fd`
        against the table's bounds; callers must pass an index of the
        table. */
    method FileSeek(fd: int, offset: int) returns (r: int)
      requires Valid() && 0 <= fd < MAX_OPEN_FILES
      modifies openFiles, this`errno
      ensures Valid()
      ensures match Seek(old(openFiles[fd]), offset)
        case Moved(e) => r == offset && openFiles[..] == old(openFiles[..])[fd := e] && errno == old(errno)
        case Refused(err) => r == -1 && openFiles[..] == old(openFiles[..]) && errno == err
    {
      var entry := openFiles[fd];
      if entry.inode == 0 {
        errno := BadFd;
        return -1;
      }
      if offset > entry.size || offset < 0 {
        errno := SeekOutOfBounds;
        return -1;
      }
      openFiles[fd] := openFiles[fd].(pos := offset);
      return openFiles[fd].pos;
    }

    /** File_Close (HW4/LibFS.c:944-960), with the bound check
        `0 <= fd < MAX_OPEN_FILES`. */
    method FileClose(fd: int) returns (r: int)
      requires Valid()
      modifies openFiles, this`errno
      ensures Valid()
      ensures match Close(old(openFiles[..]), fd)
        case Released(t) => r == 0 && openFiles[..] == t && errno == old(errno)
        case NotOpen => r == -1 && openFiles[..] == old(openFiles[..]) && errno == BadFd
    {
      if 0 > fd || fd >= MAX_OPEN_FILES {
        errno := BadFd;
        return -1;
      }
      if openFiles[fd].inode <= 0 {
        errno := BadFd;
        return -1;
      }
      openFiles[fd] := openFiles[fd].(inode := 0);
      return 0;
    }

    /** loadInode (HW4/LibFS.c:1034-1048), returning the decoded record
        rather than a pointer into a stack buffer; None, with E_GENERAL
        stored, when the sector cannot be read. */
    method LoadInode(n: int) returns (ino: Option<Inode>)
      requires Valid() && n >= 0
      modifies this`errno
      ensures Valid()
      ensures ino.Some? <==> HasInode(disk[..], g, n)
      ensures ino.Some? ==> ino.value == InodeAt(disk[..], g, n) && errno == old(errno)
      ensures ino.None? ==> errno == General
    {
      var s := g.InodeTableStart() + n / g.InodesPerSector();
      assert s == g.InodeSector(n);
      if !(0 <= s < disk.Length) {
        errno := General;
        return None;
      }
      InodeRecordFits(g, n);
      var buffer := disk[s];
      return Some(InodeIn(buffer, g.InodeOffset(n), g.maxSectorsPerFile));
    }

    /** The checks of File_Read (HW4/LibFS.c:798-828) for descriptor `fd`,
        whose entry must hold an inode number (or 0) and a position in
        `0 .. MAX_FILE_SIZE`.  The copy that follows is not modelled. */
    method FileReadStart(fd: int) returns (r: ReadStart)
      requires Valid() && 0 <= fd < MAX_OPEN_FILES
      requires openFiles[fd].inode >= 0 && 0 <= openFiles[fd].pos <= g.maxFileSize
      modifies this`errno
      ensures Valid()
      ensures r == StartRead(disk[..], g, openFiles[fd])
      ensures errno == if r.ReadBadFd? then BadFd else old(errno)
    {
      var e := openFiles[fd];
      if e.inode == 0 {
        errno := BadFd;
        return ReadBadFd;
      }
      var s := g.InodeTableStart() + e.inode / g.InodesPerSector();
      assert s == g.InodeSector(e.inode);
      if !(0 <= s < disk.Length) {
        return ReadFails;
      }
      InodeRecordFits(g, e.inode);
      var ino := InodeIn(disk[s], g.InodeOffset(e.inode), g.maxSectorsPerFile);
      var next := e.pos / g.sectorSize;
      if e.pos == g.maxFileSize {
        return NothingToRead;
      }
      QuotBelow(e.pos, g.sectorSize, g.maxSectorsPerFile);
      if ino.data[next] == 0 {
        return NothingToRead;
      }
      if !(0 <= ino.data[next] < disk.Length) {
        return ReadFails;
      }
      return FromBlock(ino.data[next], e.pos - next * g.sectorSize);
    }

    /** The checks of File_Write (HW4/LibFS.c:862-876) for descriptor `fd`,
        with the size check done without wrap-around.  The allocation and
        copy that follow are not modelled. */
    method FileWriteStart(fd: int, size: int) returns (r: WriteStart)
      requires Valid() && 0 <= fd < MAX_OPEN_FILES
      modifies this`errno
      ensures Valid()
      ensures r == StartWrite(openFiles[fd], size, g.maxFileSize)
      ensures errno == match r
        case WriteBadFd => BadFd
        case TooBig => FileTooBig
        case WriteProceeds => old(errno)
    {
      var e := openFiles[fd];
      if e.inode == 0 {
        errno := BadFd;
        return WriteBadFd;
      }
      if e.size + size > g.maxFileSize {
        errno := FileTooBig;
        return TooBig;
      }
      return WriteProceeds;
    }

    /** Dir_Size (HW4/LibFS.c:973-993). */
    method DirSizeOf(path: Option<string>) returns (r: int)
      requires Valid() && (path.Some? ==> IsCString(path.value))
      modifies this`errno
      ensures Valid()
      ensures r == DirSize(disk[..], g, path).code
      ensures errno == AfterErr(old(errno), DirSize(disk[..], g, path).err)
    {
      var res := FollowPath(disk, g, path);
      if res.Failed? || res.child < 0 {
        return 0;
      }
      var ino := LoadInode(res.child);
      if ino.value.kind != 1 {
        errno := General;
        return -1;
      }
      return Wrap32(ino.value.size * DIRENT_SIZE);
    }

    /** The checks of Dir_Read (HW4/LibFS.c:995-1007); the copy that
        follows is not modelled. */
    method DirReadChecks(path: Option<string>, size: int) returns (r: DirReadStart)
      requires Valid() && (path.Some? ==> IsCString(path.value))
      modifies this`errno
      ensures Valid()
      ensures r == StartDirRead(disk[..], g, path, size).0
      ensures errno == AfterErr(old(errno), StartDirRead(disk[..], g, path, size).1)
    {
      var dirSize := DirSizeOf(path);
      var res := FollowPath(disk, g, path);
      if dirSize > size {
        errno := BufferTooSmall;
        return DirBufferTooSmall;
      }
      if res.Resolved? && res.child >= 0 {
        return CopyFrom(res.child);
      }
      return DirNotFound;
    }
  }
}

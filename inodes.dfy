/** Adding an entry to a directory (add_inode) and removing one
    (remove_inode).  Both work on copies of whole sectors: they read a
    sector into a buffer, change a record or an entry in the buffer, and
    write the buffer back, so a later write of an earlier buffer wins.  The
    functions here follow those reads and writes one by one; the methods
    perform them on the disk array and are proved to agree with them. */
module Inodes {
  import opened Layout
  import opened Codec
  import opened Bitmap
  import opened Volume

  /** bitmap_first_unused as a function: the bit it returns and the disk
      after it. */
  function Allocate(d: Disk, ss: nat, rg: Region, nbits: int): (res: (int, Disk))
    requires Fits(d, ss, rg)
    ensures -1 <= res.0 < Limit(ss, rg, nbits)
    ensures Fits(res.1, ss, rg) && |res.1| == |d|
  {
    FirstClearIsFirst(d, ss, rg, 0, Limit(ss, rg, nbits));
    var c := FirstClear(d, ss, rg, 0, Limit(ss, rg, nbits));
    if c >= 0 then (c, SetBit(d, ss, rg, c)) else (-1, d)
  }

  /** The sector bytes `buf` with the record of inode `n` zeroed and its
      type set to `kind` (memset of the record, then `->type = kind`). */
  function BlankRecord(g: Geometry, buf: seq<bv8>, n: nat, kind: int): (r: seq<bv8>)
    requires g.Valid() && |buf| == g.sectorSize && IsInt32(kind)
    ensures |r| == |buf|
  {
    InodeRecordFits(g, n);
    PutWord(Splice(buf, g.InodeOffset(n), Zeros(g.InodeSize())), g.InodeOffset(n) + 4, kind)
  }

  /** How many bits of the inode bitmap add_inode lets bitmap_first_unused
      inspect: one per inode, MAX_FILES.  HW4/LibFS.c:347 passes
      INODE_BITMAP_SIZE, the bitmap's size in bytes (InodeBitsAsWritten). */
  function InodeBits(g: Geometry): nat
  {
    g.maxFiles
  }

  /** How many bits of the sector bitmap are inspected when a sector is
      taken: one per sector, TOTAL_SECTORS.  HW4/LibFS.c:396 and 890 pass
      SECTOR_BITMAP_SIZE, the bitmap's size in bytes (SectorBitsAsWritten). */
  function SectorBits(g: Geometry): nat
  {
    g.totalSectors
  }

  /** The count HW4/LibFS.c:347 passes: INODE_BITMAP_SIZE bytes. */
  function InodeBitsAsWritten(g: Geometry): nat
  {
    g.InodeBitmapSize()
  }

  /** The count HW4/LibFS.c:396 and 890 pass: SECTOR_BITMAP_SIZE bytes. */
  function SectorBitsAsWritten(g: Geometry): nat
  {
    g.SectorBitmapSize()
  }

  /** The first half of add_inode (HW4/LibFS.c:346-372): take the first free
      inode of the inode bitmap (scanning one bit per inode) and write a
      blank record of type `kind` for it.  Returns the inode, or -1. */
  function NewChild(d: Disk, g: Geometry, kind: int): (res: (int, Disk))
    requires WellFormed(d, g) && IsInt32(kind)
    ensures WellFormed(res.1, g)
    ensures res.0 >= 0 ==> HasInode(res.1, g, res.0)
  {
    BitmapsFit(d, g);
    var (c, d1) := Allocate(d, g.sectorSize, InodeBitmap(g), InodeBits(g));
    if c < 0 then (-1, d1)
    else
      var s := g.InodeSector(c);
      if !Readable(d1, s) then (-1, d1)
      else (c, d1[s := BlankRecord(g, d1[s], c, kind)])
  }

  /** What add_inode needs of the parent for its entry index to stay inside
      the parent's `data` slots: a parent directory has fewer than
      MAX_SECTORS_PER_FILE * DIRENTS_PER_SECTOR entries. */
  predicate Room(d: Disk, g: Geometry, parent: nat)
    requires WellFormed(d, g)
  {
    (HasInode(d, g, parent) && InodeAt(d, g, parent).kind == 1)
    ==> 0 <= InodeAt(d, g, parent).size < g.maxSectorsPerFile * g.DirentsPerSector()
  }

  /** The bytes of a directory entry: the name as strncpy leaves it in the
      16-byte field, then the inode number. */
  function EntryBytes(name: string, c: int): (b: seq<bv8>)
    requires IsCString(name)
    ensures |b| == DIRENT_SIZE
  {
    StrNCpy(name, MAX_NAME) + EncodeInt32(Wrap32(c))
  }

  /** The end of add_inode (HW4/LibFS.c:410-425): write the entry into slot
      `slot` of the entry buffer `dbuf` and that buffer to sector `sec`, then
      the parent's buffer `pbuf` with the size one larger to sector `ps`. */
  function PutEntry(d: Disk, g: Geometry, ps: nat, pbuf: seq<bv8>, off: nat, size: int,
                    sec: int, dbuf: seq<bv8>, slot: nat, c: int, name: string): (res: (int, Disk))
    requires WellFormed(d, g) && ps < |d| && |pbuf| == g.sectorSize && off + 4 <= g.sectorSize
    requires |dbuf| == g.sectorSize && slot < g.DirentsPerSector() && IsCString(name)
    ensures WellFormed(res.1, g)
    ensures res.0 == 0 <==> Readable(d, sec)
    ensures res.0 == 0 || res.0 == -1
  {
    DirentSlotFits(g, slot);
    if !Readable(d, sec) then (-1, d)
    else
      var d4 := d[sec := Splice(dbuf, slot * DIRENT_SIZE, EntryBytes(name, c))];
      (0, d4[ps := PutWord(pbuf, off, Wrap32(size + 1))])
  }

  /** The second half of add_inode (HW4/LibFS.c:374-425): read the parent
      `parent`; -2 when it is not a directory, -1 when its sector cannot be
      read; otherwise append the entry. */
  function AddEntry(d: Disk, g: Geometry, c: int, parent: nat, name: string): (res: (int, Disk))
    requires WellFormed(d, g) && IsCString(name) && Room(d, g, parent)
    ensures WellFormed(res.1, g) && -2 <= res.0 <= 0
    ensures res.0 == -2 <==> HasInode(d, g, parent) && InodeAt(d, g, parent).kind != 1
    ensures res.0 == 0 <==>
      HasInode(d, g, parent) && InodeAt(d, g, parent).kind == 1
      && Readable(d, EntrySector(d, g, InodeAt(d, g, parent)))
  {
    var ps := g.InodeSector(parent);
    if !Readable(d, ps) then (-1, d)
    else
      var p := InodeAt(d, g, parent);
      if p.kind != 1 then (-2, d)
      else
        InodeRecordFits(g, parent);
        AppendEntry(d, g, ps, g.InodeOffset(parent), p, c, name)
  }

  /** Appending an entry naming inode `c` to the directory `p`, whose record
      is at offset `off` of sector `ps`: the entry goes to slot `size`; when
      `size` is a multiple of DIRENTS_PER_SECTOR a sector is taken from the
      sector bitmap, recorded in the parent's `data`, and filled with zeros
      but for the entry; -1 when the sector bitmap is full or a read or write
      fails. */
  function AppendEntry(d: Disk, g: Geometry, ps: nat, off: nat, p: Inode, c: int, name: string): (res: (int, Disk))
    requires WellFormed(d, g) && IsCString(name) && ps < |d|
    requires off + InodeBytes(g.maxSectorsPerFile) <= g.sectorSize && |p.data| == g.maxSectorsPerFile
    requires 0 <= p.size < g.maxSectorsPerFile * g.DirentsPerSector()
    ensures WellFormed(res.1, g)
    ensures res.0 == 0 <==> Readable(d, EntrySector(d, g, p))
    ensures res.0 == 0 || res.0 == -1
  {
    if EntrySlot(g, p.size) == 0 then AppendInNewSector(d, g, ps, off, p, c, name)
    else AppendInGroupSector(d, g, ps, off, p, c, name)
  }

  /** The first free sector of the sector bitmap (one bit per sector), or
      -1. */
  function FreeSector(d: Disk, g: Geometry): int
    requires WellFormed(d, g)
  {
    BitmapsFit(d, g);
    FirstClear(d, g.sectorSize, SectorBitmap(g), 0, Limit(g.sectorSize, SectorBitmap(g), SectorBits(g)))
  }

  /** The sector AppendEntry puts the entry in: a newly taken one when the
      entry starts a new group of DIRENTS_PER_SECTOR entries, the group's
      sector otherwise. */
  function EntrySector(d: Disk, g: Geometry, p: Inode): int
    requires WellFormed(d, g) && |p.data| == g.maxSectorsPerFile
    requires 0 <= p.size < g.maxSectorsPerFile * g.DirentsPerSector()
  {
    if EntrySlot(g, p.size) == 0 then FreeSector(d, g) else p.data[EntryGroup(g, p.size)]
  }

  /** AppendEntry for an entry that starts a new group: take a sector from
      the sector bitmap, record it in the parent's `data` and write a zeroed
      sector holding only the entry. */
  function AppendInNewSector(d: Disk, g: Geometry, ps: nat, off: nat, p: Inode, c: int, name: string): (res: (int, Disk))
    requires WellFormed(d, g) && IsCString(name) && ps < |d|
    requires off + InodeBytes(g.maxSectorsPerFile) <= g.sectorSize && |p.data| == g.maxSectorsPerFile
    requires 0 <= p.size < g.maxSectorsPerFile * g.DirentsPerSector()
    ensures WellFormed(res.1, g)
    ensures res.0 == 0 <==> Readable(d, FreeSector(d, g))
    ensures res.0 == 0 || res.0 == -1
  {
    BitmapsFit(d, g);
    var (ns, d3) := Allocate(d, g.sectorSize, SectorBitmap(g), SectorBits(g));
    if ns < 0 then (-1, d3)
    else
      var pbuf := PutWord(d[ps], off + 8 + 4 * EntryGroup(g, p.size), Wrap32(ns));
      PutEntry(d3, g, ps, pbuf, off, p.size, ns, Zeros(g.sectorSize), EntrySlot(g, p.size), c, name)
  }

  /** AppendEntry for an entry that joins the sector of its group. */
  function AppendInGroupSector(d: Disk, g: Geometry, ps: nat, off: nat, p: Inode, c: int, name: string): (res: (int, Disk))
    requires WellFormed(d, g) && IsCString(name) && ps < |d|
    requires off + InodeBytes(g.maxSectorsPerFile) <= g.sectorSize && |p.data| == g.maxSectorsPerFile
    requires 0 <= p.size < g.maxSectorsPerFile * g.DirentsPerSector()
    ensures WellFormed(res.1, g)
    ensures res.0 == 0 <==> Readable(d, p.data[EntryGroup(g, p.size)])
    ensures res.0 == 0 || res.0 == -1
  {
    var sec := p.data[EntryGroup(g, p.size)];
    if !Readable(d, sec) then (-1, d)
    else PutEntry(d, g, ps, d[ps], off, p.size, sec, d[sec], EntrySlot(g, p.size), c, name)
  }

  /** An entry index below `m * dps` splits into a `data` slot below `m` and
      a slot of that sector. */
  lemma GroupSplit(dps: nat, m: nat, size: int)
    requires dps > 0 && 0 <= size < m * dps
    ensures 0 <= size / dps < m && 0 <= size - (size / dps) * dps < dps
  {
    var q := size / dps;
    assert size == q * dps + size % dps;
    if q < 0 {
      MulLe(q, -1, dps);
    } else if q >= m {
      MulLe(m, q, dps);
    }
  }

  /** add_inode (HW4/LibFS.c:345-426) as a function of the disk. */
  function AddInodeSpec(d: Disk, g: Geometry, kind: int, parent: nat, name: string): (res: (int, Disk))
    requires WellFormed(d, g) && IsInt32(kind) && IsCString(name) && Room(d, g, parent)
    ensures WellFormed(res.1, g) && -2 <= res.0 <= 0
  {
    var (c, d2) := NewChild(d, g, kind);
    if c < 0 then (-1, d2)
    else
      RoomAfterNewChild(d, g, kind, parent);
      AddEntry(d2, g, c, parent, name)
  }

  /** A successful add_inode took an inode that was free, marked it in use
      and gave it a blank record of type `kind`, found the parent to be a
      directory, and appended to it an entry naming the new inode under
      `name` (when that entry's sector is not the parent's own). */
  lemma AddInodeEffect(d: Disk, g: Geometry, kind: int, parent: nat, name: string)
    requires WellFormed(d, g) && IsInt32(kind) && IsCString(name) && Room(d, g, parent)
    requires AddInodeSpec(d, g, kind, parent, name).0 == 0
    ensures var (c, d2) := NewChild(d, g, kind);
      c >= 0 && !InodeInUse(d, g, c) && InodeInUse(d2, g, c)
      && HasInode(d2, g, c) && InodeAt(d2, g, c) == BlankInode(kind, g.maxSectorsPerFile)
      && HasInode(d2, g, parent) && InodeAt(d2, g, parent).kind == 1
    ensures var (c, d2) := NewChild(d, g, kind);
      var d' := AddInodeSpec(d, g, kind, parent, name).1;
      HasInode(d2, g, parent) && Room(d2, g, parent)
      && var p := InodeAt(d2, g, parent);
      var ps, sec := g.InodeSector(parent), EntrySector(d2, g, p);
      g.InodeOffset(parent) + InodeBytes(g.maxSectorsPerFile) <= g.sectorSize
      && 0 <= sec < |d2| && (sec != ps ==>
        Appended(d2, d', g, ps, g.InodeOffset(parent), p, sec, EntryGroup(g, p.size), EntrySlot(g, p.size),
                 EntrySlot(g, p.size) == 0, c, name))
  {
    NewChildBitmap(d, g, kind);
    RoomAfterNewChild(d, g, kind, parent);
    var (c, d2) := NewChild(d, g, kind);
    NewChildRecords(d, g, kind, c);
    InodeRecordFits(g, parent);
    AppendEntryEffect(d2, g, g.InodeSector(parent), g.InodeOffset(parent), InodeAt(d2, g, parent), c, name);
  }

  /** Writing the child's record keeps the parent's room: the record is
      the parent's own (then blank, so empty) or leaves it as it was. */
  lemma RoomAfterNewChild(d: Disk, g: Geometry, kind: int, parent: nat)
    requires WellFormed(d, g) && IsInt32(kind) && Room(d, g, parent)
    ensures Room(NewChild(d, g, kind).1, g, parent)
  {
    BitmapsFit(d, g);
    var (c, d1) := Allocate(d, g.sectorSize, InodeBitmap(g), InodeBits(g));
    if c >= 0 && HasInode(d, g, parent) {
      AllocateKeepsInodes(d, g, InodeBitmap(g), InodeBits(g), parent);
      var s := g.InodeSector(c);
      if Readable(d1, s) {
        BlankRecordEffect(g, d1, c, kind, parent);
        if c == parent {
          assert 0 < g.maxSectorsPerFile * g.DirentsPerSector() by {
            MulLe(1, g.maxSectorsPerFile, g.DirentsPerSector());
          }
        }
      }
    }
  }

  /** Setting a bit of a bitmap region, which lies before the inode table,
      leaves every inode as it was. */
  lemma AllocateKeepsInodes(d: Disk, g: Geometry, rg: Region, nbits: int, n: nat)
    requires WellFormed(d, g) && (rg == InodeBitmap(g) || rg == SectorBitmap(g)) && HasInode(d, g, n)
    ensures Fits(d, g.sectorSize, rg)
    ensures HasInode(Allocate(d, g.sectorSize, rg, nbits).1, g, n)
    ensures InodeAt(Allocate(d, g.sectorSize, rg, nbits).1, g, n) == InodeAt(d, g, n)
  {
    BitmapsFit(d, g);
    RegionsAreContiguous(g);
    var c := Allocate(d, g.sectorSize, rg, nbits).0;
    if c >= 0 {
      SectorOfInRegion(g.sectorSize, rg, c);
    }
  }

  /** The blank record of inode `c` reads back as a blank inode of type
      `kind`; every other inode reads as before. */
  lemma BlankRecordEffect(g: Geometry, d: Disk, c: nat, kind: int, n: nat)
    requires WellFormed(d, g) && IsInt32(kind) && HasInode(d, g, c) && HasInode(d, g, n)
    ensures var d' := d[g.InodeSector(c) := BlankRecord(g, d[g.InodeSector(c)], c, kind)];
      WellFormed(d', g) && HasInode(d', g, n)
      && InodeAt(d', g, n) == if n == c then BlankInode(kind, g.maxSectorsPerFile) else InodeAt(d, g, n)
  {
    var s := g.InodeSector(c);
    var m := g.maxSectorsPerFile;
    InodeRecordFits(g, c);
    InodeRecordFits(g, n);
    var off := g.InodeOffset(c);
    var z := Splice(d[s], off, Zeros(g.InodeSize()));
    if n == c {
      BlankInodeBytes(d[s], off, m, kind);
    } else if g.InodeSector(n) == s {
      InodeRecordsDisjoint(g, c, n);
      InodeAfterSplice(d[s], off, Zeros(g.InodeSize()), g.InodeOffset(n), m);
      InodeAfterSplice(z, off + 4, EncodeInt32(kind), g.InodeOffset(n), m);
    }
  }

  /** The first half of add_inode (HW4/LibFS.c:346-372). */
  method NewChildInode(disk: array<seq<bv8>>, g: Geometry, kind: int) returns (c: int)
    requires WellFormed(disk[..], g) && IsInt32(kind)
    modifies disk
    ensures (c, disk[..]) == NewChild(old(disk[..]), g, kind)
  {
    BitmapsFit(disk[..], g);
    var rg, ss := InodeBitmap(g), g.sectorSize;
    FirstClearIsFirst(disk[..], ss, rg, 0, Limit(ss, rg, InodeBits(g)));
    c := FirstUnused(disk, ss, rg, InodeBits(g));
    assert (c, disk[..]) == Allocate(old(disk[..]), ss, rg, InodeBits(g));
    if c < 0 {
      return -1;
    }
    var s := g.InodeTableStart() + c / g.InodesPerSector();
    assert s == g.InodeSector(c);
    if !(0 <= s < disk.Length) {
      return -1;
    }
    var buffer := disk[s];
    InodeRecordFits(g, c);
    var off := g.InodeOffset(c);
    buffer := Splice(buffer, off, Zeros(g.InodeSize()));
    buffer := PutWord(buffer, off + 4, kind);
    assert buffer == BlankRecord(g, disk[s], c, kind);
    disk[s] := buffer;
  }

  /** The second half of add_inode (HW4/LibFS.c:374-425). */
  method AddEntryToParent(disk: array<seq<bv8>>, g: Geometry, c: int, parent: nat, name: string) returns (r: int)
    requires WellFormed(disk[..], g) && IsCString(name) && Room(disk[..], g, parent)
    modifies disk
    ensures (r, disk[..]) == AddEntry(old(disk[..]), g, c, parent, name)
  {
    var ps := g.InodeTableStart() + parent / g.InodesPerSector();
    if !(0 <= ps < disk.Length) {
      return -1;
    }
    InodeRecordFits(g, parent);
    var off := g.InodeOffset(parent);
    var p := InodeIn(disk[ps], off, g.maxSectorsPerFile);
    if p.kind != 1 {
      return -2;
    }
    r := AppendEntryToSector(disk, g, ps, off, p, c, name);
  }

  /** The entry-writing part of add_inode (HW4/LibFS.c:393-425). */
  method AppendEntryToSector(disk: array<seq<bv8>>, g: Geometry, ps: nat, off: nat, p: Inode, c: int, name: string)
    returns (r: int)
    requires WellFormed(disk[..], g) && IsCString(name) && ps < disk.Length
    requires off + InodeBytes(g.maxSectorsPerFile) <= g.sectorSize && |p.data| == g.maxSectorsPerFile
    requires 0 <= p.size < g.maxSectorsPerFile * g.DirentsPerSector()
    modifies disk
    ensures (r, disk[..]) == AppendEntry(old(disk[..]), g, ps, off, p, c, name)
  {
    var dps := g.DirentsPerSector();
    var group := p.size / dps;
    GroupSplit(dps, g.maxSectorsPerFile, p.size);
    if group * dps == p.size {
      r := AppendInNewSectorTo(disk, g, ps, off, p, c, name);
    } else {
      r := AppendInGroupSectorTo(disk, g, ps, off, p, c, name);
    }
  }

  /** An entry that starts a new group (HW4/LibFS.c:394-403): allocate a
      sector and record it in the parent's `data`, then write the entry into
      a zeroed buffer. */
  method AppendInNewSectorTo(disk: array<seq<bv8>>, g: Geometry, ps: nat, off: nat, p: Inode, c: int, name: string)
    returns (r: int)
    requires WellFormed(disk[..], g) && IsCString(name) && ps < disk.Length
    requires off + InodeBytes(g.maxSectorsPerFile) <= g.sectorSize && |p.data| == g.maxSectorsPerFile
    requires 0 <= p.size < g.maxSectorsPerFile * g.DirentsPerSector()
    modifies disk
    ensures (r, disk[..]) == AppendInNewSector(old(disk[..]), g, ps, off, p, c, name)
  {
    ghost var d0 := disk[..];
    var inodeBuffer := disk[ps];
    var group := EntryGroup(g, p.size);
    BitmapsFit(d0, g);
    AllocatesFreeSector(d0, g);
    ghost var a := Allocate(d0, g.sectorSize, SectorBitmap(g), SectorBits(g));
    var newsec := FirstUnused(disk, g.sectorSize, SectorBitmap(g), SectorBits(g));
    assert newsec == a.0 && disk[..] == a.1;
    if newsec < 0 {
      assert AppendInNewSector(d0, g, ps, off, p, c, name) == (-1, a.1);
      return -1;
    }
    inodeBuffer := PutWord(inodeBuffer, off + 8 + 4 * group, Wrap32(newsec));
    assert AppendInNewSector(d0, g, ps, off, p, c, name)
      == PutEntry(a.1, g, ps, inodeBuffer, off, p.size, newsec, Zeros(g.sectorSize), EntrySlot(g, p.size), c, name);
    r := WriteEntry(disk, g, ps, inodeBuffer, off, p.size, newsec, Zeros(g.sectorSize), EntrySlot(g, p.size), c, name);
  }

  /** An entry that joins the sector of its group (HW4/LibFS.c:404-408):
      read that sector and write the entry into it. */
  method AppendInGroupSectorTo(disk: array<seq<bv8>>, g: Geometry, ps: nat, off: nat, p: Inode, c: int, name: string)
    returns (r: int)
    requires WellFormed(disk[..], g) && IsCString(name) && ps < disk.Length
    requires off + InodeBytes(g.maxSectorsPerFile) <= g.sectorSize && |p.data| == g.maxSectorsPerFile
    requires 0 <= p.size < g.maxSectorsPerFile * g.DirentsPerSector()
    modifies disk
    ensures (r, disk[..]) == AppendInGroupSector(old(disk[..]), g, ps, off, p, c, name)
  {
    var sec := p.data[EntryGroup(g, p.size)];
    if !(0 <= sec < disk.Length) {
      return -1;
    }
    r := WriteEntry(disk, g, ps, disk[ps], off, p.size, sec, disk[sec], EntrySlot(g, p.size), c, name);
  }

  /** The end of add_inode (HW4/LibFS.c:410-425): the entry into its slot
      of the entry buffer, that buffer to its sector, then the parent's
      buffer with the size one larger to the parent's sector. */
  method WriteEntry(disk: array<seq<bv8>>, g: Geometry, ps: nat, pbuf: seq<bv8>, off: nat, size: int,
                    sec: int, dbuf: seq<bv8>, slot: nat, c: int, name: string) returns (r: int)
    requires WellFormed(disk[..], g) && ps < disk.Length && |pbuf| == g.sectorSize && off + 4 <= g.sectorSize
    requires |dbuf| == g.sectorSize && slot < g.DirentsPerSector() && IsCString(name)
    modifies disk
    ensures (r, disk[..]) == PutEntry(old(disk[..]), g, ps, pbuf, off, size, sec, dbuf, slot, c, name)
  {
    DirentSlotFits(g, slot);
    var direntBuffer := Splice(dbuf, slot * DIRENT_SIZE, StrNCpy(name, MAX_NAME) + EncodeInt32(Wrap32(c)));
    if !(0 <= sec < disk.Length) {
      return -1;
    }
    disk[sec] := direntBuffer;
    var inodeBuffer := PutWord(pbuf, off, Wrap32(size + 1));
    disk[ps] := inodeBuffer;
    return 0;
  }

  /** add_inode (HW4/LibFS.c:345-426): creates an inode of type `kind` and
      an entry `name` for it in the directory `parent`. */
  method AddInode(disk: array<seq<bv8>>, g: Geometry, kind: int, parent: nat, name: string) returns (r: int)
    requires WellFormed(disk[..], g) && IsInt32(kind) && IsCString(name) && Room(disk[..], g, parent)
    modifies disk
    ensures (r, disk[..]) == AddInodeSpec(old(disk[..]), g, kind, parent, name)
  {
    ghost var d := disk[..];
    var c := NewChildInode(disk, g, kind);
    if c < 0 {
      return -1;
    }
    RoomAfterNewChild(d, g, kind, parent);
    r := AddEntryToParent(disk, g, c, parent, name);
  }

  // ----- what add_inode does -----

  /** Allocate takes the first clear bit below the limit and sets it,
      leaving every other bit as it was; it fails, changing nothing, only
      when every bit below the limit is set. */
  lemma AllocateBits(d: Disk, ss: nat, rg: Region, nbits: int)
    requires Fits(d, ss, rg)
    ensures var (c, d') := Allocate(d, ss, rg, nbits);
      var lim := Limit(ss, rg, nbits);
      (c >= 0 ==>
         !IsSet(d, ss, rg, c)
         && forall i: nat :: i < Bits(ss, rg) ==> IsSet(d', ss, rg, i) == (i == c || IsSet(d, ss, rg, i)))
      && (forall i: nat :: i < c ==> IsSet(d, ss, rg, i))
      && (c < 0 ==> d' == d && forall i: nat :: i < lim ==> IsSet(d, ss, rg, i))
  {
    var lim := Limit(ss, rg, nbits);
    FirstClearIsFirst(d, ss, rg, 0, lim);
    var c := FirstClear(d, ss, rg, 0, lim);
    if c >= 0 {
      forall i: nat | i < Bits(ss, rg)
        ensures IsSet(SetBit(d, ss, rg, c), ss, rg, i) == (i == c || IsSet(d, ss, rg, i))
      {
        BitAfterSetBit(d, ss, rg, c, i);
      }
    }
  }

  /** NewChild takes the first inode whose bit is clear among the bits it
      inspects and marks it in use, leaving the other bits as they were; it
      fails, changing nothing, only when each of those bits is set. */
  lemma NewChildBitmap(d: Disk, g: Geometry, kind: int)
    requires WellFormed(d, g) && IsInt32(kind)
    ensures var (c, d') := NewChild(d, g, kind);
      var lim := Limit(g.sectorSize, InodeBitmap(g), InodeBits(g));
      (c >= 0 ==>
         c < lim && !InodeInUse(d, g, c)
         && forall i: nat :: InodeInUse(d', g, i) == (i == c || InodeInUse(d, g, i)))
      && (forall i: nat :: i < c ==> InodeInUse(d, g, i))
      && (c < 0 ==> d' == d && forall i: nat :: i < lim ==> InodeInUse(d, g, i))
  {
    BitmapsFit(d, g);
    var ss, rg := g.sectorSize, InodeBitmap(g);
    AllocateBits(d, ss, rg, InodeBits(g));
    var (c, d1) := Allocate(d, ss, rg, InodeBits(g));
    if c >= 0 {
      assert c < g.maxFiles;
      InodeAddressing(g, c);
      RegionsAreContiguous(g);
      var d' := NewChild(d, g, kind).1;
      BitmapsFit(d', g);
      forall i: nat | i < Bits(ss, rg)
        ensures IsSet(d', ss, rg, i) == IsSet(d1, ss, rg, i)
      {
        IsSetFrame(d1, d', ss, rg, i);
      }
    }
  }

  /** As written, add_inode runs out of inodes while most of them are
      free: when inodes 0 up to INODE_BITMAP_SIZE - 1 (an eighth of
      MAX_FILES, rounded up) are in use and `c` is the first free one, the
      allocation HW4/LibFS.c:347 makes fails, while the one NewChild makes
      takes `c`. */
  lemma InodeBitsAsWrittenStopEarly(d: Disk, g: Geometry, c: nat)
    requires WellFormed(d, g) && InodeBitsAsWritten(g) <= c < InodeBits(g)
    requires !InodeInUse(d, g, c) && forall i: nat :: i < c ==> InodeInUse(d, g, i)
    ensures Allocate(d, g.sectorSize, InodeBitmap(g), InodeBitsAsWritten(g)).0 == -1
    ensures Allocate(d, g.sectorSize, InodeBitmap(g), InodeBits(g)).0 == c
  {
    BitmapsFit(d, g);
    BitmapsCoverTheirObjects(g);
    var ss, rg := g.sectorSize, InodeBitmap(g);
    var few, all := Limit(ss, rg, InodeBitsAsWritten(g)), Limit(ss, rg, InodeBits(g));
    assert few <= c < all <= Bits(ss, rg);
    forall q | 0 <= q <= c
      ensures IsSet(d, ss, rg, q) == (q != c)
    {
      assert InodeInUse(d, g, q) == (q != c);
    }
    FirstClearNone(d, ss, rg, few);
    FirstClearAt(d, ss, rg, all, c);
  }

  /** As written, a sector is taken only among the first SECTOR_BITMAP_SIZE
      sectors (an eighth of TOTAL_SECTORS, rounded up): when those are in
      use and `s` is the first free sector, the allocation HW4/LibFS.c:396
      makes fails, while FreeSector finds `s`. */
  lemma SectorBitsAsWrittenStopEarly(d: Disk, g: Geometry, s: nat)
    requires WellFormed(d, g) && SectorBitsAsWritten(g) <= s < SectorBits(g)
    requires Fits(d, g.sectorSize, SectorBitmap(g)) && s < Bits(g.sectorSize, SectorBitmap(g))
    requires !IsSet(d, g.sectorSize, SectorBitmap(g), s)
    requires forall i: nat :: i < s ==> IsSet(d, g.sectorSize, SectorBitmap(g), i)
    ensures Allocate(d, g.sectorSize, SectorBitmap(g), SectorBitsAsWritten(g)).0 == -1
    ensures FreeSector(d, g) == s
  {
    BitmapsCoverTheirObjects(g);
    var ss, rg := g.sectorSize, SectorBitmap(g);
    FirstClearNone(d, ss, rg, Limit(ss, rg, SectorBitsAsWritten(g)));
    FirstClearAt(d, ss, rg, Limit(ss, rg, SectorBits(g)), s);
  }

  /** With at least two inodes (sectors) the byte count passed as written
      is below the number of inodes (sectors), so the lemmas above have
      inputs. */
  lemma BitsAsWrittenFewer(g: Geometry)
    requires g.Valid()
    ensures g.maxFiles >= 2 ==> InodeBitsAsWritten(g) < InodeBits(g)
    ensures SectorBitsAsWritten(g) < SectorBits(g)
  {
    RegionsAreContiguous(g);
  }

  /** NewChild gives the inode it takes a blank record of type `kind` and
      leaves every other inode as it was. */
  lemma NewChildRecords(d: Disk, g: Geometry, kind: int, n: nat)
    requires WellFormed(d, g) && IsInt32(kind) && HasInode(d, g, n)
    ensures var (c, d') := NewChild(d, g, kind);
      HasInode(d', g, n)
      && InodeAt(d', g, n) == if n == c then BlankInode(kind, g.maxSectorsPerFile) else InodeAt(d, g, n)
  {
    BitmapsFit(d, g);
    AllocateKeepsInodes(d, g, InodeBitmap(g), InodeBits(g), n);
    var (c, d1) := Allocate(d, g.sectorSize, InodeBitmap(g), InodeBits(g));
    if c >= 0 && Readable(d1, g.InodeSector(c)) {
      BlankRecordEffect(g, d1, c, kind, n);
    }
  }

  /** The entry PutEntry writes reads back as the name and the inode number,
      the other entries of its buffer are kept, the parent's buffer is
      written with the new size, and no other sector changes; it fails,
      changing nothing, exactly when the entry's sector is off the disk. */
  lemma PutEntryEffect(d: Disk, g: Geometry, ps: nat, pbuf: seq<bv8>, off: nat, size: int,
                       sec: int, dbuf: seq<bv8>, slot: nat, c: int, name: string)
    requires WellFormed(d, g) && ps < |d| && |pbuf| == g.sectorSize && off + 4 <= g.sectorSize
    requires |dbuf| == g.sectorSize && slot < g.DirentsPerSector() && IsCString(name)
    ensures var (r, d') := PutEntry(d, g, ps, pbuf, off, size, sec, dbuf, slot, c, name);
      (r == 0 <==> Readable(d, sec))
      && (r != 0 ==> d' == d)
      && (r == 0 ==>
            d'[ps] == PutWord(pbuf, off, Wrap32(size + 1))
            && (forall x :: 0 <= x < |d| && x != sec && x != ps ==> d'[x] == d[x])
            && (sec != ps ==>
                  d'[sec] == Splice(dbuf, slot * DIRENT_SIZE, EntryBytes(name, c))
                  && DirentAt(d', g, sec, slot) == Dirent(StrNCpy(name, MAX_NAME), Wrap32(c))
                  && forall k :: 0 <= k < g.DirentsPerSector() && k != slot ==>
                       DirentAt(d', g, sec, k) == DirentIn(dbuf, k * DIRENT_SIZE)))
  {
    if Readable(d, sec) {
      DirentSlotFits(g, slot);
      WrittenDirent(dbuf, slot * DIRENT_SIZE, StrNCpy(name, MAX_NAME), Wrap32(c));
      forall k | 0 <= k < g.DirentsPerSector() && k != slot
        ensures DirentIn(Splice(dbuf, slot * DIRENT_SIZE, EntryBytes(name, c)), k * DIRENT_SIZE)
             == DirentIn(dbuf, k * DIRENT_SIZE)
      {
        DirentSlotFits(g, k);
        DirentAfterSplice(dbuf, slot * DIRENT_SIZE, EntryBytes(name, c), k * DIRENT_SIZE);
      }
    }
  }

  /** The `data` slot of the sector holding entry `size` of a directory. */
  function EntryGroup(g: Geometry, size: int): (q: nat)
    requires g.Valid() && 0 <= size < g.maxSectorsPerFile * g.DirentsPerSector()
    ensures q < g.maxSectorsPerFile && q == size / g.DirentsPerSector()
  {
    GroupSplit(g.DirentsPerSector(), g.maxSectorsPerFile, size);
    size / g.DirentsPerSector()
  }

  /** The slot of entry `size` of a directory within its sector. */
  function EntrySlot(g: Geometry, size: int): (k: nat)
    requires g.Valid() && 0 <= size < g.maxSectorsPerFile * g.DirentsPerSector()
    ensures k < g.DirentsPerSector() && k == size - EntryGroup(g, size) * g.DirentsPerSector()
  {
    GroupSplit(g.DirentsPerSector(), g.maxSectorsPerFile, size);
    size - EntryGroup(g, size) * g.DirentsPerSector()
  }

  /** The directory's record and the entry's sector after an entry naming
      inode `c` under `name` went to slot `slot` of sector `sec`, recorded in
      data slot `group`; the other entries of the sector are empty when it
      is `fresh`, and kept otherwise. */
  predicate Appended(d: Disk, d': Disk, g: Geometry, ps: nat, off: nat, p: Inode, sec: nat,
                     group: nat, slot: nat, newSector: bool, c: int, name: string)
    requires WellFormed(d, g) && WellFormed(d', g) && ps < |d| && sec < |d| && IsCString(name)
    requires off + InodeBytes(g.maxSectorsPerFile) <= g.sectorSize && |p.data| == g.maxSectorsPerFile
    requires group < g.maxSectorsPerFile && slot < g.DirentsPerSector()
  {
    DirentSlotFits(g, slot);
    InodeIn(d'[ps], off, g.maxSectorsPerFile) == Inode(Wrap32(p.size + 1), p.kind, p.data[group := Wrap32(sec)])
    && DirentAt(d', g, sec, slot) == Dirent(StrNCpy(name, MAX_NAME), Wrap32(c))
    && forall k :: 0 <= k < g.DirentsPerSector() && k != slot ==>
         DirentAt(d', g, sec, k) == if newSector then Dirent(Zeros(MAX_NAME), 0) else DirentAt(d, g, sec, k)
  }

  /** Appended holds once the parent's buffer `pbuf`, recording the
      entry's sector, went to `ps` with the size one larger, and the entry
      was spliced into the entry buffer `dbuf` written to `sec`. */
  lemma AppendedByWrites(d: Disk, d': Disk, g: Geometry, ps: nat, off: nat, p: Inode, sec: nat,
                         group: nat, slot: nat, newSector: bool, c: int, name: string,
                         pbuf: seq<bv8>, dbuf: seq<bv8>)
    requires WellFormed(d, g) && WellFormed(d', g) && ps < |d| && sec < |d| && sec != ps && IsCString(name)
    requires off + InodeBytes(g.maxSectorsPerFile) <= g.sectorSize && |p.data| == g.maxSectorsPerFile
    requires group < g.maxSectorsPerFile && slot < g.DirentsPerSector()
    requires |pbuf| == g.sectorSize && |dbuf| == g.sectorSize
    requires InodeIn(pbuf, off, g.maxSectorsPerFile) == p.(data := p.data[group := Wrap32(sec)])
    requires d'[ps] == PutWord(pbuf, off, Wrap32(p.size + 1))
    requires d'[sec] == Splice(dbuf, slot * DIRENT_SIZE, EntryBytes(name, c))
    requires forall k :: 0 <= k < g.DirentsPerSector() && k != slot ==>
               k * DIRENT_SIZE + DIRENT_SIZE <= |dbuf|
               && DirentIn(dbuf, k * DIRENT_SIZE) == if newSector then Dirent(Zeros(MAX_NAME), 0) else DirentAt(d, g, sec, k)
    ensures Appended(d, d', g, ps, off, p, sec, group, slot, newSector, c, name)
  {
    InodeAfterPutSize(pbuf, off, g.maxSectorsPerFile, Wrap32(p.size + 1));
    DirentSlotFits(g, slot);
    WrittenDirent(dbuf, slot * DIRENT_SIZE, StrNCpy(name, MAX_NAME), Wrap32(c));
    forall k | 0 <= k < g.DirentsPerSector() && k != slot
      ensures DirentAt(d', g, sec, k) == DirentIn(dbuf, k * DIRENT_SIZE)
    {
      DirentSlotFits(g, k);
      DirentAfterSplice(dbuf, slot * DIRENT_SIZE, EntryBytes(name, c), k * DIRENT_SIZE);
    }
  }

  /** The sector the sector bitmap hands out is FreeSector. */
  lemma AllocatesFreeSector(d: Disk, g: Geometry)
    requires WellFormed(d, g)
    ensures Fits(d, g.sectorSize, SectorBitmap(g))
            && Allocate(d, g.sectorSize, SectorBitmap(g), SectorBits(g)).0 == FreeSector(d, g)
  {
    BitmapsFit(d, g);
    FirstClearIsFirst(d, g.sectorSize, SectorBitmap(g), 0, Limit(g.sectorSize, SectorBitmap(g), SectorBits(g)));
  }

  /** What AppendInNewSector writes once it has a sector: the parent's
      buffer, recording the sector, with the size one larger, and a zeroed
      sector with the entry in its first slot. */
  lemma NewSectorWrites(d: Disk, g: Geometry, ps: nat, off: nat, p: Inode, c: int, name: string)
    requires WellFormed(d, g) && IsCString(name) && ps < |d|
    requires off + InodeBytes(g.maxSectorsPerFile) <= g.sectorSize && |p.data| == g.maxSectorsPerFile
    requires 0 <= p.size < g.maxSectorsPerFile * g.DirentsPerSector() && EntrySlot(g, p.size) == 0
    requires Readable(d, FreeSector(d, g)) && FreeSector(d, g) != ps
    ensures var (r, d') := AppendInNewSector(d, g, ps, off, p, c, name);
      var ns := FreeSector(d, g);
      r == 0 && |d'| == |d|
      && d'[ps] == PutWord(PutWord(d[ps], off + 8 + 4 * EntryGroup(g, p.size), Wrap32(ns)), off, Wrap32(p.size + 1))
      && d'[ns] == Splice(Zeros(g.sectorSize), 0, EntryBytes(name, c))
  {
    AllocatesFreeSector(d, g);
    var ns, d3 := FreeSector(d, g), Allocate(d, g.sectorSize, SectorBitmap(g), SectorBits(g)).1;
    var pbuf := PutWord(d[ps], off + 8 + 4 * EntryGroup(g, p.size), Wrap32(ns));
    var d4 := d3[ns := Splice(Zeros(g.sectorSize), 0, EntryBytes(name, c))];
    var res := PutEntry(d3, g, ps, pbuf, off, p.size, ns, Zeros(g.sectorSize), 0, c, name);
    assert res == (0, d4[ps := PutWord(pbuf, off, Wrap32(p.size + 1))]);
    assert AppendInNewSector(d, g, ps, off, p, c, name) == res;
  }

  /** Every slot of a zeroed sector reads as an empty entry. */
  lemma ZeroedSectorEntries(g: Geometry)
    requires g.Valid()
    ensures forall k :: 0 <= k < g.DirentsPerSector() ==>
              k * DIRENT_SIZE + DIRENT_SIZE <= g.sectorSize
              && DirentIn(Zeros(g.sectorSize), k * DIRENT_SIZE) == Dirent(Zeros(MAX_NAME), 0)
  {
    forall k | 0 <= k < g.DirentsPerSector()
      ensures k * DIRENT_SIZE + DIRENT_SIZE <= g.sectorSize
      ensures DirentIn(Zeros(g.sectorSize), k * DIRENT_SIZE) == Dirent(Zeros(MAX_NAME), 0)
    {
      DirentSlotFits(g, k);
      DirentOfZeros(g.sectorSize, k * DIRENT_SIZE);
    }
  }

  /** AppendInNewSector: the new sector holds the entry in its first slot
      and empty slots after it. */
  lemma AppendInNewSectorEffect(d: Disk, g: Geometry, ps: nat, off: nat, p: Inode, c: int, name: string)
    requires WellFormed(d, g) && IsCString(name) && ps < |d|
    requires off + InodeBytes(g.maxSectorsPerFile) <= g.sectorSize && |p.data| == g.maxSectorsPerFile
    requires 0 <= p.size < g.maxSectorsPerFile * g.DirentsPerSector()
    requires InodeIn(d[ps], off, g.maxSectorsPerFile) == p && EntrySlot(g, p.size) == 0
    ensures var (r, d') := AppendInNewSector(d, g, ps, off, p, c, name);
      var sec := FreeSector(d, g);
      r == 0 && sec != ps ==> Appended(d, d', g, ps, off, p, sec, EntryGroup(g, p.size), 0, true, c, name)
  {
    var ns := FreeSector(d, g);
    if Readable(d, ns) && ns != ps {
      var group := EntryGroup(g, p.size);
      var pbuf := PutWord(d[ps], off + 8 + 4 * group, Wrap32(ns));
      NewSectorWrites(d, g, ps, off, p, c, name);
      InodeAfterPutData(d[ps], off, g.maxSectorsPerFile, group, Wrap32(ns));
      ZeroedSectorEntries(g);
      var d' := AppendInNewSector(d, g, ps, off, p, c, name).1;
      AppendedByWrites(d, d', g, ps, off, p, ns, group, 0, true, c, name, pbuf, Zeros(g.sectorSize));
    }
  }

  /** AppendInGroupSector: the entry goes to the group's sector after the
      entries already there, which are kept. */
  lemma AppendInGroupSectorEffect(d: Disk, g: Geometry, ps: nat, off: nat, p: Inode, c: int, name: string)
    requires WellFormed(d, g) && IsCString(name) && ps < |d|
    requires off + InodeBytes(g.maxSectorsPerFile) <= g.sectorSize && |p.data| == g.maxSectorsPerFile
    requires 0 <= p.size < g.maxSectorsPerFile * g.DirentsPerSector()
    requires InodeIn(d[ps], off, g.maxSectorsPerFile) == p
    ensures var (r, d') := AppendInGroupSector(d, g, ps, off, p, c, name);
      var sec := p.data[EntryGroup(g, p.size)];
      r == 0 && sec != ps ==> Appended(d, d', g, ps, off, p, sec, EntryGroup(g, p.size), EntrySlot(g, p.size), false, c, name)
  {
    var m := g.maxSectorsPerFile;
    var group, slot := EntryGroup(g, p.size), EntrySlot(g, p.size);
    var sec := p.data[group];
    if Readable(d, sec) && sec != ps {
      var res := PutEntry(d, g, ps, d[ps], off, p.size, sec, d[sec], slot, c, name);
      InodeDataAt(d[ps], off, m, group);
      assert p.data[group := Wrap32(sec)] == p.data;
      AppendedByWrites(d, res.1, g, ps, off, p, sec, group, slot, false, c, name, d[ps], d[sec]);
    }
  }

  /** After AppendEntry succeeds (exactly when the entry's sector is on the
      disk), the directory's record has its size one larger and the entry's
      sector in the `data` slot of the entry's group, and the slot after the
      directory's last entry names inode `c` under `name`; the other slots
      of that sector are kept, or empty when the sector is new. */
  lemma AppendEntryEffect(d: Disk, g: Geometry, ps: nat, off: nat, p: Inode, c: int, name: string)
    requires WellFormed(d, g) && IsCString(name) && ps < |d|
    requires off + InodeBytes(g.maxSectorsPerFile) <= g.sectorSize && |p.data| == g.maxSectorsPerFile
    requires 0 <= p.size < g.maxSectorsPerFile * g.DirentsPerSector()
    requires InodeIn(d[ps], off, g.maxSectorsPerFile) == p
    ensures var (r, d') := AppendEntry(d, g, ps, off, p, c, name);
      var sec := EntrySector(d, g, p);
      r == 0 && sec != ps ==>
        Appended(d, d', g, ps, off, p, sec, EntryGroup(g, p.size), EntrySlot(g, p.size), EntrySlot(g, p.size) == 0, c, name)
  {
    if EntrySlot(g, p.size) == 0 {
      AppendInNewSectorEffect(d, g, ps, off, p, c, name);
    } else {
      AppendInGroupSectorEffect(d, g, ps, off, p, c, name);
    }
  }

  // ----- remove_inode -----

  /** The region remove_inode hands to bitmap_reset for the child's inode
      bit (HW4/LibFS.c:493): INODE_BITMAP_SECTORS sectors starting at
      INODE_TABLE_START_SECTOR, which are inode-table sectors. */
  function InodeTableAsBitmap(g: Geometry): Region
    requires g.Valid()
  {
    Region(g.InodeTableStart(), g.InodeBitmapSectors())
  }

  /** Both regions remove_inode could reset the child's bit in lie on the
      disk. */
  lemma InodeRegionsFit(d: Disk, g: Geometry)
    requires WellFormed(d, g)
    ensures Fits(d, g.sectorSize, InodeBitmap(g))
    ensures Fits(d, g.sectorSize, InodeTableAsBitmap(g))
    ensures INODE_BITMAP_START_SECTOR + g.InodeBitmapSectors() <= g.InodeTableStart()
  {
    BitmapsFit(d, g);
    RegionsAreContiguous(g);
    InodeBitmapNoLargerThanTable(g);
  }

  /** The data slots of inode `n` hold no negative sector number (a negative
      one would make bitmap_reset index its buffer before its start). */
  predicate DataAddressable(d: Disk, g: Geometry, n: nat)
    requires WellFormed(d, g)
  {
    HasInode(d, g, n) ==> forall i :: 0 <= i < g.maxSectorsPerFile ==> InodeAt(d, g, n).data[i] >= 0
  }

  /** One data slot of the removed inode (HW4/LibFS.c:479-486): a nonzero
      sector `x` is overwritten with zeros when the disk has it, and its bit
      in the sector bitmap is cleared. */
  function FreeSlot(d: Disk, g: Geometry, x: nat): (r: Disk)
    requires WellFormed(d, g)
    ensures WellFormed(r, g)
  {
    if x == 0 then d
    else
      var d1 := if Readable(d, x) then d[x := Zeros(g.sectorSize)] else d;
      BitmapsFit(d1, g);
      ResetBit(d1, g.sectorSize, SectorBitmap(g), x)
  }

  /** The first `i` data slots of the removed inode, freed in order. */
  function FreeData(d: Disk, g: Geometry, data: seq<int>, i: nat): (r: Disk)
    requires WellFormed(d, g) && i <= |data| && forall j :: 0 <= j < |data| ==> data[j] >= 0
    ensures WellFormed(r, g)
  {
    if i == 0 then d else FreeSlot(FreeData(d, g, data, i - 1), g, data[i - 1])
  }

  /** The sector bytes `buf` with the record of inode `n` zeroed. */
  function ZeroRecord(g: Geometry, buf: seq<bv8>, n: nat): (r: seq<bv8>)
    requires g.Valid() && |buf| == g.sectorSize
    ensures |r| == |buf|
  {
    InodeRecordFits(g, n);
    Splice(buf, g.InodeOffset(n), Zeros(g.InodeSize()))
  }

  /** The first half of remove_inode (HW4/LibFS.c:461-493): read the child
      `child`; -1 when its sector cannot be read, -3 when it is not of type
      `kind`, -2 when it is a non-empty directory; otherwise free its data
      sectors, zero its record and reset bit `child` of the region `rg`. */
  function Release(d: Disk, g: Geometry, kind: int, child: nat, rg: Region): (res: (int, Disk))
    requires WellFormed(d, g) && DataAddressable(d, g, child) && Fits(d, g.sectorSize, rg)
    ensures WellFormed(res.1, g) && -3 <= res.0 <= 0
    ensures res.0 == -1 <==> !HasInode(d, g, child)
    ensures res.0 == -3 <==> HasInode(d, g, child) && InodeAt(d, g, child).kind != kind
    ensures res.0 == -2 <==> HasInode(d, g, child) && InodeAt(d, g, child).kind == kind != 0
                              && InodeAt(d, g, child).size != 0
    ensures res.0 != 0 ==> res.1 == d
  {
    var cs := g.InodeSector(child);
    if !Readable(d, cs) then (-1, d)
    else
      var c := InodeAt(d, g, child);
      if c.kind != kind then (-3, d)
      else if c.kind != 0 && c.size != 0 then (-2, d)
      else (0, ResetBit(Cleared(d, g, child), g.sectorSize, rg, child))
  }

  /** The disk after the child's data sectors are freed and its record, as
      read before, is written back zeroed (HW4/LibFS.c:479-489). */
  function Cleared(d: Disk, g: Geometry, child: nat): (r: Disk)
    requires WellFormed(d, g) && DataAddressable(d, g, child) && HasInode(d, g, child)
    ensures WellFormed(r, g)
  {
    var cs := g.InodeSector(child);
    var d1 := FreeData(d, g, InodeAt(d, g, child).data, g.maxSectorsPerFile);
    d1[cs := ZeroRecord(g, d[cs], child)]
  }

  /** The first half of remove_inode as written: the child's bit is reset
      in the region starting at INODE_TABLE_START_SECTOR. */
  function ReleaseAsWritten(d: Disk, g: Geometry, kind: int, child: nat): (res: (int, Disk))
    requires WellFormed(d, g) && DataAddressable(d, g, child)
    ensures WellFormed(res.1, g)
  {
    InodeRegionsFit(d, g);
    Release(d, g, kind, child, InodeTableAsBitmap(g))
  }

  /** The first half of remove_inode with the child's bit reset in the
      inode bitmap. */
  function ReleaseSpec(d: Disk, g: Geometry, kind: int, child: nat): (res: (int, Disk))
    requires WellFormed(d, g) && DataAddressable(d, g, child)
    ensures WellFormed(res.1, g)
  {
    InodeRegionsFit(d, g);
    Release(d, g, kind, child, InodeBitmap(g))
  }

  /** The result of looking for the child's entry in a directory: the data
      slot `j` and the entry `k` of that sector, a sector that could not be
      read, or nothing. */
  datatype Search = NotFound | ReadError | Found(j: nat, k: nat)

  /** The inode numbers of the entries of sector `sec`. */
  function EntryInodes(d: Disk, g: Geometry, sec: nat): (xs: seq<int>)
    requires WellFormed(d, g) && sec < |d|
    ensures |xs| == g.DirentsPerSector()
    ensures forall k :: 0 <= k < |xs| ==> xs[k] == DirentAt(d, g, sec, k).inode
  {
    seq(g.DirentsPerSector(), k requires 0 <= k < g.DirentsPerSector() => DirentAt(d, g, sec, k).inode)
  }

  /** The first index from `k` on at which `xs` holds `x`, or -1. */
  function IndexFrom(xs: seq<int>, x: int, k: nat): (r: int)
    ensures -1 <= r < |xs|
    decreases |xs| - k
  {
    if k >= |xs| then -1 else if xs[k] == x then k else IndexFrom(xs, x, k + 1)
  }

  /** IndexFrom finds the first occurrence and reports -1 exactly when there
      is none. */
  lemma {:induction false} IndexFromIsFirst(xs: seq<int>, x: int, k: nat)
    ensures var r := IndexFrom(xs, x, k);
      (r == -1 <==> forall i :: k <= i < |xs| ==> xs[i] != x)
      && (r >= 0 ==> k <= r && xs[r] == x && forall i :: k <= i < r ==> xs[i] != x)
    decreases |xs| - k
  {
    if k < |xs| && xs[k] != x {
      IndexFromIsFirst(xs, x, k + 1);
    }
  }

  /** The first entry of sector `sec` naming inode `child`, or -1. */
  function EntryWith(d: Disk, g: Geometry, sec: nat, child: int): (r: int)
    requires WellFormed(d, g) && sec < |d|
    ensures -1 <= r < g.DirentsPerSector()
  {
    IndexFrom(EntryInodes(d, g, sec), child, 0)
  }

  /** The search of HW4/LibFS.c:517-537 from data slot `j` on: slots
      holding 0 are skipped, a slot whose sector cannot be read ends the
      search. */
  function Locate(d: Disk, g: Geometry, data: seq<int>, child: int, j: nat): (s: Search)
    requires WellFormed(d, g)
    ensures s.Found? ==> s.j < |data| && Readable(d, data[s.j]) && s.k < g.DirentsPerSector()
    decreases |data| - j
  {
    if j >= |data| then NotFound
    else if data[j] == 0 then Locate(d, g, data, child, j + 1)
    else if !Readable(d, data[j]) then ReadError
    else
      var k := EntryWith(d, g, data[j], child);
      if k >= 0 then Found(j, k) else Locate(d, g, data, child, j + 1)
  }

  /** The second half of remove_inode (HW4/LibFS.c:496-537): read the
      parent; -1 when its sector cannot be read, -2 when it is not a
      directory; otherwise zero the first entry naming `child`, write that
      sector, then write the parent's sector as read with the size one
      smaller.  -1 when no entry names the child or a read fails. */
  function Unlink(d: Disk, g: Geometry, parent: nat, child: int): (res: (int, Disk))
    requires WellFormed(d, g)
    ensures WellFormed(res.1, g) && -2 <= res.0 <= 0
    ensures res.0 == 0 <==> HasInode(d, g, parent) && InodeAt(d, g, parent).kind == 1
                            && Locate(d, g, InodeAt(d, g, parent).data, child, 0).Found?
    ensures res.0 != 0 ==> res.1 == d
  {
    var ps := g.InodeSector(parent);
    if !Readable(d, ps) then (-1, d)
    else
      var p := InodeAt(d, g, parent);
      if p.kind != 1 then (-2, d)
      else
        var s := Locate(d, g, p.data, child, 0);
        if !s.Found? then (-1, d)
        else
          (0, DropEntry(d, g, parent, p.size, p.data[s.j], s.k))
  }

  /** Entry `k` of sector `sec` zeroed and written, then the sector of
      inode `parent`, as read before, written with the parent's size one
      less than `size` (HW4/LibFS.c:527-530). */
  function DropEntry(d: Disk, g: Geometry, parent: nat, size: int, sec: nat, k: nat): (r: Disk)
    requires HasInode(d, g, parent) && sec < |d| && k < g.DirentsPerSector()
    ensures WellFormed(r, g)
  {
    DirentSlotFits(g, k);
    InodeRecordFits(g, parent);
    var ps := g.InodeSector(parent);
    var d4 := d[sec := Splice(d[sec], k * DIRENT_SIZE, Zeros(DIRENT_SIZE))];
    d4[ps := PutWord(d[ps], g.InodeOffset(parent), Wrap32(size - 1))]
  }

  /** remove_inode with the child's inode bit reset in the region `rg`. */
  function RemoveIn(d: Disk, g: Geometry, kind: int, parent: nat, child: nat, rg: Region): (res: (int, Disk))
    requires WellFormed(d, g) && DataAddressable(d, g, child) && Fits(d, g.sectorSize, rg)
    ensures WellFormed(res.1, g) && -3 <= res.0 <= 0
    ensures res.0 == -3 <==> HasInode(d, g, child) && InodeAt(d, g, child).kind != kind
    ensures !HasInode(d, g, child) ==> res == (-1, d)
    ensures HasInode(d, g, child) && InodeAt(d, g, child).kind == kind != 0 && InodeAt(d, g, child).size != 0
            ==> res == (-2, d)
  {
    var (r, d3) := Release(d, g, kind, child, rg);
    if r < 0 then (r, d3) else Unlink(d3, g, parent, child)
  }

  /** remove_inode (HW4/LibFS.c:459-538) as written: the child's bit is
      reset in the region starting at INODE_TABLE_START_SECTOR. */
  function RemoveInodeAsWritten(d: Disk, g: Geometry, kind: int, parent: nat, child: nat): (res: (int, Disk))
    requires WellFormed(d, g) && DataAddressable(d, g, child)
    ensures WellFormed(res.1, g)
  {
    InodeRegionsFit(d, g);
    RemoveIn(d, g, kind, parent, child, InodeTableAsBitmap(g))
  }

  /** remove_inode with the child's bit reset in the inode bitmap, as
      intended. */
  function RemoveInodeSpec(d: Disk, g: Geometry, kind: int, parent: nat, child: nat): (res: (int, Disk))
    requires WellFormed(d, g) && DataAddressable(d, g, child)
    ensures WellFormed(res.1, g)
  {
    InodeRegionsFit(d, g);
    RemoveIn(d, g, kind, parent, child, InodeBitmap(g))
  }

  /** The loop of HW4/LibFS.c:479-486 over the child's data slots. */
  method FreeChildData(disk: array<seq<bv8>>, g: Geometry, data: seq<int>)
    requires WellFormed(disk[..], g) && |data| == g.maxSectorsPerFile
    requires forall j :: 0 <= j < |data| ==> data[j] >= 0
    modifies disk
    ensures disk[..] == FreeData(old(disk[..]), g, data, |data|)
  {
    ghost var d := disk[..];
    for i := 0 to |data|
      invariant disk[..] == FreeData(d, g, data, i)
    {
      var x := data[i];
      if x != 0 {
        if 0 <= x < disk.Length {
          disk[x] := Zeros(g.sectorSize);
        }
        BitmapsFit(disk[..], g);
        var _ := Reset(disk, g.sectorSize, SectorBitmap(g), x);
      }
    }
  }

  /** The first half of remove_inode (HW4/LibFS.c:461-493), resetting the
      child's bit in the inode bitmap. */
  method ReleaseChild(disk: array<seq<bv8>>, g: Geometry, kind: int, child: nat) returns (r: int)
    requires WellFormed(disk[..], g) && DataAddressable(disk[..], g, child)
    modifies disk
    ensures (r, disk[..]) == Release(old(disk[..]), g, kind, child, InodeBitmap(g))
  {
    var cs := g.InodeTableStart() + child / g.InodesPerSector();
    if !(0 <= cs < disk.Length) {
      return -1;
    }
    var inodeBuffer := disk[cs];
    InodeRecordFits(g, child);
    var off := g.InodeOffset(child);
    var c := InodeIn(inodeBuffer, off, g.maxSectorsPerFile);
    if c.kind != kind {
      return -3;
    } else if c.kind != 0 && c.size != 0 {
      return -2;
    }
    assert c == InodeAt(disk[..], g, child);
    FreeChildData(disk, g, c.data);
    inodeBuffer := Splice(inodeBuffer, off, Zeros(g.InodeSize()));
    disk[cs] := inodeBuffer;
    InodeRegionsFit(disk[..], g);
    var _ := Reset(disk, g.sectorSize, InodeBitmap(g), child);
    return 0;
  }

  /** The inner loop of HW4/LibFS.c:522-534: the first entry of sector
      `sec` naming `child`, or -1. */
  method FindEntry(disk: array<seq<bv8>>, g: Geometry, sec: nat, child: int) returns (k: int)
    requires WellFormed(disk[..], g) && sec < disk.Length
    ensures k == EntryWith(disk[..], g, sec, child)
  {
    var buffer := disk[sec];
    var dps := g.DirentsPerSector();
    ghost var xs := EntryInodes(disk[..], g, sec);
    for i := 0 to dps
      invariant IndexFrom(xs, child, 0) == IndexFrom(xs, child, i)
    {
      DirentSlotFits(g, i);
      assert xs[i] == DirentIn(buffer, i * DIRENT_SIZE).inode;
      if DirentIn(buffer, i * DIRENT_SIZE).inode == child {
        return i;
      }
    }
    return -1;
  }

  /** The loop of HW4/LibFS.c:517-537 that looks for the child's entry in
      the sectors `data` of the parent. */
  method LocateEntry(disk: array<seq<bv8>>, g: Geometry, data: seq<int>, child: int) returns (s: Search)
    requires WellFormed(disk[..], g)
    ensures s == Locate(disk[..], g, data, child, 0)
  {
    for j := 0 to |data|
      invariant Locate(disk[..], g, data, child, 0) == Locate(disk[..], g, data, child, j)
    {
      var sec := data[j];
      if sec != 0 {
        if !(0 <= sec < disk.Length) {
          return ReadError;
        }
        var k := FindEntry(disk, g, sec, child);
        if k >= 0 {
          return Found(j, k);
        }
      }
    }
    return NotFound;
  }

  /** The second half of remove_inode (HW4/LibFS.c:496-537). */
  method UnlinkChild(disk: array<seq<bv8>>, g: Geometry, parent: nat, child: int) returns (r: int)
    requires WellFormed(disk[..], g)
    modifies disk
    ensures (r, disk[..]) == Unlink(old(disk[..]), g, parent, child)
  {
    var ps := g.InodeTableStart() + parent / g.InodesPerSector();
    if !(0 <= ps < disk.Length) {
      return -1;
    }
    var inodeBuffer := disk[ps];
    InodeRecordFits(g, parent);
    var off := g.InodeOffset(parent);
    var p := InodeIn(inodeBuffer, off, g.maxSectorsPerFile);
    assert p == InodeAt(disk[..], g, parent);
    if p.kind != 1 {
      return -2;
    }
    var found := LocateEntry(disk, g, p.data, child);
    if !found.Found? {
      return -1;
    }
    DropChildEntry(disk, g, parent, p.size, p.data[found.j], found.k);
    return 0;
  }

  /** The writes of HW4/LibFS.c:527-530. */
  method DropChildEntry(disk: array<seq<bv8>>, g: Geometry, parent: nat, size: int, sec: nat, k: nat)
    requires HasInode(disk[..], g, parent) && sec < disk.Length && k < g.DirentsPerSector()
    modifies disk
    ensures disk[..] == DropEntry(old(disk[..]), g, parent, size, sec, k)
  {
    var ps := g.InodeTableStart() + parent / g.InodesPerSector();
    var inodeBuffer := disk[ps];
    DirentSlotFits(g, k);
    InodeRecordFits(g, parent);
    var direntBuffer := disk[sec];
    direntBuffer := Splice(direntBuffer, k * DIRENT_SIZE, Zeros(DIRENT_SIZE));
    disk[sec] := direntBuffer;
    inodeBuffer := PutWord(inodeBuffer, g.InodeOffset(parent), Wrap32(size - 1));
    disk[ps] := inodeBuffer;
  }

  /** remove_inode (HW4/LibFS.c:459-538), with the child's inode bit reset
      in the inode bitmap: removes inode `child` of type `kind` and its
      entry in the directory `parent`.  0 on success, -1 on a failed read or
      a missing entry, -2 for a non-empty directory or a parent that is not
      a directory, -3 for a child of the wrong type. */
  method RemoveInode(disk: array<seq<bv8>>, g: Geometry, kind: int, parent: nat, child: nat) returns (r: int)
    requires WellFormed(disk[..], g) && DataAddressable(disk[..], g, child)
    modifies disk
    ensures (r, disk[..]) == RemoveInodeSpec(old(disk[..]), g, kind, parent, child)
  {
    r := ReleaseChild(disk, g, kind, child);
    if r < 0 {
      return;
    }
    r := UnlinkChild(disk, g, parent, child);
  }

  // ----- what remove_inode does -----

  /** The entry EntryWith returns names `child` and no entry before it
      does; it returns -1 exactly when no entry of the sector does. */
  lemma EntryWithIsFirst(d: Disk, g: Geometry, sec: nat, child: int)
    requires WellFormed(d, g) && sec < |d|
    ensures var r := EntryWith(d, g, sec, child);
      (r == -1 <==> forall k :: 0 <= k < g.DirentsPerSector() ==> DirentAt(d, g, sec, k).inode != child)
      && (r >= 0 ==>
            DirentAt(d, g, sec, r).inode == child
            && forall k :: 0 <= k < r ==> DirentAt(d, g, sec, k).inode != child)
  {
    IndexFromIsFirst(EntryInodes(d, g, sec), child, 0);
  }

  /** Sector `sec` can be read and none of its entries names `child`. */
  predicate NoEntryFor(d: Disk, g: Geometry, sec: int, child: int)
    requires WellFormed(d, g)
  {
    Readable(d, sec) && forall k :: 0 <= k < g.DirentsPerSector() ==> DirentAt(d, g, sec, k).inode != child
  }

  /** Locate finds the first entry naming `child` in the first sector of
      `data` that has one; it reports nothing exactly when every nonzero
      slot names a readable sector without one, and a read error only when
      some nonzero slot names a sector the disk does not have. */
  lemma {:induction false} LocateIsFirst(d: Disk, g: Geometry, data: seq<int>, child: int, j: nat)
    requires WellFormed(d, g)
    ensures var s := Locate(d, g, data, child, j);
      (s.Found? ==>
         j <= s.j && data[s.j] != 0 && DirentAt(d, g, data[s.j], s.k).inode == child
         && (forall k :: 0 <= k < s.k ==> DirentAt(d, g, data[s.j], k).inode != child)
         && forall i :: j <= i < s.j && data[i] != 0 ==> NoEntryFor(d, g, data[i], child))
      && (s.NotFound? <==> forall i :: j <= i < |data| && data[i] != 0 ==> NoEntryFor(d, g, data[i], child))
      && (s.ReadError? ==> exists i :: j <= i < |data| && data[i] != 0 && !Readable(d, data[i]))
  {
    LocateFound(d, g, data, child, j);
    LocateNotFound(d, g, data, child, j);
    LocateReadError(d, g, data, child, j);
  }

  lemma {:induction false} LocateFound(d: Disk, g: Geometry, data: seq<int>, child: int, j: nat)
    requires WellFormed(d, g)
    ensures var s := Locate(d, g, data, child, j);
      s.Found? ==>
        j <= s.j && data[s.j] != 0 && DirentAt(d, g, data[s.j], s.k).inode == child
        && (forall k :: 0 <= k < s.k ==> DirentAt(d, g, data[s.j], k).inode != child)
        && forall i :: j <= i < s.j && data[i] != 0 ==> NoEntryFor(d, g, data[i], child)
    decreases |data| - j
  {
    if j < |data| {
      if data[j] == 0 {
        LocateFound(d, g, data, child, j + 1);
      } else if Readable(d, data[j]) {
        EntryWithIsFirst(d, g, data[j], child);
        if EntryWith(d, g, data[j], child) < 0 {
          LocateFound(d, g, data, child, j + 1);
        }
      }
    }
  }

  lemma {:induction false} LocateNotFound(d: Disk, g: Geometry, data: seq<int>, child: int, j: nat)
    requires WellFormed(d, g)
    ensures Locate(d, g, data, child, j).NotFound?
      <==> forall i :: j <= i < |data| && data[i] != 0 ==> NoEntryFor(d, g, data[i], child)
    decreases |data| - j
  {
    if j < |data| {
      if data[j] == 0 {
        LocateNotFound(d, g, data, child, j + 1);
      } else if Readable(d, data[j]) {
        EntryWithIsFirst(d, g, data[j], child);
        if EntryWith(d, g, data[j], child) < 0 {
          LocateNotFound(d, g, data, child, j + 1);
        }
      }
    }
  }

  lemma {:induction false} LocateReadError(d: Disk, g: Geometry, data: seq<int>, child: int, j: nat)
    requires WellFormed(d, g)
    ensures Locate(d, g, data, child, j).ReadError?
      ==> exists i :: j <= i < |data| && data[i] != 0 && !Readable(d, data[i])
    decreases |data| - j
  {
    if j < |data| && (data[j] == 0 || (Readable(d, data[j]) && EntryWith(d, g, data[j], child) < 0)) {
      LocateReadError(d, g, data, child, j + 1);
    }
  }

  /** `d'` is `d` with the first entry naming `child` in the directory
      `parent` zeroed and the parent's size one smaller; every other sector
      is as it was.  When that entry shares the parent's sector, the
      parent's copy read before the entry was zeroed is written last, so
      the entry survives there. */
  predicate Unlinked(d: Disk, d': Disk, g: Geometry, parent: nat, child: int)
    requires WellFormed(d, g) && WellFormed(d', g) && HasInode(d, g, parent)
  {
    var p := InodeAt(d, g, parent);
    var s := Locate(d, g, p.data, child, 0);
    var ps := g.InodeSector(parent);
    s.Found?
    && HasInode(d', g, parent) && InodeAt(d', g, parent) == p.(size := Wrap32(p.size - 1))
    && (p.data[s.j] != ps ==>
          DirentAt(d', g, p.data[s.j], s.k) == Dirent(Zeros(MAX_NAME), 0)
          && forall k :: 0 <= k < g.DirentsPerSector() && k != s.k ==>
               DirentAt(d', g, p.data[s.j], k) == DirentAt(d, g, p.data[s.j], k))
    && forall x :: 0 <= x < |d| && x != p.data[s.j] && x != ps ==> d'[x] == d[x]
  }

  /** A successful Unlink removes the first entry naming the child. */
  lemma UnlinkEffect(d: Disk, g: Geometry, parent: nat, child: int)
    requires WellFormed(d, g) && Unlink(d, g, parent, child).0 == 0
    ensures HasInode(d, g, parent) && Unlinked(d, Unlink(d, g, parent, child).1, g, parent, child)
  {
    var p := InodeAt(d, g, parent);
    var s := Locate(d, g, p.data, child, 0);
    DropEntryEffect(d, g, parent, p.size, p.data[s.j], s.k);
  }

  /** DropEntry zeroes entry `k` of sector `sec` (unless the parent's stale
      sector is written over it), sets the parent's size and leaves every
      other sector alone. */
  lemma DropEntryEffect(d: Disk, g: Geometry, parent: nat, size: int, sec: nat, k: nat)
    requires HasInode(d, g, parent) && sec < |d| && k < g.DirentsPerSector()
    ensures var d', ps := DropEntry(d, g, parent, size, sec, k), g.InodeSector(parent);
      HasInode(d', g, parent) && InodeAt(d', g, parent) == InodeAt(d, g, parent).(size := Wrap32(size - 1))
      && (sec != ps ==>
            DirentAt(d', g, sec, k) == Dirent(Zeros(MAX_NAME), 0)
            && forall k' :: 0 <= k' < g.DirentsPerSector() && k' != k ==> DirentAt(d', g, sec, k') == DirentAt(d, g, sec, k'))
      && forall x :: 0 <= x < |d| && x != sec && x != ps ==> d'[x] == d[x]
  {
    var d' := DropEntry(d, g, parent, size, sec, k);
    var ps, off := g.InodeSector(parent), g.InodeOffset(parent);
    InodeRecordFits(g, parent);
    DirentSlotFits(g, k);
    InodeAfterPutSize(d[ps], off, g.maxSectorsPerFile, Wrap32(size - 1));
    if sec != ps {
      ZeroedDirent(d[sec], k * DIRENT_SIZE);
      forall k' | 0 <= k' < g.DirentsPerSector() && k' != k
        ensures DirentAt(d', g, sec, k') == DirentAt(d, g, sec, k')
      {
        DirentSlotFits(g, k');
        DirentAfterSplice(d[sec], k * DIRENT_SIZE, Zeros(DIRENT_SIZE), k' * DIRENT_SIZE);
      }
    }
  }

  /** Sector `x` is a data block, or 0 (an unused slot). */
  predicate InDataBlocks(g: Geometry, x: int)
    requires g.Valid()
  {
    x == 0 || g.DatablockStart() <= x < g.totalSectors
  }

  /** The data slots of inode `n` name data blocks only. */
  predicate DataInBlocks(d: Disk, g: Geometry, n: nat)
    requires WellFormed(d, g)
  {
    HasInode(d, g, n) ==>
      forall i :: 0 <= i < g.maxSectorsPerFile ==> InodeAt(d, g, n).data[i] >= 0 && InDataBlocks(g, InodeAt(d, g, n).data[i])
  }

  /** Sector `s` belongs to the sector bitmap. */
  predicate InSectorBitmap(g: Geometry, s: int)
    requires g.Valid()
  {
    g.SectorBitmapStart() <= s < g.SectorBitmapStart() + g.SectorBitmapSectors()
  }

  /** Sector `x` is marked free in the sector bitmap. */
  predicate SectorFree(d: Disk, g: Geometry, x: nat)
    requires WellFormed(d, g)
  {
    BitmapsFit(d, g);
    x < Bits(g.sectorSize, SectorBitmap(g)) && !IsSet(d, g.sectorSize, SectorBitmap(g), x)
  }

  /** Inode `n` is marked in use in the inode bitmap. */
  predicate InodeInUse(d: Disk, g: Geometry, n: nat)
    requires WellFormed(d, g)
  {
    BitmapsFit(d, g);
    n < Bits(g.sectorSize, InodeBitmap(g)) && IsSet(d, g.sectorSize, InodeBitmap(g), n)
  }

  /** Every sector number of the disk has a bit in the sector bitmap. */
  lemma SectorBitmapCoversDisk(g: Geometry, x: nat)
    requires g.Valid() && x < g.totalSectors
    ensures x < Bits(g.sectorSize, SectorBitmap(g))
  {
    BitmapsCoverTheirObjects(g);
  }

  /** Freeing a data block zeroes it and marks it free; it changes no other
      sector outside the sector bitmap and no other bit of the bitmap. */
  lemma FreeSlotEffect(d: Disk, g: Geometry, x: nat)
    requires WellFormed(d, g) && InDataBlocks(g, x)
    ensures var d' := FreeSlot(d, g, x);
      (x != 0 ==> d'[x] == Zeros(g.sectorSize) && SectorFree(d', g, x))
      && (forall s :: 0 <= s < |d| && s != x && !InSectorBitmap(g, s) ==> d'[s] == d[s])
      && (forall y: nat :: y != x ==> SectorFree(d', g, y) == SectorFree(d, g, y))
  {
    if x != 0 {
      RegionsAreContiguous(g);
      SectorBitmapCoversDisk(g, x);
      var d1 := d[x := Zeros(g.sectorSize)];
      BitmapsFit(d1, g);
      BitmapsFit(d, g);
      var d' := FreeSlot(d, g, x);
      assert d' == ResetBit(d1, g.sectorSize, SectorBitmap(g), x);
      forall y: nat | y != x
        ensures SectorFree(d', g, y) == SectorFree(d, g, y)
      {
        if y < Bits(g.sectorSize, SectorBitmap(g)) {
          IsSetFrame(d, d1, g.sectorSize, SectorBitmap(g), y);
        }
      }
    }
  }

  /** Freeing the first `n` data slots zeroes each block they name and marks
      it free in the sector bitmap. */
  lemma FreeDataZeroes(d: Disk, g: Geometry, data: seq<int>, n: nat)
    requires WellFormed(d, g) && n <= |data|
    requires forall j :: 0 <= j < |data| ==> data[j] >= 0 && InDataBlocks(g, data[j])
    ensures var d' := FreeData(d, g, data, n);
      forall i :: 0 <= i < n && data[i] != 0 ==>
        Readable(d', data[i]) && d'[data[i]] == Zeros(g.sectorSize) && SectorFree(d', g, data[i])
  {
    forall i | 0 <= i < n && data[i] != 0
      ensures var d' := FreeData(d, g, data, n);
        Readable(d', data[i]) && d'[data[i]] == Zeros(g.sectorSize) && SectorFree(d', g, data[i])
    {
      FreeDataZeroesAt(d, g, data, n, i);
    }
  }

  /** The block named by slot `i` is zeroed and free once the first `n`
      slots, `i` among them, are freed. */
  lemma {:induction false} FreeDataZeroesAt(d: Disk, g: Geometry, data: seq<int>, n: nat, i: nat)
    requires WellFormed(d, g) && i < n <= |data| && data[i] != 0
    requires forall j :: 0 <= j < |data| ==> data[j] >= 0 && InDataBlocks(g, data[j])
    ensures var d' := FreeData(d, g, data, n);
      Readable(d', data[i]) && d'[data[i]] == Zeros(g.sectorSize) && SectorFree(d', g, data[i])
    decreases n
  {
    var prev, x := FreeData(d, g, data, n - 1), data[n - 1];
    assert FreeData(d, g, data, n) == FreeSlot(prev, g, x);
    FreeSlotEffect(prev, g, x);
    RegionsAreContiguous(g);
    if data[i] != x {
      FreeDataZeroesAt(d, g, data, n - 1, i);
    }
  }

  /** Freeing the first `n` data slots changes no sector outside the sector
      bitmap other than the blocks they name. */
  lemma {:induction false} FreeDataFrame(d: Disk, g: Geometry, data: seq<int>, n: nat)
    requires WellFormed(d, g) && n <= |data|
    requires forall j :: 0 <= j < |data| ==> data[j] >= 0 && InDataBlocks(g, data[j])
    ensures var d' := FreeData(d, g, data, n);
      forall s :: 0 <= s < |d| && !InSectorBitmap(g, s) && s !in data[..n] ==> d'[s] == d[s]
  {
    if n > 0 {
      FreeDataFrame(d, g, data, n - 1);
      var prev, x := FreeData(d, g, data, n - 1), data[n - 1];
      var d' := FreeData(d, g, data, n);
      assert d' == FreeSlot(prev, g, x);
      FreeSlotEffect(prev, g, x);
      forall s | 0 <= s < |d| && !InSectorBitmap(g, s) && s !in data[..n]
        ensures d'[s] == d[s]
      {
        assert data[..n] == data[..n - 1] + [x];
      }
    }
  }

  /** Freeing the first `n` data slots changes no bit of the sector bitmap
      but those of the blocks they name. */
  lemma {:induction false} FreeDataBits(d: Disk, g: Geometry, data: seq<int>, n: nat)
    requires WellFormed(d, g) && n <= |data|
    requires forall j :: 0 <= j < |data| ==> data[j] >= 0 && InDataBlocks(g, data[j])
    ensures var d' := FreeData(d, g, data, n);
      forall y: nat :: y !in data[..n] ==> SectorFree(d', g, y) == SectorFree(d, g, y)
  {
    if n > 0 {
      FreeDataBits(d, g, data, n - 1);
      var prev, x := FreeData(d, g, data, n - 1), data[n - 1];
      assert FreeData(d, g, data, n) == FreeSlot(prev, g, x);
      FreeSlotEffect(prev, g, x);
      assert data[..n] == data[..n - 1] + [x];
    }
  }

  /** Clearing the child leaves the inode bitmap's sectors as they were. */
  lemma ClearedKeepsBitmapSectors(d: Disk, g: Geometry, child: nat)
    requires WellFormed(d, g) && DataAddressable(d, g, child) && DataInBlocks(d, g, child) && HasInode(d, g, child)
    ensures forall s :: INODE_BITMAP_START_SECTOR <= s < g.SectorBitmapStart() ==> Cleared(d, g, child)[s] == d[s]
  {
    RegionsAreContiguous(g);
    var data := InodeAt(d, g, child).data;
    FreeDataFrame(d, g, data, g.maxSectorsPerFile);
    assert data[..g.maxSectorsPerFile] == data;
    forall s | INODE_BITMAP_START_SECTOR <= s < g.SectorBitmapStart()
      ensures Cleared(d, g, child)[s] == d[s]
    {
      assert s !in data;
    }
  }

  /** Clearing the child zeroes its record and leaves every other inode
      below MAX_FILES as it was. */
  lemma ClearedKeepsOtherInodes(d: Disk, g: Geometry, child: nat, n: nat)
    requires WellFormed(d, g) && DataAddressable(d, g, child) && DataInBlocks(d, g, child) && HasInode(d, g, child)
    requires child < g.maxFiles && n < g.maxFiles && HasInode(d, g, n)
    ensures HasInode(Cleared(d, g, child), g, n)
    ensures InodeAt(Cleared(d, g, child), g, n)
         == if n == child then BlankInode(0, g.maxSectorsPerFile) else InodeAt(d, g, n)
  {
    var d' := Cleared(d, g, child);
    var data := InodeAt(d, g, child).data;
    var m := g.maxSectorsPerFile;
    RegionsAreContiguous(g);
    InodeAddressing(g, n);
    InodeAddressing(g, child);
    FreeDataFrame(d, g, data, m);
    assert data[..m] == data;
    var cs, sn := g.InodeSector(child), g.InodeSector(n);
    InodeRecordFits(g, child);
    InodeRecordFits(g, n);
    var off := g.InodeOffset(child);
    assert d'[cs] == Splice(d[cs], off, Zeros(g.InodeSize()));
    if n == child {
      BlankInodeBytes(d[cs], off, m, 0);
    } else if sn == cs {
      InodeRecordsDisjoint(g, child, n);
      InodeAfterSplice(d[cs], off, Zeros(g.InodeSize()), g.InodeOffset(n), m);
    } else {
      assert sn !in data;
      assert d'[sn] == d[sn];
    }
  }

  /** As written (HW4/LibFS.c:493), releasing an inode leaves the inode
      bitmap as it was: the released inode stays marked in use. */
  lemma ReleaseAsWrittenKeepsInodeInUse(d: Disk, g: Geometry, kind: int, child: nat)
    requires WellFormed(d, g) && DataAddressable(d, g, child) && DataInBlocks(d, g, child)
    ensures var d' := ReleaseAsWritten(d, g, kind, child).1;
      forall n: nat :: InodeInUse(d', g, n) == InodeInUse(d, g, n)
  {
    var (r, d') := ReleaseAsWritten(d, g, kind, child);
    if r == 0 {
      InodeRegionsFit(d, g);
      RegionsAreContiguous(g);
      ClearedKeepsBitmapSectors(d, g, child);
      var d2 := Cleared(d, g, child);
      assert d' == ResetBit(d2, g.sectorSize, InodeTableAsBitmap(g), child);
      BitmapsFit(d, g);
      BitmapsFit(d', g);
      forall n: nat | n < Bits(g.sectorSize, InodeBitmap(g))
        ensures IsSet(d', g.sectorSize, InodeBitmap(g), n) == IsSet(d, g.sectorSize, InodeBitmap(g), n)
      {
        IsSetFrame(d, d', g.sectorSize, InodeBitmap(g), n);
      }
    }
  }

  /** Every inode below MAX_FILES has a bit in the inode bitmap. */
  lemma InodeBitmapCoversInodes(g: Geometry, n: nat)
    requires g.Valid() && n < g.maxFiles
    ensures n < Bits(g.sectorSize, InodeBitmap(g))
  {
    BitmapsCoverTheirObjects(g);
  }

  /** Releasing an inode with its bit reset in the inode bitmap marks it
      free and changes no other inode's bit. */
  lemma ReleaseFreesInode(d: Disk, g: Geometry, kind: int, child: nat)
    requires WellFormed(d, g) && DataAddressable(d, g, child) && DataInBlocks(d, g, child) && child < g.maxFiles
    ensures var (r, d') := ReleaseSpec(d, g, kind, child);
      r == 0 ==>
        !InodeInUse(d', g, child)
        && forall n: nat :: n != child ==> InodeInUse(d', g, n) == InodeInUse(d, g, n)
  {
    var (r, d') := ReleaseSpec(d, g, kind, child);
    if r == 0 {
      InodeRegionsFit(d, g);
      RegionsAreContiguous(g);
      InodeBitmapCoversInodes(g, child);
      ClearedKeepsBitmapSectors(d, g, child);
      var d2 := Cleared(d, g, child);
      assert d' == ResetBit(d2, g.sectorSize, InodeBitmap(g), child);
      BitmapsFit(d, g);
      BitmapsFit(d2, g);
      forall n: nat | n != child && n < Bits(g.sectorSize, InodeBitmap(g))
        ensures IsSet(d', g.sectorSize, InodeBitmap(g), n) == IsSet(d, g.sectorSize, InodeBitmap(g), n)
      {
        IsSetFrame(d, d2, g.sectorSize, InodeBitmap(g), n);
      }
    }
  }

  /** After a successful release every nonzero data sector of the child
      is zeroed and marked free in the sector bitmap (HW4/LibFS.c:479-486),
      and the record zeroing and bitmap reset that follow keep it so. */
  lemma ReleaseFreesData(d: Disk, g: Geometry, kind: int, child: nat, i: nat)
    requires WellFormed(d, g) && DataAddressable(d, g, child) && DataInBlocks(d, g, child) && child < g.maxFiles
    requires HasInode(d, g, child) && i < g.maxSectorsPerFile && InodeAt(d, g, child).data[i] != 0
    ensures var (r, d') := ReleaseSpec(d, g, kind, child);
      var x := InodeAt(d, g, child).data[i];
      r == 0 ==> Readable(d', x) && d'[x] == Zeros(g.sectorSize) && SectorFree(d', g, x)
  {
    var (r, d') := ReleaseSpec(d, g, kind, child);
    if r == 0 {
      var x := InodeAt(d, g, child).data[i];
      ClearedFreesData(d, g, child, i);
      InodeRegionsFit(d, g);
      var d2 := Cleared(d, g, child);
      assert d' == ResetBit(d2, g.sectorSize, InodeBitmap(g), child);
      ResetInodeBitKeepsFreeBlock(d2, g, child, x);
    }
  }

  /** Freeing the data and zeroing the record leave each nonzero data
      sector of the child zeroed and free. */
  lemma ClearedFreesData(d: Disk, g: Geometry, child: nat, i: nat)
    requires WellFormed(d, g) && DataAddressable(d, g, child) && DataInBlocks(d, g, child) && child < g.maxFiles
    requires HasInode(d, g, child) && i < g.maxSectorsPerFile && InodeAt(d, g, child).data[i] != 0
    ensures var d2, x := Cleared(d, g, child), InodeAt(d, g, child).data[i];
      Readable(d2, x) && d2[x] == Zeros(g.sectorSize) && SectorFree(d2, g, x)
  {
    var data := InodeAt(d, g, child).data;
    var x := data[i];
    var cs := g.InodeSector(child);
    FreeDataZeroesAt(d, g, data, g.maxSectorsPerFile, i);
    var d1 := FreeData(d, g, data, g.maxSectorsPerFile);
    var d2 := Cleared(d, g, child);
    assert d2 == d1[cs := ZeroRecord(g, d[cs], child)];
    InodeAddressing(g, child);
    RegionsAreContiguous(g);
    assert cs != x;
    BitmapsFit(d1, g);
    BitmapsFit(d2, g);
    IsSetFrame(d1, d2, g.sectorSize, SectorBitmap(g), x);
  }

  /** Resetting a bit of the inode bitmap keeps a zeroed, free data block
      zeroed and free. */
  lemma ResetInodeBitKeepsFreeBlock(d: Disk, g: Geometry, child: nat, x: nat)
    requires WellFormed(d, g) && g.DatablockStart() <= x
    requires Readable(d, x) && d[x] == Zeros(g.sectorSize) && SectorFree(d, g, x)
    requires Fits(d, g.sectorSize, InodeBitmap(g))
    ensures var d' := ResetBit(d, g.sectorSize, InodeBitmap(g), child);
      Readable(d', x) && d'[x] == Zeros(g.sectorSize) && SectorFree(d', g, x)
  {
    InodeRegionsFit(d, g);
    RegionsAreContiguous(g);
    var d' := ResetBit(d, g.sectorSize, InodeBitmap(g), child);
    BitmapsFit(d, g);
    BitmapsFit(d', g);
    IsSetFrame(d, d', g.sectorSize, SectorBitmap(g), x);
  }

  /** Releasing an inode with its bit reset in the inode bitmap leaves its
      record blank and every other inode below MAX_FILES as it was. */
  lemma ReleaseBlanksRecord(d: Disk, g: Geometry, kind: int, child: nat, n: nat)
    requires WellFormed(d, g) && DataAddressable(d, g, child) && DataInBlocks(d, g, child)
    requires child < g.maxFiles && n < g.maxFiles && HasInode(d, g, n)
    ensures var (r, d') := ReleaseSpec(d, g, kind, child);
      r == 0 ==>
        HasInode(d', g, n)
        && InodeAt(d', g, n) == if n == child then BlankInode(0, g.maxSectorsPerFile) else InodeAt(d, g, n)
  {
    var (r, d') := ReleaseSpec(d, g, kind, child);
    if r == 0 {
      InodeRegionsFit(d, g);
      RegionsAreContiguous(g);
      InodeAddressing(g, n);
      ClearedKeepsOtherInodes(d, g, child, n);
      var d2 := Cleared(d, g, child);
      assert d' == ResetBit(d2, g.sectorSize, InodeBitmap(g), child);
      assert d'[g.InodeSector(n)] == d2[g.InodeSector(n)];
    }
  }
}

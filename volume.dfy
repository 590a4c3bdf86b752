/** The disk as the file system sees it: TOTAL_SECTORS sectors of
    SECTOR_SIZE bytes, with inode records in the inode table and directory
    entries in data sectors.  Reading or writing a sector index outside the
    disk fails (the disk driver's contract); every other read or write
    succeeds. */
module Volume {
  import opened Layout
  import opened Codec
  import opened Bitmap

  type Disk = seq<seq<bv8>>

  /** A disk laid out by the geometry `g`. */
  predicate WellFormed(d: Disk, g: Geometry)
  {
    g.Valid() && |d| == g.totalSectors && Sized(d, g.sectorSize)
  }

  /** Disk_Read and Disk_Write succeed exactly on sectors of the disk. */
  predicate Readable(d: Disk, s: int)
  {
    0 <= s < |d|
  }

  /** `INODE_TABLE_START_SECTOR + n / INODES_PER_SECTOR` as the C computes
      it for the `int` n.  INODES_PER_SECTOR divides by a `sizeof`, so it is
      an unsigned 64-bit `size_t`: `n` is converted to `size_t` before the
      division (a negative `n` becomes n + 2^64), the sum is a `size_t`, and
      it is converted back to `int`, keeping its low 32 bits.  For a
      non-negative `n` this is inode `n`'s table sector whenever that sector
      is an `int`, and a negative number otherwise. */
  function TableSector(g: Geometry, n: int): (s: int)
    requires g.Valid() && IsInt32(n)
    ensures IsInt32(s)
    ensures n >= 0 && g.InodeSector(n) < 0x8000_0000 ==> s == g.InodeSector(n)
    ensures n >= 0 && g.InodeSector(n) >= 0x8000_0000 ==> s < 0
  {
    var q := (n % 0x1_0000_0000_0000_0000) / g.InodesPerSector();
    assert n >= 0 ==> q == n / g.InodesPerSector() && q < 0x8000_0000;
    Wrap32(g.InodeTableStart() + q)
  }

  /** For an inode number, the sector the C reads can be read exactly when
      the inode's table sector is on the disk. */
  lemma TableSectorReadable(d: Disk, g: Geometry, n: int)
    requires WellFormed(d, g) && IsInt32(n) && n >= 0
    ensures Readable(d, TableSector(g, n)) <==> HasInode(d, g, n)
  {
  }

  /** The inode bitmap region. */
  function InodeBitmap(g: Geometry): Region
    requires g.Valid()
  {
    Region(INODE_BITMAP_START_SECTOR, g.InodeBitmapSectors())
  }

  /** The sector bitmap region. */
  function SectorBitmap(g: Geometry): Region
    requires g.Valid()
  {
    Region(g.SectorBitmapStart(), g.SectorBitmapSectors())
  }

  /** Both bitmaps lie on a well-formed disk. */
  lemma BitmapsFit(d: Disk, g: Geometry)
    requires WellFormed(d, g)
    ensures Fits(d, g.sectorSize, InodeBitmap(g))
    ensures Fits(d, g.sectorSize, SectorBitmap(g))
  {
    RegionsAreContiguous(g);
  }

  /** Inode `n` can be read: its inode-table sector is on the disk. */
  predicate HasInode(d: Disk, g: Geometry, n: int)
  {
    WellFormed(d, g) && n >= 0 && g.InodeSector(n) < |d|
  }

  /** The record of inode `n` lies inside its sector. */
  lemma InodeRecordFits(g: Geometry, n: nat)
    requires g.Valid()
    ensures g.InodeOffset(n) + InodeBytes(g.maxSectorsPerFile) <= g.sectorSize
  {
    InodeSlotFits(g, n % g.InodesPerSector());
  }

  /** Inode `n` as stored on the disk (what loadInode returns). */
  function InodeAt(d: Disk, g: Geometry, n: int): (ino: Inode)
    requires HasInode(d, g, n)
    ensures |ino.data| == g.maxSectorsPerFile
  {
    InodeRecordFits(g, n);
    InodeIn(d[g.InodeSector(n)], g.InodeOffset(n), g.maxSectorsPerFile)
  }

  /** The directory entry in slot `i` of sector `s`. */
  function DirentAt(d: Disk, g: Geometry, s: nat, i: nat): (e: Dirent)
    requires WellFormed(d, g) && s < |d| && i < g.DirentsPerSector()
    ensures |e.fname| == MAX_NAME
  {
    DirentSlotFits(g, i);
    DirentIn(d[s], i * DIRENT_SIZE)
  }

  /** Two different inodes have disjoint records: in different sectors, or
      at non-overlapping offsets of the same sector. */
  lemma InodeRecordsDisjoint(g: Geometry, n: nat, n': nat)
    requires g.Valid() && n != n'
    ensures g.InodeSector(n) != g.InodeSector(n')
      || g.InodeOffset(n) + g.InodeSize() <= g.InodeOffset(n')
      || g.InodeOffset(n') + g.InodeSize() <= g.InodeOffset(n)
  {
    var ips, w := g.InodesPerSector(), g.InodeSize();
    if n / ips == n' / ips {
      DistinctRemainders(n, n', ips);
      SlotRecordsDisjoint(n % ips, n' % ips, w);
    }
  }

  /** Two different numbers with the same quotient differ in remainder. */
  lemma DistinctRemainders(n: nat, n': nat, d: nat)
    requires d > 0 && n != n' && n / d == n' / d
    ensures n % d != n' % d
  {
    assert n == (n / d) * d + n % d;
    assert n' == (n' / d) * d + n' % d;
  }

  /** Records of width `w` at two different slots do not overlap. */
  lemma SlotRecordsDisjoint(a: nat, b: nat, w: nat)
    requires a != b
    ensures a * w + w <= b * w || b * w + w <= a * w
  {
    if a < b {
      MulLe(a + 1, b, w);
    } else {
      MulLe(b + 1, a, w);
    }
  }
}

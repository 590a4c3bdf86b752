/** On-disk layout of the file system volume.

    The volume is a sequence of fixed-size sectors divided into five
    contiguous regions: the superblock (one sector), the inode bitmap, the
    sector bitmap, the inode table, and the data blocks.  The sizes of the
    middle three regions are ceiling divisions of the configured limits.

    The five limits come from headers that are not part of this model, so
    they are the fields of a `Geometry` value and every operation takes one;
    `Geometry.Valid()` states what the layout arithmetic needs of them. */
module Layout {

  /** Sector index of the superblock. */
  const SUPERBLOCK_START_SECTOR: nat := 0
  /** The magic number written at the start of the superblock. */
  const OS_MAGIC: nat := 0xdeadbeef
  /** The inode bitmap starts right after the superblock. */
  const INODE_BITMAP_START_SECTOR: nat := 1
  /** Maximum length of a path, including the terminating NUL. */
  const MAX_PATH: nat := 256
  /** Maximum length of a file name, including the terminating NUL. */
  const MAX_NAME: nat := 16
  /** Capacity of the open-file table. */
  const MAX_OPEN_FILES: nat := 256
  /** sizeof(dirent_t): a 16-byte name followed by a 4-byte inode number. */
  const DIRENT_SIZE: nat := 20
  /** Number of bits in a byte. */
  const BYTE: nat := 8

  /** Integer division of non-negative numbers (C's `/` and Dafny's agree here). */
  function Quot(a: nat, b: nat): nat
    requires b > 0
  {
    QuotIsNatural(a, b);
    a / b
  }

  lemma QuotIsNatural(a: nat, b: nat)
    requires b > 0
    ensures a / b >= 0
  {
  }

  /** The C macro `(a + b - 1) / b`: a ceiling division for non-negative `a`. */
  function CeilDiv(a: nat, b: nat): nat
    requires b > 0
  {
    Quot(a + b - 1, b)
  }

  /** `CeilDiv(a, b)` is the least number of `b`-sized units that hold `a`. */
  lemma CeilDivIsLeast(a: nat, b: nat)
    requires b > 0
    ensures CeilDiv(a, b) * b >= a
    ensures CeilDiv(a, b) == 0 || (CeilDiv(a, b) - 1) * b < a
  {
    var q := CeilDiv(a, b);
    var r := (a + b - 1) % b;
    assert a + b - 1 == q * b + r && 0 <= r < b;
    assert q * b >= a by {
      assert q * b == a + b - 1 - r;
    }
    if q > 0 {
      assert (q - 1) * b == q * b - b;
    }
  }

  /** The limits the headers fix at compile time. */
  datatype Geometry = Geometry(
    sectorSize: nat,        // SECTOR_SIZE: bytes per sector
    totalSectors: nat,      // TOTAL_SECTORS: sectors on the disk
    maxFiles: nat,          // MAX_FILES: entries of the inode table
    maxSectorsPerFile: nat, // MAX_SECTORS_PER_FILE: data slots of an inode
    maxFileSize: nat)       // MAX_FILE_SIZE: largest file in bytes
  {
    /** sizeof(inode_t): int size, int type, int data[MAX_SECTORS_PER_FILE]. */
    function InodeSize(): (r: nat)
      ensures r >= 8
    {
      4 * (2 + maxSectorsPerFile)
    }

    /** INODE_BITMAP_SIZE: bytes of the inode bitmap, one bit per inode. */
    function InodeBitmapSize(): nat
    {
      (maxFiles + 7) / 8
    }

    /** INODE_BITMAP_SECTORS */
    function InodeBitmapSectors(): nat
      requires sectorSize > 0
    {
      CeilDiv(InodeBitmapSize(), sectorSize)
    }

    /** SECTOR_BITMAP_START_SECTOR */
    function SectorBitmapStart(): nat
      requires sectorSize > 0
    {
      INODE_BITMAP_START_SECTOR + InodeBitmapSectors()
    }

    /** SECTOR_BITMAP_SIZE: bytes of the sector bitmap, one bit per sector. */
    function SectorBitmapSize(): nat
    {
      (totalSectors + 7) / 8
    }

    /** SECTOR_BITMAP_SECTORS */
    function SectorBitmapSectors(): nat
      requires sectorSize > 0
    {
      CeilDiv(SectorBitmapSize(), sectorSize)
    }

    /** INODE_TABLE_START_SECTOR */
    function InodeTableStart(): nat
      requires sectorSize > 0
    {
      SectorBitmapStart() + SectorBitmapSectors()
    }

    /** INODES_PER_SECTOR: records never straddle a sector boundary. */
    function InodesPerSector(): nat
      requires sectorSize > 0
    {
      Quot(sectorSize, InodeSize())
    }

    /** INODE_TABLE_SECTORS */
    function InodeTableSectors(): nat
      requires sectorSize > 0 && InodeSize() <= sectorSize
    {
      CeilDiv(maxFiles, InodesPerSector())
    }

    /** DATABLOCK_START_SECTOR */
    function DatablockStart(): nat
      requires sectorSize > 0 && InodeSize() <= sectorSize
    {
      InodeTableStart() + InodeTableSectors()
    }

    /** DIRENTS_PER_SECTOR */
    function DirentsPerSector(): nat
    {
      Quot(sectorSize, DIRENT_SIZE)
    }

    /** What the layout arithmetic needs of the header constants: all limits
        positive, an inode and a directory entry each fit in one sector
        (otherwise INODES_PER_SECTOR or DIRENTS_PER_SECTOR is zero and the C
        divides by it), the metadata regions fit on the disk and leave at
        least one sector for the data blocks, sector numbers fit in an `int`
        (TOTAL_SECTORS is an `int` constant and the disk driver takes `int`
        sector numbers), and a file of MAX_FILE_SIZE bytes fits in the data
        slots of one inode. */
    predicate Valid()
    {
      && sectorSize > 0 && totalSectors > 0 && maxFiles > 0
      && maxSectorsPerFile > 0 && maxFileSize > 0
      && InodeSize() <= sectorSize
      && DIRENT_SIZE <= sectorSize
      && DatablockStart() < totalSectors && totalSectors < 0x8000_0000
      && maxFileSize <= maxSectorsPerFile * sectorSize
    }

    /** The sector of the inode table that holds inode `n` (the C computes
        INODE_TABLE_START_SECTOR + n / INODES_PER_SECTOR). */
    function InodeSector(n: nat): nat
      requires Valid()
    {
      InodeTableStart() + Quot(n, InodesPerSector())
    }

    /** Byte offset of inode `n`'s record inside its sector. */
    function InodeOffset(n: nat): nat
      requires Valid()
    {
      (n % InodesPerSector()) * InodeSize()
    }
  }

  /** Each bitmap and table region is exactly as large as it must be: one
      sector fewer would not hold it. */
  lemma {:induction false} RegionsAreMinimal(g: Geometry)
    requires g.Valid()
    ensures g.InodeBitmapSectors() * g.sectorSize >= g.InodeBitmapSize()
    ensures (g.InodeBitmapSectors() - 1) * g.sectorSize < g.InodeBitmapSize()
    ensures g.SectorBitmapSectors() * g.sectorSize >= g.SectorBitmapSize()
    ensures (g.SectorBitmapSectors() - 1) * g.sectorSize < g.SectorBitmapSize()
    ensures g.InodeTableSectors() * g.InodesPerSector() >= g.maxFiles
    ensures (g.InodeTableSectors() - 1) * g.InodesPerSector() < g.maxFiles
  {
    CeilDivIsLeast(g.InodeBitmapSize(), g.sectorSize);
    CeilDivIsLeast(g.SectorBitmapSize(), g.sectorSize);
    CeilDivIsLeast(g.maxFiles, g.InodesPerSector());
  }

  /** The bitmaps have one bit for every inode and for every sector. */
  lemma BitmapsCoverTheirObjects(g: Geometry)
    requires g.Valid()
    ensures g.InodeBitmapSectors() * (g.sectorSize * BYTE) >= g.maxFiles
    ensures g.SectorBitmapSectors() * (g.sectorSize * BYTE) >= g.totalSectors
  {
    CeilDivIsLeast(g.InodeBitmapSize(), g.sectorSize);
    BytesCoverBits(g.maxFiles, g.sectorSize, g.InodeBitmapSectors());
    CeilDivIsLeast(g.SectorBitmapSize(), g.sectorSize);
    BytesCoverBits(g.totalSectors, g.sectorSize, g.SectorBitmapSectors());
  }

  /** `a` sectors of `s` bytes that hold the (k + 7) / 8 bytes of a bitmap
      hold its `k` bits. */
  lemma BytesCoverBits(k: nat, s: nat, a: nat)
    requires a * s >= (k + 7) / 8
    ensures a * (s * BYTE) >= k
  {
    assert a * (s * BYTE) == (a * s) * 8;
    MulLe((k + 7) / 8, a * s, 8);
  }

  /** The regions are non-empty and follow each other in the order
      superblock, inode bitmap, sector bitmap, inode table, data blocks,
      each starting where the previous one ends; the data blocks start
      inside the disk, so at least one sector is left for them. */
  lemma RegionsAreContiguous(g: Geometry)
    requires g.Valid()
    ensures SUPERBLOCK_START_SECTOR + 1 == INODE_BITMAP_START_SECTOR
    ensures 0 < g.InodeBitmapSectors() && 0 < g.SectorBitmapSectors() && 0 < g.InodeTableSectors()
    ensures INODE_BITMAP_START_SECTOR < g.SectorBitmapStart() < g.InodeTableStart()
    ensures g.InodeTableStart() < g.DatablockStart() < g.totalSectors
    ensures g.SectorBitmapStart() + g.SectorBitmapSectors() == g.InodeTableStart()
    ensures g.InodeTableStart() + g.InodeTableSectors() == g.DatablockStart()
  {
    RegionsAreMinimal(g);
  }

  /** Dividing by a divisor no larger than the dividend leaves a positive
      quotient no larger than the dividend. */
  lemma QuotBounds(a: nat, b: nat)
    requires 0 < b <= a
    ensures 0 < Quot(a, b) <= a
  {
    MulLe(1, b, a / b);
  }

  /** A ceiling division grows with the dividend and shrinks as the
      divisor grows. */
  lemma CeilDivMono(a: nat, a': nat, b: nat, b': nat)
    requires a <= a' && 0 < b' <= b
    ensures CeilDiv(a, b) <= CeilDiv(a', b')
  {
    var x, y := CeilDiv(a, b), CeilDiv(a', b');
    CeilDivIsLeast(a, b);
    CeilDivIsLeast(a', b');
    MulLe(b', b, y);
    assert y * b >= a;
    if x > y {
      MulLe(y, x - 1, b);
    }
  }

  /** The inode bitmap takes no more sectors than the inode table (so a
      region of INODE_BITMAP_SECTORS sectors starting at the inode table
      lies inside the table). */
  lemma InodeBitmapNoLargerThanTable(g: Geometry)
    requires g.Valid()
    ensures g.InodeBitmapSectors() <= g.InodeTableSectors()
  {
    QuotBounds(g.sectorSize, g.InodeSize());
    assert g.InodeBitmapSize() <= g.maxFiles;
    CeilDivMono(g.InodeBitmapSize(), g.maxFiles, g.sectorSize, g.InodesPerSector());
  }

  /** The inode index arithmetic of the C (the assertion
      `0 <= offset && offset < INODES_PER_SECTOR`): every inode of the
      table lies in an inode-table sector, its record fits inside that
      sector, and the (sector, slot) pair determines the inode. */
  lemma {:induction false} InodeAddressing(g: Geometry, n: nat)
    requires g.Valid() && n < g.maxFiles
    ensures g.InodeTableStart() <= g.InodeSector(n) < g.DatablockStart()
    ensures g.InodeOffset(n) + g.InodeSize() <= g.sectorSize
    ensures (g.InodeSector(n) - g.InodeTableStart()) * g.InodesPerSector() + n % g.InodesPerSector() == n
  {
    var ips, ts := g.InodesPerSector(), g.InodeTableSectors();
    assert n < ts * ips by {
      RegionsAreMinimal(g);
    }
    QuotBelow(n, ips, ts);
    InodeSlotFits(g, n % ips);
    RegionsAreContiguous(g);
  }

  /** A number below `t * d` has a quotient by `d` below `t`. */
  lemma QuotBelow(n: nat, d: nat, t: nat)
    requires d > 0 && n < t * d
    ensures 0 <= n / d < t && (n / d) * d + n % d == n
  {
    if n / d >= t {
      MulLe(t, n / d, d);
    }
  }

  /** A record slot below INODES_PER_SECTOR ends inside the sector. */
  lemma InodeSlotFits(g: Geometry, k: nat)
    requires g.Valid() && k < g.InodesPerSector()
    ensures k * g.InodeSize() + g.InodeSize() <= g.sectorSize
  {
    SlotFits(g.sectorSize, g.InodeSize(), k);
  }

  /** A directory-entry slot below DIRENTS_PER_SECTOR ends inside the sector. */
  lemma DirentSlotFits(g: Geometry, k: nat)
    requires g.Valid() && k < g.DirentsPerSector()
    ensures k * DIRENT_SIZE + DIRENT_SIZE <= g.sectorSize
  {
    SlotFits(g.sectorSize, DIRENT_SIZE, k);
  }

  /** Slot `k` of `size`-byte records packed into `total` bytes, with
      `k < total / size`, ends inside the `total` bytes. */
  lemma SlotFits(total: nat, size: nat, k: nat)
    requires size > 0 && k < total / size
    ensures k * size + size <= total
  {
    MulLe(k + 1, total / size, size);
    assert (total / size) * size + total % size == total;
  }

  /** Multiplication by a non-negative factor is monotone. */
  lemma MulLe(a: int, b: int, c: nat)
    requires a <= b
    ensures a * c <= b * c
  {
    assert b * c == a * c + (b - a) * c;
  }
}

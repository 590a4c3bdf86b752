/** Path resolution: looking a name up in a directory (find_child_inode)
    and walking an absolute path from the root directory (follow_path).

    A directory's entries live in the sectors its inode's `data` slots
    name, DIRENTS_PER_SECTOR entries per sector; entry `f` of the directory
    is slot `f % DIRENTS_PER_SECTOR` of sector `data[f / DIRENTS_PER_SECTOR]`.
    find_child_inode keeps the inode-table sector of the directory it is
    searching in a one-sector cache; the cache only saves reads, so the
    model reads inodes from the disk and tracks the cached sector index. */
module Directory {
  import opened Layout
  import opened Codec
  import opened Bitmap
  import opened Volume
  import opened Names
  import opened Options

  /** How many slots of a sector find_child_inode inspects when `n`
      entries remain before that sector: it stops at the end of the sector
      and at slot `i > n`, so when the last sector is partly filled it also
      inspects the slot just past the last entry. */
  function Inspected(g: Geometry, n: int): (lim: nat)
    requires g.Valid()
    ensures lim <= g.DirentsPerSector() && lim * DIRENT_SIZE <= g.sectorSize
    ensures n >= 0 ==> lim == Min(g.DirentsPerSector(), n + 1)
  {
    var lim := if n < 0 then 0 else Min(g.DirentsPerSector(), n + 1);
    assert lim * DIRENT_SIZE <= g.sectorSize by {
      if lim > 0 {
        DirentSlotFits(g, lim - 1);
      }
    }
    lim
  }

  function Min(a: int, b: int): int
  {
    if a < b then a else b
  }

  /** Entry `k` of the sector bytes `buf` is named `name` (strcmp of its
      name field and the name is 0). */
  predicate EntryMatches(buf: seq<bv8>, k: nat, name: string)
  {
    IsCString(name) && |name| < MAX_NAME && k * DIRENT_SIZE + DIRENT_SIZE <= |buf|
    && NameMatches(DirentIn(buf, k * DIRENT_SIZE).fname, name)
  }

  /** The inner loop of find_child_inode from slot `i` on: the first of the
      slots `i` up to `lim` whose entry is named `name`. */
  function FirstMatch(buf: seq<bv8>, name: string, i: nat, lim: nat): (r: Option<nat>)
    requires IsCString(name) && |name| < MAX_NAME && lim * DIRENT_SIZE <= |buf|
    ensures r.Some? ==> i <= r.value < lim && EntryMatches(buf, r.value, name)
    ensures r.Some? ==> forall k :: i <= k < r.value ==> !EntryMatches(buf, k, name)
    ensures r.None? ==> forall k :: i <= k < lim ==> !EntryMatches(buf, k, name)
    decreases lim - i
  {
    if i >= lim then None
    else if NameMatches(DirentIn(buf, i * DIRENT_SIZE).fname, name) then Some(i)
    else FirstMatch(buf, name, i + 1, lim)
  }

  /** The value find_child_inode returns for a matching entry holding
      the `int` inode number `c`: `c`, unless the sector the C computes for
      `c` (TableSector) cannot be read into the cache, which gives -2.  A
      non-negative `c` is returned exactly when its inode is on the disk. */
  function CachedChild(d: Disk, g: Geometry, c: int): (r: int)
    requires WellFormed(d, g) && IsInt32(c)
    ensures r == c || r == -2
    ensures c >= 0 ==> (r == c <==> HasInode(d, g, c))
    ensures r >= 0 ==> HasInode(d, g, r)
  {
    TableSectorReadable(d, g, if c >= 0 then c else 0);
    if Readable(d, TableSector(g, c)) then c else -2
  }

  /** A negative entry on a disk of 10000 sectors of 512 bytes with ten
      data slots per inode (48-byte inodes, INODES_PER_SECTOR 10, the inode
      table from sector 5): the entry inode -1 becomes 2^64 - 1 before the
      division, the sector is -1717986914, and the lookup reports -2. */
  lemma NegativeEntryUnreadable(d: Disk)
    requires WellFormed(d, Geometry(512, 10000, 1000, 10, 5120))
    ensures TableSector(Geometry(512, 10000, 1000, 10, 5120), -1) == -1717986914
    ensures CachedChild(d, Geometry(512, 10000, 1000, 10, 5120), -1) == -2
  {
    var g := Geometry(512, 10000, 1000, 10, 5120);
    assert g.InodeSize() == 48 && g.InodesPerSector() == 10;
    assert g.InodeBitmapSectors() == 1 && g.SectorBitmapSectors() == 3;
    assert (-1) % 0x1_0000_0000_0000_0000 == 0xFFFF_FFFF_FFFF_FFFF;
    assert 0xFFFF_FFFF_FFFF_FFFF / 10 == 0x1999_9999_9999_9999;
    assert (5 + 0x1999_9999_9999_9999) % 0x1_0000_0000 == 0x9999_999E;
  }

  /** The arguments the directory scan needs. */
  predicate ScanArgs(d: Disk, g: Geometry, p: Inode, name: string)
  {
    WellFormed(d, g) && |p.data| == g.maxSectorsPerFile && IsCString(name) && |name| < MAX_NAME
  }

  /** The inner loop of find_child_inode over the readable sector `idx` of
      the directory `p`: the first matching slot among those it inspects. */
  function SectorMatch(d: Disk, g: Geometry, p: Inode, name: string, idx: nat): Option<nat>
    requires ScanArgs(d, g, p, name) && SectorReadable(d, p, idx)
  {
    FirstMatch(d[p.data[idx]], name, 0, Inspected(g, Remaining(g, p.size, idx)))
  }

  /** The outer loop of find_child_inode from sector `idx` of the directory
      `p` on: -1 once no entries remain, -2 when the sector cannot be read,
      the child of the first matching entry of the sector, or the scan of
      the next sector. */
  function ScanFrom(d: Disk, g: Geometry, p: Inode, name: string, idx: nat): (r: int)
    requires ScanArgs(d, g, p, name)
    ensures r >= 0 ==> HasInode(d, g, r)
    decreases g.maxSectorsPerFile - idx
  {
    if Remaining(g, p.size, idx) <= 0 then -1
    else if !SectorReadable(d, p, idx) then -2
    else
      match SectorMatch(d, g, p, name, idx)
      case Some(k) => CachedChild(d, g, DirentIn(d[p.data[idx]], k * DIRENT_SIZE).inode)
      case None => ScanFrom(d, g, p, name, idx + 1)
  }

  /** find_child_inode (HW4/LibFS.c:235-273) as a function of the disk. */
  function FindChild(d: Disk, g: Geometry, parent: int, name: string): (r: int)
    requires HasInode(d, g, parent) && IsCString(name) && |name| < MAX_NAME
    ensures r >= 0 ==> HasInode(d, g, r)
  {
    var p := InodeAt(d, g, parent);
    if p.kind != 1 then -2 else ScanFrom(d, g, p, name, 0)
  }

  /** The entries remaining before sector `j` of a directory of `size`
      entries. */
  function Remaining(g: Geometry, size: int, j: nat): int
  {
    size - j * g.DirentsPerSector()
  }

  /** Sector `j` of the directory `p` exists and is on the disk. */
  predicate SectorReadable(d: Disk, p: Inode, j: nat)
  {
    j < |p.data| && Readable(d, p.data[j])
  }

  /** find_child_inode inspects slot `k` of sector `j`. */
  predicate Inspects(g: Geometry, size: int, j: nat, k: nat)
  {
    g.Valid() && Remaining(g, size, j) > 0 && k < Inspected(g, Remaining(g, size, j))
  }

  /** Slot `k` of sector `j` of the directory `p` holds an entry named
      `name`. */
  predicate SlotMatches(d: Disk, p: Inode, name: string, j: nat, k: nat)
  {
    SectorReadable(d, p, j) && EntryMatches(d[p.data[j]], k, name)
  }

  /** Slot `(j, k)` comes before slot `(j0, k0)` in the order of the scan. */
  predicate Before(j: nat, k: nat, j0: nat, k0: nat)
  {
    j < j0 || (j == j0 && k < k0)
  }

  /** One sector on: the entries remaining drop by DIRENTS_PER_SECTOR. */
  lemma RemainingStep(g: Geometry, size: int, j: nat)
    requires g.Valid()
    ensures Remaining(g, size, j + 1) == Remaining(g, size, j) - g.DirentsPerSector()
  {
    assert (j + 1) * g.DirentsPerSector() == j * g.DirentsPerSector() + g.DirentsPerSector();
  }

  /** Fewer entries remain before a later sector. */
  lemma RemainingDecreases(g: Geometry, size: int, j: nat, j': nat)
    requires g.Valid() && j <= j'
    ensures Remaining(g, size, j') <= Remaining(g, size, j)
  {
    MulLe(j, j', g.DirentsPerSector());
  }

  /** With every sector that still has entries readable and no inspected
      slot from sector `idx` on matching, the scan reports -1. */
  lemma {:induction false} ScanFindsNone(d: Disk, g: Geometry, p: Inode, name: string, idx: nat)
    requires ScanArgs(d, g, p, name)
    requires forall j: nat :: idx <= j && Remaining(g, p.size, j) > 0 ==> SectorReadable(d, p, j)
    requires forall j: nat, k: nat :: idx <= j && Inspects(g, p.size, j, k) ==> !SlotMatches(d, p, name, j, k)
    ensures ScanFrom(d, g, p, name, idx) == -1
    decreases g.maxSectorsPerFile - idx
  {
    var n := Remaining(g, p.size, idx);
    if n > 0 {
      SectorPasses(d, g, p, name, idx);
      ScanFindsNone(d, g, p, name, idx + 1);
    }
  }

  /** A readable sector that still has entries, none of whose inspected
      slots matches, passes the scan on to the next sector. */
  lemma SectorPasses(d: Disk, g: Geometry, p: Inode, name: string, idx: nat)
    requires ScanArgs(d, g, p, name) && SectorReadable(d, p, idx) && Remaining(g, p.size, idx) > 0
    requires forall k: nat :: Inspects(g, p.size, idx, k) ==> !SlotMatches(d, p, name, idx, k)
    ensures ScanFrom(d, g, p, name, idx) == ScanFrom(d, g, p, name, idx + 1)
  {
    NoMatchInSector(d, g, p, name, idx);
  }

  /** The inner loop finds nothing in a sector none of whose inspected slots
      matches. */
  lemma NoMatchInSector(d: Disk, g: Geometry, p: Inode, name: string, idx: nat)
    requires ScanArgs(d, g, p, name) && SectorReadable(d, p, idx) && Remaining(g, p.size, idx) > 0
    requires forall k: nat :: Inspects(g, p.size, idx, k) ==> !SlotMatches(d, p, name, idx, k)
    ensures SectorMatch(d, g, p, name, idx) == None
  {
    var r := SectorMatch(d, g, p, name, idx);
    if r.Some? {
      assert Inspects(g, p.size, idx, r.value);
    }
  }

  /** Readable sectors from `idx` up to `j0`, with entries remaining and no
      inspected slot matching, pass the scan on to sector `j0`. */
  lemma {:induction false} SkipSectors(d: Disk, g: Geometry, p: Inode, name: string, idx: nat, j0: nat)
    requires ScanArgs(d, g, p, name) && idx <= j0 && Remaining(g, p.size, j0) > 0
    requires forall j: nat :: idx <= j < j0 ==> SectorReadable(d, p, j)
    requires forall j: nat, k: nat :: idx <= j < j0 && Inspects(g, p.size, j, k) ==> !SlotMatches(d, p, name, j, k)
    ensures ScanFrom(d, g, p, name, idx) == ScanFrom(d, g, p, name, j0)
    decreases j0 - idx
  {
    if idx < j0 {
      RemainingDecreases(g, p.size, idx, j0);
      SectorPasses(d, g, p, name, idx);
      SkipSectors(d, g, p, name, idx + 1, j0);
    }
  }

  /** With every sector before `j0` readable, the scan from sector `idx`
      returns the child of the first inspected slot `(j0, k0)` that
      matches. */
  lemma ScanFindsFirst(d: Disk, g: Geometry, p: Inode, name: string, idx: nat, j0: nat, k0: nat)
    requires ScanArgs(d, g, p, name)
    requires idx <= j0 && Inspects(g, p.size, j0, k0) && SlotMatches(d, p, name, j0, k0)
    requires forall j: nat :: idx <= j < j0 ==> SectorReadable(d, p, j)
    requires forall j: nat, k: nat ::
      idx <= j && Before(j, k, j0, k0) && Inspects(g, p.size, j, k) ==> !SlotMatches(d, p, name, j, k)
    ensures ScanFrom(d, g, p, name, idx)
      == CachedChild(d, g, DirentIn(d[p.data[j0]], k0 * DIRENT_SIZE).inode)
  {
    SkipSectors(d, g, p, name, idx, j0);
    FirstMatchInSector(d, g, p, name, j0, k0);
  }

  /** In the sector of the first match, the inner loop stops at it. */
  lemma FirstMatchInSector(d: Disk, g: Geometry, p: Inode, name: string, j0: nat, k0: nat)
    requires ScanArgs(d, g, p, name)
    requires Inspects(g, p.size, j0, k0) && SlotMatches(d, p, name, j0, k0)
    requires forall k: nat :: k < k0 ==> !SlotMatches(d, p, name, j0, k)
    ensures SectorMatch(d, g, p, name, j0) == Some(k0)
  {
    var r := SectorMatch(d, g, p, name, j0);
    assert r.Some?;
    if r.value < k0 {
      assert SlotMatches(d, p, name, j0, r.value);
    }
  }

  /** A sector that cannot be read, reached with no match before it, makes
      the scan report -2. */
  lemma ScanFindsUnreadable(d: Disk, g: Geometry, p: Inode, name: string, idx: nat, j0: nat)
    requires ScanArgs(d, g, p, name)
    requires idx <= j0 && Remaining(g, p.size, j0) > 0 && !SectorReadable(d, p, j0)
    requires forall j: nat :: idx <= j < j0 ==> SectorReadable(d, p, j)
    requires forall j: nat, k: nat :: idx <= j < j0 && Inspects(g, p.size, j, k) ==> !SlotMatches(d, p, name, j, k)
    ensures ScanFrom(d, g, p, name, idx) == -2
  {
    SkipSectors(d, g, p, name, idx, j0);
  }

  /** What find_child_inode returns: -2 when the parent is not a directory;
      otherwise, when the sectors holding its entries can be read, -1 when
      no inspected entry carries the name and the inode of the first one
      that does; and -2 when a sector it reaches cannot be read. */
  lemma FindChildResult(d: Disk, g: Geometry, parent: int, name: string, j0: nat, k0: nat)
    requires HasInode(d, g, parent) && IsCString(name) && |name| < MAX_NAME
    ensures InodeAt(d, g, parent).kind != 1 ==> FindChild(d, g, parent, name) == -2
    ensures var p := InodeAt(d, g, parent);
      p.kind == 1 && (forall j: nat :: Remaining(g, p.size, j) > 0 ==> SectorReadable(d, p, j))
      && (forall j: nat, k: nat :: Inspects(g, p.size, j, k) ==> !SlotMatches(d, p, name, j, k))
      ==> FindChild(d, g, parent, name) == -1
    ensures var p := InodeAt(d, g, parent);
      p.kind == 1 && (forall j: nat :: j < j0 ==> SectorReadable(d, p, j))
      && Inspects(g, p.size, j0, k0) && SlotMatches(d, p, name, j0, k0)
      && (forall j: nat, k: nat :: Before(j, k, j0, k0) && Inspects(g, p.size, j, k) ==> !SlotMatches(d, p, name, j, k))
      ==> FindChild(d, g, parent, name) == CachedChild(d, g, DirentIn(d[p.data[j0]], k0 * DIRENT_SIZE).inode)
    ensures var p := InodeAt(d, g, parent);
      p.kind == 1 && (forall j: nat :: j < j0 ==> SectorReadable(d, p, j))
      && Remaining(g, p.size, j0) > 0 && !SectorReadable(d, p, j0)
      && (forall j: nat, k: nat :: j < j0 && Inspects(g, p.size, j, k) ==> !SlotMatches(d, p, name, j, k))
      ==> FindChild(d, g, parent, name) == -2
  {
    var p := InodeAt(d, g, parent);
    if p.kind == 1 {
      assert Remaining(g, p.size, 0) == p.size;
      if (forall j: nat :: Remaining(g, p.size, j) > 0 ==> SectorReadable(d, p, j))
        && (forall j: nat, k: nat :: Inspects(g, p.size, j, k) ==> !SlotMatches(d, p, name, j, k)) {
        ScanFindsNone(d, g, p, name, 0);
      }
      if (forall j: nat :: j < j0 ==> SectorReadable(d, p, j))
        && Inspects(g, p.size, j0, k0) && SlotMatches(d, p, name, j0, k0)
        && (forall j: nat, k: nat :: Before(j, k, j0, k0) && Inspects(g, p.size, j, k) ==> !SlotMatches(d, p, name, j, k)) {
        ScanFindsFirst(d, g, p, name, 0, j0, k0);
      }
      if (forall j: nat :: j < j0 ==> SectorReadable(d, p, j))
        && Remaining(g, p.size, j0) > 0 && !SectorReadable(d, p, j0)
        && (forall j: nat, k: nat :: j < j0 && Inspects(g, p.size, j, k) ==> !SlotMatches(d, p, name, j, k)) {
        ScanFindsUnreadable(d, g, p, name, 0, j0);
      }
    }
  }

  /** The end of find_child_inode on a matching entry holding `c`: the
      sector the C computes for `c` is read into the cache unless it is already
      there; a failed read gives -2. */
  method LoadChild(disk: array<seq<bv8>>, g: Geometry, c: int, cached: int) returns (r: int, cached': int)
    requires WellFormed(disk[..], g) && IsInt32(c) && 0 <= cached < disk.Length
    ensures r == CachedChild(disk[..], g, c)
    ensures r >= 0 ==> cached' == g.InodeSector(r)
  {
    var sector := TableSector(g, c);
    cached' := cached;
    if sector != cached' {
      cached' := sector;
      if !(0 <= sector < disk.Length) {
        return -2, cached';
      }
    }
    return c, cached';
  }

  /** The inner loop of find_child_inode over the readable sector `idx` of
      the directory `p`, `nentries` entries before the end: it finds the
      first matching entry among the slots it inspects and returns what
      find_child_inode returns for it, or reports that none matches. */
  method ScanSector(disk: array<seq<bv8>>, g: Geometry, p: Inode, name: string, idx: nat,
                    nentries: int, cached: int)
    returns (found: bool, r: int, cached': int)
    requires ScanArgs(disk[..], g, p, name)
    requires idx < g.maxSectorsPerFile && Readable(disk[..], p.data[idx]) && nentries > 0
    requires 0 <= cached < disk.Length
    ensures var buf := disk[p.data[idx]];
      var m := FirstMatch(buf, name, 0, Inspected(g, nentries));
      found == m.Some?
      && (found ==> r == CachedChild(disk[..], g, DirentIn(buf, m.value * DIRENT_SIZE).inode))
    ensures found && r >= 0 ==> cached' == g.InodeSector(r)
    ensures !found ==> cached' == cached
  {
    var dps := g.DirentsPerSector();
    var buf := disk[p.data[idx]];
    ghost var lim := Inspected(g, nentries);
    var i := 0;
    while i < dps
      invariant 0 <= i <= lim
      invariant FirstMatch(buf, name, 0, lim) == FirstMatch(buf, name, i, lim)
    {
      if i > nentries {
        break;
      }
      DirentSlotFits(g, i);
      var e := DirentIn(buf, i * DIRENT_SIZE);
      if NameMatches(e.fname, name) {
        found := true;
        r, cached' := LoadChild(disk, g, e.inode, cached);
        return;
      }
      i := i + 1;
    }
    return false, -1, cached;
  }

  /** find_child_inode (HW4/LibFS.c:235-273): `cached` is the inode-table
      sector in the cache, which holds the parent; returns the child's
      inode number and the sector now cached. */
  method FindChildInode(disk: array<seq<bv8>>, g: Geometry, parent: int, name: string, cached: int)
    returns (r: int, cached': int)
    requires HasInode(disk[..], g, parent) && IsCString(name) && |name| < MAX_NAME
    requires cached == g.InodeSector(parent)
    ensures r == FindChild(disk[..], g, parent, name)
    ensures r >= 0 ==> cached' == g.InodeSector(r)
  {
    var p := InodeAt(disk[..], g, parent);
    if p.kind != 1 {
      return -2, cached;
    }
    r, cached' := ScanDirectory(disk, g, p, name, cached);
  }

  /** The outer loop of find_child_inode over the sectors of the directory
      `p`. */
  method ScanDirectory(disk: array<seq<bv8>>, g: Geometry, p: Inode, name: string, cached: int)
    returns (r: int, cached': int)
    requires ScanArgs(disk[..], g, p, name)
    requires 0 <= cached < disk.Length
    ensures r == ScanFrom(disk[..], g, p, name, 0)
    ensures r >= 0 ==> cached' == g.InodeSector(r)
  {
    ghost var d := disk[..];
    cached' := cached;
    var nentries := p.size;
    var idx := 0;
    while nentries > 0
      invariant nentries == Remaining(g, p.size, idx)
      invariant ScanFrom(d, g, p, name, 0) == ScanFrom(d, g, p, name, idx)
      invariant 0 <= cached' < disk.Length
      decreases g.maxSectorsPerFile - idx
    {
      if idx >= g.maxSectorsPerFile || !(0 <= p.data[idx] < disk.Length) {
        return -2, cached';
      }
      var found;
      found, r, cached' := ScanSector(disk, g, p, name, idx, nentries, cached');
      if found {
        return;
      }
      assert ScanFrom(d, g, p, name, idx) == ScanFrom(d, g, p, name, idx + 1);
      RemainingStep(g, p.size, idx);
      idx := idx + 1;
      nentries := nentries - g.DirentsPerSector();
    }
    return -1, cached';
  }

  /** The state of the walk along a path: the last two inodes visited and
      the last name processed, or an abort. */
  datatype Walked = Walked(parent: int, child: int, last: Option<string>) | Aborted

  /** The walk may look into its current inode. */
  predicate WalkOK(d: Disk, g: Geometry, w: Walked)
  {
    WellFormed(d, g) && (w.Walked? && w.child >= 0 ==> HasInode(d, g, w.child))
  }

  predicate AllCStrings(ts: seq<string>)
  {
    forall k :: 0 <= k < |ts| ==> IsCString(ts[k])
  }

  /** The body of follow_path's loop over the pieces of the path: empty
      pieces are skipped; an illegal name, or a name after a failed lookup,
      aborts; otherwise the name is looked up in the current inode. */
  function Walk(d: Disk, g: Geometry, ts: seq<string>, w: Walked): (r: Walked)
    requires WalkOK(d, g, w) && AllCStrings(ts)
    ensures WalkOK(d, g, r)
    decreases |ts|
  {
    if |ts| == 0 || w.Aborted? then w
    else
      var t := ts[0];
      if t == "" then Walk(d, g, ts[1..], w)
      else if !LegalName(t) || w.child < 0 then Aborted
      else Walk(d, g, ts[1..], Walked(w.child, FindChild(d, g, w.child, t), Some(t)))
  }

  /** The result of follow_path: the parent inode, the inode of the last
      name (-1 when it is not in its parent) and the last name. */
  datatype Resolution = Failed | Resolved(parent: int, child: int, last: Option<string>)

  /** How follow_path turns the final walk state into its result: -1 for an
      abort or a lookup error, and parent 0 for the path "/" itself. */
  function Finish(w: Walked): Resolution
  {
    if w.Aborted? || w.child < -1 then Failed
    else Resolved(if w.parent == -1 && w.child == 0 then 0 else w.parent, w.child, w.last)
  }

  /** The root inode can be read on a well-formed disk. */
  lemma RootReadable(d: Disk, g: Geometry)
    requires WellFormed(d, g)
    ensures HasInode(d, g, 0) && g.InodeSector(0) == g.InodeTableStart()
  {
    RegionsAreContiguous(g);
  }

  /** follow_path (HW4/LibFS.c:284-341) as a function of the disk. */
  function ResolvePath(d: Disk, g: Geometry, path: Option<string>): (r: Resolution)
    requires WellFormed(d, g) && (path.Some? ==> IsCString(path.value))
    ensures r.Resolved? && r.child >= 0 ==> HasInode(d, g, r.child)
  {
    if path.None? then Failed
    else
      var p := path.value;
      if |p| == 0 || p[0] != '/' then Failed
      else
        RootReadable(d, g);
        StoredIsCString(p);
        Finish(Walk(d, g, Split(Stored(p)), Walked(-1, 0, None)))
  }

  lemma StoredIsCString(p: string)
    requires IsCString(p) && |p| >= 1
    ensures AllCStrings(Split(Stored(p)))
  {
    SplitKeepsChars(Stored(p));
  }

  /** The pieces of a C string are C strings. */
  lemma {:induction false} SplitKeepsChars(s: string)
    requires IsCString(s)
    ensures AllCStrings(Split(s))
  {
    if |s| > 0 {
      SplitKeepsChars(s[1..]);
    }
  }

  /** follow_path (HW4/LibFS.c:284-341): `path` is NULL when `None`. */
  method FollowPath(disk: array<seq<bv8>>, g: Geometry, path: Option<string>) returns (res: Resolution)
    requires WellFormed(disk[..], g) && (path.Some? ==> IsCString(path.value))
    ensures res == ResolvePath(disk[..], g, path)
  {
    ghost var d := disk[..];
    if path.None? {
      return Failed;
    }
    var p := path.value;
    if |p| == 0 || p[0] != '/' {
      return Failed;
    }
    var lpath := Stored(p);
    var parent, child := -1, 0;
    RootReadable(d, g);
    var cached := g.InodeTableStart();
    var last: Option<string> := None;
    var tokens := Split(lpath);
    StoredIsCString(p);
    var k := 0;
    while k < |tokens|
      invariant 0 <= k <= |tokens|
      invariant WalkOK(d, g, Walked(parent, child, last))
      invariant child >= 0 ==> cached == g.InodeSector(child)
      invariant Walk(d, g, tokens, Walked(-1, 0, None)) == Walk(d, g, tokens[k..], Walked(parent, child, last))
    {
      var token := tokens[k];
      assert tokens[k..][1..] == tokens[k + 1..];
      k := k + 1;
      if token == "" {
        continue;
      }
      var illegal := IllegalFilename(token);
      if illegal == 1 {
        return Failed;
      }
      if child < 0 {
        return Failed;
      }
      parent := child;
      child, cached := FindChildInode(disk, g, parent, token, cached);
      last := Some(token);
    }
    if child < -1 {
      return Failed;
    }
    if parent == -1 && child == 0 {
      parent := 0;
    }
    return Resolved(parent, child, last);
  }

  /** "/" resolves to the root as both parent and child; a NULL or relative
      path fails. */
  lemma ResolveRootAndRelative(d: Disk, g: Geometry, p: string)
    requires WellFormed(d, g) && IsCString(p)
    ensures ResolvePath(d, g, Some("/")) == Resolved(0, 0, None)
    ensures ResolvePath(d, g, None) == Failed
    ensures |p| > 0 && p[0] != '/' ==> ResolvePath(d, g, Some(p)) == Failed
  {
    RootReadable(d, g);
    assert Stored("/") == "";
    assert Split("") == [""];
    var w0 := Walked(-1, 0, None);
    assert Walk(d, g, [""], w0) == Walk(d, g, [], w0) == w0;
  }

  /** Processing pieces one list after another is processing the joined
      list. */
  lemma {:induction false} WalkAppend(d: Disk, g: Geometry, a: seq<string>, b: seq<string>, w: Walked)
    requires WalkOK(d, g, w) && AllCStrings(a) && AllCStrings(b)
    ensures AllCStrings(a + b)
    ensures Walk(d, g, a + b, w) == Walk(d, g, b, Walk(d, g, a, w))
    decreases |a|
  {
    if |a| > 0 && w.Walked? {
      assert (a + b)[1..] == a[1..] + b;
      var t := a[0];
      if t == "" {
        WalkAppend(d, g, a[1..], b, w);
      } else if LegalName(t) && w.child >= 0 {
        WalkAppend(d, g, a[1..], b, Walked(w.child, FindChild(d, g, w.child, t), Some(t)));
      }
    } else if |a| == 0 {
      assert a + b == b;
    }
  }

  /** The walk ignores empty pieces. */
  lemma {:induction false} WalkSkipsEmpty(d: Disk, g: Geometry, ts: seq<string>, w: Walked)
    requires WalkOK(d, g, w) && AllCStrings(ts)
    ensures AllCStrings(NonEmpty(ts))
    ensures Walk(d, g, ts, w) == Walk(d, g, NonEmpty(ts), w)
    decreases |ts|
  {
    if |ts| > 0 {
      var t := ts[0];
      if t == "" {
        WalkSkipsEmpty(d, g, ts[1..], w);
      } else {
        assert NonEmpty(ts) == [t] + NonEmpty(ts[1..]);
        assert NonEmpty(ts)[1..] == NonEmpty(ts[1..]);
        if w.Walked? && LegalName(t) && w.child >= 0 {
          WalkSkipsEmpty(d, g, ts[1..], Walked(w.child, FindChild(d, g, w.child, t), Some(t)));
        } else {
          WalkSkipsEmpty(d, g, ts[1..], w);
        }
      }
    }
  }

  /** Repeated '/' separators are skipped: doubling one leaves the result
      of follow_path unchanged (for paths that fit the MAX_PATH buffer). */
  lemma RepeatedSlashIgnored(d: Disk, g: Geometry, x: string, y: string)
    requires WellFormed(d, g) && IsCString(x) && IsCString(y)
    requires |x| >= 1 && x[0] == '/' && |x| + 2 + |y| <= MAX_PATH
    ensures ResolvePath(d, g, Some(x + "//" + y)) == ResolvePath(d, g, Some(x + "/" + y))
  {
    var p2, p1 := x + "//" + y, x + "/" + y;
    assert IsCString(p2) && IsCString(p1);
    assert Stored(p2) == x[1..] + "//" + y;
    assert Stored(p1) == x[1..] + "/" + y;
    RepeatedSlashSameNames(x[1..], y);
    RootReadable(d, g);
    StoredIsCString(p2);
    StoredIsCString(p1);
    WalkSkipsEmpty(d, g, Split(Stored(p2)), Walked(-1, 0, None));
    WalkSkipsEmpty(d, g, Split(Stored(p1)), Walked(-1, 0, None));
  }

  /** One more name at the end of a path: if the shorter path failed, the
      longer one fails; an illegal name fails; a name after a missing
      directory (-1) fails; otherwise the name is looked up in the inode the
      shorter path reached, which becomes the parent, and a lookup error
      (the parent is not a directory, or a read failed) fails. */
  lemma ResolveAppend(d: Disk, g: Geometry, p: string, t: string)
    requires WellFormed(d, g) && IsCString(p) && IsCString(t)
    requires |p| >= 1 && p[0] == '/' && |p| + 1 + |t| <= MAX_PATH
    requires t != "" && '/' !in t
    ensures var r := ResolvePath(d, g, Some(p));
      ResolvePath(d, g, Some(p + "/" + t)) ==
        if r.Failed? || !LegalName(t) || r.child < 0 then Failed
        else
          var c := FindChild(d, g, r.child, t);
          if c < -1 then Failed else Resolved(r.child, c, Some(t))
  {
    var q := p + "/" + t;
    assert IsCString(q);
    assert Stored(q) == Stored(p) + "/" + t;
    SplitAtSlash(Stored(p), t);
    SplitNoSlash(t);
    RootReadable(d, g);
    StoredIsCString(p);
    StoredIsCString(q);
    var w0 := Walked(-1, 0, None);
    WalkAppend(d, g, Split(Stored(p)), [t], w0);
    LastStep(d, g, t, Walk(d, g, Split(Stored(p)), w0));
  }

  /** One more name after a walk: the result of the walk so far becomes the
      parent, and the name is looked up in it. */
  lemma LastStep(d: Disk, g: Geometry, t: string, w: Walked)
    requires WalkOK(d, g, w) && IsCString(t) && t != ""
    ensures var r := Finish(w);
      Finish(Walk(d, g, [t], w)) ==
        if r.Failed? || !LegalName(t) || r.child < 0 then Failed
        else
          var c := FindChild(d, g, r.child, t);
          if c < -1 then Failed else Resolved(r.child, c, Some(t))
  {
    assert [t][1..] == [];
  }
}

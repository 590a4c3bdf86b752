# A verified model of LibFS and the shell's `get_args`

This project models two pieces of C code in Dafny and proves properties of
them:

- **LibFS** (`HW4/LibFS.c`): a small file system library over a disk of
  fixed-size sectors. The disk holds five contiguous regions: the
  superblock, the inode bitmap, the sector bitmap, the inode table and the
  data blocks. The model covers:
  - the layout macros;
  - the three bitmap routines (`bitmap_init`, `bitmap_first_unused`,
    `bitmap_reset`);
  - file name validation (`illegal_filename`);
  - path resolution (`follow_path` and `find_child_inode`);
  - directory entry management (`add_inode`, `remove_inode`);
  - the open-file table (`is_file_open`, `new_file_fd`, `File_Seek`,
    `File_Close`);
  - the checks that `File_Read`, `File_Write`, `Dir_Size` and `Dir_Read`
    make before they copy any data.
- **`get_args`** (`HW2/main.c`): the command-line splitter of a small
  shell. It breaks a line into words and stores them in an array of
  commands. A `;` word starts a new command, and a `&` word marks the
  current command as a background one.

## Modules

- **`Layout`** (layout.dfy): the region macros.
  - The header constants (`SECTOR_SIZE`, `TOTAL_SECTORS`, `MAX_FILES`,
    `MAX_SECTORS_PER_FILE`, `MAX_FILE_SIZE`) are not part of this model.
    They are the fields of a `Geometry` value.
  - `Geometry.Valid()` states what the arithmetic needs of them. It includes at least one data sector, and sector numbers that fit in an `int`.
- **`Codec`** (codec.dfy): the byte image of C values on the disk.
  - `int` values are stored little-endian and wrap modulo 2^32.
  - Covers `inode_t` and `dirent_t` records, plus `strncpy` and `strcmp`
    on name fields.
- **`ByteBits`** (bytebits.dfy): the single-byte bit operations of the
  bitmap code.
- **`Bitmap`** (bitmap.dfy): the three bitmap routines as methods over the
  disk array. Each is proved against a function of the old disk.
- **`Volume`** (volume.dfy): a well-formed disk, the readable sectors, and
  inode and directory-entry lookup.
- **`Names`** (names.dfy):
  - `illegal_filename`;
  - `strsep` splitting on `/`;
  - the truncated path copy that `follow_path` works on.
- **`Directory`** (directory.dfy): `find_child_inode` and `follow_path`.
  - Each is a method, including its one-sector inode cache.
  - Each is proved against a function of the disk.
- **`Inodes`** (inodes.dfy): `add_inode` and `remove_inode`.
  - Each is a method, and each is proved equal to a function of the disk.
  - Lemmas state the return codes and the effect on bitmaps, records and
    entries.
- **`FileApi`** (libfs.dfy): the `FileSystem` class.
  - Its state is the disk, the 256-entry `open_files` table and `osErrno`.
  - Each operation is proved against a specification function.
- **`Shell`** (shell.dfy): `get_args` as a method.
  - It fills the caller's `commands` array.
  - It is proved against a function over the `strtok` words.
- **`Options`** (options.dfy): the `Option` type.

The disk is an `array<seq<bv8>>` of `TOTAL_SECTORS` sectors of
`SECTOR_SIZE` bytes each. `Disk_Read` and `Disk_Write` succeed exactly on
sector numbers `0 .. TOTAL_SECTORS - 1`, which is the failure the C checks
for.

## Model

| member | source | states |
|---|---|---|
| Layout.CeilDivIsLeast | HW4/LibFS.c:37-38 | The macro `(a + b - 1) / b` gives the least number of `b`-sized units that hold `a`. |
| Layout.RegionsAreMinimal | HW4/LibFS.c:37-72 | INODE_BITMAP_SECTORS, SECTOR_BITMAP_SECTORS and INODE_TABLE_SECTORS each hold their region, and one sector (or one inode-table sector) fewer would not. |
| Layout.BitmapsCoverTheirObjects | HW4/LibFS.c:37-48 | The inode bitmap has a bit for every inode, and the sector bitmap has a bit for every sector. |
| Layout.RegionsAreContiguous | HW4/LibFS.c:25-76 | The regions are non-empty. They follow in the order superblock, inode bitmap, sector bitmap, inode table, data blocks, each starting where the previous one ends. The data blocks start inside the disk, so at least one sector is left for them (`Geometry.Valid` demands it). |
| Layout.InodeAddressing | HW4/LibFS.c:1042-1045 | Every inode below MAX_FILES lies in an inode-table sector, and its record fits inside that sector. The asserted offset is below INODES_PER_SECTOR, and (sector, slot) determines the inode. |
| Layout.InodeBitmapNoLargerThanTable | HW4/LibFS.c:37-72 | The inode bitmap takes no more sectors than the inode table. |
| Codec.Wrap32 | HW4/LibFS.c:988 | C `int` arithmetic: the result is a 32-bit value congruent to the exact one modulo 2^32, and equal to it when the exact one fits. |
| Codec.DecodeEncodeInt32 | HW4/LibFS.c:58-62 | An `int` stored in four bytes reads back as itself. |
| Codec.WordAfterPutWord | HW4/LibFS.c:58-62 | Storing an `int` and reading it back gives it, and an `int` at another offset is unaffected. |
| Codec.BlankInodeBytes | HW4/LibFS.c:367-368 | `memset` of a record followed by `->type = kind` reads back as the inode of size 0, type `kind` and all data slots 0. |
| Codec.InodeAfterPutSize | HW4/LibFS.c:421 | Storing a new `size` changes that field of the record and nothing else. |
| Codec.InodeAfterPutData | HW4/LibFS.c:401 | Storing a sector number in `data[i]` changes that slot and nothing else. |
| Codec.WrittenDirent | HW4/LibFS.c:413-415 | An entry written as a name field and an inode number reads back as that pair. |
| Codec.NameMatchesCopy | HW4/LibFS.c:255 | A field filled by `strncpy(fname, name, 16)` compares equal under `strcmp` to that name and to no other, and a zeroed field matches no non-empty name. |
| ByteBits.ZeroTest | HW4/LibFS.c:167 | `(b >> k) & 1` is 0 exactly when bit `k` of the byte is clear. |
| ByteBits.MaskSetBits | HW4/LibFS.c:171-173 | Or-ing in `1 << k` sets bit `k` and keeps every other bit. |
| ByteBits.MaskClearBits | HW4/LibFS.c:200 | And-ing with `~(1 << k)` clears bit `k` and keeps every other bit. |
| ByteBits.ShiftInTopBits | HW4/LibFS.c:142-148 | The seven rounds of "or in 1 while bits remain, then shift left" leave the top `r` bits of the byte set. |
| Bitmap.BitParts | HW4/LibFS.c:176 | The index returned, `i * SECTOR_SIZE * 8 + j * 8 + (7 - k)`, splits back into sector `i`, byte `j` and shift `k`. |
| Bitmap.ResetArithmetic | HW4/LibFS.c:189-191 | bitmap_reset's sector / byte / bit arithmetic inverts that numbering. |
| Bitmap.FirstClearIsFirst | HW4/LibFS.c:157-182 | The bit the scan finds is the first 0 bit below the limit. It is -1 exactly when every bit below the limit is 1. |
| Bitmap.FirstUnused | HW4/LibFS.c:157-182 | bitmap_first_unused returns the first 0 bit among the first `nbits` bits of the region, most significant bit of each byte first. It sets that bit and nothing else. When every inspected bit is 1 it returns -1 and leaves the disk as it was. |
| Bitmap.ScanSector | HW4/LibFS.c:163-179 | One sector's pass finds the first 0 bit among the bits it may still inspect, with every earlier bit 1. It counts the inspected bits off `nbits`. |
| Bitmap.Reset | HW4/LibFS.c:186-203 | bitmap_reset returns -1 and leaves the disk as it was when the bit's sector is past the region. Otherwise it clears exactly that bit and returns 0. |
| Bitmap.BitAfterSetBit | HW4/LibFS.c:173 | Setting a bit turns that bit on and leaves every other bit of the region as it was. |
| Bitmap.BitAfterClearBit | HW4/LibFS.c:200 | Clearing a bit turns that bit off and leaves every other bit of the region as it was. |
| Bitmap.ClearBitUndoesSetBit | HW4/LibFS.c:173-200 | Resetting the bit that bitmap_first_unused set restores the disk it started from. |
| Bitmap.ResetBit | HW4/LibFS.c:186-203 | Resetting leaves the bit clear and every other bit and every sector outside the region as it was. |
| Bitmap.Init | HW4/LibFS.c:121-152 | bitmap_init, with a cleared buffer for every sector, leaves the disk equal to `Initialized`. |
| Bitmap.InitializedSetsFirstBits | HW4/LibFS.c:118-120 | After the intended bitmap_init, bit `idx` of the region is 1 exactly when `idx < nbits`. |
| Bitmap.FillSector | HW4/LibFS.c:127-148 | One round of the loop builds the sector image for the remaining bits and subtracts the bits it sets. |
| Bitmap.InitAsWritten | HW4/LibFS.c:121-152 | bitmap_init as written, whose buffer is cleared only when a partly filled sector is built, leaves the disk equal to `InitializedAsWritten`. |
| Bitmap.InitAsWrittenSetsExtraBit | HW4/LibFS.c:126-151 | As written, `nbits = 1` over two sectors also sets the first bit of the second sector. |
| Names.IllegalFilename | HW4/LibFS.c:209-225 | illegal_filename returns 0 exactly for a name of 1 to 15 characters drawn from digits, letters, `.`, `-`, `_` and `/`, and 1 otherwise. |
| Names.LegalNameFitsEntry | HW4/LibFS.c:414 | A legal name fits an entry's name field with its NUL, so its `strncpy` copy compares equal to it and to no other name. |
| Names.JoinSplit | HW4/LibFS.c:310 | The `strsep(&s, "/")` pieces, joined with `/`, give the path back. |
| Names.SplitHasNoSlash | HW4/LibFS.c:310 | No piece contains a `/`. |
| Names.SplitAtSlash | HW4/LibFS.c:310 | A `/` ends the pieces of the text before it and starts those of the text after it. |
| Names.RepeatedSlashSameNames | HW4/LibFS.c:312 | Doubling a `/` adds only an empty piece, so the non-empty pieces stay the same. |
| Names.Stored | HW4/LibFS.c:297-298 | The path copy is a prefix of the path after its leading `/`, of length `min(|path| - 1, MAX_PATH - 1)`. |
| Directory.Inspected | HW4/LibFS.c:252-253 | The inner loop inspects `min(DIRENTS_PER_SECTOR, nentries + 1)` slots, one past the last entry when the sector is partly filled. |
| Directory.FirstMatch | HW4/LibFS.c:252-262 | The inner loop finds the first inspected slot named `fname`, or reports that none is. |
| Directory.CachedChild | HW4/LibFS.c:257-262 | A matching entry gives its inode number `c`, or -2 when the sector the C computes for `c` (`TableSector`) cannot be read into the cache. A non-negative `c` is returned exactly when its inode is on the disk. |
| Directory.NegativeEntryUnreadable | HW4/LibFS.c:259 | With INODES_PER_SECTOR 10 and the inode table at sector 5, an entry holding inode -1 gives sector -1717986914, so the lookup returns -2. |
| Directory.FindChildResult | HW4/LibFS.c:235-273 | find_child_inode returns -2 for a parent that is not a directory. When the sectors it reaches can be read, it returns -1 when no inspected entry carries the name, and otherwise the inode of the first entry that does. It returns -2 when a sector it reaches cannot be read. |
| Directory.ScanFindsFirst | HW4/LibFS.c:249-269 | The sector scan returns the child of the first matching inspected slot. |
| Directory.ScanFindsNone | HW4/LibFS.c:249-272 | With no inspected slot matching, the scan returns -1. |
| Directory.ScanFindsUnreadable | HW4/LibFS.c:251 | An unreadable sector reached before any match makes the scan return -2. |
| Directory.ScanSector | HW4/LibFS.c:252-264 | The inner loop over one sector agrees with `FirstMatch`, and it updates the cached sector as find_child_inode does. |
| Directory.ScanDirectory | HW4/LibFS.c:249-272 | The outer loop over the directory's sectors agrees with `ScanFrom`. |
| Directory.FindChildInode | HW4/LibFS.c:235-273 | find_child_inode returns `FindChild` of the disk. On success the cached sector is the child's inode-table sector. |
| Directory.LoadChild | HW4/LibFS.c:257-262 | Loading the sector the C computes for the matching child into the cache returns `CachedChild`. On success the cache holds that inode's table sector. |
| Directory.FollowPath | HW4/LibFS.c:284-341 | follow_path returns `ResolvePath` of the disk. |
| Directory.ResolvePath | HW4/LibFS.c:284-341 | A resolved child that is not negative names an inode the disk holds. |
| Directory.ResolveRootAndRelative | HW4/LibFS.c:285-336 | `"/"` resolves to parent 0 and child 0. A NULL path and a path not starting with `/` fail. |
| Directory.RepeatedSlashIgnored | HW4/LibFS.c:312 | Doubling a `/` separator does not change the result of follow_path. |
| Directory.ResolveAppend | HW4/LibFS.c:310-337 | Adding one more name to a path: the result fails if the shorter path failed, if the name is illegal, or if the directory it names was missing. Otherwise the name is looked up in the inode the shorter path reached, which becomes the parent. A not-found child is -1, and a lookup error fails. |
| Directory.WalkSkipsEmpty | HW4/LibFS.c:312 | The walk ignores empty pieces. |
| Directory.WalkAppend | HW4/LibFS.c:310-330 | Walking two lists of pieces one after the other is walking the joined list. |
| Inodes.NewChildBitmap | HW4/LibFS.c:347-351 | The new inode is the first whose bit is clear among the MAX_FILES bits of the inode bitmap (the corrected count). Its bit is set and no other bit changes. When all inspected bits are set, the call fails and changes nothing. |
| Inodes.InodeBitsAsWrittenStopEarly | HW4/LibFS.c:347 | With inodes 0 up to INODE_BITMAP_SIZE - 1 in use and a later inode free, the allocation with the byte count passed as written fails, while the one with MAX_FILES bits takes the first free inode. |
| Inodes.SectorBitsAsWrittenStopEarly | HW4/LibFS.c:396 | With sectors 0 up to SECTOR_BITMAP_SIZE - 1 in use and a later sector free, the allocation with the byte count passed as written fails, while `FreeSector` finds the free sector. |
| Inodes.BitsAsWrittenFewer | HW4/LibFS.c:33-48 | The byte counts are below the bit counts: always for the sector bitmap, and for the inode bitmap when MAX_FILES is at least 2. |
| Inodes.NewChildRecords | HW4/LibFS.c:354-369 | The new inode gets a blank record of type `kind`, and every other inode is as it was. |
| Inodes.NewChildInode | HW4/LibFS.c:346-372 | The first half of add_inode agrees with `NewChild`. |
| Inodes.AddEntry | HW4/LibFS.c:374-425 | The second half of add_inode returns -2 exactly when the parent is not a directory. It returns 0 exactly when the parent can be read, is a directory, and the entry's sector is on the disk. Otherwise it returns -1. |
| Inodes.AppendEntry | HW4/LibFS.c:392-425 | Appending the entry returns 0 exactly when the entry's sector is on the disk, and -1 otherwise. |
| Inodes.AppendEntryEffect | HW4/LibFS.c:392-425 | After a successful append, the parent's size is one larger and the entry's sector is in the `data` slot of its group. The slot after the last entry names the child under `name`. The other slots of a fresh sector are empty, and those of an existing one are kept. |
| Inodes.PutEntryEffect | HW4/LibFS.c:410-425 | The entry reads back as the name and the inode. The other entries of its sector are kept, and the parent is written with its size one larger. No other sector changes, and a failure changes nothing. |
| Inodes.NewSectorWrites | HW4/LibFS.c:394-403 | A new group takes the free sector the sector bitmap hands out, records it in `data[group]`, and writes a zeroed sector holding only the entry. |
| Inodes.AddInodeSpec | HW4/LibFS.c:345-426 | add_inode returns 0, -1 or -2 and leaves a well-formed disk. It searches the bitmaps with the corrected bit counts (`InodeBits(g) == MAX_FILES`, `SectorBits(g) == TOTAL_SECTORS`), where the C passes byte counts (HW4/LibFS.c:347, 396). |
| Inodes.AddInodeEffect | HW4/LibFS.c:345-426 | A successful add_inode took a free inode, marked it in use and gave it a blank record of type `kind`. It found the parent to be a directory and appended an entry naming the new inode under `name`. |
| Inodes.AddInode | HW4/LibFS.c:345-426 | The method agrees with `AddInodeSpec`, so it too uses the corrected bit counts `InodeBits(g)` and `SectorBits(g)` rather than the byte counts the C passes (HW4/LibFS.c:347, 396). |
| Inodes.AddEntryToParent | HW4/LibFS.c:373-425 | The method agrees with `AddEntry`. |
| Inodes.AppendEntryToSector | HW4/LibFS.c:392-425 | The method agrees with `AppendEntry`. |
| Inodes.AppendInNewSectorTo | HW4/LibFS.c:394-403 | The method agrees with `AppendInNewSector`. |
| Inodes.AppendInGroupSectorTo | HW4/LibFS.c:404-408 | The method agrees with `AppendInGroupSector`. |
| Inodes.WriteEntry | HW4/LibFS.c:410-425 | The method agrees with `PutEntry`. |
| Inodes.Release | HW4/LibFS.c:461-493 | It returns -1 exactly when the child cannot be read, and -3 exactly when the child's type differs. It returns -2 exactly for a non-empty directory. On any error the disk is unchanged. |
| Inodes.FreeSlotEffect | HW4/LibFS.c:480-485 | Freeing a data sector zeroes it and marks it free. It changes no other sector outside the sector bitmap and no other bit. |
| Inodes.FreeDataZeroes | HW4/LibFS.c:479-487 | Every nonzero data sector of the child is zeroed and marked free. |
| Inodes.FreeDataFrame | HW4/LibFS.c:479-487 | No sector outside the sector bitmap changes except the child's data sectors. |
| Inodes.FreeDataBits | HW4/LibFS.c:479-487 | No bit of the sector bitmap changes except those of the child's data sectors. |
| Inodes.FreeChildData | HW4/LibFS.c:479-487 | The loop over the child's data slots agrees with `FreeData`. |
| Inodes.ClearedKeepsOtherInodes | HW4/LibFS.c:489-490 | Clearing the child zeroes its record and leaves every other inode as it was. |
| Inodes.ReleaseFreesInode | HW4/LibFS.c:493 | With the bit reset in the inode bitmap, the released inode is marked free and no other inode's bit changes. |
| Inodes.ReleaseBlanksRecord | HW4/LibFS.c:478-493 | After a successful release the child's record is blank and every other inode is as it was. |
| Inodes.ReleaseFreesData | HW4/LibFS.c:479-486 | After a successful release every nonzero data sector of the child is zeros and free in the sector bitmap on the final disk. |
| Inodes.ClearedFreesData | HW4/LibFS.c:479-489 | Freeing the data and zeroing the record leave each nonzero data sector of the child zeros and free. |
| Inodes.ResetInodeBitKeepsFreeBlock | HW4/LibFS.c:493 | Resetting a bit of the inode bitmap leaves a zeroed, free data block zeroed and free. |
| Inodes.ReleaseAsWrittenKeepsInodeInUse | HW4/LibFS.c:493 | As written, the reset goes to the inode table instead of the inode bitmap, so the released inode stays marked in use. |
| Inodes.ReleaseChild | HW4/LibFS.c:461-493 | The method agrees with `Release` on the inode bitmap. |
| Inodes.IndexFromIsFirst | HW4/LibFS.c:522-534 | The entry search finds the first entry naming the child, or -1 exactly when none does. |
| Inodes.EntryWithIsFirst | HW4/LibFS.c:522-534 | Within one sector, the entry found names the child and no earlier entry does. The result is -1 exactly when no entry of the sector names it. |
| Inodes.FindEntry | HW4/LibFS.c:522-534 | The inner loop agrees with `EntryWith`. |
| Inodes.LocateIsFirst | HW4/LibFS.c:517-537 | The search stops at the first sector holding an entry for the child, skipping slots that hold 0. It reports not-found exactly when no readable sector has one. A read error means some slot names a sector the disk does not have. |
| Inodes.LocateEntry | HW4/LibFS.c:517-537 | The outer loop agrees with `Locate`. |
| Inodes.Unlink | HW4/LibFS.c:496-537 | The second half of remove_inode returns 0 exactly when the parent is a readable directory and `Locate` finds an entry for the child, that is, the scan reaches such an entry before any unreadable data sector. On error the disk is unchanged. |
| Inodes.UnlinkEffect | HW4/LibFS.c:517-533 | A successful unlink zeroes the first entry naming the child in place and makes the parent's size one smaller. Every other sector is as it was. |
| Inodes.DropEntryEffect | HW4/LibFS.c:527-530 | The entry is zeroed and the other entries of its sector are kept. The parent's size becomes one less and no other sector changes. |
| Inodes.DropChildEntry | HW4/LibFS.c:527-530 | The writes agree with `DropEntry`. |
| Inodes.UnlinkChild | HW4/LibFS.c:496-537 | The method agrees with `Unlink`. |
| Inodes.RemoveIn | HW4/LibFS.c:459-538 | remove_inode returns -3 exactly for a wrong type, -1 with the disk unchanged for an unreadable child, and -2 with the disk unchanged for a non-empty directory. |
| Inodes.RemoveInode | HW4/LibFS.c:459-538 | The method agrees with `RemoveInodeSpec`, which resets the child's bit in the inode bitmap. |
| Volume.TableSector | HW4/LibFS.c:259 | `INODE_TABLE_START_SECTOR + n / INODES_PER_SECTOR` with the `size_t` division and the conversion back to `int`: an `int` result, equal to inode `n`'s table sector for an inode number whose sector fits in an `int`, and negative otherwise. |
| Volume.TableSectorReadable | HW4/LibFS.c:259-261 | For an inode number, the computed sector can be read exactly when the inode's table sector is on the disk. |
| Volume.InodeRecordsDisjoint | HW4/LibFS.c:1042-1045 | Two different inodes have records that do not overlap. |
| FileApi.FirstFreeFd | HW4/LibFS.c:558-564 | new_file_fd returns the first entry whose inode is not positive, with every earlier entry in use, or -1 exactly when every entry is in use. |
| FileApi.FileSystem.NewFileFd | HW4/LibFS.c:558-564 | The loop returns `FirstFreeFd` of the table. |
| FileApi.FileSystem.IsFileOpen | HW4/LibFS.c:549-555 | is_file_open returns 1 exactly when some entry of the table names the inode, and 0 otherwise. |
| FileApi.Seek | HW4/LibFS.c:923-942 | File_Seek succeeds exactly when the entry is in use and `0 <= offset <= size`, and then changes only `pos`, to `offset`. Otherwise it fails with E_BAD_FD for an unused entry and E_SEEK_OUT_OF_BOUNDS for a bad offset. |
| FileApi.SeekLastWins | HW4/LibFS.c:935-941 | A successful seek leaves the position inside the file, and a second seek acts as if the first had not happened. |
| FileApi.FileSystem.FileSeek | HW4/LibFS.c:923-942 | The method returns `offset` and updates only that entry's `pos`, or returns -1 with the error `Seek` names and the table unchanged. |
| FileApi.Close | HW4/LibFS.c:944-960 | File_Close, with the bound check `0 <= fd < MAX_OPEN_FILES`, succeeds exactly on a table entry in use. It sets that entry's inode to 0 and changes nothing else. |
| FileApi.CloseFreesDescriptor | HW4/LibFS.c:944-960 | After a close, new_file_fd returns that descriptor or an earlier free one, and a second close of it fails. |
| FileApi.CloseKeepsOtherFiles | HW4/LibFS.c:958 | Closing a descriptor leaves every other inode open exactly when it was. |
| FileApi.CloseAsWrittenPastTable | HW4/LibFS.c:946 | The as-written check admits `fd == MAX_OPEN_FILES`, which reads past the table. Every other admitted descriptor is inside the table. |
| FileApi.CloseAgreesInsideTable | HW4/LibFS.c:944-960 | Away from `fd == MAX_OPEN_FILES`, the as-written File_Close agrees with `Close`. |
| FileApi.FileSystem.FileClose | HW4/LibFS.c:944-960 | The method returns 0 and frees the entry, or returns -1 with E_BAD_FD and the table unchanged, as `Close` says. |
| FileApi.FileSystem.LoadInode | HW4/LibFS.c:1031-1049 | loadInode yields the stored inode exactly when its table sector can be read, and otherwise none, with E_GENERAL. |
| FileApi.StartRead | HW4/LibFS.c:797-828 | File_Read fails with E_BAD_FD exactly for an unused entry. Once it can load the inode it proceeds as `FromBlocks` on the inode's block list and position. |
| FileApi.FromBlocks | HW4/LibFS.c:820-828 | Nothing is read exactly when the position is MAX_FILE_SIZE or its block is unallocated. Otherwise the read starts in block `data[pos / SECTOR_SIZE]`, which is on the disk, at offset `pos % SECTOR_SIZE`. |
| FileApi.ReadAfterSeek | HW4/LibFS.c:821-828 | After a successful seek to `offset`, a read starts at byte `offset` of the file's block list. |
| FileApi.FileSystem.FileReadStart | HW4/LibFS.c:797-828 | The method's checks agree with `StartRead`, setting E_BAD_FD only for an unused entry. |
| FileApi.StartWrite | HW4/LibFS.c:860-876 | File_Write fails with E_BAD_FD exactly for an unused entry. It proceeds exactly when the file with `size` more bytes does not exceed MAX_FILE_SIZE. |
| FileApi.StartWriteOverflow | HW4/LibFS.c:872 | The as-written check agrees with `StartWrite` whenever `openFileEntry.size + size` (the cached size plus the write size) fits in an `int`. For a one-byte file and a write of INT_MAX bytes, the as-written check lets the write through. |
| FileApi.FileSystem.FileWriteStart | HW4/LibFS.c:860-876 | The method's checks agree with `StartWrite`, setting E_BAD_FD or E_FILE_TOO_BIG. |
| FileApi.DirSize | HW4/LibFS.c:973-993 | Dir_Size returns an `int`. Its only error is -1 with E_GENERAL. |
| FileApi.DirSizeCases | HW4/LibFS.c:973-993 | For every path: the error (-1, E_GENERAL) happens exactly when the path resolves to an inode that is not a directory. A path that resolves to nothing gives 0 and no errno. A directory gives twenty bytes per entry as an `int`, which is the byte count itself when that fits. |
| FileApi.DirSizeOfRoot | HW4/LibFS.c:973-993 | The size of `/` is twenty bytes per root entry, or -1 with E_GENERAL when the root inode is not a directory. |
| FileApi.FileSystem.DirSizeOf | HW4/LibFS.c:973-993 | The method returns `DirSize` and sets `osErrno` only on its error. |
| FileApi.StartDirRead | HW4/LibFS.c:995-1007 | Dir_Read fails with E_BUFFER_TOO_SMALL exactly when Dir_Size's result exceeds `size`, and otherwise keeps Dir_Size's `osErrno`. A copy starts only from an inode the disk holds. |
| FileApi.DirReadOfRegularFile | HW4/LibFS.c:995-1007 | A path naming a regular file passes the buffer check, so the copy starts from the file's inode, with E_GENERAL stored. |
| FileApi.FileSystem.DirReadChecks | HW4/LibFS.c:995-1007 | The method agrees with `StartDirRead`. |
| Shell.WordLength | HW2/main.c:58 | The word at the front of the line is a non-empty run of non-separators followed by a separator or the end. |
| Shell.Tokens | HW2/main.c:58 | Every word `strtok` returns is a non-empty run of non-separators. |
| Shell.TokensOfUnwords | HW2/main.c:58-64 | Splitting a line of words written with separators gives back exactly those words. |
| Shell.Step | HW2/main.c:64-81 | One turn of the loop exits exactly when the next slot is MAX_ARGS or beyond. A `;` adds one to the count and starts the next command at slot 0. Any other word moves to the next slot. |
| Shell.StepEffect | HW2/main.c:69-80 | One turn stores the word, or NULL for `&` and `;`, in the next slot. `nargs` counts the slots up to the word, or up to before a `&` or `;`. Only `&` sets `async`, and no other command changes. |
| Shell.Drive | HW2/main.c:64-82 | After the loop, the current command index and the count have each grown by the number of `;` words. |
| Shell.End | HW2/main.c:64 | The final NULL goes into the next slot, and the program exits when there is none. |
| Shell.First | HW2/main.c:57-62 | The first word goes into slot 0 of command 0 unchecked, and command 0 starts with `nargs = 1` and `async = 0`. The other slots and commands are as the caller left them, and the scan continues at slot 1 with one command counted. |
| Shell.Parse | HW2/main.c:57-59 | A line with no words gives a count of 0. |
| Shell.PlainWords | HW2/main.c:64-70 | Plain words fill the next slots of the current command in order, with `nargs` counting them. The program exits exactly when they do not fit. |
| Shell.SemicolonClosesCommand | HW2/main.c:75-80 | A `;` after plain words closes the command, with `nargs` counting the words before it. The next command starts at slot 0 and the count grows by one. |
| Shell.DriveAppend | HW2/main.c:64-82 | The loop over two lists of words one after the other is the loop over the joined list. |
| Shell.ParseCountsCommands | HW2/main.c:60-78 | The count get_args returns is one more than the number of `;` words after the first word. |
| Shell.SingleCommand | HW2/main.c:57-84 | A line of plain words is one foreground command holding the words followed by NULL, with `nargs` the number of words. The program exits exactly when the words leave no slot for the NULL. |
| Shell.FullCommandAsWritten | HW2/main.c:64-68 | For a command of exactly MAX_ARGS words, get_args as written stores the final NULL past `argv` instead of exiting. |
| Shell.ParseAgreesAsWritten | HW2/main.c:52-84 | As written, get_args agrees with `Parse` on every line except one whose last command fills all MAX_ARGS slots. |
| Shell.GetArgs | HW2/main.c:52-84 | get_args exits exactly when `Parse` says there are too many arguments. Otherwise it returns `Parse`'s count and leaves `commands` as `Parse` says. |
| Shell.StoreWords | HW2/main.c:64-83 | The loop and the final NULL agree with `Drive` followed by `End`. |
| Shell.StoreWord | HW2/main.c:64-81 | One turn's stores and counter updates agree with `Step`. |

## Left out

- Disk I/O: `Disk_Read` and `Disk_Write` (LibDisk) are not part of this model. The disk is an array whose reads and writes fail exactly on sector numbers off the disk.
- Return values the C ignores: the disk calls whose results the C drops are modelled as if they succeeded. Examples are `bitmap_first_unused`'s writes and `remove_inode`'s data-sector writes.
- Logging: `dprintf` output, and the message `get_args` prints before `exit(1)`, are not modelled.
- Booting: `FS_Boot`, `FS_Sync`, the backing-store file, `File_Create`, `File_Open`, `File_Unlink`, `Dir_Create` and `Dir_Unlink` are outside the modelled core. Only the table reset of `FS_Boot` is the `FileSystem` constructor.
- File_Read's copy loop: the loop (HW4/LibFS.c:829-857) does `void *` arithmetic over the caller's buffer. Only its checks up to the first block read are modelled (`StartRead`).
- File_Write's data path: the allocation and copy (HW4/LibFS.c:877-921) are not modelled. This includes three quirks:
  - it updates only a local copy of the open-file entry;
  - it restarts at `data[0]`;
  - it allocates `size / SECTOR_SIZE + 1` sectors.
- Dir_Read's copy: the copy (HW4/LibFS.c:1008-1027) is not modelled. It copies `dirSize` bytes per sector and overruns the buffer.
- FileApi.DirSize and FileApi.StartDirRead: when `follow_path` fails, the C reads the uninitialised `inode_index` (HW4/LibFS.c:1000-1007 for Dir_Read). The model treats that case as "not found".
- Directory.ScanDirectory and Directory.ScanFrom: report -2 when the scan reaches `idx == MAX_SECTORS_PER_FILE`, which a directory of more than MAX_SECTORS_PER_FILE * DIRENTS_PER_SECTOR entries makes it do. The C has no such check: it reads `parent->data[idx]` past the array, which is undefined behaviour.
- FileApi.StartRead: requires a non-negative inode number and a position in `0 .. MAX_FILE_SIZE`. The C indexes `data` with whatever the entry holds.
- FileApi.FileSystem.FileReadStart, FileApi.FileSystem.FileWriteStart and FileApi.FileSystem.FileSeek: require `0 <= fd < MAX_OPEN_FILES`. The C does not check `fd` against the table's bounds.
- FileApi.FileSystem.LoadInode: returns the decoded record rather than a pointer into a stack buffer that is dead once the function returns.
- Inodes.Release, Inodes.RemoveInode and the other remove_inode members: require that the child's data slots hold no negative sector number (`DataAddressable`). With a negative one, `bitmap_reset` would index its stack buffer before its start.
- Inodes.AddInode and the other add_inode members: require the parent directory to have room (`Room`): fewer than MAX_SECTORS_PER_FILE * DIRENTS_PER_SECTOR entries. Otherwise the C writes `data[group]` past the array.
- Inodes.AddInodeEffect: states the new entry only when its sector is not the parent's own inode-table sector. In that case the parent's copy written last would overwrite the entry.
- Inodes.UnlinkEffect: likewise states the zeroed entry only when it is not in the parent's sector. There, the parent's stale copy is written last.
- Names.IllegalFilename: works on Dafny characters. The C's `strlen` counts bytes, so a name is taken as a C string of one byte per character (no NUL inside).
- Shell.GetArgs: requires `commands` to have room for one command per `;` plus one (`Fits`). The C writes past the caller's array otherwise; its one caller passes MAX_ARGS entries.
- Shell.GetArgs: `nargs` and `async` of the second and later commands are left as the caller's array held them. The C does not set them when a command starts.
- Shell.GetArgs: a word stored in `argv[MAX_ARGS]` just before the `exit(1)` is not modelled, since the program ends there.
- Shell.Tokens: `strtok` is modelled over the characters of the line. Its writing of NUL bytes into the line and its hidden static state are not modelled. The model treats `'\0'` as an ordinary character, whereas `strtok` stops at the first NUL.
- The rest of the shell: `execute`, `exec_processes` and `main` (fork, execvp, waitpid, the stdin loop) are process plumbing and are not modelled.
- Other directories: the thread-barrier program in HW2 and the memory allocator in HW3 are not modelled.

## Findings

| source | as written | input that shows it | evidently intended | confidence | as-written member | corrected member |
|---|---|---|---|---|---|---|
| HW4/LibFS.c:946 | `if (0 > fd \|\| fd > MAX_OPEN_FILES)` admits `fd == MAX_OPEN_FILES` | `File_Close(256)` reads `open_files[256]`, one past the table | reject `fd >= MAX_OPEN_FILES` | not executed | FileApi.CloseAsWrittenPastTable | FileApi.Close |
| HW4/LibFS.c:126-151 | the buffer is cleared only when a partly filled sector is built, so a sector reached after the bits run out is written with the previous sector's pattern | `bitmap_init(start, 2, 1)`: bit `SECTOR_SIZE * 8`, the first of the second sector, ends up 1 | every bit past the first `nbits` is 0 | not executed | Bitmap.InitAsWrittenSetsExtraBit | Bitmap.InitializedSetsFirstBits |
| HW4/LibFS.c:493 | `bitmap_reset(INODE_TABLE_START_SECTOR, INODE_BITMAP_SECTORS, child_inode)` clears a bit of the inode table | removing any file: its inode's bit in the inode bitmap stays 1, and a bit of an inode-table sector is cleared | reset the bit in the inode bitmap (INODE_BITMAP_START_SECTOR) | not executed | Inodes.ReleaseAsWrittenKeepsInodeInUse | Inodes.ReleaseFreesInode |
| HW4/LibFS.c:872 | `openFileEntry.size + size` is `int` arithmetic, which overflows | an open file of size 1 and `File_Write(fd, buf, INT_MAX)`: the sum wraps negative and the check passes | refuse a write that makes the file larger than MAX_FILE_SIZE | not executed | FileApi.StartWriteOverflow | FileApi.StartWrite |
| HW4/LibFS.c:347 | `bitmap_first_unused(..., INODE_BITMAP_SIZE)` passes the bitmap's size in bytes as its bit count; 396 and 890 pass SECTOR_BITMAP_SIZE the same way | MAX_FILES 1000: once inodes 0 to 124 are in use, `add_inode` fails although 875 inodes are free | inspect MAX_FILES (TOTAL_SECTORS) bits, one per inode (sector) | not executed | Inodes.InodeBitsAsWrittenStopEarly | Inodes.NewChildBitmap |
| HW2/main.c:64-68 | `argv[++i]` is stored before `i >= MAX_ARGS` is checked, and the check runs only for a non-NULL word | a line of exactly 20 plain words: the final NULL goes into `argv[20]`, one past the array, and no exit happens | exit with "Too many arguments!" when no slot is left for the NULL | not executed | Shell.FullCommandAsWritten | Shell.GetArgs |

# FAT16 file reader: a verified model of the read-only data path

This project models the read-only FAT16 data path of the C library
FAT16-file-reader. The model and its proofs are written in Dafny.

- A disk image is a byte sequence whose length is the image size.
- `disk_read` hands out whole 512-byte sectors of it.
- `fat_open` mounts a volume. It validates the boot sector (the BIOS parameter block), loads FAT copy 1, requires copy 2 to match and derives the geometry.
- `get_chain_fat16` follows the 16-bit little-endian links of the in-memory FAT from a file's first cluster.
- `file_open` scans the root directory for an 8.3 name.
- `file_read` maps a byte position to a cluster, a sector and an offset, and copies sector by sector.
- `file_seek` moves the byte position.
- `dir_open` and `dir_read` walk the root directory. They skip deleted, volume-label and long-name entries and decode 8.3 names.
- `find_fat16_partition` (from the demo program) scans the four MBR partition-table entries for the first FAT16 one.

Modules, one per part of the program:

| module | file | models |
|---|---|---|
| `Wrappers` | wrappers.dfy | `Option`, `Result`, and `Error`, which has one constructor per errno value the library sets |
| `Bytes` | bytes.dfy | `uint8_t`/`uint16_t`/`uint32_t` and little-endian decoding |
| `Layout` | layout.dfy | `file_reader.h`: the packed boot sector, the 32-byte directory entry, `dir_entry_t`, the constants, the 8.3 name rule |
| `Disk` | disk.dfy | `disk_read` |
| `Fat` | fat.dfy | `fat_open` and `volume_t` |
| `Chain` | chain.dfy | `get_chain_fat16` |
| `Scans` | scan.dfy | a first-false search over a sequence of flags, which the file-name lookup uses |
| `FileHandle` | file.dfy | `file_open`, `file_t` as class `File`, `file_read`, `file_seek` |
| `Directory` | directory.dfy | `dir_open`, `dir_t` as class `DirCursor`, `dir_read` |
| `AsWritten` | aswritten.dfy | `dir_read` exactly as written, with its stale sector buffer (see Findings) |
| `Partition` | partition.dfy | `find_fat16_partition` |

The specifications:

- The pure parts are Dafny functions: the boot-sector checks, the geometry formulas, the chain walk, the name rule, the lookup, the seek target and the partition scan.
- The loops of the source are methods with loop invariants:
  - the two walks of `get_chain_fat16`, the second filling an array;
  - the entry scan of `file_open` and its name-copy loops;
  - the copy loop of `file_read`, which writes a caller's `array`;
  - the loop of `dir_read`;
  - the partition-table loop.
- Each method is proved equal to its specification function, and the lemmas state what the source promises about that function.
- `file_t` and `dir_t` are classes whose `position` and `currentEntry` fields the methods update.

Where the code does something other than its names and comments suggest (an `fread`/`fseek`-style interface, errno values such as ERANGE for bad seeks), the model follows the code:

- **`file_read`'s return value.** It returns `offset / size`, the number of whole elements copied, not the byte count (`FileHandle.Elements`, `FileHandle.ReadCopies`).
- **Seek errors.** `file_seek` reports a target outside `[0, entry.size]` with ENXIO (`NoSuchDevice`), not with an out-of-range error. An unknown origin is EINVAL (`Invalid`).
- **`dir_open`.** A path other than the root fails with ENOENT (`NotFound`).
- **Mount failures.** Differing FAT copies (`Fat.FatMismatchRejected`) and every rejected boot-sector field (`Fat.FatOpenRejects`) fail with EINVAL (`Invalid`). A first sector of 2^31 or more becomes negative through the `(int32_t)` cast and fails with EFAULT (`InvalidArgument`).
- **Positions past the chain.** A read stops when the cluster index is at least the chain length. Equal counts as past the chain.
- **`file_open` at the end marker.** An entry whose name starts with 0 ends the scan with NULL and errno untouched (`Unset`), before any later entry is looked at.
- **Unresolvable chains.** When the chain cannot be resolved, `file_open` still returns a handle, with no chain. Every read from it returns 0.

## Model

| member | source | states |
|---|---|---|
| Bytes.LE32RoundTrip | src/file_reader.h:30-33 | a 32-bit field stored little-endian decodes back to its value |
| Bytes.Encode16Decodes | src/file_reader.h:21-28 | 16-bit little-endian decoding and encoding are mutually inverse |
| Layout.BootSectorRoundTrip | src/file_reader.h:16-45 | the packed 512-byte boot sector decodes back to every field it holds, at offsets 11, 13, 14, 16, 17, 19, 22 and 32; the signature occupies bytes 510-511 |
| Layout.DecodeBootSector | src/file_reader.h:16-45 | the boot-sector fields read little-endian from their offsets in the 512-byte sector |
| Layout.DecodeFatEntry | src/file_reader.h:47-61 | the directory-entry fields read from the 32-byte entry: name, extension, attribute, first cluster, size |
| Layout.FatEntryRoundTrip | src/file_reader.h:47-61 | the 32-byte entry decodes back to name (bytes 0-7), extension (8-10), attribute (11), first cluster (26-27) and size (28-31) |
| Layout.UntilSpace | src/file_reader.c:212-215 | the copied bytes are a prefix of the field, contain no space, and stop at a space or at the end of the field |
| Layout.DecodeName | src/file_reader.c:207-225 | the name up to its first space, then '.' and the extension up to its first space when the extension does not start with a space |
| Layout.DecodeNameFits | src/file_reader.h:63-64 | a decoded 8.3 name has at most 12 bytes, so it and its NUL fit `name[13]`; more than 8 bytes only when the extension is present |
| Layout.NameRoundTrip | src/file_reader.c:407-420 | blank-padding a space-free base name and extension is undone by the decoding rule, which adds '.' only for a non-empty extension |
| Layout.CString | src/file_reader.c:226 | the C string a buffer denotes is its prefix before the first NUL |
| Layout.ToDirEntry | src/file_reader.c:404-432 | a listed entry's name fits 12 bytes and its size is the entry's size |
| Layout.ToDirEntryFlags | src/file_reader.c:422-432 | archived, read-only, system, hidden and directory are each 1 exactly when bit 0x20, 0x01, 0x04, 0x02 or 0x10 is set |
| Disk.DiskRead | src/file_reader.c:30-47 | succeeds exactly when first_sector >= 0, a buffer is given, sectors_to_read > 0 and (first_sector + sectors_to_read) * 512 fits the image; the first three failures are EFAULT, the last ERANGE; on success sectors_to_read * 512 bytes |
| Disk.DiskReadContents | src/file_reader.c:40-46 | byte i of a successful read is image byte first_sector * 512 + i |
| Disk.DiskReadSplit | src/file_reader.c:30-47 | a run of sectors reads exactly when its two halves do, and reads as their concatenation |
| Disk.ReadAsInt32 | src/file_reader.c:76 | through the `(int32_t)` cast of fat_open and file_open (also lines 124, 135 and 193) a sector number of 2^31 or more fails with EFAULT whatever the image holds; a smaller one reads as itself |
| Disk.AsInt32 | src/file_reader.c:76 | the `(int32_t)` conversion of a `uint32_t` sector number, as at lines 124, 135 and 193 as well: the number itself below 2^31, the number less 2^32 from 2^31 on |
| Fat.SingleBit | src/file_reader.c:81-82 | the test `spc != 0 && spc <= 128 && spc & (spc - 1) == 0` accepts exactly 1, 2, ..., 128 (as 8-bit values) |
| Fat.ClusterSizeIsPowerOfTwo | src/file_reader.c:81-86 | the cluster-size check accepts exactly the powers of two from 1 to 128 |
| Fat.LogicalSectorsCases | src/file_reader.c:97-107 | the two logical-sector checks accept exactly (l16 != 0, l32 == 0) or (l16 == 0, l32 > 65535) |
| Fat.ClusterSizeValid | src/file_reader.c:81-86 | fat_open's first field check: sectors_per_cluster nonzero, at most 128, and `spc & (spc - 1)` zero on the 8-bit value |
| Fat.ReservedAndFatCountValid | src/file_reader.c:87-91 | reserved_sectors nonzero and fat_count 1 or 2 |
| Fat.RootDirAligned | src/file_reader.c:92-96 | root_dir_capacity * 32 is a multiple of 512 |
| Fat.LogicalSectorsValid | src/file_reader.c:97-107 | the two logical-sector checks as written: exactly one of logical_sectors16 and logical_sectors32 nonzero, and logical_sectors32 above 65535 when logical_sectors16 is zero |
| Fat.FatSizeAndMagicValid | src/file_reader.c:108-112 | sectors_per_fat at least 1 and magic 0xAA55 |
| Fat.BootSectorAccepted | src/file_reader.c:81-112 | a boot sector passes all five field checks, each of which otherwise fails the mount with EINVAL |
| Fat.FatOpen | src/file_reader.c:62-159 | the mount succeeds exactly when the first sector is below 2^31 (the `(int32_t)` cast), the boot sector is readable and accepted, FAT copy 1 is readable and, with two copies, copy 2 is readable and byte-identical; the result keeps the image, the first sector and the decoded boot sector |
| Fat.FatOpenRejects | src/file_reader.c:76-112 | a first sector of 2^31 or more fails with EFAULT, an unreadable boot sector with ERANGE, and a readable boot sector that fails any field check with EINVAL |
| Fat.LoadFat | src/file_reader.c:115-157 | after an accepted boot sector, the mount succeeds exactly when FAT copy 1 is readable and, with two copies, copy 2 is readable and byte-identical, through the same casts; the volume is the geometry over copy 1 |
| Fat.Geometry | src/file_reader.c:148-157 | the volume the mount builds: root_dir_sectors, first_data_sector, total_sectors, data_sectors wrapped at 32 bits, total_clusters (GeometryMeaning states the formulas) |
| Fat.FatOpenIsGeometry | src/file_reader.c:115-157 | a successful mount is the geometry of the boot sector over the bytes of FAT copy 1, which lie inside the image |
| Fat.RootDirSectorsExact | src/file_reader.c:92-96 | with a sector-aligned capacity the root directory spans exactly capacity * 32 bytes |
| Fat.FatOpenValid | src/file_reader.c:115-157 | every mounted volume has an accepted boot sector, a FAT of sectors_per_fat * 512 bytes, an exact root-directory size and the data region right after it |
| Fat.GeometryMeaning | src/file_reader.c:148-157 | root_dir_sectors = ceil(capacity * 32 / 512); first_data_sector = first + reserved + fat_count * spf + root_dir_sectors; total_sectors is l16 if nonzero else l32, and is positive; total_clusters is the number of whole clusters in data_sectors |
| Fat.CeilSectors | src/file_reader.c:148 | (x + 511) / 512 sectors hold x bytes and one sector fewer does not |
| Fat.FloorClusters | src/file_reader.c:157 | data_sectors / spc whole clusters fit in data_sectors and one more does not |
| Fat.FatMismatchRejected | src/file_reader.c:128-147 | two FAT copies differing in any byte make the mount fail with EINVAL |
| Fat.FatsAgree | src/file_reader.c:123-147 | the FAT copies of an accepted boot sector: copy 1 below sector 2^31 and readable and, with two copies, copy 2 below 2^31, readable and byte-identical to copy 1 |
| Fat.LoadFatMismatch | src/file_reader.c:128-147 | with an accepted boot sector and two copies, any differing byte makes the FAT load fail with EINVAL |
| Fat.RootDirStartFits | src/file_reader.c:191 | on a mounted volume first_sector + reserved + fat_count * spf fits the `uint32_t` root_start |
| Fat.VolumeValid | src/file_reader.c:115-157 | the mounted-volume invariant fat_open establishes (Fat.FatOpenValid): first sector below 2^31, boot sector accepted, FAT of sectors_per_fat * 512 bytes, root directory of exactly capacity * 32 bytes, data starting right after it |
| Fat.FatOpenClusterSize | src/file_reader.c:81-86 | every mounted volume's cluster size is a power of two from 1 to 128 |
| Chain.WalkSound | src/file_reader.c:460-473 | whatever the walk returns is a chain: starts at the first cluster, every link in the table and not a marker, each link names the next member, the last is >= 0xFFF8 |
| Chain.Walk | src/file_reader.c:460-473 | the links from cluster c, followed until a link >= 0xFFF8, or no chain at a free, reserved or out-of-table link or after `fuel` steps (WalkSound, WalkComplete) |
| Chain.ChainOf | src/file_reader.c:449-473 | the chain of get_chain_fat16: no chain for first < 2 or a table too small or of odd size, otherwise the bounded walk (ChainOfMeaning) |
| Chain.WalkComplete | src/file_reader.c:460-473 | every chain of at most `fuel` members is what the walk returns |
| Chain.ChainDistinct | src/file_reader.c:460-473 | a chain never visits a cluster twice |
| Chain.ChainLength | src/file_reader.c:459 | a chain from a cluster >= 2 has at most 65534 members, so the 16-bit count never wraps on a walk that ends |
| Chain.ChainOfMeaning | src/file_reader.c:449-473 | a chain is returned exactly when first >= 2, the table's size is even and >= 4, first's link is in the table, and the links reach an end mark; it is that chain |
| Chain.ChainMembers | src/file_reader.c:484-491 | a returned chain starts at first_cluster and every member is >= 2 with its link in the table |
| Chain.SelfLinkHasNoChain | src/file_reader.c:460-473 | a cluster linking to itself has no chain (the source loops forever on it) |
| Chain.ExampleChain | src/file_reader.c:449-493 | links 5 -> 6 -> 7 -> 0xFFFF give [5, 6, 7]; a free (0x0000), reserved (0x0001) or bad-cluster (0xFFF7) link after 5 -> 6 -> 7 gives no chain |
| Chain.GetChainFat16 | src/file_reader.c:449-493 | the counting walk followed by the filling walk returns ChainOf(fat, first) |
| Chain.FillChain | src/file_reader.c:478-491 | re-walking `count` links into a fresh array yields exactly the chain |
| Scans.FirstFalseMeaning | src/file_reader.c:199-206 | the search stops at the first false flag from `i`, every flag before it being true |
| FileHandle.FirstStopMeaning | src/file_reader.c:199-247 | the scan of file_open passes over only deleted entries and live entries of another name, and stops at the first entry that is neither, or at the capacity |
| FileHandle.Lookup | src/file_reader.c:199-250 | the decision of file_open's scan over the capacity entries: the first entry neither deleted nor live under another name decides (LookupAt, LookupFound, LookupNotFound) |
| FileHandle.OpenEntry | src/file_reader.c:185-250 | the entry file_open returns, or its error: EFAULT or ERANGE reading the root directory at its `(int32_t)` sector number, then Lookup's decision over the sectors read |
| FileHandle.LookupAt | src/file_reader.c:199-245 | the scan decides at the first entry it does not pass over: NULL with no errno at name[0] == 0, EISDIR for a directory or label, otherwise that entry |
| FileHandle.LookupNotFound | src/file_reader.c:248-250 | ENOENT exactly when every one of the capacity entries is passed over |
| FileHandle.LookupFound | src/file_reader.c:226-245 | a found entry is live, not deleted, carries the requested name (strcmp), is neither directory nor label, and is the first entry not passed over |
| FileHandle.BeforeSpace | src/file_reader.c:212-215 | the copy loop yields the field's bytes before its first space |
| FileHandle.EntryName | src/file_reader.c:207-225 | file_open builds exactly the decoded 8.3 name |
| FileHandle.FindEntry | src/file_reader.c:199-250 | the scan loop returns what Lookup decides |
| FileHandle.OpenUnreadable | src/file_reader.c:191-196 | a root_start of 2^31 or more fails the open with EFAULT through the `(int32_t)` cast; an unreadable root directory fails it with disk_read's reason; a zero-capacity root directory always does (no sectors to read) |
| FileHandle.Open | src/file_reader.c:175-251 | succeeds exactly when the lookup does, with its error otherwise; the handle is fresh, at position 0, holds a copy of the entry and the entry's chain (none when unresolvable) |
| FileHandle.File.constructor | src/file_reader.c:238-242 | a handle starts at position 0 with the entry and its chain |
| FileHandle.File.Read | src/file_reader.c:269-319 | returns ReadSpec's result, copies ReadSpec's bytes to the front of `ptr`, leaves the rest of `ptr` alone, and advances the position by exactly the bytes copied |
| FileHandle.ReadAt | src/file_reader.c:269-319 | copies at most entry.size - position bytes, and the result and the copied bytes are ReadSpec's |
| FileHandle.ReadSpec | src/file_reader.c:269-319 | the result and the bytes of one file_read: 0 with nothing to do, ERANGE at an unreadable first sector, else the bytes copied up to min(size * nmemb, entry.size - position) and their count / size (ReadNothing, ReadFails, ReadCopies) |
| FileHandle.ByteAt | src/file_reader.c:291-314 | the byte a file position holds: none past the chain or in an unreadable sector, otherwise byte p mod 512 of sector SectorOfByte (ByteAtHolds) |
| FileHandle.ReadLoop | src/file_reader.c:289-317 | fails only when there is work and the first position's sector is unreadable; otherwise each copied byte is the byte at its file position, and a short copy ends at a position that holds no byte |
| FileHandle.ReadChunk | src/file_reader.c:291-316 | one pass copies 1 .. want bytes, each the byte at its file position, or stops at a position past the chain or in an unreadable sector, copying nothing |
| FileHandle.Locate | src/file_reader.c:291-299 | the cluster index is past the chain exactly when p / (spc * 512) >= chain size; otherwise the sector is SectorOfByte; the sector offset is (p mod cluster size) mod 512 |
| FileHandle.CopyBytes | src/file_reader.c:314 | memcpy of n bytes to dst[at..], nothing else changes |
| FileHandle.Elements | src/file_reader.c:318 | offset / size: the number of whole elements in the copied bytes |
| FileHandle.ClusterSplitIs | src/file_reader.c:291-293 | the cluster index and offset are p / cb and p mod cb |
| FileHandle.SectorOfByteIs | src/file_reader.c:291-299 | cluster size is spc * 512; the sector is first_data_sector + (chain[p / cb] - 2) * spc + (p mod cb) / 512, and the offset in it is p mod 512 |
| FileHandle.OffsetInSector | src/file_reader.c:299 | the offset in the sector equals p mod 512 |
| FileHandle.SameSector | src/file_reader.c:309-314 | the bytes from p to the end of its sector share p's cluster and sector |
| FileHandle.PastChainExactly | src/file_reader.c:291-292 | a position holds no byte because it is past the chain exactly when p >= chain size * cluster size |
| FileHandle.ByteInSector | src/file_reader.c:302-314 | within one sector, position p + d holds byte (p mod 512) + d of p's sector |
| FileHandle.ByteAtHolds | src/file_reader.c:291-314 | a byte at file position q lies in the chain, in a readable sector s, and is image byte s * 512 + q mod 512 |
| FileHandle.CopiedExactly | src/file_reader.c:289-317 | bytes that match the file positions one by one, ending at the requested count or at a position holding no byte, are exactly what a read copies |
| FileHandle.CopiedStops | src/file_reader.c:292 | a read from a position that holds no byte copies nothing |
| FileHandle.CopiedLength | src/file_reader.c:289-317 | a read copies at most n bytes, fewer only where the next position holds no byte, and all n when every position holds one |
| FileHandle.CopiedSplit | src/file_reader.c:289-317 | two consecutive reads copy what one read of the combined length copies |
| FileHandle.Copied | src/file_reader.c:289-317 | the bytes a read of up to n bytes from position p copies, stopping at the first position that holds no byte (CopiedExactly, CopiedLength, CopiedSplit) |
| FileHandle.ReadNothing | src/file_reader.c:274-285 | with no elements requested, no chain, an empty chain or the position at the end, the read returns 0 and copies nothing |
| FileHandle.ReadFails | src/file_reader.c:302-306 | the read fails exactly when it has work and the sector of the starting position is unreadable, and then copies nothing and reports ERANGE |
| FileHandle.ReadCopies | src/file_reader.c:286-318 | a successful read copies at most min(size * nmemb, entry.size - position) bytes, returns their count / size, copies the file's bytes from the position on, and stops short only at a position holding no byte |
| FileHandle.ReadWholeFile | src/file_reader.c:269-319 | with a chain covering the file and every sector readable, one read of entry.size bytes from 0 returns entry.size |
| FileHandle.File.Seek | src/file_reader.c:321-347 | returns the SeekSpec target, sets the position to it on success and leaves it unchanged on failure |
| FileHandle.SeekSpec | src/file_reader.c:326-346 | the target of file_seek: offset from 0, position or entry.size by origin; accepted in [0, entry.size], ENXIO outside, EINVAL for another origin (SeekOrigins, SeekRange, SeekBadOrigin) |
| FileHandle.SeekOrigins | src/file_reader.c:327-336 | SEEK_END and SEEK_CUR are SEEK_SET to entry.size + offset and position + offset |
| FileHandle.SeekRange | src/file_reader.c:341-346 | a target is accepted exactly when 0 <= target <= entry.size, and is returned; otherwise ENXIO |
| FileHandle.SeekBadOrigin | src/file_reader.c:337-340 | any other origin is EINVAL |
| FileHandle.SeekExamples | src/file_reader.c:326-346 | seek(0, END) gives entry.size; seek(0, CUR) the position; seek(size + 1, SET) fails; a repeated seek to the same target is idempotent |
| Directory.SectorAt | src/file_reader.c:390 | a directory sector read is 512 bytes |
| Directory.SectorSlot | src/file_reader.c:381-382 | entry i lies in sector i / 16 of the region at slot i mod 16 |
| Directory.NextSlot | src/file_reader.c:381-384 | the next entry is the next slot of the same sector, or slot 0 of the next sector |
| Directory.LongNameIsLabel | src/file_reader.c:401 | attribute 0x0F already has the volume-label bit, so the long-name test never decides alone |
| Directory.EntryBytes | src/file_reader.c:396-401 | the decoded entry's first name byte and attribute are image bytes of its sector at slot * 32 and slot * 32 + 11 |
| Directory.NextResumable | src/file_reader.c:381-397 | moving on from a readable entry keeps the cursor able to resume within the same sector |
| Directory.NextStopStep | src/file_reader.c:397-403 | a skipped entry below the capacity is passed over; the scan stops at any other entry |
| Directory.NextStopMeaning | src/file_reader.c:380-403 | one dir_read passes over only skipped entries, never past the capacity, and stops at an entry from which the cursor can resume and that is not skipped |
| Directory.NextStop | src/file_reader.c:380-403 | the entry at which a dir_read from i stops: the first at or after i that is at the capacity, past the region, in an unreadable sector or not skipped (NextStopMeaning) |
| Directory.StopAtEntry | src/file_reader.c:396-433 | at a readable entry the call reports the end (index + 1) at name[0] == 0 and the decoded entry (index + 1) otherwise |
| Directory.StopAtFailure | src/file_reader.c:384-393 | at a sector past the region the call fails with ENXIO, at an unreadable one with EIO; the index stays |
| Directory.ScanDirAt | src/file_reader.c:380-435 | a call is decided at the entry where its scan stops |
| Directory.ScanDir | src/file_reader.c:380-435 | one dir_read from entry i: StopResult at NextStop (ScanDirFound, ScanDirEnd, ScanDirFailed, ScanDirIndex) |
| Directory.StopResult | src/file_reader.c:384-433 | what dir_read reports where its scan stops: the end at the capacity, ENXIO past the region, EIO at an unreadable sector, the end at name[0] == 0, otherwise the decoded entry; the index moves past a read entry |
| Directory.ScanDirCases | src/file_reader.c:380-435 | the result of one call at each kind of stop: capacity, readable entry, failed sector |
| Directory.ScanDirFound | src/file_reader.c:380-433 | an entry is reported only when it is the first live entry from the cursor, and the index moves just past it |
| Directory.ScanDirEnd | src/file_reader.c:397-400 | the end is reported at the capacity or at the first entry starting with 0 (which is consumed), after skipped entries only |
| Directory.ScanDirFailed | src/file_reader.c:384-393 | a failure happens only at the first entry of a sector: ENXIO exactly when the sector is past the region, EIO exactly when it is in the region and unreadable |
| Directory.ScanDirIndex | src/file_reader.c:380-397 | the index never moves back, stays within the capacity, leaves a resumable cursor, and moves whenever an entry is reported |
| Directory.EntryInRegion | src/file_reader.c:385 | on a mounted volume every entry below the capacity lies in the root-directory region |
| Directory.ScanDirNoDeviceError | src/file_reader.c:385-388 | on a mounted volume dir_read never reports ENXIO |
| Directory.LoadEntry | src/file_reader.c:381-396 | at slot 0 the sector is read (ENXIO past the region, EIO when unreadable); elsewhere the buffered sector is used; the entry is entry i of the region |
| Directory.DirCursor.constructor | src/file_reader.c:364-367 | a cursor starts at entry 0 of the root directory of a mounted volume |
| Directory.DirCursor.Read | src/file_reader.c:371-436 | the result and the new current_entry are ScanDir's, and the cursor stays valid |
| Directory.Scan | src/file_reader.c:380-435 | the loop of dir_read returns ScanDir's result and index |
| Directory.SkipAdvances | src/file_reader.c:401-403 | passing a skipped entry keeps the loop invariant at the next index |
| Directory.StopsAtEntry | src/file_reader.c:396-433 | a pass ending at a readable entry that is not skipped returns StopResult there |
| Directory.StopsAtFailure | src/file_reader.c:384-393 | a pass ending at a failed sector returns StopResult there |
| Directory.ScanStep | src/file_reader.c:381-433 | one pass either stops with StopResult at the scan's stop or moves past a skipped entry, keeping the invariant |
| Directory.DirOpen | src/file_reader.c:349-369 | succeeds exactly for a path starting with a backslash, else ENOENT; the cursor is fresh, valid and at entry 0 |
| AsWritten.AsWrittenStop | src/file_reader.c:380-403 | the loop of dir_read as written, with the buffer refilled only at slot 0 of a sector: it stops at or after i and, from i <= capacity, not past the capacity; where it stops at an entry it tested (not at a failed slot-0 read), that entry as buffered is not a skipped one |
| AsWritten.ReportAt | src/file_reader.c:384-433 | what dir_read as written reports where its loop stops, decoding the entry from its buffer |
| AsWritten.ScanAsWritten | src/file_reader.c:377-435 | one dir_read as written, from entry i with a given buffer: ReportAt at the entry where AsWrittenStop stops |
| AsWritten.SectorStartIgnoresBuffer | src/file_reader.c:381-390 | a call starting at slot 0 of a sector does not depend on what its buffer held |
| AsWritten.StaleBootMounts | src/file_reader.c:62-159 | fat_open accepts the example boot sector (512-byte sectors, 1 sector per cluster, 1 reserved sector, 1 FAT of 1 sector, 16 root entries, 100 logical sectors) on any image of at least three sectors that starts with it, mounting the root directory at sector 2 and the data at sector 3 |
| AsWritten.StaleImageSectors | src/file_reader.h:16-45 | the example image is three sectors: the encoded boot sector, a zeroed FAT sector and a root-directory sector of 0x41 bytes |
| AsWritten.StaleExampleMounts | src/file_reader.c:62-159 | fat_open on the example image returns the example volume, whose root directory is sector 2 |
| AsWritten.StaleExampleValid | src/file_reader.c:62-159 | the volume fat_open mounts from the example image satisfies VolumeValid, with its root directory at sector 2 |
| AsWritten.StaleExampleLive | src/file_reader.c:380-433 | in the example, the intended read from entry 0 or 1 returns that entry and moves one past it |
| AsWritten.StaleExampleFirstRead | src/file_reader.c:377-435 | in the example, the first call as written returns what the intended read returns, whatever its buffer held |
| AsWritten.ResumedReadSeesStaleBuffer | src/file_reader.c:377-396 | in the example, the second call as written, with a zeroed buffer, reports the end and moves to entry 2, where the intended read returns entry 1 |
| Partition.FirstFat16Meaning | src/main.c:23-28 | the scan stops at the first entry of type 0x04 or 0x06, every entry before it being of another type |
| Partition.FirstFat16 | src/main.c:23-28 | the index of the first of the four entries from i on whose type is 0x04 or 0x06, or 4 when none is (FirstFat16Meaning) |
| Partition.TableStartAt | src/main.c:23-27 | the lowest-index FAT16 entry's lba_first wins, whatever later entries hold |
| Partition.TableStart | src/main.c:23-29 | the lba_first of the first of the four entries with type 0x04 or 0x06, or 0 when none has (TableStartAt, TableStartNone) |
| Partition.TableStartNone | src/main.c:23-29 | no FAT16 entry gives 0; a nonzero result is the lba_first of some FAT16 entry |
| Partition.UnreadableSectorZero | src/main.c:19 | an image shorter than one sector gives 0 |
| Partition.ScanTable | src/main.c:22-29 | the loop over four 16-byte entries from byte 446, with type at byte 4 and lba_first at bytes 8-11, returns TableStart |
| Partition.FindFat16Partition | src/main.c:17-30 | 0 when sector 0 cannot be read, otherwise the scan of its table |
| Partition.Fat16PartitionStart | src/main.c:17-30 | what find_fat16_partition returns: 0 when sector 0 cannot be read, otherwise TableStart of its partition table (FindFat16Partition) |
| Partition.ExampleTable | src/main.c:6-27 | a table with types 0x83, 0x06, 0x04 reports the second entry's start (2048) |

## Left out

- `disk_open_from_file` and `disk_close`: the file is an abstract byte sequence. A short `fread` is not a separate case: the image is the file.
- `fat_close`, `file_close`, `dir_close`, every `malloc`/`free` and every ENOMEM path: these concern memory ownership only.
- NULL checks on `pdisk`, `pvolume`, `stream`, `pdir`, `pentry`, `ptr` and `dir_path` (EFAULT): the model passes values. A NULL `file_name` (EISDIR in the source) cannot be expressed either.
- `disk_read`'s buffer argument is kept as a flag, since it is the one NULL check the image read itself depends on.
- `main()` in src/main.c and its output: demo glue.
- Host endianness and packed-struct casts: every field is decoded explicitly, little-endian, from bytes.
- Exact errno numbers: `Error` has one constructor per errno value.
- Disk.DiskRead: the 32-bit signed overflow of `(first_sector + sectors_to_read) * 512` and the `(int32_t)` cast of the image size are not modelled; integers are unbounded. The `(int32_t)` cast of the sector number is modelled where fat_open and file_open make it (Disk.AsInt32).
- Fat.FatOpen: `first_data_sector` is not wrapped at 32 bits. `data_sectors` is wrapped: a volume claiming fewer sectors than its metadata wraps there as in the source.
- Chain.GetChainFat16: the source reads `FAT[current]` before checking that the entry lies in the table. The model checks first, so an out-of-bounds read is simply "no chain".
- Chain.GetChainFat16: the source has no cycle guard. The model bounds the walk by MaxSteps (65534). Chain.ChainLength shows that no chain that ends needs more steps. A walk that loops forever in the source yields no chain here.
- FileHandle.File.Read: the `size * nmemb` product is not wrapped at the width of `size_t`.
- FileHandle.File.Read: the caller's buffer must have room for the bytes the call copies, the smaller of `size * nmemb` and what is left of the file. The source assumes this without checking.
- FileHandle.File.Read: the error return `-1` converted to `size_t` is `Err(OutOfRange)`.
- FileHandle.File.Read: the copy writes each sector's bytes with one parallel assignment.
- FileHandle.File.Read: the position is advanced once after the loop rather than once per pass. Nothing else observes the handle during a call, so the final state is the same.
- FileHandle.Locate: the sector number `first_data_sector + (cluster - 2) * spc + sector_in_cluster` is not wrapped at 32 bits, nor cast to `int32_t`. From 2^31 on the source sees the read fail and reports it as for an unreadable sector (ERANGE, or a short read); the model differs only on an image of over 1 TiB, where it reads the sector. Chain members are at least 2 (Chain.ChainMembers), so `cluster - 2` never underflows.
- FileHandle.File.Seek: the `int32_t` additions `entry.size + offset` and `position + offset` are not wrapped, and `(int32_t)entry.size` is taken as the size. A file of 2^31 bytes or more is treated differently in the source.
- Directory.DirCursor.Read: the conversion of the directory sector number to `int32_t` is not modelled. From 2^31 on the source's read fails and errno is set to EIO, as for an unreadable sector; the model differs only on an image of over 1 TiB.
- Fat.FatMismatchRejected: stated for images of at most 2^31 sectors, since a FAT copy at sector 2^31 or beyond fails the mount with EFAULT instead (Fat.FatOpenRejects covers the cast).
- Directory.DirCursor.Read: the source writes the decoded entry through `pentry`. The model returns it inside `Found`.
- Directory.DirCursor.Read: where the call resumes mid-sector the model refetches that sector instead of reading the source's uninitialised buffer (see Findings). The refetched sector is the one read by the previous call, which `DirCursor.Valid` records as readable.

## Findings

| source | as written | input that shows it | evidently intended | confidence | as-written member | corrected member |
|---|---|---|---|---|---|---|
| src/file_reader.c:377-396 | `sector_buffer` is a local filled only when the call starts at slot 0 of a sector; a call resuming at any other slot decodes uninitialised stack bytes | an image of an encoded boot sector, a zeroed FAT sector and a root-directory sector of 0x41 bytes, which fat_open mounts with the root directory in sector 2 (AsWritten.StaleExampleMounts); the first call returns entry 0; a second call from entry 1 whose buffer happens to hold zeros reports the end, with index 2 | fetch entry `current_entry` from sector `current_sector + current_entry / 16` on every call | not executed | AsWritten.ResumedReadSeesStaleBuffer | Directory.DirCursor.Read |

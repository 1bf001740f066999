/**
 * File handles (file_open, file_read, file_seek): a root-directory entry, a
 * byte position bounded by the entry's size, and the entry's cluster chain.
 */
module FileHandle {
  import opened Bytes
  import opened Wrappers
  import opened Layout
  import opened Disk
  import opened Fat
  import opened Chain
  import opened Scans

  // ---------------------------------------------------------------- opening

  /** Entry `i` of a root-directory buffer: bytes 32i .. 32i+31. */
  function RootEntry(root: seq<byte>, i: nat): FatEntry
    requires EntrySize * i + EntrySize <= |root|
  {
    DecodeFatEntry(root[EntrySize * i..EntrySize * i + EntrySize])
  }

  /** strcmp of the decoded 8.3 name with the requested name: both are read up to their first NUL. */
  predicate NameMatches(e: FatEntry, fileName: seq<byte>)
  {
    CString(DecodeName(e.name, e.extension)) == CString(fileName)
  }

  /** The scan of file_open moves past a deleted entry and past a live entry of another name. */
  predicate PassedOver(e: FatEntry, fileName: seq<byte>)
  {
    e.name[0] != EndMarker && (e.name[0] == DeletedMarker || !NameMatches(e, fileName))
  }

  predicate IsDirOrLabel(e: FatEntry)
  {
    HasAttr(e.attr, AttrDirectory) || HasAttr(e.attr, AttrVolumeLabel)
  }

  predicate AllPassedOver(root: seq<byte>, cap: nat, fileName: seq<byte>, lo: nat, hi: nat)
    requires EntrySize * cap <= |root| && hi <= cap
  {
    forall j :: lo <= j < hi ==> PassedOver(RootEntry(root, j), fileName)
  }

  /** Which of the first `cap` entries the scan of file_open moves past. */
  function PassedFlags(root: seq<byte>, cap: nat, fileName: seq<byte>): (f: seq<bool>)
    requires EntrySize * cap <= |root|
    ensures |f| == cap && forall j :: 0 <= j < cap ==> f[j] == PassedOver(RootEntry(root, j), fileName)
  {
    seq(cap, (j: int) requires 0 <= j < cap => PassedOver(RootEntry(root, j), fileName))
  }

  /** The index at which the scan from entry `i` stops: the first entry not passed over, or `cap`. */
  function FirstStop(root: seq<byte>, cap: nat, fileName: seq<byte>, i: nat): nat
    requires EntrySize * cap <= |root| && i <= cap
  {
    FirstFalse(PassedFlags(root, cap, fileName), i)
  }

  lemma FirstStopMeaning(root: seq<byte>, cap: nat, fileName: seq<byte>, i: nat)
    requires EntrySize * cap <= |root| && i <= cap
    ensures var k := FirstStop(root, cap, fileName, i);
            i <= k <= cap && AllPassedOver(root, cap, fileName, i, k) &&
            (k < cap ==> !PassedOver(RootEntry(root, k), fileName))
  {
    var flags := PassedFlags(root, cap, fileName);
    FirstFalseMeaning(flags, i);
    var k := FirstFalse(flags, i);
    forall j | i <= j < k ensures PassedOver(RootEntry(root, j), fileName) {
      assert flags[j];
    }
    if k < cap {
      assert !flags[k];
    }
  }

  /** What the scan of file_open decides for the first `cap` entries of `root`. */
  function Lookup(root: seq<byte>, cap: nat, fileName: seq<byte>): Result<FatEntry>
    requires EntrySize * cap <= |root|
  {
    var k := FirstStop(root, cap, fileName, 0);
    if k >= cap then Err(NotFound)
    else
      var e := RootEntry(root, k);
      if e.name[0] == EndMarker then Err(Unset)
      else if IsDirOrLabel(e) then Err(IsDirectory)
      else Ok(e)
  }

  /**
   * The scan decides at the first entry it does not pass over: the end marker
   * ends it with no errno, a matching directory or label is EISDIR, and a
   * matching file is the result.
   */
  lemma LookupAt(root: seq<byte>, cap: nat, fileName: seq<byte>, k: nat)
    requires EntrySize * cap <= |root| && k < cap
    requires AllPassedOver(root, cap, fileName, 0, k) && !PassedOver(RootEntry(root, k), fileName)
    ensures var e := RootEntry(root, k);
            Lookup(root, cap, fileName) ==
              if e.name[0] == EndMarker then Err(Unset)
              else if IsDirOrLabel(e) then Err(IsDirectory)
              else Ok(e)
  {
    FirstStopMeaning(root, cap, fileName, 0);
  }

  /** ENOENT exactly when every one of the `cap` entries is passed over. */
  lemma LookupNotFound(root: seq<byte>, cap: nat, fileName: seq<byte>)
    requires EntrySize * cap <= |root|
    ensures Lookup(root, cap, fileName) == Err(NotFound) <==> AllPassedOver(root, cap, fileName, 0, cap)
  {
    FirstStopMeaning(root, cap, fileName, 0);
    var k := FirstStop(root, cap, fileName, 0);
    if k < cap {
      assert !PassedOver(RootEntry(root, k), fileName);
    }
  }

  /** A found entry is live, carries the requested name, is neither a directory nor a label, and no earlier live entry does. */
  lemma LookupFound(root: seq<byte>, cap: nat, fileName: seq<byte>)
    requires EntrySize * cap <= |root|
    ensures Lookup(root, cap, fileName).Ok? ==>
              var e := Lookup(root, cap, fileName).value;
              e.name[0] != EndMarker && e.name[0] != DeletedMarker &&
              NameMatches(e, fileName) && !IsDirOrLabel(e) &&
              exists k :: 0 <= k < cap && AllPassedOver(root, cap, fileName, 0, k) && e == RootEntry(root, k)
  {
    FirstStopMeaning(root, cap, fileName, 0);
  }

  /** One of file_open's copy loops: the bytes of a blank-padded field before its first space. */
  method BeforeSpace(field: seq<byte>) returns (s: seq<byte>)
    ensures s == UntilSpace(field)
  {
    var j := 0;
    while j < |field| && field[j] != Space
      invariant j <= |field| && NoSpace(field[..j])
    {
      assert field[..j + 1] == field[..j] + [field[j]];
      j := j + 1;
    }
    s := field[..j];
  }

  /**
   * The name file_open builds in entry_name: the bytes of the name before its
   * first space, then, unless the extension starts with a space, '.' and the
   * bytes of the extension before its first space.
   */
  method EntryName(e: FatEntry) returns (s: seq<byte>)
    ensures s == DecodeName(e.name, e.extension)
  {
    s := BeforeSpace(e.name);
    if e.extension[0] != Space {
      var ext := BeforeSpace(e.extension);
      s := s + [Dot] + ext;
    }
  }

  /** The scan loop of file_open over the root-directory buffer. */
  method FindEntry(root: seq<byte>, cap: nat, fileName: seq<byte>) returns (r: Result<FatEntry>)
    requires EntrySize * cap <= |root|
    ensures r == Lookup(root, cap, fileName)
  {
    var i := 0;
    while i < cap
      invariant i <= cap
      invariant FirstStop(root, cap, fileName, 0) == FirstStop(root, cap, fileName, i)
      decreases cap - i
    {
      var e := RootEntry(root, i);
      ghost var flags := PassedFlags(root, cap, fileName);
      assert flags[i] == PassedOver(e, fileName);
      if e.name[0] == EndMarker {
        return Err(Unset);
      }
      if e.name[0] != DeletedMarker {
        var entryName := EntryName(e);
        if CString(entryName) == CString(fileName) {
          if HasAttr(e.attr, AttrDirectory) || HasAttr(e.attr, AttrVolumeLabel) {
            return Err(IsDirectory);
          }
          return Ok(e);
        }
      }
      i := i + 1;
    }
    return Err(NotFound);
  }

  /**
   * The entry file_open settles on: the root directory is read in one go, then
   * scanned. Its sector number goes to disk_read through `(int32_t)`; on a
   * mounted volume the `uint32_t` sum that gives it stays below 2^32.
   */
  function OpenEntry(vol: Volume, fileName: seq<byte>): Result<FatEntry>
    requires VolumeValid(vol)
  {
    RootDirStartFits(vol);
    match DiskRead(vol.disk, AsInt32(RootDirStart(vol.firstSector, vol.boot)), true, vol.rootDirSectors)
    case Err(e) => Err(e)
    case Ok(root) => Lookup(root, vol.boot.rootDirCapacity, fileName)
  }

  /**
   * An unreadable root directory fails the open with disk_read's reason: EFAULT
   * for a sector number from 2^31 on, or for an empty directory, which has no
   * sectors to read; ERANGE or EFAULT otherwise.
   */
  lemma OpenUnreadable(vol: Volume, fileName: seq<byte>)
    requires VolumeValid(vol)
    ensures RootDirStart(vol.firstSector, vol.boot) >= Int32Limit ==> OpenEntry(vol, fileName) == Err(InvalidArgument)
    ensures RootDirStart(vol.firstSector, vol.boot) < Int32Limit &&
            !DiskRead(vol.disk, RootDirStart(vol.firstSector, vol.boot), true, vol.rootDirSectors).Ok? ==>
              OpenEntry(vol, fileName).Err? && OpenEntry(vol, fileName).error in {InvalidArgument, OutOfRange}
    ensures vol.boot.rootDirCapacity == 0 ==> OpenEntry(vol, fileName) == Err(InvalidArgument)
  {
    RootDirStartFits(vol);
    ReadAsInt32(vol.disk, RootDirStart(vol.firstSector, vol.boot), vol.rootDirSectors);
  }

  // ---------------------------------------------------------------- the handle

  /** file_t: the volume it reads from, a copy of its directory entry, its position and its chain. */
  class File {
    const volume: Volume
    const entry: FatEntry
    var position: uint32
    const chain: Option<seq<uint16>>

    ghost predicate Valid()
      reads this
    {
      VolumeValid(volume) && position <= entry.size &&
      chain == ChainOf(volume.fat, entry.firstCluster)
    }

    constructor (vol: Volume, e: FatEntry, ch: Option<seq<uint16>>)
      requires VolumeValid(vol) && ch == ChainOf(vol.fat, e.firstCluster)
      ensures Valid() && volume == vol && entry == e && chain == ch && position == 0
    {
      volume := vol;
      entry := e;
      chain := ch;
      position := 0;
    }

    /**
     * file_read into `ptr`, which has room for the bytes the call copies: the
     * smaller of `size * nmemb` and what is left of the file. The
     * result is the number of whole elements copied, or ERANGE when the first
     * sector of the call cannot be read.
     */
    method Read(ptr: array<byte>, size: nat, nmemb: nat) returns (r: Result<nat>)
      requires Valid() && Min(size * nmemb, entry.size - position) <= ptr.Length
      modifies this, ptr
      ensures Valid()
      ensures var (res, data) := ReadSpec(volume, entry, chain, old(position), size, nmemb);
              r == res && position == old(position) + |data| &&
              |data| <= ptr.Length && ptr[..|data|] == data &&
              forall k :: |data| <= k < ptr.Length ==> ptr[k] == old(ptr[k])
    {
      var r0, copied := ReadAt(volume, entry, chain, position, ptr, size, nmemb);
      position := position + copied;
      return r0;
    }

    /** file_seek: a new position measured from the start, the current position or the end. */
    method Seek(offset: int, whence: int) returns (r: Result<nat>)
      requires Valid()
      modifies this
      ensures Valid()
      ensures r == SeekSpec(old(position), entry.size, offset, whence)
      ensures position == if r.Ok? then r.value else old(position)
    {
      var pos;
      if whence == SeekSet {
        pos := offset;
      } else if whence == SeekEnd {
        pos := entry.size + offset;
      } else if whence == SeekCur {
        pos := position + offset;
      } else {
        return Err(Invalid);
      }
      if pos < 0 || pos > entry.size {
        return Err(NoSuchDevice);
      }
      position := pos;
      return Ok(pos);
    }
  }

  /**
   * file_open: on success a fresh handle at position 0 holding a copy of the
   * entry. When the entry's chain cannot be resolved the handle is still
   * returned, with no chain, so every read from it yields 0.
   */
  method Open(vol: Volume, fileName: seq<byte>) returns (r: Result<File>)
    requires VolumeValid(vol)
    ensures r.Ok? <==> OpenEntry(vol, fileName).Ok?
    ensures r.Err? ==> r.error == OpenEntry(vol, fileName).error
    ensures r.Ok? ==> fresh(r.value) && r.value.Valid() && r.value.volume == vol &&
                      r.value.entry == OpenEntry(vol, fileName).value && r.value.position == 0
  {
    var rootStart := vol.firstSector + vol.boot.reservedSectors + vol.boot.fatCount * vol.boot.sectorsPerFat;
    RootDirStartFits(vol);
    assert rootStart == RootDirStart(vol.firstSector, vol.boot);
    var rd := DiskRead(vol.disk, AsInt32(rootStart), true, vol.rootDirSectors);
    if rd.Err? {
      return Err(rd.error);
    }
    var found := FindEntry(rd.value, vol.boot.rootDirCapacity, fileName);
    if found.Err? {
      return Err(found.error);
    }
    var e := found.value;
    var ch := GetChainFat16(vol.fat, e.firstCluster);
    var f := new File(vol, e, ch);
    return Ok(f);
  }

  /**
   * The body of file_read for a handle at position `p0`: the result, and how
   * many bytes it copied to `ptr` (the amount the position advances by).
   */
  method ReadAt(v: Volume, entry: FatEntry, chain: Option<seq<uint16>>, p0: nat, ptr: array<byte>, size: nat, nmemb: nat)
    returns (r: Result<nat>, copied: nat)
    requires v.boot.sectorsPerCluster > 0 && p0 <= entry.size && Min(size * nmemb, entry.size - p0) <= ptr.Length
    modifies ptr
    ensures copied <= entry.size - p0 && copied <= ptr.Length
    ensures (r, ptr[..copied]) == ReadSpec(v, entry, chain, p0, size, nmemb)
    ensures forall k :: copied <= k < ptr.Length ==> ptr[k] == old(ptr[k])
  {
    ReadNothing(v, entry, chain, p0, size, nmemb);
    if size == 0 || nmemb == 0 {
      return Ok(0), 0;
    }
    if chain.None? || |chain.value| == 0 {
      return Ok(0), 0;
    }
    var total := size * nmemb;
    var avail := entry.size - p0;
    if avail == 0 {
      return Ok(0), 0;
    }
    if total > avail {
      total := avail;
    }
    assert total == Min(size * nmemb, entry.size - p0);
    var failed, offset := ReadLoop(v, chain.value, p0, total, ptr);
    if failed {
      ReadFails(v, entry, chain, p0, size, nmemb);
      return Err(OutOfRange), 0;
    }
    CopiedExactly(v, chain.value, p0, total, ptr[..offset]);
    return Ok(Elements(offset, size)), offset;
  }

  /**
   * The loop of file_read: copy up to `total` bytes from position `p0` into
   * `ptr`, one sector's worth at a time. It fails only when the very first
   * sector cannot be read; a later failure, or the end of the chain, ends it
   * early with what it has copied.
   */
  method ReadLoop(v: Volume, ch: seq<uint16>, p0: nat, total: nat, ptr: array<byte>) returns (failed: bool, offset: nat)
    requires v.boot.sectorsPerCluster > 0 && total <= ptr.Length
    modifies ptr
    ensures failed ==> 0 < total && offset == 0 && ByteAt(v, ch, p0).Unreadable?
    ensures !failed ==> offset <= total && (0 < total ==> !ByteAt(v, ch, p0).Unreadable?)
    ensures !failed ==> forall k :: 0 <= k < offset ==> ByteAt(v, ch, p0 + k) == Byte(ptr[k])
    ensures !failed && offset < total ==> !ByteAt(v, ch, p0 + offset).Byte?
    ensures forall k :: offset <= k < ptr.Length ==> ptr[k] == old(ptr[k])
  {
    var pos := p0;
    offset := 0;
    failed := false;
    while offset < total
      invariant offset <= total && pos == p0 + offset
      invariant forall k :: 0 <= k < offset ==> ByteAt(v, ch, p0 + k) == Byte(ptr[k])
      invariant forall k :: offset <= k < ptr.Length ==> ptr[k] == old(ptr[k])
      invariant offset > 0 ==> !ByteAt(v, ch, p0).Unreadable?
      decreases total - offset
    {
      var stop, unreadable, num := ReadChunk(v, ch, pos, total - offset, ptr, offset);
      if stop {
        if unreadable && offset == 0 {
          return true, 0;
        }
        break;
      }
      forall k | offset <= k < offset + num ensures ByteAt(v, ch, p0 + k) == Byte(ptr[k]) {
        assert p0 + k == pos + (k - offset);
      }
      assert ByteAt(v, ch, p0 + offset) == Byte(ptr[offset]);
      offset := offset + num;
      pos := pos + num;
    }
  }

  /**
   * One pass of file_read's loop at position `pos`, with `want` bytes still to
   * copy to `ptr[offset..]`: locate the cluster and sector, read the sector,
   * and copy up to the end of the sector. `stop` reports a position past the
   * chain or an unreadable sector (`failed`).
   */
  method ReadChunk(v: Volume, ch: seq<uint16>, pos: nat, want: nat, ptr: array<byte>, offset: nat)
    returns (stop: bool, failed: bool, num: nat)
    requires v.boot.sectorsPerCluster > 0 && 0 < want && offset + want <= ptr.Length
    modifies ptr
    ensures stop ==> num == 0 && !ByteAt(v, ch, pos).Byte? && (failed <==> ByteAt(v, ch, pos).Unreadable?) &&
                     unchanged(ptr)
    ensures !stop ==> 0 < num <= want &&
                      (forall k :: 0 <= k < offset ==> ptr[k] == old(ptr[k])) &&
                      (forall k :: offset + num <= k < ptr.Length ==> ptr[k] == old(ptr[k])) &&
                      (forall k :: offset <= k < offset + num ==> ByteAt(v, ch, pos + (k - offset)) == Byte(ptr[k]))
  {
    var inChain, sector, sectorOffset := Locate(v, ch, pos);
    if !inChain {
      return true, false, 0;
    }
    var rd := DiskRead(v.disk, sector, true, 1);
    if rd.Err? {
      return true, true, 0;
    }
    num := want;
    if num > SectorSize - sectorOffset {
      num := SectorSize - sectorOffset;
    }
    CopyBytes(ptr, offset, rd.value, sectorOffset, num);
    forall k | offset <= k < offset + num ensures ByteAt(v, ch, pos + (k - offset)) == Byte(ptr[k]) {
      ByteInSector(v, ch, pos, k - offset);
    }
    return false, false, num;
  }

  /**
   * file_read's arithmetic for position `pos`: the cluster index and offset,
   * then the sector and the offset in it; `inChain` is false past the chain.
   */
  method Locate(v: Volume, ch: seq<uint16>, pos: nat) returns (inChain: bool, sector: int, sectorOffset: nat)
    requires v.boot.sectorsPerCluster > 0
    ensures inChain <==> ClusterIndex(pos, ClusterBytes(v)) < |ch|
    ensures inChain ==> sector == SectorOfByte(v, ch, pos)
    ensures sectorOffset == ClusterOffset(pos, ClusterBytes(v)) % SectorSize
  {
    var cb := ClusterBytes(v);  // sectors_per_cluster * SECTOR_SIZE
    var clusterIndex := pos / cb;
    var clusterOffset := pos % cb;
    ClusterSplitIs(pos, cb);
    sectorOffset := clusterOffset % SectorSize;
    if clusterIndex >= |ch| {
      return false, 0, sectorOffset;
    }
    var cluster := ch[clusterIndex];
    var firstSectorInCluster := v.firstDataSector + (cluster - 2) * v.boot.sectorsPerCluster;
    var sectorInCluster := clusterOffset / SectorSize;
    return true, firstSectorInCluster + sectorInCluster, sectorOffset;
  }

  /** memcpy of `n` bytes from `src[from..]` to `dst[at..]`. */
  method CopyBytes(dst: array<byte>, at: nat, src: seq<byte>, from: nat, n: nat)
    requires at + n <= dst.Length && from + n <= |src|
    modifies dst
    ensures forall k :: 0 <= k < at ==> dst[k] == old(dst[k])
    ensures forall k :: at <= k < at + n ==> dst[k] == src[from + (k - at)]
    ensures forall k :: at + n <= k < dst.Length ==> dst[k] == old(dst[k])
  {
    forall k | at <= k < at + n {
      dst[k] := src[from + k - at];
    }
  }

  // ---------------------------------------------------------------- reading

  /** What file position `p` holds: a byte, a position past the chain, or a byte in an unreadable sector. */
  datatype Cell = Byte(value: byte) | PastChain | Unreadable

  /**
   * `n` sectors' worth of bytes, n * 512, spelt out as a sum (SectorBytesIs).
   * The recursive forms here stand in for `*`, `/` and `%` on the symbolic
   * cluster size because the verifier reasons about them much more cheaply;
   * the lemmas beside them prove them equal to the operators.
   */
  function SectorBytes(n: nat): nat
  {
    if n == 0 then 0 else SectorSize + SectorBytes(n - 1)
  }

  lemma {:induction false} SectorBytesIs(n: nat)
    ensures SectorBytes(n) == n * SectorSize
  {
    if n > 0 {
      SectorBytesIs(n - 1);
    }
  }

  /** The bytes in one cluster: sectors_per_cluster * SECTOR_SIZE. */
  function ClusterBytes(v: Volume): (cb: nat)
    ensures v.boot.sectorsPerCluster > 0 ==> cb >= SectorSize
  {
    SectorBytes(v.boot.sectorsPerCluster)
  }

  /**
   * p / cb and p mod cb, spelt out as repeated subtraction of whole clusters
   * (ClusterSplitIs); this keeps division by the symbolic cluster size out of
   * the proofs.
   */
  function ClusterIndex(p: nat, cb: nat): nat
    requires cb > 0
    decreases p
  {
    if p < cb then 0 else 1 + ClusterIndex(p - cb, cb)
  }

  function ClusterOffset(p: nat, cb: nat): (r: nat)
    requires cb > 0
    ensures r < cb
    decreases p
  {
    if p < cb then p else ClusterOffset(p - cb, cb)
  }

  /**
   * The sector holding file position `p`: sector (p mod cluster size) / 512 of
   * cluster chain[p / cluster size], whose first sector is
   * first_data_sector + (cluster - 2) * sectors_per_cluster.
   */
  function SectorOfByte(v: Volume, ch: seq<uint16>, p: nat): int
    requires v.boot.sectorsPerCluster > 0 && ClusterIndex(p, ClusterBytes(v)) < |ch|
  {
    v.firstDataSector + (ch[ClusterIndex(p, ClusterBytes(v))] - 2) * v.boot.sectorsPerCluster +
    ClusterOffset(p, ClusterBytes(v)) / SectorSize
  }

  /** What position `p` holds; the byte is at offset (p mod cluster size) mod 512 of its sector. */
  function ByteAt(v: Volume, ch: seq<uint16>, p: nat): Cell
    requires v.boot.sectorsPerCluster > 0
  {
    if ClusterIndex(p, ClusterBytes(v)) >= |ch| then PastChain
    else
      var s := SectorOfByte(v, ch, p);
      if !SectorReadable(v.disk, s) then Unreadable
      else Byte(DiskRead(v.disk, s, true, 1).value[ClusterOffset(p, ClusterBytes(v)) % SectorSize])
  }

  /** The cells of positions p .. p + n - 1. */
  function Cells(v: Volume, ch: seq<uint16>, p: nat, n: nat): (c: seq<Cell>)
    requires v.boot.sectorsPerCluster > 0
    ensures |c| == n && forall k :: 0 <= k < n ==> c[k] == ByteAt(v, ch, p + k)
  {
    seq(n, (k: int) requires 0 <= k => ByteAt(v, ch, p + k))
  }

  /** The bytes held by the cells before the first one that holds none. */
  function Prefix(cells: seq<Cell>): seq<byte>
  {
    if cells == [] || !cells[0].Byte? then [] else [cells[0].value] + Prefix(cells[1..])
  }

  /** The bytes a read of up to `n` bytes from position `p` copies: it stops at the first position that holds no byte. */
  function Copied(v: Volume, ch: seq<uint16>, p: nat, n: nat): seq<byte>
    requires v.boot.sectorsPerCluster > 0
  {
    Prefix(Cells(v, ch, p, n))
  }

  function Min(a: nat, b: nat): nat { if a < b then a else b }

  /** There is something to read: elements are asked for, the chain is there and the position is before the end. */
  predicate HasWork(e: FatEntry, chain: Option<seq<uint16>>, position: nat, size: nat, nmemb: nat)
  {
    size > 0 && nmemb > 0 && chain.Some? && |chain.value| > 0 && position < e.size
  }

  /**
   * file_read on a handle at `position`: the result and the bytes copied to the
   * caller's buffer. Reads stop at the end of the file, at the end of the
   * chain, and at the first unreadable sector after the first.
   */
  function ReadSpec(v: Volume, e: FatEntry, chain: Option<seq<uint16>>, position: nat, size: nat, nmemb: nat)
    : (Result<nat>, seq<byte>)
    requires v.boot.sectorsPerCluster > 0 && position <= e.size
  {
    if size == 0 || nmemb == 0 then (Ok(0), [])
    else if chain.None? || |chain.value| == 0 then (Ok(0), [])
    else if e.size - position == 0 then (Ok(0), [])
    else if ByteAt(v, chain.value, position).Unreadable? then (Err(OutOfRange), [])
    else
      var data := Copied(v, chain.value, position, Min(size * nmemb, e.size - position));
      (Ok(Elements(|data|, size)), data)
  }

  /** file_read's return value: the number of whole `size`-byte elements in `bytes` (offset / size). */
  function Elements(bytes: nat, size: nat): (r: nat)
    requires size > 0
    ensures r * size <= bytes < (r + 1) * size
  {
    Euclid(bytes, size);
    bytes / size
  }

  // ---------------------------------------------------------------- proofs about reading

  lemma Euclid(x: int, d: int)
    requires d > 0
    ensures x == (x / d) * d + x % d && 0 <= x % d < d
  {
  }

  lemma MulAtLeast(a: int, d: int)
    requires a >= 1 && d > 0
    ensures a * d >= d
  {
  }

  lemma Distrib(a: int, b: int, d: int)
    ensures a * d - b * d == (a - b) * d
  {
  }

  /** Uniqueness of quotient and remainder. */
  lemma DivMod(x: int, d: int, q: int, r: int)
    requires 0 < d && 0 <= r < d && x == q * d + r
    ensures x / d == q && x % d == r
  {
    var q', r' := x / d, x % d;
    Euclid(x, d);
    Distrib(q', q, d);
    if q' > q {
      MulAtLeast(q' - q, d);
    } else if q' < q {
      Distrib(q, q', d);
      MulAtLeast(q - q', d);
    }
  }

  lemma {:induction false} ClusterSplitIs(p: nat, cb: nat)
    requires cb > 0
    ensures ClusterIndex(p, cb) == p / cb && ClusterOffset(p, cb) == p % cb
    decreases p
  {
    if p < cb {
      DivMod(p, cb, 0, p);
    } else {
      ClusterSplitIs(p - cb, cb);
      var q := ClusterIndex(p - cb, cb);
      assert p == (q + 1) * cb + ClusterOffset(p, cb);
      DivMod(p, cb, q + 1, ClusterOffset(p, cb));
    }
  }

  /**
   * The position mapping as the source computes it: SectorOfByte is
   * first_data_sector + (chain[p / cb] - 2) * spc + (p mod cb) / 512 for
   * cb = spc * 512, and the offset in that sector is p mod 512.
   */
  lemma SectorOfByteIs(v: Volume, ch: seq<uint16>, p: nat)
    requires v.boot.sectorsPerCluster > 0
    ensures ClusterBytes(v) == v.boot.sectorsPerCluster * SectorSize
    ensures ClusterIndex(p, ClusterBytes(v)) == p / ClusterBytes(v)
    ensures ClusterOffset(p, ClusterBytes(v)) == p % ClusterBytes(v)
    ensures p / ClusterBytes(v) < |ch| ==>
              SectorOfByte(v, ch, p) ==
              v.firstDataSector + (ch[p / ClusterBytes(v)] - 2) * v.boot.sectorsPerCluster + (p % ClusterBytes(v)) / SectorSize
    ensures ClusterOffset(p, ClusterBytes(v)) % SectorSize == p % SectorSize
  {
    SectorBytesIs(v.boot.sectorsPerCluster);
    ClusterSplitIs(p, ClusterBytes(v));
    OffsetInSector(v, p);
  }

  /** The offset within a sector: clusters are whole sectors, so it is p mod 512. */
  lemma {:induction false} OffsetInSector(v: Volume, p: nat)
    requires v.boot.sectorsPerCluster > 0
    ensures ClusterOffset(p, ClusterBytes(v)) % SectorSize == p % SectorSize
    decreases p
  {
    var cb := ClusterBytes(v);
    if p >= cb {
      SectorBytesIs(v.boot.sectorsPerCluster);
      OffsetInSector(v, p - cb);
    }
  }

  /** Positions a few bytes apart within one sector share the cluster and the sector. */
  lemma {:induction false} SameSector(v: Volume, ch: seq<uint16>, p: nat, k: nat)
    requires v.boot.sectorsPerCluster > 0
    requires ClusterOffset(p, ClusterBytes(v)) % SectorSize + k < SectorSize
    ensures ClusterIndex(p + k, ClusterBytes(v)) == ClusterIndex(p, ClusterBytes(v))
    ensures ClusterOffset(p + k, ClusterBytes(v)) == ClusterOffset(p, ClusterBytes(v)) + k
    ensures ClusterIndex(p, ClusterBytes(v)) < |ch| ==> SectorOfByte(v, ch, p + k) == SectorOfByte(v, ch, p)
    decreases p
  {
    var cb := ClusterBytes(v);
    SectorBytesIs(v.boot.sectorsPerCluster);
    if p < cb {
      assert p / 512 < v.boot.sectorsPerCluster;
      assert p + k < cb;
    } else {
      SameSector(v, ch, p - cb, k);
    }
  }

  /** A position is past `m` whole clusters exactly when it is at least m * cb. */
  lemma {:induction false} IndexAtLeast(p: nat, cb: nat, m: nat)
    requires cb > 0
    ensures ClusterIndex(p, cb) >= m <==> p >= m * cb
    decreases p
  {
    if m > 0 {
      Distrib(m, 1, cb);
      if p < cb {
        MulAtLeast(m, cb);
      } else {
        IndexAtLeast(p - cb, cb, m - 1);
      }
    }
  }

  /** Positions from the end of the chain on hold no byte: a chain of L clusters covers exactly L clusters' worth of bytes. */
  lemma PastChainExactly(v: Volume, ch: seq<uint16>, p: nat)
    requires v.boot.sectorsPerCluster > 0
    ensures ByteAt(v, ch, p).PastChain? <==> p >= |ch| * ClusterBytes(v)
  {
    IndexAtLeast(p, ClusterBytes(v), |ch|);
  }

  /** The copied bytes are the leading cells that hold bytes, and the cell after them, if any, holds none. */
  lemma {:induction false} PrefixMeaning(cells: seq<Cell>)
    ensures |Prefix(cells)| <= |cells|
    ensures forall k :: 0 <= k < |Prefix(cells)| ==> cells[k] == Byte(Prefix(cells)[k])
    ensures |Prefix(cells)| < |cells| ==> !cells[|Prefix(cells)|].Byte?
  {
    if cells != [] && cells[0].Byte? {
      PrefixMeaning(cells[1..]);
    }
  }

  /** The cells that hold `bytes` and then, unless they are all the cells, one that holds none, copy exactly `bytes`. */
  lemma {:induction false} PrefixUnique(cells: seq<Cell>, bytes: seq<byte>)
    requires |bytes| <= |cells| && forall k :: 0 <= k < |bytes| ==> cells[k] == Byte(bytes[k])
    requires |bytes| < |cells| ==> !cells[|bytes|].Byte?
    ensures Prefix(cells) == bytes
  {
    if bytes != [] {
      assert cells[0] == Byte(bytes[0]);
      PrefixUnique(cells[1..], bytes[1..]);
    }
  }

  /** Copying a run of cells copies its first part, then, if that was copied whole, the rest. */
  lemma {:induction false} PrefixSplit(a: seq<Cell>, b: seq<Cell>)
    ensures Prefix(a + b) == Prefix(a) + (if |Prefix(a)| == |a| then Prefix(b) else [])
  {
    if a == [] {
      assert a + b == b;
    } else if a[0].Byte? {
      assert (a + b)[1..] == a[1..] + b;
      PrefixSplit(a[1..], b);
    } else {
      assert (a + b)[0] == a[0];
    }
  }

  lemma CellsSplit(v: Volume, ch: seq<uint16>, p: nat, n: nat, m: nat)
    requires v.boot.sectorsPerCluster > 0
    ensures Cells(v, ch, p, n + m) == Cells(v, ch, p, n) + Cells(v, ch, p + n, m)
  {
    var whole, left, right := Cells(v, ch, p, n + m), Cells(v, ch, p, n), Cells(v, ch, p + n, m);
    forall k | 0 <= k < n + m ensures whole[k] == (left + right)[k] {
      if k >= n {
        assert right[k - n] == ByteAt(v, ch, p + n + (k - n));
      }
    }
  }

  /**
   * What a read copies is pinned down by ByteAt: `data` is Copied(p, n) when
   * position p + k holds byte data[k] for each k, and the read either took all
   * `n` bytes or the next position holds none.
   */
  lemma CopiedExactly(v: Volume, ch: seq<uint16>, p: nat, n: nat, data: seq<byte>)
    requires v.boot.sectorsPerCluster > 0 && |data| <= n
    requires forall k :: 0 <= k < |data| ==> ByteAt(v, ch, p + k) == Byte(data[k])
    requires |data| < n ==> !ByteAt(v, ch, p + |data|).Byte?
    ensures Copied(v, ch, p, n) == data
  {
    var cells := Cells(v, ch, p, n);
    forall k | 0 <= k < |data| ensures cells[k] == Byte(data[k]) {
      assert cells[k] == ByteAt(v, ch, p + k);
    }
    if |data| < n {
      assert cells[|data|] == ByteAt(v, ch, p + |data|);
    }
    PrefixUnique(cells, data);
  }

  /** Within one sector, position p + d holds byte (p mod 512) + d of the sector that holds p. */
  lemma ByteInSector(v: Volume, ch: seq<uint16>, p: nat, d: nat)
    requires v.boot.sectorsPerCluster > 0 && ClusterIndex(p, ClusterBytes(v)) < |ch|
    requires SectorReadable(v.disk, SectorOfByte(v, ch, p))
    requires ClusterOffset(p, ClusterBytes(v)) % SectorSize + d < SectorSize
    ensures ByteAt(v, ch, p + d) ==
            Byte(DiskRead(v.disk, SectorOfByte(v, ch, p), true, 1).value[ClusterOffset(p, ClusterBytes(v)) % SectorSize + d])
  {
    SameSector(v, ch, p, d);
  }

  /** Reading stops for good at a position that holds no byte. */
  lemma CopiedStops(v: Volume, ch: seq<uint16>, p: nat, n: nat)
    requires v.boot.sectorsPerCluster > 0 && !ByteAt(v, ch, p).Byte?
    ensures Copied(v, ch, p, n) == []
  {
    if n > 0 {
      assert Cells(v, ch, p, n)[0] == ByteAt(v, ch, p + 0);
    }
  }

  /** A position that holds a byte lies inside the chain, in a readable sector, at offset p mod 512 of it. */
  lemma ByteAtHolds(v: Volume, ch: seq<uint16>, q: nat, b: byte)
    requires v.boot.sectorsPerCluster > 0 && ByteAt(v, ch, q) == Byte(b)
    ensures ClusterIndex(q, ClusterBytes(v)) < |ch| && SectorReadable(v.disk, SectorOfByte(v, ch, q))
    ensures b == v.disk[SectorOfByte(v, ch, q) * SectorSize + q % SectorSize]
  {
    var s := SectorOfByte(v, ch, q);
    var off := ClusterOffset(q, ClusterBytes(v)) % SectorSize;
    OffsetInSector(v, q);
    DiskReadContents(v.disk, s, 1, off);
  }

  /** At most `n` bytes are copied; fewer only when the position after the last one holds no byte; all `n` when every position holds one. */
  lemma CopiedLength(v: Volume, ch: seq<uint16>, p: nat, n: nat)
    requires v.boot.sectorsPerCluster > 0
    ensures |Copied(v, ch, p, n)| <= n
    ensures |Copied(v, ch, p, n)| < n ==> !ByteAt(v, ch, p + |Copied(v, ch, p, n)|).Byte?
    ensures (forall q :: p <= q < p + n ==> ByteAt(v, ch, q).Byte?) ==> |Copied(v, ch, p, n)| == n
  {
    var cells := Cells(v, ch, p, n);
    PrefixMeaning(cells);
    if |Prefix(cells)| < n {
      assert cells[|Prefix(cells)|] == ByteAt(v, ch, p + |Prefix(cells)|);
    }
  }

  /** Two reads in a row copy what one read of their combined length copies. */
  lemma CopiedSplit(v: Volume, ch: seq<uint16>, p: nat, n: nat, m: nat)
    requires v.boot.sectorsPerCluster > 0
    ensures Copied(v, ch, p, n + m) ==
            Copied(v, ch, p, n) + (if |Copied(v, ch, p, n)| == n then Copied(v, ch, p + n, m) else [])
  {
    CellsSplit(v, ch, p, n, m);
    PrefixSplit(Cells(v, ch, p, n), Cells(v, ch, p + n, m));
  }

  /** file_read returns 0 without copying when there is nothing to do: no elements, no chain, or the position at the end. */
  lemma ReadNothing(v: Volume, e: FatEntry, chain: Option<seq<uint16>>, position: nat, size: nat, nmemb: nat)
    requires v.boot.sectorsPerCluster > 0 && position <= e.size
    ensures !HasWork(e, chain, position, size, nmemb) ==> ReadSpec(v, e, chain, position, size, nmemb) == (Ok(0), [])
  {
  }

  /**
   * The error case: file_read fails, copying nothing, exactly when it has work
   * to do and the sector of the current position cannot be read.
   */
  lemma ReadFails(v: Volume, e: FatEntry, chain: Option<seq<uint16>>, position: nat, size: nat, nmemb: nat)
    requires v.boot.sectorsPerCluster > 0 && position <= e.size
    ensures ReadSpec(v, e, chain, position, size, nmemb).0.Err? <==>
            HasWork(e, chain, position, size, nmemb) && ByteAt(v, chain.value, position).Unreadable?
    ensures ReadSpec(v, e, chain, position, size, nmemb).0.Err? ==>
            ReadSpec(v, e, chain, position, size, nmemb) == (Err(OutOfRange), [])
  {
  }

  /**
   * A successful read copies at most min(size * nmemb, entry.size - position)
   * bytes, returns the number of whole elements among them, copies the file's
   * bytes from `position` on, and stops short only where the next position
   * holds no byte.
   */
  lemma ReadCopies(v: Volume, e: FatEntry, chain: Option<seq<uint16>>, position: nat, size: nat, nmemb: nat)
    requires v.boot.sectorsPerCluster > 0 && position <= e.size
    requires ReadSpec(v, e, chain, position, size, nmemb).0.Ok?
    ensures var (r, data) := ReadSpec(v, e, chain, position, size, nmemb);
            |data| <= Min(size * nmemb, e.size - position) && (size > 0 ==> r.value == |data| / size)
    ensures var (r, data) := ReadSpec(v, e, chain, position, size, nmemb);
            HasWork(e, chain, position, size, nmemb) ==>
              (forall k :: 0 <= k < |data| ==> ByteAt(v, chain.value, position + k) == Byte(data[k])) &&
              (|data| < Min(size * nmemb, e.size - position) ==> !ByteAt(v, chain.value, position + |data|).Byte?)
  {
    if HasWork(e, chain, position, size, nmemb) {
      var want := Min(size * nmemb, e.size - position);
      var cells := Cells(v, chain.value, position, want);
      PrefixMeaning(cells);
      var data := Prefix(cells);
      assert data == ReadSpec(v, e, chain, position, size, nmemb).1;
      forall k | 0 <= k < |data| ensures ByteAt(v, chain.value, position + k) == Byte(data[k]) {
        assert cells[k] == Byte(data[k]);
      }
      if |data| < want {
        assert !cells[|data|].Byte?;
      }
    }
  }

  /**
   * Reading a whole file from the start: when the chain covers the file and
   * every sector the file occupies is readable, one read of entry.size bytes
   * returns all of them.
   */
  lemma ReadWholeFile(v: Volume, e: FatEntry, ch: seq<uint16>)
    requires v.boot.sectorsPerCluster > 0 && 0 < e.size <= |ch| * ClusterBytes(v)
    requires forall p :: 0 <= p < e.size ==> SectorReadable(v.disk, SectorOfPosition(v, ch, p))
    ensures ReadSpec(v, e, Some(ch), 0, 1, e.size).0 == Ok(e.size)
  {
    forall k | 0 <= k < e.size ensures ByteAt(v, ch, k).Byte? {
      PastChainExactly(v, ch, k);
      assert SectorReadable(v.disk, SectorOfPosition(v, ch, k));
    }
    CopiedLength(v, ch, 0, e.size);
  }

  /** SectorOfByte where it is defined, -1 (never readable) past the chain. */
  function SectorOfPosition(v: Volume, ch: seq<uint16>, p: nat): int
    requires v.boot.sectorsPerCluster > 0
  {
    if ClusterIndex(p, ClusterBytes(v)) < |ch| then SectorOfByte(v, ch, p) else -1
  }

  // ---------------------------------------------------------------- seeking

  /** The origins of file_seek, with the values the C library gives SEEK_SET, SEEK_CUR and SEEK_END. */
  const SeekSet: int := 0
  const SeekCur: int := 1
  const SeekEnd: int := 2

  /** file_seek on a handle at `position` of a file of `size` bytes: the new position, or why there is none. */
  function SeekSpec(position: nat, size: nat, offset: int, whence: int): Result<nat>
  {
    var target :=
      if whence == SeekSet then Some(offset)
      else if whence == SeekEnd then Some(size + offset)
      else if whence == SeekCur then Some(position + offset)
      else None;
    if target.None? then Err(Invalid)
    else if target.value < 0 || target.value > size then Err(NoSuchDevice)
    else Ok(target.value)
  }

  /** The three origins agree: the target is offset, size + offset or position + offset measured from the start. */
  lemma SeekOrigins(position: nat, size: nat, offset: int, other: nat)
    ensures SeekSpec(position, size, offset, SeekEnd) == SeekSpec(other, size, size + offset, SeekSet)
    ensures SeekSpec(position, size, offset, SeekCur) == SeekSpec(other, size, position + offset, SeekSet)
    ensures SeekSpec(position, size, offset, SeekSet) == SeekSpec(other, size, offset, SeekSet)
  {
  }

  /** Every target in [0, size] is reachable from the start, and nothing outside it. */
  lemma SeekRange(position: nat, size: nat, target: int)
    ensures SeekSpec(position, size, target, SeekSet).Ok? <==> 0 <= target <= size
    ensures SeekSpec(position, size, target, SeekSet).Ok? ==> SeekSpec(position, size, target, SeekSet).value == target
    ensures !(0 <= target <= size) ==> SeekSpec(position, size, target, SeekSet) == Err(NoSuchDevice)
  {
  }

  /** Any origin other than the three is EINVAL, whatever the position and offset. */
  lemma SeekBadOrigin(position: nat, size: nat, offset: int, whence: int)
    requires whence != SeekSet && whence != SeekCur && whence != SeekEnd
    ensures SeekSpec(position, size, offset, whence) == Err(Invalid)
  {
  }

  /** Seeking to the end, then 0 from the current position, stays there; seeking again to the same target is idempotent. */
  lemma SeekExamples(position: nat, size: nat, offset: int)
    requires position <= size
    ensures SeekSpec(position, size, 0, SeekEnd) == Ok(size)
    ensures SeekSpec(position, size, 0, SeekCur) == Ok(position)
    ensures SeekSpec(position, size, size + 1, SeekSet) == Err(NoSuchDevice)
    ensures SeekSpec(position, size, offset, SeekSet).Ok? ==>
              var q := SeekSpec(position, size, offset, SeekSet).value;
              SeekSpec(q, size, offset, SeekSet) == Ok(q) && SeekSpec(q, size, 0, SeekCur) == Ok(q)
  {
  }
}

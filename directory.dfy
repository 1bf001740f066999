/**
 * The root-directory reader (dir_open, dir_read): a cursor over the fixed-size
 * root directory region that skips deleted, volume-label and long-name entries
 * and decodes 8.3 names.
 */
module Directory {
  import opened Bytes
  import opened Wrappers
  import opened Layout
  import opened Disk
  import opened Fat

  const Backslash: byte := 0x5C

  /** What dir_read reports: 0 with an entry, 1 at the end of the directory, -1 with errno set. */
  datatype DirResult = Found(entry: DirEntry) | End | Failed(error: Error)

  function SectorAt(vol: Volume, s: int): (r: seq<byte>)
    requires SectorReadable(vol.disk, s)
    ensures |r| == SectorSize
  {
    DiskRead(vol.disk, s, true, 1).value
  }

  /**
   * The sector of the region that holds entry `i`, and the entry's slot in
   * it: i / EntriesPerSector and i % EntriesPerSector (SectorSlot), by
   * repeated subtraction. The recursive form gives the induction over
   * entries one step per entry, which `/` and `%` do not.
   */
  function SectorOf(i: nat): nat
  {
    if i < EntriesPerSector then 0 else 1 + SectorOf(i - EntriesPerSector)
  }

  function SlotOf(i: nat): (k: nat)
    ensures k < EntriesPerSector
  {
    if i < EntriesPerSector then i else SlotOf(i - EntriesPerSector)
  }

  lemma {:induction false} SectorSlot(i: nat)
    ensures SectorOf(i) == i / EntriesPerSector && SlotOf(i) == i % EntriesPerSector
  {
    if i >= EntriesPerSector {
      SectorSlot(i - EntriesPerSector);
    }
  }

  /** The entry after `i` is the next slot of the same sector, or the first slot of the next one. */
  lemma {:induction false} NextSlot(i: nat)
    ensures SlotOf(i + 1) == 0 ==> SectorOf(i + 1) == SectorOf(i) + 1
    ensures SlotOf(i + 1) != 0 ==> SectorOf(i + 1) == SectorOf(i) && SlotOf(i + 1) == SlotOf(i) + 1
  {
    if i >= EntriesPerSector {
      NextSlot(i - EntriesPerSector);
    }
  }

  /** `buffer` holds the sector of entry `k`, read from the image. */
  predicate Holds(vol: Volume, start: nat, k: nat, buffer: seq<byte>)
  {
    SectorReadable(vol.disk, start + SectorOf(k)) && buffer == SectorAt(vol, start + SectorOf(k))
  }

  /** Entry `i` of the directory region that starts at sector `start`. */
  function EntryAt(vol: Volume, start: nat, i: nat): FatEntry
    requires SectorReadable(vol.disk, start + SectorOf(i))
  {
    EntryOfSector(SectorAt(vol, start + SectorOf(i)), SlotOf(i))
  }

  /**
   * A cursor at entry `i` can resume: when `i` is not the first entry of a
   * sector, that sector lies in the region and was read successfully before.
   */
  predicate Resumable(vol: Volume, start: nat, i: nat)
  {
    SlotOf(i) != 0 ==>
      SectorOf(i) < vol.rootDirSectors && SectorReadable(vol.disk, start + SectorOf(i))
  }

  /** Entries dir_read passes over: deleted, volume label, long-name fragment. */
  predicate Skipped(e: FatEntry)
  {
    e.name[0] == DeletedMarker || HasAttr(e.attr, AttrVolumeLabel) || e.attr == AttrLongName
  }

  /** The long-name attribute 0x0F already carries the volume-label bit, so its own test never decides. */
  lemma LongNameIsLabel(e: FatEntry)
    ensures e.attr == AttrLongName ==> HasAttr(e.attr, AttrVolumeLabel)
  {
  }

  /** The first name byte and the attribute byte of entry `k`, taken straight from the image. */
  function NameByteAt(vol: Volume, start: nat, k: nat): byte
    requires SectorReadable(vol.disk, start + SectorOf(k))
  {
    vol.disk[(start + SectorOf(k)) * SectorSize + EntrySize * SlotOf(k) + NameAt]
  }

  function AttrByteAt(vol: Volume, start: nat, k: nat): byte
    requires SectorReadable(vol.disk, start + SectorOf(k))
  {
    vol.disk[(start + SectorOf(k)) * SectorSize + EntrySize * SlotOf(k) + AttrAt]
  }

  /** Skipped, on the two bytes it looks at, for an entry that is not the end marker. */
  predicate SkippedBytes(name0: byte, attr: byte)
  {
    name0 != EndMarker && (name0 == DeletedMarker || HasAttr(attr, AttrVolumeLabel) || attr == AttrLongName)
  }

  /** The decoded entry `k` carries the two bytes read straight from the image. */
  lemma EntryBytes(vol: Volume, start: nat, k: nat)
    requires SectorReadable(vol.disk, start + SectorOf(k))
    ensures EntryAt(vol, start, k).name[0] == NameByteAt(vol, start, k)
    ensures EntryAt(vol, start, k).attr == AttrByteAt(vol, start, k)
    ensures EntryAt(vol, start, k).name[0] != EndMarker && Skipped(EntryAt(vol, start, k)) <==>
            SkippedBytes(NameByteAt(vol, start, k), AttrByteAt(vol, start, k))
  {
    var s := start + SectorOf(k);
    var off := EntrySize * SlotOf(k);
    DiskReadContents(vol.disk, s, 1, off + NameAt);
    DiskReadContents(vol.disk, s, 1, off + AttrAt);
  }

  predicate SkippedAt(vol: Volume, start: nat, k: nat)
  {
    SectorReadable(vol.disk, start + SectorOf(k)) &&
    SkippedBytes(NameByteAt(vol, start, k), AttrByteAt(vol, start, k))
  }

  predicate AllSkipped(vol: Volume, start: nat, a: nat, b: nat)
  {
    forall k :: a <= k < b ==> SkippedAt(vol, start, k)
  }

  predicate LiveAt(vol: Volume, start: nat, k: nat)
  {
    SectorReadable(vol.disk, start + SectorOf(k)) &&
    NameByteAt(vol, start, k) != EndMarker && !SkippedBytes(NameByteAt(vol, start, k), AttrByteAt(vol, start, k))
  }

  predicate EndAt(vol: Volume, start: nat, k: nat)
  {
    SectorReadable(vol.disk, start + SectorOf(k)) && NameByteAt(vol, start, k) == EndMarker
  }

  /** Moving from a readable entry `i` to the next one keeps the cursor resumable within the same sector. */
  lemma NextResumable(vol: Volume, start: nat, i: nat)
    requires SectorOf(i) < vol.rootDirSectors && SectorReadable(vol.disk, start + SectorOf(i))
    ensures Resumable(vol, start, i + 1)
    ensures SlotOf(i + 1) != 0 ==> SectorOf(i + 1) == SectorOf(i)
  {
    NextSlot(i);
  }

  /**
   * The index of the entry at which a dir_read from `i` stops: the first one
   * at or after `i` that is not passed over, because it is at the capacity,
   * past the region, in a sector that cannot be read, or not a skipped entry.
   */
  function NextStop(vol: Volume, start: nat, i: nat, max: nat): nat
    requires Resumable(vol, start, i)
    decreases max - i
  {
    if i < max && SectorOf(i) < vol.rootDirSectors && SkippedAt(vol, start, i) then
      NextResumable(vol, start, i);
      NextStop(vol, start, i + 1, max)
    else i
  }

  /** A skipped entry below the capacity is passed over; any other entry is where the scan stops. */
  lemma NextStopStep(vol: Volume, start: nat, i: nat, max: nat)
    requires SectorOf(i) < vol.rootDirSectors && SectorReadable(vol.disk, start + SectorOf(i))
    ensures Resumable(vol, start, i) && Resumable(vol, start, i + 1)
    ensures SlotOf(i + 1) != 0 ==> SectorOf(i + 1) == SectorOf(i)
    ensures i < max && SkippedAt(vol, start, i) ==> NextStop(vol, start, i, max) == NextStop(vol, start, i + 1, max)
    ensures !(i < max && SkippedAt(vol, start, i)) ==> NextStop(vol, start, i, max) == i
  {
    NextResumable(vol, start, i);
  }

  lemma AllSkippedCons(vol: Volume, start: nat, i: nat, b: nat)
    requires SkippedAt(vol, start, i) && AllSkipped(vol, start, i + 1, b)
    ensures AllSkipped(vol, start, i, b)
  {
  }

  /**
   * The scan passes over only skipped entries, never beyond the capacity, and
   * stops at an entry from which a cursor can resume and that is not itself
   * passed over.
   */
  lemma {:induction false} NextStopMeaning(vol: Volume, start: nat, i: nat, max: nat)
    requires Resumable(vol, start, i) && i <= max
    ensures var j := NextStop(vol, start, i, max);
            i <= j <= max && Resumable(vol, start, j) && AllSkipped(vol, start, i, j) &&
            !(j < max && SectorOf(j) < vol.rootDirSectors && SkippedAt(vol, start, j))
    decreases max - i
  {
    if i < max && SectorOf(i) < vol.rootDirSectors && SkippedAt(vol, start, i) {
      NextResumable(vol, start, i);
      NextStopMeaning(vol, start, i + 1, max);
      AllSkippedCons(vol, start, i, NextStop(vol, start, i + 1, max));
    }
  }

  /**
   * One dir_read from entry `i` of at most `max`: the result and the new entry
   * index, decided at the entry where the scan stops. See ScanDirFound,
   * ScanDirEnd and ScanDirFailed for what the result means, and
   * DirCursor.Read for the source's own order of checks.
   */
  function ScanDir(vol: Volume, start: nat, i: nat, max: nat): (r: (DirResult, nat))
    requires Resumable(vol, start, i) && i <= max
  {
    NextStopMeaning(vol, start, i, max);
    StopResult(vol, start, NextStop(vol, start, i, max), max)
  }

  /** What dir_read reports at the entry `j` where its scan stops. */
  function StopResult(vol: Volume, start: nat, j: nat, max: nat): (DirResult, nat)
    requires Resumable(vol, start, j)
  {
    if j >= max then (End, j)
    else if SectorOf(j) >= vol.rootDirSectors then (Failed(NoSuchDevice), j)
    else if !SectorReadable(vol.disk, start + SectorOf(j)) then (Failed(IoError), j)
    else
      if NameByteAt(vol, start, j) == EndMarker then (End, j + 1)
      else (Found(ToDirEntry(EntryAt(vol, start, j))), j + 1)
  }

  /** At a readable entry the scan reports the end at a zero name byte and the entry otherwise. */
  lemma StopAtEntry(vol: Volume, start: nat, j: nat, max: nat, e: FatEntry)
    requires j < max && SectorOf(j) < vol.rootDirSectors && SectorReadable(vol.disk, start + SectorOf(j))
    requires Resumable(vol, start, j) && e == EntryAt(vol, start, j)
    ensures e.name[0] == EndMarker ==> StopResult(vol, start, j, max) == (End, j + 1)
    ensures e.name[0] != EndMarker ==> StopResult(vol, start, j, max) == (Found(ToDirEntry(e)), j + 1)
  {
    EntryBytes(vol, start, j);
  }

  /** Where the sector of entry `j` lies past the region or cannot be read, the scan fails there. */
  lemma StopAtFailure(vol: Volume, start: nat, j: nat, max: nat)
    requires j < max && Resumable(vol, start, j)
    requires !(SectorOf(j) < vol.rootDirSectors && SectorReadable(vol.disk, start + SectorOf(j)))
    ensures StopResult(vol, start, j, max) ==
            (Failed(if SectorOf(j) >= vol.rootDirSectors then NoSuchDevice else IoError), j)
  {
  }

  /** A call from `i` is decided at the entry where its scan stops. */
  lemma ScanDirAt(vol: Volume, start: nat, i: nat, j: nat, max: nat)
    requires Resumable(vol, start, i) && i <= max && Resumable(vol, start, j)
    requires NextStop(vol, start, i, max) == j
    ensures ScanDir(vol, start, i, max) == StopResult(vol, start, j, max)
  {
  }

  /** The scan from `i` stops at NextStop, and what it reports there, split by the three kinds of stop. */
  lemma ScanDirCases(vol: Volume, start: nat, i: nat, max: nat)
    requires Resumable(vol, start, i) && i <= max
    ensures var j := NextStop(vol, start, i, max);
            var r := ScanDir(vol, start, i, max);
            && i <= j <= max && Resumable(vol, start, j) && AllSkipped(vol, start, i, j)
            && (j == max ==> r == (End, j))
            && (j < max && SectorOf(j) < vol.rootDirSectors && SectorReadable(vol.disk, start + SectorOf(j)) ==>
                  !SkippedAt(vol, start, j) &&
                  r == (if EndAt(vol, start, j) then End else Found(ToDirEntry(EntryAt(vol, start, j))), j + 1))
            && (j < max && !(SectorOf(j) < vol.rootDirSectors && SectorReadable(vol.disk, start + SectorOf(j))) ==>
                  r == (Failed(if SectorOf(j) >= vol.rootDirSectors then NoSuchDevice else IoError), j))
  {
    NextStopMeaning(vol, start, i, max);
    var j := NextStop(vol, start, i, max);
    ScanDirAt(vol, start, i, j, max);
    if j < max && SectorOf(j) < vol.rootDirSectors && SectorReadable(vol.disk, start + SectorOf(j)) {
      var e := EntryAt(vol, start, j);
      EntryBytes(vol, start, j);
      StopAtEntry(vol, start, j, max, e);
    } else if j < max {
      StopAtFailure(vol, start, j, max);
    }
  }

  /** The next call reports the first live entry after `i`, in on-disk order, having passed over only skipped entries. */
  lemma ScanDirFound(vol: Volume, start: nat, i: nat, max: nat)
    requires Resumable(vol, start, i) && i <= max
    ensures var r := ScanDir(vol, start, i, max);
            r.0.Found? ==>
              i < r.1 <= max && AllSkipped(vol, start, i, r.1 - 1) && LiveAt(vol, start, r.1 - 1) &&
              r.0.entry == ToDirEntry(EntryAt(vol, start, r.1 - 1))
  {
    ScanDirCases(vol, start, i, max);
  }

  /**
   * The next call reports the end of the directory after passing over only
   * skipped entries, either at the capacity or at the first entry whose name
   * starts with a zero byte (which it consumes).
   */
  lemma ScanDirEnd(vol: Volume, start: nat, i: nat, max: nat)
    requires Resumable(vol, start, i) && i <= max
    ensures var r := ScanDir(vol, start, i, max);
            r.0.End? ==>
              (r.1 == max && AllSkipped(vol, start, i, max)) ||
              (i < r.1 <= max && AllSkipped(vol, start, i, r.1 - 1) && EndAt(vol, start, r.1 - 1))
  {
    ScanDirCases(vol, start, i, max);
  }

  /**
   * The next call fails only at the first entry of a sector, after passing over
   * skipped entries: with ENXIO when that sector lies past the region, with EIO
   * when it cannot be read; the cursor stays at that entry.
   */
  lemma ScanDirFailed(vol: Volume, start: nat, i: nat, max: nat)
    requires Resumable(vol, start, i) && i <= max
    ensures var r := ScanDir(vol, start, i, max);
            r.0.Failed? ==>
              i <= r.1 < max && AllSkipped(vol, start, i, r.1) && SlotOf(r.1) == 0 &&
              (r.0.error == NoSuchDevice <==> SectorOf(r.1) >= vol.rootDirSectors) &&
              (r.0.error == IoError <==>
                 SectorOf(r.1) < vol.rootDirSectors &&
                 !SectorReadable(vol.disk, start + SectorOf(r.1)))
  {
    ScanDirCases(vol, start, i, max);
  }

  /** The index never moves back, stays within the capacity, and the cursor can resume where the call left it. */
  lemma ScanDirIndex(vol: Volume, start: nat, i: nat, max: nat)
    requires Resumable(vol, start, i) && i <= max
    ensures var r := ScanDir(vol, start, i, max);
            i <= r.1 <= max && Resumable(vol, start, r.1) && (r.1 == i ==> !r.0.Found?)
  {
    NextStopMeaning(vol, start, i, max);
    var j := NextStop(vol, start, i, max);
    ScanDirAt(vol, start, i, j, max);
    if j < max && SectorOf(j) < vol.rootDirSectors && SectorReadable(vol.disk, start + SectorOf(j)) {
      NextResumable(vol, start, j);
    }
  }

  lemma EntryInRegion(vol: Volume, i: nat)
    requires VolumeValid(vol) && i < vol.boot.rootDirCapacity
    ensures SectorOf(i) < vol.rootDirSectors
  {
    SectorSlot(i);
    assert vol.rootDirSectors * 16 == vol.boot.rootDirCapacity;
  }

  /** A mounted volume never reports a directory sector past the region (ENXIO). */
  lemma ScanDirNoDeviceError(vol: Volume, i: nat)
    requires VolumeValid(vol) && Resumable(vol, RootDirStart(vol.firstSector, vol.boot), i)
    requires i <= vol.boot.rootDirCapacity
    ensures ScanDir(vol, RootDirStart(vol.firstSector, vol.boot), i, vol.boot.rootDirCapacity).0 != Failed(NoSuchDevice)
  {
    var start := RootDirStart(vol.firstSector, vol.boot);
    var r := ScanDir(vol, start, i, vol.boot.rootDirCapacity);
    if r.0.Failed? {
      ScanDirFailed(vol, start, i, vol.boot.rootDirCapacity);
      EntryInRegion(vol, r.1);
    }
  }

  /**
   * The entry at index `i` as dir_read fetches it: the sector is read when `i`
   * is the first entry of a sector (ENXIO past the region, EIO when the read
   * fails), otherwise it is taken from `buffer`, which holds that sector.
   */
  method LoadEntry(vol: Volume, start: nat, i: nat, buffer: seq<byte>) returns (e: Result<FatEntry>, sector: seq<byte>)
    requires Resumable(vol, start, i)
    requires SlotOf(i) != 0 ==> Holds(vol, start, i, buffer)
    ensures e.Err? <==> SlotOf(i) == 0 &&
                        (SectorOf(i) >= vol.rootDirSectors || !SectorReadable(vol.disk, start + SectorOf(i)))
    ensures e.Err? ==> e.error == if SectorOf(i) >= vol.rootDirSectors then NoSuchDevice else IoError
    ensures e.Ok? ==> SectorOf(i) < vol.rootDirSectors && SectorReadable(vol.disk, start + SectorOf(i)) &&
                      sector == SectorAt(vol, start + SectorOf(i)) && e.value == EntryAt(vol, start, i)
  {
    SectorSlot(i);
    var sectorIndex := i / EntriesPerSector;
    var sectorEntry := i % EntriesPerSector;
    sector := buffer;
    if sectorEntry == 0 {
      if sectorIndex >= vol.rootDirSectors {
        return Err(NoSuchDevice), sector;
      }
      var rd := DiskRead(vol.disk, start + sectorIndex, true, 1);
      if rd.Err? {
        return Err(IoError), sector;
      }
      sector := rd.value;
    }
    e := Ok(EntryOfSector(sector, sectorEntry));
  }

  /** dir_t: a cursor over the root directory of one volume. */
  class DirCursor {
    const volume: Volume
    const currentSector: nat
    var currentEntry: nat
    const maxEntries: nat

    ghost predicate Valid()
      reads this
    {
      VolumeValid(volume) &&
      currentSector == RootDirStart(volume.firstSector, volume.boot) &&
      maxEntries == volume.boot.rootDirCapacity &&
      currentEntry <= maxEntries &&
      Resumable(volume, currentSector, currentEntry)
    }

    constructor (vol: Volume)
      requires VolumeValid(vol)
      ensures Valid() && volume == vol && currentEntry == 0
    {
      volume := vol;
      currentEntry := 0;
      currentSector := RootDirStart(vol.firstSector, vol.boot);
      maxEntries := vol.boot.rootDirCapacity;
    }

    /**
     * dir_read. Where the source resumes in the middle of a sector it reads its
     * uninitialised local buffer; this model refetches that sector instead.
     */
    method Read() returns (r: DirResult)
      requires Valid()
      modifies this
      ensures Valid()
      ensures (r, currentEntry) == ScanDir(volume, currentSector, old(currentEntry), maxEntries)
    {
      ScanDirIndex(volume, currentSector, currentEntry, maxEntries);
      r, currentEntry := Scan(volume, currentSector, currentEntry, maxEntries);
    }
  }

  /** The loop of dir_read, from entry `i` of the region at `start` holding at most `max` entries. */
  method Scan(vol: Volume, start: nat, i: nat, max: nat) returns (r: DirResult, next: nat)
    requires Resumable(vol, start, i) && i <= max
    ensures (r, next) == ScanDir(vol, start, i, max)
  {
    next := i;
    var buffer: seq<byte> := [];
    SectorSlot(next);
    if next % EntriesPerSector != 0 {
      buffer := DiskRead(vol.disk, start + next / EntriesPerSector, true, 1).value;
    }
    while next < max
      invariant i <= next <= max
      invariant Resumable(vol, start, next)
      invariant SlotOf(next) != 0 ==> Holds(vol, start, next, buffer)
      invariant NextStop(vol, start, i, max) == NextStop(vol, start, next, max)
      decreases max - next
    {
      ghost var here := next;
      var done;
      r, done, next, buffer := ScanStep(vol, start, i, max, next, buffer);
      if done {
        ScanDirAt(vol, start, i, here, max);
        return;
      }
    }
    ScanDirAt(vol, start, i, next, max);
    r := End;
  }

  /** After one pass that stopped at `next` with result `r` and new index `next'`. */
  ghost predicate Stopped(vol: Volume, start: nat, i: nat, max: nat, next: nat, r: DirResult, next': nat)
    requires Resumable(vol, start, i)
  {
    next' <= max && Resumable(vol, start, next) && Resumable(vol, start, next') &&
    NextStop(vol, start, i, max) == next && (r, next') == StopResult(vol, start, next, max)
  }

  lemma SkipAdvances(vol: Volume, start: nat, i: nat, max: nat, next: nat, sector: seq<byte>)
    requires i <= next < max && Resumable(vol, start, i)
    requires SectorOf(next) < vol.rootDirSectors && SkippedAt(vol, start, next)
    requires sector == SectorAt(vol, start + SectorOf(next))
    requires NextStop(vol, start, i, max) == NextStop(vol, start, next, max)
    ensures Resumable(vol, start, next + 1)
    ensures NextStop(vol, start, i, max) == NextStop(vol, start, next + 1, max)
    ensures SlotOf(next + 1) != 0 ==> Holds(vol, start, next + 1, sector)
  {
    NextStopStep(vol, start, next, max);
    assert NextStop(vol, start, next, max) == NextStop(vol, start, next + 1, max);
    if SlotOf(next + 1) != 0 {
      assert start + SectorOf(next + 1) == start + SectorOf(next);
    }
  }

  lemma StopsAtEntry(vol: Volume, start: nat, i: nat, max: nat, next: nat, e: FatEntry)
    requires i <= next < max && Resumable(vol, start, i)
    requires SectorOf(next) < vol.rootDirSectors && SectorReadable(vol.disk, start + SectorOf(next))
    requires e == EntryAt(vol, start, next) && !(e.name[0] != EndMarker && Skipped(e))
    requires NextStop(vol, start, i, max) == NextStop(vol, start, next, max)
    ensures Stopped(vol, start, i, max, next, if e.name[0] == EndMarker then End else Found(ToDirEntry(e)), next + 1)
  {
    EntryBytes(vol, start, next);
    NextStopStep(vol, start, next, max);
    StopAtEntry(vol, start, next, max, e);
  }

  lemma StopsAtFailure(vol: Volume, start: nat, i: nat, max: nat, next: nat)
    requires i <= next < max && Resumable(vol, start, i) && Resumable(vol, start, next)
    requires !(SectorOf(next) < vol.rootDirSectors && SectorReadable(vol.disk, start + SectorOf(next)))
    requires NextStop(vol, start, i, max) == NextStop(vol, start, next, max)
    ensures Stopped(vol, start, i, max, next,
                    Failed(if SectorOf(next) >= vol.rootDirSectors then NoSuchDevice else IoError), next)
  {
    StopAtFailure(vol, start, next, max);
  }

  /**
   * One pass of dir_read's loop at entry `next`: fetch the entry, then stop
   * with the result (`done`) or move past a skipped entry. When `done` is
   * false, `r` is a placeholder that the loop does not use.
   */
  method ScanStep(vol: Volume, start: nat, ghost i: nat, max: nat, next: nat, buffer: seq<byte>)
    returns (r: DirResult, done: bool, next': nat, buffer': seq<byte>)
    requires i <= next < max && Resumable(vol, start, i) && Resumable(vol, start, next)
    requires SlotOf(next) != 0 ==> Holds(vol, start, next, buffer)
    requires NextStop(vol, start, i, max) == NextStop(vol, start, next, max)
    ensures done ==> Stopped(vol, start, i, max, next, r, next')
    ensures !done ==> next' == next + 1 && next' <= max && Resumable(vol, start, next')
    ensures !done ==> NextStop(vol, start, i, max) == NextStop(vol, start, next', max)
    ensures !done ==> (SlotOf(next') != 0 ==> Holds(vol, start, next', buffer'))
  {
    var e;
    e, buffer' := LoadEntry(vol, start, next, buffer);
    if e.Err? {
      StopsAtFailure(vol, start, i, max, next);
      return Failed(e.error), true, next, buffer';
    }
    if e.value.name[0] == EndMarker {
      StopsAtEntry(vol, start, i, max, next, e.value);
      return End, true, next + 1, buffer';
    }
    if Skipped(e.value) {
      EntryBytes(vol, start, next);
      SkipAdvances(vol, start, i, max, next, buffer');
      return End, false, next + 1, buffer';
    }
    StopsAtEntry(vol, start, i, max, next, e.value);
    return Found(ToDirEntry(e.value)), true, next + 1, buffer';
  }

  /** dir_open: only a path that starts with a backslash (the root) is accepted. */
  method DirOpen(vol: Volume, dirPath: seq<byte>) returns (r: Result<DirCursor>)
    requires VolumeValid(vol)
    ensures r.Ok? <==> |dirPath| > 0 && dirPath[0] == Backslash
    ensures r.Err? ==> r.error == NotFound
    ensures r.Ok? ==> fresh(r.value) && r.value.Valid() && r.value.volume == vol && r.value.currentEntry == 0
  {
    if |dirPath| == 0 || dirPath[0] != Backslash {
      return Err(NotFound);
    }
    var dir := new DirCursor(vol);
    return Ok(dir);
  }
}

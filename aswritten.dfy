/**
 * dir_read exactly as the source writes it, where a call that resumes in the
 * middle of a sector decodes its local buffer without refilling it, set
 * against the corrected reader of module Directory.
 */
module AsWritten {
  import opened Bytes
  import opened Wrappers
  import opened Layout
  import opened Disk
  import opened Fat
  import opened Directory

  /**
   * The loop of dir_read as the source writes it, from entry `i`, where
   * `buffer` is what its local sector buffer holds: the entry where it stops
   * and the buffer at that point. The buffer is refilled only at the first
   * entry of a sector, so a call that resumes mid-sector tests whatever the
   * buffer held when the call began. It never stops before `i` or past the
   * capacity, and where it stops at an entry it tested, that entry, as the
   * buffer holds it, is not one the loop skips.
   */
  function AsWrittenStop(vol: Volume, start: nat, i: nat, max: nat, buffer: seq<byte>): (r: (nat, seq<byte>))
    requires |buffer| == SectorSize
    ensures |r.1| == SectorSize
    ensures i <= r.0 && (i <= max ==> r.0 <= max)
    ensures r.0 < max && !(SlotOf(r.0) == 0 && (SectorOf(r.0) >= vol.rootDirSectors || !SectorReadable(vol.disk, start + SectorOf(r.0)))) ==>
              !SkippedBytes(r.1[EntrySize * SlotOf(r.0) + NameAt], r.1[EntrySize * SlotOf(r.0) + AttrAt])
    decreases max - i
  {
    if i >= max then (i, buffer)
    else if SlotOf(i) == 0 && (SectorOf(i) >= vol.rootDirSectors || !SectorReadable(vol.disk, start + SectorOf(i))) then (i, buffer)
    else
      var sector := if SlotOf(i) == 0 then SectorAt(vol, start + SectorOf(i)) else buffer;
      if SkippedBytes(sector[EntrySize * SlotOf(i) + NameAt], sector[EntrySize * SlotOf(i) + AttrAt])
      then AsWrittenStop(vol, start, i + 1, max, sector)
      else (i, sector)
  }

  /** What dir_read as written reports at entry `j`, where its loop stops, with `sector` in its buffer. */
  function ReportAt(vol: Volume, start: nat, j: nat, max: nat, sector: seq<byte>): (DirResult, nat)
    requires |sector| == SectorSize
  {
    if j >= max then (End, j)
    else if SlotOf(j) == 0 && SectorOf(j) >= vol.rootDirSectors then (Failed(NoSuchDevice), j)
    else if SlotOf(j) == 0 && !SectorReadable(vol.disk, start + SectorOf(j)) then (Failed(IoError), j)
    else if sector[EntrySize * SlotOf(j) + NameAt] == EndMarker then (End, j + 1)
    else (Found(ToDirEntry(EntryOfSector(sector, SlotOf(j)))), j + 1)
  }

  /** dir_read as written, from entry `i` with `buffer` in its local buffer: the result and the new entry index. */
  function ScanAsWritten(vol: Volume, start: nat, i: nat, max: nat, buffer: seq<byte>): (DirResult, nat)
    requires |buffer| == SectorSize
  {
    var stop := AsWrittenStop(vol, start, i, max, buffer);
    ReportAt(vol, start, stop.0, max, stop.1)
  }

  /**
   * A call that starts at the first entry of a sector refills the buffer
   * before it tests anything, so what the buffer held does not matter.
   */
  lemma SectorStartIgnoresBuffer(vol: Volume, start: nat, i: nat, max: nat, b1: seq<byte>, b2: seq<byte>)
    requires SlotOf(i) == 0 && |b1| == SectorSize && |b2| == SectorSize
    ensures ScanAsWritten(vol, start, i, max, b1) == ScanAsWritten(vol, start, i, max, b2)
  {
    if i < max && SectorOf(i) < vol.rootDirSectors && SectorReadable(vol.disk, start + SectorOf(i)) {
      assert AsWrittenStop(vol, start, i, max, b1) == AsWrittenStop(vol, start, i, max, b2);
    }
  }

  /**
   * The example's boot sector: 512-byte sectors, one sector per cluster, one
   * reserved sector, one FAT copy of one sector, 16 root-directory entries
   * (one sector) and 100 sectors in all.
   */
  function StaleBoot(): BootSector
  {
    BootSector(512, 1, 1, 1, 16, 100, 1, 0, 0xAA55)
  }

  /** A sector of zero bytes. */
  function ZeroSector(): seq<byte>
  {
    seq(SectorSize, _ => 0)
  }

  /** The example image: the encoded boot sector, a zeroed FAT, and a root-directory sector of 'A' bytes (0x41, live entries). */
  function StaleImage(): Image
  {
    EncodeBootSector(StaleBoot()) + ZeroSector() + seq(SectorSize, _ => 0x41)
  }

  /** The volume fat_open mounts from the example image (StaleExampleMounts). */
  function StaleExample(): Volume
  {
    Volume(StaleImage(), 0, StaleBoot(), ZeroSector(), 512, 1, 3, 100, 97, 97)
  }

  /** Any image of at least three sectors that starts with the example's boot sector mounts from sector 0, with sector 1 as its FAT. */
  lemma StaleBootMounts(disk: Image)
    requires |disk| >= 3 * SectorSize && disk[..SectorSize] == EncodeBootSector(StaleBoot())
    ensures FatOpen(disk, 0) == Ok(Volume(disk, 0, StaleBoot(), disk[SectorSize..2 * SectorSize], 512, 1, 3, 100, 97, 97))
  {
    StaleBootRead(disk);
    StaleBootAccepted();
    StaleFatRead(disk);
    FatOpenIsGeometry(disk, 0);
  }

  /** The boot sector read back from such an image decodes to the example's fields. */
  lemma StaleBootRead(disk: Image)
    requires |disk| >= SectorSize && disk[..SectorSize] == EncodeBootSector(StaleBoot())
    ensures SectorReadable(disk, 0) && DecodeBootSector(DiskRead(disk, 0, true, 1).value) == StaleBoot()
  {
    BootSectorRoundTrip(StaleBoot());
    assert DiskRead(disk, 0, true, 1).value == EncodeBootSector(StaleBoot());
  }

  /** fat_open accepts the example's boot sector. */
  lemma StaleBootAccepted()
    ensures BootSectorAccepted(StaleBoot())
  {
    assert ClusterSizeValid(1);
  }

  /** Its single FAT copy is sector 1, which reads. */
  lemma StaleFatRead(disk: Image)
    requires |disk| >= 3 * SectorSize
    ensures FatsAgree(disk, 0, StaleBoot())
    ensures DiskRead(disk, FatStart(0, StaleBoot()), true, 1).value == disk[SectorSize..2 * SectorSize]
  {
  }

  /** The example image's first two sectors are the encoded boot sector and the zeroed FAT. */
  lemma StaleImageSectors()
    ensures |StaleImage()| == 3 * SectorSize
    ensures StaleImage()[..SectorSize] == EncodeBootSector(StaleBoot())
    ensures StaleImage()[SectorSize..2 * SectorSize] == ZeroSector()
  {
    var boot := EncodeBootSector(StaleBoot());
    var zeros := ZeroSector();
    var live: seq<byte> := seq(SectorSize, _ => 0x41);
    assert StaleImage() == boot + zeros + live;
    assert (boot + zeros + live)[..SectorSize] == boot;
    assert (boot + zeros + live)[SectorSize..2 * SectorSize] == zeros;
  }

  /** fat_open on the example image from sector 0 succeeds with StaleExample, whose root directory is sector 2. */
  lemma StaleExampleMounts()
    ensures FatOpen(StaleImage(), 0) == Ok(StaleExample())
    ensures RootDirStart(StaleExample().firstSector, StaleExample().boot) == 2
  {
    StaleImageSectors();
    StaleBootMounts(StaleImage());
  }

  lemma StaleExampleValid()
    ensures VolumeValid(StaleExample()) && RootDirStart(StaleExample().firstSector, StaleExample().boot) == 2
  {
    StaleExampleMounts();
    FatOpenValid(StaleImage(), 0);
  }

  /** Entries 0 and 1 of the example are live, so a call from either one returns it. */
  lemma StaleExampleLive(k: nat)
    requires k < 2
    ensures Resumable(StaleExample(), 2, k)
    ensures ScanDir(StaleExample(), 2, k, 16).0.Found? && ScanDir(StaleExample(), 2, k, 16).1 == k + 1
  {
    var vol := StaleExample();
    assert SectorReadable(vol.disk, 2);
    assert !HasAttr(0x41, AttrVolumeLabel);
    assert NameByteAt(vol, 2, k) == 0x41 && AttrByteAt(vol, 2, k) == 0x41;
    NextStopStep(vol, 2, k, 16);
    ScanDirCases(vol, 2, k, 16);
  }

  /** On the example, the first dir_read as written returns what the intended reader returns, whatever its buffer held. */
  lemma StaleExampleFirstRead(buffer: seq<byte>)
    requires |buffer| == SectorSize
    ensures ScanAsWritten(StaleExample(), 2, 0, 16, buffer) == ScanDir(StaleExample(), 2, 0, 16)
  {
    var vol := StaleExample();
    StaleFirstStop(buffer);
    StaleFirstReport();
    ScanDirAt(vol, 2, 0, 0, 16);
  }

  /** The intended read from entry 0 stops there, and the as-written report from the buffered sector is StopResult's. */
  lemma StaleFirstReport()
    ensures NextStop(StaleExample(), 2, 0, 16) == 0
    ensures ReportAt(StaleExample(), 2, 0, 16, SectorAt(StaleExample(), 2)) == StopResult(StaleExample(), 2, 0, 16)
  {
    var vol := StaleExample();
    StaleExampleLive(0);
    NextStopStep(vol, 2, 0, 16);
    var e := EntryAt(vol, 2, 0);
    EntryBytes(vol, 2, 0);
    StopAtEntry(vol, 2, 0, 16, e);
  }

  /** The first call as written stops at entry 0 with the example's directory sector in its buffer. */
  lemma StaleFirstStop(buffer: seq<byte>)
    requires |buffer| == SectorSize
    ensures AsWrittenStop(StaleExample(), 2, 0, 16, buffer) == (0, SectorAt(StaleExample(), 2))
  {
    var sector := SectorAt(StaleExample(), 2);
    assert sector[NameAt] == 0x41 && sector[AttrAt] == 0x41;
    assert !HasAttr(0x41, AttrVolumeLabel);
  }

  /**
   * On the volume fat_open mounts from the example image (StaleExampleMounts),
   * the first dir_read returns entry 0 and leaves the cursor at
   * entry 1. The second call, as written, decodes a zeroed buffer, reports the
   * end of the directory and moves to entry 2; the intended read returns entry
   * 1 and moves to entry 2.
   */
  lemma ResumedReadSeesStaleBuffer()
    ensures var vol := StaleExample();
            var stale := ZeroSector();
            && VolumeValid(vol) && RootDirStart(vol.firstSector, vol.boot) == 2
            && ScanDir(vol, 2, 0, 16).0.Found? && ScanDir(vol, 2, 0, 16).1 == 1
            && ScanAsWritten(vol, 2, 1, 16, stale) == (End, 2)
            && ScanDir(vol, 2, 1, 16).0.Found? && ScanDir(vol, 2, 1, 16).1 == 2
  {
    StaleExampleValid();
    StaleExampleLive(0);
    StaleExampleLive(1);
    var stale := ZeroSector();
    assert stale[EntrySize * SlotOf(1) + NameAt] == 0;
  }
}

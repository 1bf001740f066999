/**
 * find_fat16_partition: the start sector of the first FAT16 partition listed
 * in the MBR partition table of sector 0, or 0 when there is none.
 */
module Partition {
  import opened Bytes
  import opened Wrappers
  import opened Layout
  import opened Disk

  /** The partition table: four 16-byte entries from byte 446 of sector 0. */
  const TableAt: nat := 446
  const EntryCount: nat := 4
  const PartitionEntrySize: nat := 16
  /** Within an entry: the partition type byte and the little-endian start sector (lba_first). */
  const TypeAt: nat := 4
  const LbaFirstAt: nat := 8
  /** The two type codes the reader takes for FAT16. */
  const TypeFat16Small: byte := 0x04
  const TypeFat16: byte := 0x06

  function PartitionType(mbr: seq<byte>, i: nat): byte
    requires |mbr| == SectorSize && i < EntryCount
  {
    mbr[TableAt + PartitionEntrySize * i + TypeAt]
  }

  function LbaFirst(mbr: seq<byte>, i: nat): uint32
    requires |mbr| == SectorSize && i < EntryCount
  {
    LE32(mbr, TableAt + PartitionEntrySize * i + LbaFirstAt)
  }

  predicate IsFat16(mbr: seq<byte>, i: nat)
    requires |mbr| == SectorSize && i < EntryCount
  {
    PartitionType(mbr, i) == TypeFat16Small || PartitionType(mbr, i) == TypeFat16
  }

  /** The first entry from `i` on whose type is FAT16, or 4 when there is none. */
  function FirstFat16(mbr: seq<byte>, i: nat): nat
    requires |mbr| == SectorSize && i <= EntryCount
    decreases EntryCount - i
  {
    if i == EntryCount then EntryCount
    else if IsFat16(mbr, i) then i
    else FirstFat16(mbr, i + 1)
  }

  lemma {:induction false} FirstFat16Meaning(mbr: seq<byte>, i: nat)
    requires |mbr| == SectorSize && i <= EntryCount
    ensures var k := FirstFat16(mbr, i);
            i <= k <= EntryCount && (k < EntryCount ==> IsFat16(mbr, k)) &&
            forall j :: i <= j < k ==> !IsFat16(mbr, j)
    decreases EntryCount - i
  {
    if i < EntryCount && !IsFat16(mbr, i) {
      FirstFat16Meaning(mbr, i + 1);
    }
  }

  /** What the scan of a readable sector 0 returns. */
  function TableStart(mbr: seq<byte>): uint32
    requires |mbr| == SectorSize
  {
    var k := FirstFat16(mbr, 0);
    if k < EntryCount then LbaFirst(mbr, k) else 0
  }

  /** What find_fat16_partition returns: 0 when sector 0 cannot be read, else the scan of its partition table. */
  function Fat16PartitionStart(disk: Image): uint32
  {
    match DiskRead(disk, 0, true, 1)
    case Err(_) => 0
    case Ok(mbr) => TableStart(mbr)
  }

  /**
   * The lowest-numbered FAT16 entry wins: when entry `i` is FAT16 and no
   * earlier one is, the result is its lba_first, whatever later entries hold.
   */
  lemma TableStartAt(mbr: seq<byte>, i: nat)
    requires |mbr| == SectorSize && i < EntryCount && IsFat16(mbr, i)
    requires forall j :: 0 <= j < i ==> !IsFat16(mbr, j)
    ensures TableStart(mbr) == LbaFirst(mbr, i)
  {
    FirstFat16Meaning(mbr, 0);
  }

  /** With no FAT16 entry the result is 0; a result other than 0 is the lba_first of some FAT16 entry. */
  lemma TableStartNone(mbr: seq<byte>)
    requires |mbr| == SectorSize
    ensures (forall j :: 0 <= j < EntryCount ==> !IsFat16(mbr, j)) ==> TableStart(mbr) == 0
    ensures TableStart(mbr) != 0 ==> exists j :: 0 <= j < EntryCount && IsFat16(mbr, j) && TableStart(mbr) == LbaFirst(mbr, j)
  {
    FirstFat16Meaning(mbr, 0);
  }

  /** An image too short to hold sector 0 has no partition to report. */
  lemma UnreadableSectorZero(disk: Image)
    requires |disk| < SectorSize
    ensures Fat16PartitionStart(disk) == 0
  {
  }

  /** The for-loop of find_fat16_partition over the four entries, with its early return. */
  method ScanTable(mbr: seq<byte>) returns (lba: uint32)
    requires |mbr| == SectorSize
    ensures lba == TableStart(mbr)
  {
    var i := 0;
    while i < EntryCount
      invariant i <= EntryCount && FirstFat16(mbr, i) == FirstFat16(mbr, 0)
    {
      var t := mbr[TableAt + PartitionEntrySize * i + TypeAt];
      if t == TypeFat16Small || t == TypeFat16 {
        return LE32(mbr, TableAt + PartitionEntrySize * i + LbaFirstAt);
      }
      i := i + 1;
    }
    return 0;
  }

  /** find_fat16_partition: read sector 0, then scan its table. */
  method FindFat16Partition(disk: Image) returns (lba: uint32)
    ensures lba == Fat16PartitionStart(disk)
  {
    var rd := DiskRead(disk, 0, true, 1);
    if rd.Err? {
      return 0;
    }
    lba := ScanTable(rd.value);
  }

  /** A table whose second entry is FAT16 (0x06) behind a non-FAT entry reports that entry's start, not a later FAT16 one. */
  lemma ExampleTable(mbr: seq<byte>)
    requires |mbr| == SectorSize
    requires mbr[446 + 4] == 0x83 && mbr[462 + 4] == 0x06 && mbr[478 + 4] == 0x04
    requires mbr[462 + 8] == 0x00 && mbr[462 + 9] == 0x08 && mbr[462 + 10] == 0 && mbr[462 + 11] == 0
    ensures TableStart(mbr) == 2048
  {
    assert !IsFat16(mbr, 0) && IsFat16(mbr, 1);
    TableStartAt(mbr, 1);
  }
}

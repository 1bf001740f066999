/**
 * The disk image: a byte sequence whose length is the image size, read in
 * whole 512-byte sectors.
 */
module Disk {
  import opened Bytes
  import opened Wrappers
  import opened Layout

  type Image = seq<byte>

  /** A call to disk_read with these arguments passes the bounds checks. */
  predicate CanRead(disk: Image, firstSector: int, hasBuffer: bool, sectorsToRead: int)
  {
    firstSector >= 0 && hasBuffer && sectorsToRead > 0 &&
    (firstSector + sectorsToRead) * SectorSize <= |disk|
  }

  /**
   * disk_read: `sectorsToRead` sectors starting at `firstSector`; `hasBuffer`
   * is false when the caller passes no buffer. On success the source returns
   * `sectorsToRead`, which is |value| / 512 here.
   */
  function DiskRead(disk: Image, firstSector: int, hasBuffer: bool, sectorsToRead: int): (r: Result<seq<byte>>)
    ensures r.Ok? <==> CanRead(disk, firstSector, hasBuffer, sectorsToRead)
    ensures r.Ok? ==> |r.value| == sectorsToRead * SectorSize
    ensures r.Err? && (firstSector < 0 || !hasBuffer || sectorsToRead <= 0) ==> r.error == InvalidArgument
    ensures r.Err? && firstSector >= 0 && hasBuffer && sectorsToRead > 0 ==> r.error == OutOfRange
  {
    if firstSector < 0 || !hasBuffer || sectorsToRead <= 0 then Err(InvalidArgument)
    else if (firstSector + sectorsToRead) * SectorSize > |disk| then Err(OutOfRange)
    else Ok(disk[firstSector * SectorSize .. (firstSector + sectorsToRead) * SectorSize])
  }

  /** A successful read copies the image bytes from offset `firstSector` * 512 on, in order. */
  lemma DiskReadContents(disk: Image, firstSector: int, sectorsToRead: int, i: int)
    requires DiskRead(disk, firstSector, true, sectorsToRead).Ok?
    requires 0 <= i < sectorsToRead * SectorSize
    ensures DiskRead(disk, firstSector, true, sectorsToRead).value[i] == disk[firstSector * SectorSize + i]
  {
  }

  /** disk_read takes its sector number as `int32_t`; its callers hold it as `uint32_t`. */
  const Int32Limit: nat := 0x8000_0000

  /** The `(int32_t)` conversion of a `uint32_t` sector number: from 2^31 on it is negative. */
  function AsInt32(x: uint32): int
  {
    if x < Int32Limit then x else x - 0x1_0000_0000
  }

  /**
   * Through the conversion a sector number from 2^31 on fails with EFAULT,
   * whatever the image holds; below 2^31 the read is the plain one.
   */
  lemma ReadAsInt32(disk: Image, x: uint32, sectorsToRead: int)
    ensures x >= Int32Limit ==> DiskRead(disk, AsInt32(x), true, sectorsToRead) == Err(InvalidArgument)
    ensures x < Int32Limit ==> DiskRead(disk, AsInt32(x), true, sectorsToRead) == DiskRead(disk, x, true, sectorsToRead)
  {
  }

  /** One sector of a readable image. */
  predicate SectorReadable(disk: Image, sector: int)
  {
    CanRead(disk, sector, true, 1)
  }

  /** Reading a run of sectors equals reading its two halves, and the run is readable exactly when both halves are. */
  lemma DiskReadSplit(disk: Image, first: int, a: int, b: int)
    requires first >= 0 && a > 0 && b > 0
    ensures DiskRead(disk, first, true, a + b).Ok? <==>
            DiskRead(disk, first, true, a).Ok? && DiskRead(disk, first + a, true, b).Ok?
    ensures DiskRead(disk, first, true, a + b).Ok? ==>
            DiskRead(disk, first, true, a + b).value ==
            DiskRead(disk, first, true, a).value + DiskRead(disk, first + a, true, b).value
  {
    if DiskRead(disk, first, true, a + b).Ok? {
      var whole := DiskRead(disk, first, true, a + b).value;
      var left := DiskRead(disk, first, true, a).value;
      var right := DiskRead(disk, first + a, true, b).value;
      assert |whole| == |left + right|;
      assert |left| == a * SectorSize;
      forall i | 0 <= i < |whole| ensures whole[i] == (left + right)[i] {
        DiskReadContents(disk, first, a + b, i);
        if i < |left| {
          DiskReadContents(disk, first, a, i);
        } else {
          DiskReadContents(disk, first + a, b, i - |left|);
          assert (first + a) * SectorSize + (i - |left|) == first * SectorSize + i;
        }
      }
    }
  }
}

/**
 * Mounting a FAT16 volume (fat_open): validate the boot sector, load the first
 * FAT copy, require the second copy (if any) to match, derive the geometry.
 */
module Fat {
  import opened Bytes
  import opened Wrappers
  import opened Layout
  import opened Disk

  /** An open volume: what volume_t holds. `disk` is the image it reads from. */
  datatype Volume = Volume(
    disk: Image,
    firstSector: uint32,
    boot: BootSector,
    fat: seq<byte>,
    fatSize: nat,
    rootDirSectors: nat,
    firstDataSector: nat,
    totalSectors: nat,
    dataSectors: uint32,
    totalClusters: nat)

  // The boot-sector checks, in the source's order; each failure is EINVAL.

  /**
   * A power of two in [1, 128], tested the way the source does: `spc & (spc - 1)`
   * is zero. The subtraction is done on the 8-bit value; the zero test comes
   * first, so it never wraps.
   */
  predicate ClusterSizeValid(spc: byte)
  {
    spc != 0 && spc <= 128 && (spc as bv8) & ((spc as bv8) - 1) == 0
  }

  predicate ReservedAndFatCountValid(b: BootSector)
  {
    b.reservedSectors != 0 && (b.fatCount == 1 || b.fatCount == 2)
  }

  predicate RootDirAligned(b: BootSector)
  {
    (b.rootDirCapacity * EntrySize) % SectorSize == 0
  }

  /** The two logical-sector checks exactly as the source writes them. */
  predicate LogicalSectorsValid(b: BootSector)
  {
    !((b.logicalSectors16 != 0 && b.logicalSectors32 != 0) ||
      (b.logicalSectors16 == 0 && b.logicalSectors32 == 0)) &&
    !(b.logicalSectors16 == 0 && b.logicalSectors32 <= 65535)
  }

  predicate FatSizeAndMagicValid(b: BootSector)
  {
    b.sectorsPerFat >= 1 && b.magic == 0xAA55
  }

  predicate BootSectorAccepted(b: BootSector)
  {
    ClusterSizeValid(b.sectorsPerCluster) && ReservedAndFatCountValid(b) &&
    RootDirAligned(b) && LogicalSectorsValid(b) && FatSizeAndMagicValid(b)
  }

  /** The bit test accepts exactly the eight powers of two from 1 to 128. */
  lemma SingleBit(x: bv8)
    ensures (x != 0 && x <= 128 && x & (x - 1) == 0) <==>
            (x == 1 || x == 2 || x == 4 || x == 8 || x == 16 || x == 32 || x == 64 || x == 128)
  {
  }

  lemma ClusterSizeIsPowerOfTwo(spc: byte)
    ensures ClusterSizeValid(spc) <==> spc in {1, 2, 4, 8, 16, 32, 64, 128}
  {
    var x := spc as bv8;
    SingleBit(x);
    ByteAsBits(spc);
  }

  /** The 8-bit view of a byte is the byte: equal to a power of two as bits exactly when as a number. */
  lemma ByteAsBits(spc: byte)
    ensures var x := spc as bv8;
            (x == 1 <==> spc == 1) && (x == 2 <==> spc == 2) && (x == 4 <==> spc == 4) && (x == 8 <==> spc == 8) &&
            (x == 16 <==> spc == 16) && (x == 32 <==> spc == 32) && (x == 64 <==> spc == 64) && (x == 128 <==> spc == 128)
  {
  }

  /**
   * The two logical-sector checks together accept exactly: a nonzero 16-bit
   * count with a zero 32-bit count, or a zero 16-bit count with a 32-bit count
   * above 65535.
   */
  lemma LogicalSectorsCases(b: BootSector)
    ensures LogicalSectorsValid(b) <==>
            (b.logicalSectors16 != 0 && b.logicalSectors32 == 0) ||
            (b.logicalSectors16 == 0 && b.logicalSectors32 > 65535)
  {
  }

  /** The first sector of the root directory: after the reserved sectors and every FAT copy. */
  function RootDirStart(firstSector: nat, b: BootSector): nat
  {
    firstSector + b.reservedSectors + b.fatCount * b.sectorsPerFat
  }

  /** The geometry fat_open derives once the FAT is loaded. */
  function Geometry(disk: Image, firstSector: uint32, b: BootSector, fat: seq<byte>): Volume
    requires b.sectorsPerCluster != 0
  {
    var rootDirSectors := (b.rootDirCapacity * 32 + (SectorSize - 1)) / SectorSize;
    var firstDataSector := RootDirStart(firstSector, b) + rootDirSectors;
    var totalSectors := if b.logicalSectors16 != 0 then b.logicalSectors16 as nat else b.logicalSectors32 as nat;
    // uint32 subtraction: wraps when the image claims fewer sectors than its metadata occupies
    var dataSectors := (totalSectors - (firstDataSector - firstSector)) % 0x1_0000_0000;
    Volume(disk, firstSector, b, fat, b.sectorsPerFat * SectorSize, rootDirSectors,
           firstDataSector, totalSectors, dataSectors, dataSectors / b.sectorsPerCluster)
  }

  function FatStart(firstSector: nat, b: BootSector): nat
  {
    firstSector + b.reservedSectors
  }

  /**
   * fat_open. Every sector number goes to disk_read through `(int32_t)`, so one
   * from 2^31 on fails with EFAULT. The boot sector is checked here; LoadFat
   * does the rest.
   */
  function FatOpen(disk: Image, firstSector: uint32): (r: Result<Volume>)
    ensures r.Ok? <==>
            firstSector < Int32Limit && SectorReadable(disk, firstSector) &&
            var b := DecodeBootSector(DiskRead(disk, firstSector, true, 1).value);
            BootSectorAccepted(b) && FatsAgree(disk, firstSector, b)
    ensures r.Ok? ==> r.value.disk == disk && r.value.firstSector == firstSector
    ensures r.Ok? ==> BootSectorAccepted(r.value.boot) &&
                      r.value.boot == DecodeBootSector(disk[firstSector * SectorSize..(firstSector + 1) * SectorSize])
  {
    match DiskRead(disk, AsInt32(firstSector), true, 1)
    case Err(e) => Err(e)
    case Ok(sector) =>
      var b := DecodeBootSector(sector);
      if !ClusterSizeValid(b.sectorsPerCluster) then Err(Invalid)
      else if !ReservedAndFatCountValid(b) then Err(Invalid)
      else if !RootDirAligned(b) then Err(Invalid)
      else if !LogicalSectorsValid(b) then Err(Invalid)
      else if !FatSizeAndMagicValid(b) then Err(Invalid)
      else LoadFat(disk, firstSector, b)
  }

  /**
   * The FAT copies of an accepted boot sector: every copy lies below sector
   * 2^31 and reads, and a second copy equals the first.
   */
  predicate FatsAgree(disk: Image, firstSector: nat, b: BootSector)
  {
    FatStart(firstSector, b) < Int32Limit &&
    DiskRead(disk, FatStart(firstSector, b), true, b.sectorsPerFat).Ok? &&
    (b.fatCount == 2 ==>
       FatStart(firstSector, b) + b.sectorsPerFat < Int32Limit &&
       DiskRead(disk, FatStart(firstSector, b) + b.sectorsPerFat, true, b.sectorsPerFat).Ok? &&
       DiskRead(disk, FatStart(firstSector, b), true, b.sectorsPerFat).value ==
       DiskRead(disk, FatStart(firstSector, b) + b.sectorsPerFat, true, b.sectorsPerFat).value)
  }

  /**
   * The second half of fat_open: load the first FAT copy, compare the second
   * one (if any), derive the geometry. With `firstSector` below 2^31 the
   * `uint32_t` sums for the copies stay below 2^32 and never wrap.
   */
  function LoadFat(disk: Image, firstSector: uint32, b: BootSector): (r: Result<Volume>)
    requires firstSector < Int32Limit && BootSectorAccepted(b)
    ensures r.Ok? <==> FatsAgree(disk, firstSector, b)
    ensures r.Ok? ==> r.value == Geometry(disk, firstSector, b, DiskRead(disk, FatStart(firstSector, b), true, b.sectorsPerFat).value)
  {
    var fatStart := FatStart(firstSector, b);
    match DiskRead(disk, AsInt32(fatStart), true, b.sectorsPerFat)
    case Err(e) => Err(e)
    case Ok(fat) =>
      if b.fatCount == 2 then
        match DiskRead(disk, AsInt32(fatStart + b.sectorsPerFat), true, b.sectorsPerFat)
        case Err(e) => Err(e)
        case Ok(fat2) => if fat != fat2 then Err(Invalid) else Ok(Geometry(disk, firstSector, b, fat))
      else Ok(Geometry(disk, firstSector, b, fat))
  }

  /**
   * How a mount fails before the FAT is read: EFAULT for a first sector from
   * 2^31 on, ERANGE when that sector is past the image, and EINVAL for every
   * rejected boot-sector field.
   */
  lemma FatOpenRejects(disk: Image, firstSector: uint32)
    ensures firstSector >= Int32Limit ==> FatOpen(disk, firstSector) == Err(InvalidArgument)
    ensures firstSector < Int32Limit && !SectorReadable(disk, firstSector) ==> FatOpen(disk, firstSector) == Err(OutOfRange)
    ensures firstSector < Int32Limit && SectorReadable(disk, firstSector) &&
            !BootSectorAccepted(DecodeBootSector(DiskRead(disk, firstSector, true, 1).value)) ==>
              FatOpen(disk, firstSector) == Err(Invalid)
  {
    ReadAsInt32(disk, firstSector, 1);
  }

  /** What every mounted volume satisfies; the directory reader and file handles rely on it. */
  predicate VolumeValid(v: Volume)
  {
    v.firstSector < Int32Limit && BootSectorAccepted(v.boot) &&
    v.fatSize == v.boot.sectorsPerFat * SectorSize && |v.fat| == v.fatSize &&
    v.rootDirSectors * SectorSize == v.boot.rootDirCapacity * EntrySize &&
    v.firstDataSector == RootDirStart(v.firstSector, v.boot) + v.rootDirSectors
  }

  /** On a mounted volume the `uint32_t` sum giving the root directory's first sector does not wrap. */
  lemma RootDirStartFits(v: Volume)
    requires VolumeValid(v)
    ensures RootDirStart(v.firstSector, v.boot) < 0x1_0000_0000
  {
    assert v.boot.fatCount * v.boot.sectorsPerFat <= 2 * v.boot.sectorsPerFat;
  }

  /** A successful mount is the geometry of the decoded boot sector over the first FAT copy. */
  lemma FatOpenIsGeometry(disk: Image, firstSector: uint32)
    requires FatOpen(disk, firstSector).Ok?
    ensures var b := FatOpen(disk, firstSector).value.boot;
            var fatStart := FatStart(firstSector, b);
            && fatStart + b.sectorsPerFat <= |disk| / SectorSize
            && FatOpen(disk, firstSector).value ==
               Geometry(disk, firstSector, b, disk[fatStart * SectorSize .. (fatStart + b.sectorsPerFat) * SectorSize])
  {
  }

  /** The root directory spans exactly `capacity * 32` bytes once the capacity is sector-aligned. */
  lemma RootDirSectorsExact(b: BootSector)
    requires RootDirAligned(b)
    ensures (b.rootDirCapacity * 32 + (SectorSize - 1)) / SectorSize * SectorSize == b.rootDirCapacity * EntrySize
  {
    var x := b.rootDirCapacity * EntrySize;
    assert x == (x / 512) * 512;
    assert (x + 511) / 512 == x / 512;
  }

  /** Every mounted volume satisfies the invariant the directory reader and file handles rely on. */
  lemma FatOpenValid(disk: Image, firstSector: uint32)
    requires FatOpen(disk, firstSector).Ok?
    ensures VolumeValid(FatOpen(disk, firstSector).value)
  {
    FatOpenIsGeometry(disk, firstSector);
    RootDirSectorsExact(FatOpen(disk, firstSector).value.boot);
  }

  /**
   * The derived geometry: the root directory occupies ceil(capacity * 32 / 512)
   * sectors, data starts right after it, the sector count is whichever
   * logical-sector field is populated, and the cluster count is the number of
   * whole clusters in the data region.
   */
  lemma GeometryMeaning(disk: Image, firstSector: uint32, b: BootSector, fat: seq<byte>)
    requires BootSectorAccepted(b)
    ensures var v := Geometry(disk, firstSector, b, fat);
            && (v.rootDirSectors - 1) * SectorSize < b.rootDirCapacity * EntrySize <= v.rootDirSectors * SectorSize
            && v.firstDataSector == firstSector + b.reservedSectors + b.fatCount * b.sectorsPerFat + v.rootDirSectors
            && v.totalSectors > 0
            && v.totalSectors == (if b.logicalSectors16 != 0 then b.logicalSectors16 as nat else b.logicalSectors32 as nat)
            && v.totalClusters * b.sectorsPerCluster <= v.dataSectors < (v.totalClusters + 1) * b.sectorsPerCluster
  {
    var v := Geometry(disk, firstSector, b, fat);
    CeilSectors(b.rootDirCapacity * EntrySize);
    FloorClusters(v.dataSectors, b.sectorsPerCluster);
  }

  /** ceil(x / 512) sectors hold x bytes and one sector fewer does not. */
  lemma CeilSectors(x: nat)
    ensures var r := (x + (SectorSize - 1)) / SectorSize;
            (r - 1) * SectorSize < x <= r * SectorSize
  {
  }

  /** d / spc whole clusters fit in d sectors and one more does not. */
  lemma FloorClusters(d: nat, spc: nat)
    requires spc > 0
    ensures (d / spc) * spc <= d < (d / spc + 1) * spc
  {
    assert d == spc * (d / spc) + d % spc;
  }

  /**
   * Two FAT copies that differ in any byte make the mount fail with EINVAL, on
   * an image of at most 2^31 sectors, where no sector number reaches the
   * `(int32_t)` sign bit.
   */
  lemma FatMismatchRejected(disk: Image, firstSector: uint32, k: nat)
    requires |disk| <= Int32Limit * SectorSize && SectorReadable(disk, firstSector)
    requires var b := DecodeBootSector(DiskRead(disk, firstSector, true, 1).value);
             && BootSectorAccepted(b) && b.fatCount == 2
             && var f1 := FatStart(firstSector, b) * SectorSize;
                var f2 := (FatStart(firstSector, b) + b.sectorsPerFat) * SectorSize;
                && f2 + b.sectorsPerFat * SectorSize <= |disk|
                && k < b.sectorsPerFat * SectorSize && disk[f1 + k] != disk[f2 + k]
    ensures FatOpen(disk, firstSector) == Err(Invalid)
  {
    ReadAsInt32(disk, firstSector, 1);
    var b := DecodeBootSector(DiskRead(disk, firstSector, true, 1).value);
    LoadFatMismatch(disk, firstSector, b, k);
  }

  lemma LoadFatMismatch(disk: Image, firstSector: uint32, b: BootSector, k: nat)
    requires |disk| <= Int32Limit * SectorSize && firstSector < Int32Limit && BootSectorAccepted(b) && b.fatCount == 2
    requires var f1 := FatStart(firstSector, b) * SectorSize;
             var f2 := (FatStart(firstSector, b) + b.sectorsPerFat) * SectorSize;
             && f2 + b.sectorsPerFat * SectorSize <= |disk|
             && k < b.sectorsPerFat * SectorSize && disk[f1 + k] != disk[f2 + k]
    ensures LoadFat(disk, firstSector, b) == Err(Invalid)
  {
    var fatStart := FatStart(firstSector, b);
    var fat := DiskRead(disk, fatStart, true, b.sectorsPerFat).value;
    var fat2 := DiskRead(disk, fatStart + b.sectorsPerFat, true, b.sectorsPerFat).value;
    assert fat[k] != fat2[k];
    ReadAsInt32(disk, fatStart, b.sectorsPerFat);
    ReadAsInt32(disk, fatStart + b.sectorsPerFat, b.sectorsPerFat);
  }

  /** Every accepted cluster size is a power of two from 1 to 128. */
  lemma FatOpenClusterSize(disk: Image, firstSector: uint32)
    requires FatOpen(disk, firstSector).Ok?
    ensures FatOpen(disk, firstSector).value.boot.sectorsPerCluster in {1, 2, 4, 8, 16, 32, 64, 128}
  {
    ClusterSizeIsPowerOfTwo(FatOpen(disk, firstSector).value.boot.sectorsPerCluster);
  }
}

/**
 * The on-disk records the reader decodes: the FAT16 boot sector (BIOS parameter
 * block), the 32-byte directory entry, and the entry the directory reader hands
 * back. Every field is extracted explicitly, little-endian, from raw bytes.
 */
module Layout {
  import opened Bytes

  const SectorSize: nat := 512
  const Fat16EocMin: nat := 0xFFF8
  const Fat16BadCluster: nat := 0xFFF7
  const Fat16FreeCluster: nat := 0x0000

  const BootSectorSize: nat := 512
  const EntrySize: nat := 32
  const EntriesPerSector: nat := 16  // SectorSize / EntrySize

  const Space: byte := 0x20
  const Dot: byte := 0x2E
  const EndMarker: byte := 0x00
  const DeletedMarker: byte := 0xE5

  // Attribute bits of a directory entry.
  const AttrReadOnly: bv8 := 0x01
  const AttrHidden: bv8 := 0x02
  const AttrSystem: bv8 := 0x04
  const AttrVolumeLabel: bv8 := 0x08
  const AttrDirectory: bv8 := 0x10
  const AttrArchive: bv8 := 0x20
  const AttrLongName: byte := 0x0F

  // Byte offsets of the boot-sector fields the reader uses.
  const BytesPerSectorAt: nat := 11
  const SectorsPerClusterAt: nat := 13
  const ReservedSectorsAt: nat := 14
  const FatCountAt: nat := 16
  const RootDirCapacityAt: nat := 17
  const LogicalSectors16At: nat := 19
  const SectorsPerFatAt: nat := 22
  const LogicalSectors32At: nat := 32
  const MagicAt: nat := 510

  // Byte offsets of the directory-entry fields the reader uses.
  const NameAt: nat := 0
  const ExtensionAt: nat := 8
  const AttrAt: nat := 11
  const FirstClusterAt: nat := 26
  const SizeAt: nat := 28

  datatype BootSector = BootSector(
    bytesPerSector: uint16,
    sectorsPerCluster: byte,
    reservedSectors: uint16,
    fatCount: byte,
    rootDirCapacity: uint16,
    logicalSectors16: uint16,
    sectorsPerFat: uint16,
    logicalSectors32: uint32,
    magic: uint16)

  function DecodeBootSector(s: seq<byte>): BootSector
    requires |s| == BootSectorSize
  {
    BootSector(
      LE16(s, BytesPerSectorAt),
      s[SectorsPerClusterAt],
      LE16(s, ReservedSectorsAt),
      s[FatCountAt],
      LE16(s, RootDirCapacityAt),
      LE16(s, LogicalSectors16At),
      LE16(s, SectorsPerFatAt),
      LE32(s, LogicalSectors32At),
      LE16(s, MagicAt))
  }

  /** Byte `i` of a boot sector holding `b`, every byte the reader ignores being zero. */
  function BootSectorByte(b: BootSector, i: nat): byte
  {
    if i == BytesPerSectorAt || i == BytesPerSectorAt + 1 then Encode16(b.bytesPerSector)[i - BytesPerSectorAt]
    else if i == SectorsPerClusterAt then b.sectorsPerCluster
    else if i == ReservedSectorsAt || i == ReservedSectorsAt + 1 then Encode16(b.reservedSectors)[i - ReservedSectorsAt]
    else if i == FatCountAt then b.fatCount
    else if i == RootDirCapacityAt || i == RootDirCapacityAt + 1 then Encode16(b.rootDirCapacity)[i - RootDirCapacityAt]
    else if i == LogicalSectors16At || i == LogicalSectors16At + 1 then Encode16(b.logicalSectors16)[i - LogicalSectors16At]
    else if i == SectorsPerFatAt || i == SectorsPerFatAt + 1 then Encode16(b.sectorsPerFat)[i - SectorsPerFatAt]
    else if LogicalSectors32At <= i < LogicalSectors32At + 4 then Encode32(b.logicalSectors32)[i - LogicalSectors32At]
    else if i == MagicAt || i == MagicAt + 1 then Encode16(b.magic)[i - MagicAt]
    else 0
  }

  function EncodeBootSector(b: BootSector): (s: seq<byte>)
    ensures |s| == BootSectorSize
  {
    seq(BootSectorSize, (i: nat) => BootSectorByte(b, i))
  }

  /** The packed 512-byte layout decodes back to the fields it was built from; the signature sits in bytes 510-511. */
  lemma BootSectorRoundTrip(b: BootSector)
    ensures DecodeBootSector(EncodeBootSector(b)) == b
    ensures EncodeBootSector(b)[MagicAt..BootSectorSize] == Encode16(b.magic)
  {
    var s := EncodeBootSector(b);
    assert s[BytesPerSectorAt..BytesPerSectorAt + 2] == Encode16(b.bytesPerSector);
    assert s[ReservedSectorsAt..ReservedSectorsAt + 2] == Encode16(b.reservedSectors);
    assert s[RootDirCapacityAt..RootDirCapacityAt + 2] == Encode16(b.rootDirCapacity);
    assert s[LogicalSectors16At..LogicalSectors16At + 2] == Encode16(b.logicalSectors16);
    assert s[SectorsPerFatAt..SectorsPerFatAt + 2] == Encode16(b.sectorsPerFat);
    assert s[LogicalSectors32At..LogicalSectors32At + 4] == Encode32(b.logicalSectors32);
    assert s[MagicAt..MagicAt + 2] == Encode16(b.magic);
    LE16RoundTrip(s, BytesPerSectorAt, b.bytesPerSector);
    LE16RoundTrip(s, ReservedSectorsAt, b.reservedSectors);
    LE16RoundTrip(s, RootDirCapacityAt, b.rootDirCapacity);
    LE16RoundTrip(s, LogicalSectors16At, b.logicalSectors16);
    LE16RoundTrip(s, SectorsPerFatAt, b.sectorsPerFat);
    LE32RoundTrip(s, LogicalSectors32At, b.logicalSectors32);
    LE16RoundTrip(s, MagicAt, b.magic);
  }

  type Name8 = s: seq<byte> | |s| == 8 witness [Space, Space, Space, Space, Space, Space, Space, Space]
  type Ext3 = s: seq<byte> | |s| == 3 witness [Space, Space, Space]

  /** The fields of a 32-byte directory entry that the reader uses. */
  datatype FatEntry = FatEntry(name: Name8, extension: Ext3, attr: byte, firstCluster: uint16, size: uint32)

  function DecodeFatEntry(s: seq<byte>): FatEntry
    requires |s| == EntrySize
  {
    FatEntry(s[NameAt..NameAt + 8], s[ExtensionAt..ExtensionAt + 3], s[AttrAt],
             LE16(s, FirstClusterAt), LE32(s, SizeAt))
  }

  /** Byte `i` of a directory entry holding `e`; the time, date and reserved bytes are zero. */
  function FatEntryByte(e: FatEntry, i: nat): byte
  {
    if i < ExtensionAt then e.name[i]
    else if i < AttrAt then e.extension[i - ExtensionAt]
    else if i == AttrAt then e.attr
    else if FirstClusterAt <= i < SizeAt then Encode16(e.firstCluster)[i - FirstClusterAt]
    else if SizeAt <= i < EntrySize then Encode32(e.size)[i - SizeAt]
    else 0
  }

  function EncodeFatEntry(e: FatEntry): (s: seq<byte>)
    ensures |s| == EntrySize
  {
    seq(EntrySize, (i: nat) => FatEntryByte(e, i))
  }

  lemma FatEntryRoundTrip(e: FatEntry)
    ensures DecodeFatEntry(EncodeFatEntry(e)) == e
  {
    var s := EncodeFatEntry(e);
    assert s[NameAt..NameAt + 8] == e.name;
    assert s[ExtensionAt..ExtensionAt + 3] == e.extension;
    assert s[FirstClusterAt..FirstClusterAt + 2] == Encode16(e.firstCluster);
    assert s[SizeAt..SizeAt + 4] == Encode32(e.size);
    LE16RoundTrip(s, FirstClusterAt, e.firstCluster);
    LE32RoundTrip(s, SizeAt, e.size);
  }

  /** Entry `k` of a sector occupies bytes 32k .. 32k+31, so one sector holds exactly 16 entries. */
  function EntryOfSector(sector: seq<byte>, k: nat): FatEntry
    requires |sector| == SectorSize && k < EntriesPerSector
  {
    DecodeFatEntry(sector[EntrySize * k..EntrySize * k + EntrySize])
  }

  predicate HasAttr(attr: byte, mask: bv8)
  {
    (attr as bv8) & mask != 0
  }

  /** The bytes of `s` before its first space: the source's copy loop over a blank-padded field. */
  function UntilSpace(s: seq<byte>): (r: seq<byte>)
    ensures |r| <= |s| && r == s[..|r|]
    ensures forall k :: 0 <= k < |r| ==> r[k] != Space
    ensures |r| < |s| ==> s[|r|] == Space
  {
    if s == [] || s[0] == Space then [] else [s[0]] + UntilSpace(s[1..])
  }

  /**
   * The 8.3 name as the reader spells it: the name up to its first space, then,
   * only when the extension does not start with a space, '.' and the extension
   * up to its first space.
   */
  function DecodeName(name: Name8, extension: Ext3): (r: seq<byte>)
  {
    UntilSpace(name) + (if extension[0] != Space then [Dot] + UntilSpace(extension) else [])
  }

  /** At most 8 + 1 + 3 bytes, so the name and its terminator fit the 13-byte field. */
  lemma DecodeNameFits(name: Name8, extension: Ext3)
    ensures |DecodeName(name, extension)| <= 12
    ensures |DecodeName(name, extension)| > 8 ==> extension[0] != Space
  {
  }

  function Blanks(n: nat): (r: seq<byte>)
    ensures |r| == n && forall k :: 0 <= k < n ==> r[k] == Space
  {
    seq(n, _ => Space)
  }

  predicate NoSpace(s: seq<byte>)
  {
    forall k :: 0 <= k < |s| ==> s[k] != Space
  }

  lemma {:induction false} UntilSpacePadded(s: seq<byte>, n: nat)
    requires NoSpace(s)
    ensures UntilSpace(s + Blanks(n)) == s
  {
    if s != [] {
      assert (s + Blanks(n))[1..] == s[1..] + Blanks(n);
      UntilSpacePadded(s[1..], n);
    } else if n > 0 {
      assert (s + Blanks(n))[0] == Space;
    }
  }

  /** Blank-padding a space-free base name and extension is undone by the decoding rule. */
  lemma NameRoundTrip(base: seq<byte>, ext: seq<byte>)
    requires |base| <= 8 && |ext| <= 3 && NoSpace(base) && NoSpace(ext)
    ensures var n: Name8 := base + Blanks(8 - |base|);
            var x: Ext3 := ext + Blanks(3 - |ext|);
            DecodeName(n, x) == base + (if ext == [] then [] else [Dot] + ext)
  {
    UntilSpacePadded(base, 8 - |base|);
    UntilSpacePadded(ext, 3 - |ext|);
    var x: Ext3 := ext + Blanks(3 - |ext|);
    assert x[0] == Space <==> ext == [];
  }

  /** The C string a NUL-terminated byte buffer denotes: its bytes before the first NUL. */
  function CString(s: seq<byte>): (r: seq<byte>)
    ensures |r| <= |s| && r == s[..|r|]
    ensures forall k :: 0 <= k < |r| ==> r[k] != 0
    ensures |r| < |s| ==> s[|r|] == 0
  {
    if s == [] || s[0] == 0 then [] else [s[0]] + CString(s[1..])
  }

  type Flag = x: int | 0 <= x <= 1

  function FlagOf(b: bool): Flag { if b then 1 else 0 }

  /** What dir_read hands back for one entry. */
  datatype DirEntry = DirEntry(
    name: seq<byte>,
    size: uint32,
    isArchived: Flag,
    isReadOnly: Flag,
    isSystem: Flag,
    isHidden: Flag,
    isDirectory: Flag)

  function ToDirEntry(e: FatEntry): (d: DirEntry)
    ensures |d.name| <= 12 && d.size == e.size
  {
    DecodeNameFits(e.name, e.extension);
    DirEntry(DecodeName(e.name, e.extension), e.size,
             FlagOf(HasAttr(e.attr, AttrArchive)), FlagOf(HasAttr(e.attr, AttrReadOnly)),
             FlagOf(HasAttr(e.attr, AttrSystem)), FlagOf(HasAttr(e.attr, AttrHidden)),
             FlagOf(HasAttr(e.attr, AttrDirectory)))
  }

  /** Each flag of a listed entry is 1 exactly when its attribute bit is set. */
  lemma ToDirEntryFlags(e: FatEntry)
    ensures var d := ToDirEntry(e);
            (d.isArchived == 1 <==> HasAttr(e.attr, AttrArchive)) &&
            (d.isReadOnly == 1 <==> HasAttr(e.attr, AttrReadOnly)) &&
            (d.isSystem == 1 <==> HasAttr(e.attr, AttrSystem)) &&
            (d.isHidden == 1 <==> HasAttr(e.attr, AttrHidden)) &&
            (d.isDirectory == 1 <==> HasAttr(e.attr, AttrDirectory))
  {
  }
}

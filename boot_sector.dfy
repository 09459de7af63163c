/**
 * The MS-DOS boot sector (BIOS parameter block) of a partition: decoding
 * with FAT12/16/32 detection, the constructor's trimming of its strings, and
 * the in-place rewrite that rescales a large-sector BPB to 512-byte sectors.
 */
module BootSectors {
  import opened Wrappers
  import opened Bytes
  import opened Buffers
  import opened IntUtils
  import opened StringUtils
  import opened FileSystems

  datatype BootSector = BootSector(
    fileSystem: FileSystem,
    systemName: Option<string>,
    bytesPerSector: int,
    sectorsPerCluster: int,
    reservedSectors: int,
    numFATs: int,
    maxDirectoryEntries: int,
    sectors: int,
    mediaDescriptor: int,
    sectorsPerFAT: int,
    sectorsPerTrack: int,
    heads: int,
    hiddenSectors: int,
    serial: int,
    volumeLabel: Option<string>,
    typeName: Option<string>,
    checksum: int)

  function TrimOption(s: Option<string>): (r: Option<string>)
    ensures r.Some? <==> s.Some?
  {
    if s.Some? then Some(Trim(s.value)) else None
  }

  /**
   * The constructor: every argument is stored as given, except that a
   * non-null system name, label and type are trimmed. Its parameter order
   * puts the type before the label.
   */
  function NewBootSector(
    fileSystem: FileSystem, systemName: Option<string>, bytesPerSector: int, sectorsPerCluster: int,
    reservedSectors: int, numFATs: int, maxDirectoryEntries: int, sectors: int, mediaDescriptor: int,
    sectorsPerFAT: int, sectorsPerTrack: int, heads: int, hiddenSectors: int,
    typeName: Option<string>, volumeLabel: Option<string>, serial: int, checksum: int): (b: BootSector)
    ensures b.systemName.Some? <==> systemName.Some?
    ensures b.volumeLabel.Some? <==> volumeLabel.Some?
    ensures b.typeName.Some? <==> typeName.Some?
    ensures b.systemName.Some? ==> b.systemName.value == Trim(systemName.value)
    ensures b.volumeLabel.Some? ==> b.volumeLabel.value == Trim(volumeLabel.value)
    ensures b.typeName.Some? ==> b.typeName.value == Trim(typeName.value)
  {
    BootSector(fileSystem, TrimOption(systemName), bytesPerSector, sectorsPerCluster, reservedSectors,
      numFATs, maxDirectoryEntries, sectors, mediaDescriptor, sectorsPerFAT, sectorsPerTrack, heads,
      hiddenSectors, serial, TrimOption(volumeLabel), TrimOption(typeName), checksum)
  }

  /** Building a boot sector again from the getters of one gives the same boot sector. */
  lemma {:induction false} NewBootSectorStable(b: BootSector)
    requires b.systemName.Some? ==> Trim(b.systemName.value) == b.systemName.value
    requires b.volumeLabel.Some? ==> Trim(b.volumeLabel.value) == b.volumeLabel.value
    requires b.typeName.Some? ==> Trim(b.typeName.value) == b.typeName.value
    ensures NewBootSector(b.fileSystem, b.systemName, b.bytesPerSector, b.sectorsPerCluster,
      b.reservedSectors, b.numFATs, b.maxDirectoryEntries, b.sectors, b.mediaDescriptor,
      b.sectorsPerFAT, b.sectorsPerTrack, b.heads, b.hiddenSectors, b.typeName, b.volumeLabel,
      b.serial, b.checksum) == b
  {
  }

  /** The strings of a constructed boot sector are already trimmed. */
  lemma {:induction false} NewBootSectorTrimmed(
    fileSystem: FileSystem, systemName: Option<string>, bytesPerSector: int, sectorsPerCluster: int,
    reservedSectors: int, numFATs: int, maxDirectoryEntries: int, sectors: int, mediaDescriptor: int,
    sectorsPerFAT: int, sectorsPerTrack: int, heads: int, hiddenSectors: int,
    typeName: Option<string>, volumeLabel: Option<string>, serial: int, checksum: int)
    ensures var b := NewBootSector(fileSystem, systemName, bytesPerSector, sectorsPerCluster,
      reservedSectors, numFATs, maxDirectoryEntries, sectors, mediaDescriptor, sectorsPerFAT,
      sectorsPerTrack, heads, hiddenSectors, typeName, volumeLabel, serial, checksum);
      (b.systemName.Some? ==> Trim(b.systemName.value) == b.systemName.value)
      && (b.volumeLabel.Some? ==> Trim(b.volumeLabel.value) == b.volumeLabel.value)
      && (b.typeName.Some? ==> Trim(b.typeName.value) == b.typeName.value)
  {
    if systemName.Some? {
      TrimIdempotent(systemName.value);
    }
    if volumeLabel.Some? {
      TrimIdempotent(volumeLabel.value);
    }
    if typeName.Some? {
      TrimIdempotent(typeName.value);
    }
  }

  /** The number of bytes of the BPB the decoder reads: the FAT32 extension ends at 0x5A. */
  const BpbEnd: nat := 0x5A

  function U16(s: seq<byte>, i: nat): int
    requires i + 2 <= |s|
  {
    Unsigned16(s, i, LittleEndian)
  }

  function I32(s: seq<byte>, i: nat): int
    requires i + 4 <= |s|
  {
    Signed32(Unsigned32(s, i, LittleEndian))
  }

  function Str(s: seq<byte>, i: nat, n: nat): string
    requires i + n <= |s|
  {
    Ascii(s[i..i + n])
  }

  /**
   * The two magic-byte probes, in the order parse runs them: 0x29 at 0x26
   * marks FAT16, then 0x29 at 0x42 marks FAT32 whatever the first probe found.
   */
  function DetectFileSystem(s: seq<byte>): (fs: FileSystem)
    requires |s| >= BpbEnd
    ensures fs == FAT32 <==> s[0x42] == 0x29
    ensures fs == FAT16 <==> s[0x42] != 0x29 && s[0x26] == 0x29
    ensures fs == FAT12 <==> s[0x42] != 0x29 && s[0x26] != 0x29
  {
    var probed := if s[0x26] == 0x29 then FAT16 else FAT12;
    if s[0x42] == 0x29 then FAT32 else probed
  }

  /** Where the serial, label and type of the detected extension start (FAT12 has none). */
  function ExtensionBase(fs: FileSystem): (i: nat)
    ensures fs == FAT16 ==> i == 0x27
    ensures fs == FAT32 ==> i == 0x43
    ensures i + 0x17 <= BpbEnd
  {
    match fs
    case FAT12 => 0
    case FAT16 => 0x27
    case FAT32 => 0x43
  }

  /** The 16-bit sector count at 0x13, or when that is 0 the 32-bit one at 0x20 (read signed). */
  function SectorCount(s: seq<byte>): (n: int)
    requires |s| >= BpbEnd
    ensures U16(s, 0x13) != 0 ==> n == U16(s, 0x13)
    ensures U16(s, 0x13) == 0 ==> n == I32(s, 0x20) && -0x8000_0000 <= n < 0x8000_0000
  {
    var sectors16 := U16(s, 0x13);
    if sectors16 == 0 then I32(s, 0x20) else sectors16
  }

  /**
   * parse, on the bytes s of the little-endian slice that starts at the
   * buffer's position, with the checksum it takes over the buffer itself.
   */
  function DecodeBootSector(s: seq<byte>, checksum: int): (b: BootSector)
    requires |s| >= BpbEnd
    ensures b.fileSystem == DetectFileSystem(s)
    ensures b.bytesPerSector == U16(s, 0x0B) && b.sectorsPerCluster == s[0x0D]
    ensures b.reservedSectors == U16(s, 0x0E) && b.numFATs == s[0x10] && b.maxDirectoryEntries == U16(s, 0x11)
    ensures b.mediaDescriptor == s[0x15] && b.sectorsPerTrack == U16(s, 0x18) && b.heads == U16(s, 0x1A)
    ensures b.hiddenSectors == I32(s, 0x1C)
    ensures b.fileSystem == FAT12 ==> b.volumeLabel == None && b.typeName == None && b.serial == 0
    ensures b.fileSystem != FAT12 ==> b.serial == I32(s, ExtensionBase(b.fileSystem))
    ensures b.fileSystem != FAT12 ==> b.volumeLabel == Some(Trim(Str(s, ExtensionBase(b.fileSystem) + 4, 11)))
    ensures b.fileSystem != FAT12 ==> b.typeName == Some(Trim(Str(s, ExtensionBase(b.fileSystem) + 0x0F, 8)))
    ensures b.systemName == Some(Trim(Str(s, 0x03, 8)))
    ensures b.sectors == SectorCount(s)
    ensures b.sectorsPerFAT == U16(s, if b.fileSystem == FAT32 then 0x24 else 0x16)
    ensures b.checksum == checksum
  {
    var fs := DetectFileSystem(s);
    var x := ExtensionBase(fs);
    var extended := fs != FAT12;
    NewBootSector(fs, Some(Str(s, 0x03, 8)), U16(s, 0x0B), s[0x0D], U16(s, 0x0E), s[0x10], U16(s, 0x11),
      SectorCount(s), s[0x15], U16(s, if fs == FAT32 then 0x24 else 0x16), U16(s, 0x18), U16(s, 0x1A),
      I32(s, 0x1C),
      if extended then Some(Str(s, x + 0x0F, 8)) else None,
      if extended then Some(Str(s, x + 4, 11)) else None,
      if extended then I32(s, x) else 0,
      checksum)
  }

  /**
   * parse: reads the BPB little-endian from a slice at the buffer's
   * position, and the checksum over the buffer's own bytes 0..511 in the
   * buffer's own order.
   */
  method Parse(disk: ByteBuffer) returns (b: BootSector)
    requires disk.Valid() && disk.capacity >= 512 && disk.capacity - disk.position >= BpbEnd
    ensures b == DecodeBootSector(disk.Remaining(), Checksum(disk.Bytes(), 0, 512, disk.order))
  {
    var bootSector := disk.Slice();
    bootSector.SetOrder(LittleEndian);
    ghost var s := bootSector.Bytes();
    assert s == disk.Remaining();

    var systemName := GetString(bootSector, 0x03, 8);
    var bytesPerSector := GetInt16(bootSector, 0x0B);
    var sectorsPerCluster := GetInt8(bootSector, 0x0D);
    var reservedSectors := GetInt16(bootSector, 0x0E);
    var numFATs := GetInt8(bootSector, 0x10);
    var maxDirectoryEntries := GetInt16(bootSector, 0x11);
    var sectors16 := GetInt16(bootSector, 0x13);
    var mediaDescriptor := GetInt8(bootSector, 0x15);
    var sectorsPerFAT := GetInt16(bootSector, 0x16);
    var sectorsPerTrack := GetInt16(bootSector, 0x18);
    var heads := GetInt16(bootSector, 0x1A);
    var hiddenSectors := GetInt32(bootSector, 0x1C);
    var sectors32 := GetInt32(bootSector, 0x20);
    var sectors := if sectors16 == 0 then sectors32 else sectors16;

    var checksum := ChecksumInt16(disk, 0, 512);

    var fileSystem := FAT12;
    var typeName: Option<string> := None;
    var volumeLabel: Option<string> := None;
    var serial := 0;
    if GetInt8(bootSector, 0x26) == 0x29 {
      fileSystem := FAT16;
      serial := GetInt32(bootSector, 0x27);
      var l := GetString(bootSector, 0x2B, 11);
      var t := GetString(bootSector, 0x36, 8);
      volumeLabel, typeName := Some(l), Some(t);
    }
    if GetInt8(bootSector, 0x42) == 0x29 {
      fileSystem := FAT32;
      sectorsPerFAT := GetInt16(bootSector, 0x24);
      serial := GetInt32(bootSector, 0x43);
      var l := GetString(bootSector, 0x47, 11);
      var t := GetString(bootSector, 0x52, 8);
      volumeLabel, typeName := Some(l), Some(t);
    }

    b := NewBootSector(fileSystem, Some(systemName), bytesPerSector, sectorsPerCluster, reservedSectors,
      numFATs, maxDirectoryEntries, sectors, mediaDescriptor, sectorsPerFAT, sectorsPerTrack, heads,
      hiddenSectors, typeName, volumeLabel, serial, checksum);
  }

  /** Bytes 0x0B .. 0x23 that fixSectorSize rewrites, relative to the BPB; 0x10 .. 0x12, 0x15 and 0x1A .. 0x1B stay. */
  predicate Rewritten(k: int) {
    (0x0B <= k < 0x10) || (0x13 <= k < 0x15) || (0x16 <= k < 0x1A) || (0x1C <= k < 0x24)
  }

  /** A sector count converted to 512-byte sectors. */
  function Scale(count: int, factor: int): int {
    count * factor
  }

  /**
   * The writes fixSectorSize makes for a sector size above 512, in its order:
   * 512 bytes per sector, and every sector count multiplied by
   * bytesPerSector / 512, little-endian and truncated to its field; the total
   * goes to the 16-bit field when it fits and to the 32-bit one otherwise,
   * the other being zeroed.
   */
  function FixWrites(b: BootSector): (ws: seq<Write>)
    ensures |ws| == 8 && Fits(ws, 0, 0x24)
  {
    var factor := b.bytesPerSector / 512;
    var count := Scale(b.sectors, factor);
    [ Write(0x0B, Encode16(512, LittleEndian)),
      Write(0x0D, Encode8(Scale(b.sectorsPerCluster, factor))),
      Write(0x0E, Encode16(Scale(b.reservedSectors, factor), LittleEndian)),
      Write(0x13, Encode16(if count <= 0xFFFF then count else 0, LittleEndian)),
      Write(0x20, Encode32(if count <= 0xFFFF then 0 else count, LittleEndian)),
      Write(0x16, Encode16(Scale(b.sectorsPerFAT, factor), LittleEndian)),
      Write(0x18, Encode16(Scale(b.sectorsPerTrack, factor), LittleEndian)),
      Write(0x1C, Encode32(Scale(b.hiddenSectors, factor), LittleEndian)) ]
  }

  /** The writes of fixSectorSize never overlap. */
  lemma FixWritesDisjoint(b: BootSector)
    ensures Disjoint(FixWrites(b))
  {
  }

  /** The writes of fixSectorSize touch exactly the rewritten bytes. */
  lemma FixWritesRewritten(b: BootSector, o: int)
    ensures Rewritten(o) <==> exists i :: 0 <= i < 8 && Covers(FixWrites(b)[i], o)
  {
    var ws := FixWrites(b);
    if Rewritten(o) {
      if o < 0x0D { assert Covers(ws[0], o); }
      else if o < 0x0E { assert Covers(ws[1], o); }
      else if o < 0x10 { assert Covers(ws[2], o); }
      else if o < 0x15 { assert Covers(ws[3], o); }
      else if o < 0x18 { assert Covers(ws[5], o); }
      else if o < 0x1A { assert Covers(ws[6], o); }
      else if o < 0x20 { assert Covers(ws[7], o); }
      else { assert Covers(ws[4], o); }
    }
  }

  /**
   * The contents after fixSectorSize, for a BPB that starts at index at of s:
   * unchanged when the sector size is at most 512, the writes of FixWrites otherwise.
   */
  function FixedBytes(s: seq<byte>, at: nat, b: BootSector): (r: seq<byte>)
    requires b.bytesPerSector > 512 ==> at + 0x24 <= |s|
    ensures |r| == |s|
  {
    if b.bytesPerSector <= 512 then s else ApplyWrites(s, at, FixWrites(b))
  }

  /** fixSectorSize changes no byte outside the fields it rewrites. */
  lemma FixedBytesFrame(s: seq<byte>, at: nat, b: BootSector, k: int)
    requires b.bytesPerSector > 512 ==> at + 0x24 <= |s|
    requires 0 <= k < |s| && !(b.bytesPerSector > 512 && Rewritten(k - at))
    ensures FixedBytes(s, at, b)[k] == s[k]
  {
    if b.bytesPerSector > 512 {
      FixWritesRewritten(b, k - at);
      ApplyWritesFrame(s, at, FixWrites(b), k);
    }
  }

  /** The rewrite commutes with cutting out a window of the array that holds the whole BPB. */
  lemma FixedBytesWindow(s: seq<byte>, lo: nat, hi: nat, at: nat, b: BootSector)
    requires lo <= at && hi <= |s| && lo <= hi && (b.bytesPerSector > 512 ==> at + 0x24 <= hi)
    ensures FixedBytes(s, at, b)[lo..hi] == FixedBytes(s[lo..hi], at - lo, b)
  {
    if b.bytesPerSector > 512 {
      ApplyWritesWindow(s, lo, hi, at, FixWrites(b));
    }
  }

  /** The rewrite as seen from the BPB's own first byte. */
  lemma FixedRemaining(before: seq<byte>, after: seq<byte>, at: nat, end: nat, b: BootSector)
    requires at <= end <= |before| && (b.bytesPerSector > 512 ==> at + 0x24 <= end)
    requires after == FixedBytes(before, at, b)
    ensures after[at..end] == FixedBytes(before[at..end], 0, b)
  {
    FixedBytesWindow(before, at, end, at, b);
  }

  /** The remaining bytes of a buffer are a window of its backing array. */
  lemma RemainingOfData(disk: ByteBuffer)
    requires disk.Valid()
    ensures disk.Remaining() == disk.data[..][disk.base + disk.position..disk.base + disk.capacity]
  {
  }

  /**
   * fixSectorSize: when the sector size exceeds 512, rewrites the BPB at the
   * buffer's position, through a little-endian slice, for 512-byte sectors.
   * The writes land in the array the buffer shares with its slices.
   */
  method FixSectorSize(b: BootSector, disk: ByteBuffer)
    requires disk.Valid() && (b.bytesPerSector > 512 ==> disk.capacity - disk.position >= 0x24)
    modifies disk.data
    ensures disk.data[..] == FixedBytes(old(disk.data[..]), disk.base + disk.position, b)
    ensures disk.Remaining() == FixedBytes(old(disk.Remaining()), 0, b)
  {
    if b.bytesPerSector <= 512 {
      return;
    }
    ghost var before := disk.data[..];
    var bootSector := disk.Slice();
    bootSector.SetOrder(LittleEndian);
    WriteScaledFields(bootSector, b);
    assert before == old(disk.data[..]);
    assert bootSector.base == disk.base + disk.position;
    RemainingOfData(disk);
    FixedRemaining(before, disk.data[..], bootSector.base, disk.base + disk.capacity, b);
  }

  /** The body of fixSectorSize for a sector size above 512: its eight puts on the little-endian slice. */
  method WriteScaledFields(bootSector: ByteBuffer, b: BootSector)
    requires bootSector.Valid() && bootSector.order == LittleEndian
    requires b.bytesPerSector > 512 && 0x24 <= bootSector.capacity
    modifies bootSector.data
    ensures bootSector.data[..] == ApplyWrites(old(bootSector.data[..]), bootSector.base, FixWrites(b))
  {
    ghost var before := bootSector.data[..];
    WriteScaledSizes(bootSector, b);
    WriteScaledTotal(bootSector, b, before);
    WriteScaledGeometry(bootSector, b, before);
  }

  /** The first three puts: sector size, cluster size and reserved sectors. */
  method WriteScaledSizes(bootSector: ByteBuffer, b: BootSector)
    requires bootSector.Valid() && bootSector.order == LittleEndian
    requires b.bytesPerSector > 512 && 0x24 <= bootSector.capacity
    modifies bootSector.data
    ensures bootSector.data[..] == ApplyWrites(old(bootSector.data[..]), bootSector.base, FixWrites(b)[..3])
  {
    ghost var before := bootSector.data[..];
    ghost var at := bootSector.base;
    ghost var ws := FixWrites(b);
    assert ApplyWrites(before, at, ws[..0]) == before by { assert ws[..0] == []; }

    var factor := b.bytesPerSector / 512;
    SetInt16(bootSector, 0x0B, 512);
    ApplyWritesSnoc(before, at, ws, 0);
    SetInt8(bootSector, 0x0D, Scale(b.sectorsPerCluster, factor));
    ApplyWritesSnoc(before, at, ws, 1);
    SetInt16(bootSector, 0x0E, Scale(b.reservedSectors, factor));
    ApplyWritesSnoc(before, at, ws, 2);
  }

  /** The sector total: into the 16-bit field when it fits, into the 32-bit one otherwise, zeroing the other. */
  method WriteScaledTotal(bootSector: ByteBuffer, b: BootSector, ghost before: seq<byte>)
    requires bootSector.Valid() && bootSector.order == LittleEndian
    requires b.bytesPerSector > 512 && 0x24 <= bootSector.capacity && |before| == bootSector.data.Length
    requires bootSector.data[..] == ApplyWrites(before, bootSector.base, FixWrites(b)[..3])
    modifies bootSector.data
    ensures bootSector.data[..] == ApplyWrites(before, bootSector.base, FixWrites(b)[..5])
  {
    ghost var at := bootSector.base;
    ghost var ws := FixWrites(b);
    var factor := b.bytesPerSector / 512;
    var sectors := Scale(b.sectors, factor);
    if sectors <= 0xFFFF {
      SetInt16(bootSector, 0x13, sectors);
      ApplyWritesSnoc(before, at, ws, 3);
      SetInt32(bootSector, 0x20, 0);
    } else {
      SetInt16(bootSector, 0x13, 0x0000);
      ApplyWritesSnoc(before, at, ws, 3);
      SetInt32(bootSector, 0x20, sectors);
    }
    ApplyWritesSnoc(before, at, ws, 4);
  }

  /** The last three puts: sectors per FAT, sectors per track and hidden sectors. */
  method WriteScaledGeometry(bootSector: ByteBuffer, b: BootSector, ghost before: seq<byte>)
    requires bootSector.Valid() && bootSector.order == LittleEndian
    requires b.bytesPerSector > 512 && 0x24 <= bootSector.capacity && |before| == bootSector.data.Length
    requires bootSector.data[..] == ApplyWrites(before, bootSector.base, FixWrites(b)[..5])
    modifies bootSector.data
    ensures bootSector.data[..] == ApplyWrites(before, bootSector.base, FixWrites(b))
  {
    ghost var at := bootSector.base;
    ghost var ws := FixWrites(b);
    var factor := b.bytesPerSector / 512;
    SetInt16(bootSector, 0x16, Scale(b.sectorsPerFAT, factor));
    ApplyWritesSnoc(before, at, ws, 5);
    SetInt16(bootSector, 0x18, Scale(b.sectorsPerTrack, factor));
    ApplyWritesSnoc(before, at, ws, 6);
    SetInt32(bootSector, 0x1C, Scale(b.hiddenSectors, factor));
    ApplyWritesSnoc(before, at, ws, 7);
    assert ws[..8] == ws;
  }

  /** Decoding after the rewrite: 512 bytes per sector, and cluster size and reserved sectors scaled, truncated to their fields. */
  lemma DecodeAfterFixSizes(s: seq<byte>, checksum: int)
    requires |s| >= BpbEnd && U16(s, 0x0B) > 512
    ensures var b := DecodeBootSector(s, checksum);
      var f := b.bytesPerSector / 512;
      var d := DecodeBootSector(FixedBytes(s, 0, b), checksum);
      d.bytesPerSector == 512
      && d.sectorsPerCluster == Scale(b.sectorsPerCluster, f) % 0x100
      && d.reservedSectors == Scale(b.reservedSectors, f) % 0x1_0000
  {
    FixedSizes(s, DecodeBootSector(s, checksum));
  }

  /** The sector size, cluster size and reserved sectors that fixSectorSize writes for boot sector b. */
  lemma FixedSizes(s: seq<byte>, b: BootSector)
    requires |s| >= BpbEnd && b.bytesPerSector > 512
    ensures var f := b.bytesPerSector / 512;
      var t := FixedBytes(s, 0, b);
      U16(t, 0x0B) == 512 && t[0x0D] == Scale(b.sectorsPerCluster, f) % 0x100
      && U16(t, 0x0E) == Scale(b.reservedSectors, f) % 0x1_0000
  {
    var f := b.bytesPerSector / 512;
    var ws := FixWrites(b);
    FixWritesDisjoint(b);
    ApplyWritesReads16(s, 0, ws, 0, 512, LittleEndian);
    ApplyWritesField(s, 0, ws, 1);
    assert FixedBytes(s, 0, b)[0x0D] == FixedBytes(s, 0, b)[0x0D..0x0E][0];
    ApplyWritesReads16(s, 0, ws, 2, Scale(b.reservedSectors, f), LittleEndian);
  }

  /**
   * Decoding after the rewrite: the sector total comes back from the 16-bit
   * field when it fits there, and otherwise from the 32-bit one.
   */
  lemma DecodeAfterFixSectors(s: seq<byte>, checksum: int)
    requires |s| >= BpbEnd && U16(s, 0x0B) > 512
    ensures var b := DecodeBootSector(s, checksum);
      var count := Scale(b.sectors, b.bytesPerSector / 512);
      var d := DecodeBootSector(FixedBytes(s, 0, b), checksum);
      d.sectors == if count <= 0xFFFF then count % 0x1_0000 else Int32(count)
  {
    var b := DecodeBootSector(s, checksum);
    SectorCountAfterFix(s, b);
  }

  /** The sector total read back from a BPB that fixSectorSize rewrote for boot sector b. */
  lemma SectorCountAfterFix(s: seq<byte>, b: BootSector)
    requires |s| >= BpbEnd && b.bytesPerSector > 512
    ensures var count := Scale(b.sectors, b.bytesPerSector / 512);
      SectorCount(FixedBytes(s, 0, b)) == if count <= 0xFFFF then count % 0x1_0000 else Int32(count)
  {
    var count := Scale(b.sectors, b.bytesPerSector / 512);
    var ws := FixWrites(b);
    FixWritesDisjoint(b);
    var small := if count <= 0xFFFF then count else 0;
    var large := if count <= 0xFFFF then 0 else count;
    assert ws[3] == Write(0x13, Encode16(small, LittleEndian));
    assert ws[4] == Write(0x20, Encode32(large, LittleEndian));
    ApplyWritesReads16(s, 0, ws, 3, small, LittleEndian);
    ApplyWritesReads32(s, 0, ws, 4, large, LittleEndian);
  }

  /**
   * Decoding after the rewrite: sectors per track and hidden sectors scaled.
   * Sectors per FAT is scaled too, except on FAT32, which keeps the value it
   * decodes from 0x24 because the rewrite scales only the field at 0x16.
   */
  lemma DecodeAfterFixGeometry(s: seq<byte>, checksum: int)
    requires |s| >= BpbEnd && U16(s, 0x0B) > 512
    ensures var b := DecodeBootSector(s, checksum);
      var f := b.bytesPerSector / 512;
      var d := DecodeBootSector(FixedBytes(s, 0, b), checksum);
      d.fileSystem == b.fileSystem
      && d.sectorsPerTrack == Scale(b.sectorsPerTrack, f) % 0x1_0000
      && d.hiddenSectors == Int32(Scale(b.hiddenSectors, f))
      && d.sectorsPerFAT == if b.fileSystem == FAT32 then b.sectorsPerFAT else Scale(b.sectorsPerFAT, f) % 0x1_0000
  {
    var b := DecodeBootSector(s, checksum);
    FixedGeometry(s, b);
    FixedBytesKeeps(s, b);
    ExtensionFields(s, FixedBytes(s, 0, b));
  }

  /** Sectors per FAT, sectors per track and hidden sectors as fixSectorSize writes them for boot sector b. */
  lemma FixedGeometry(s: seq<byte>, b: BootSector)
    requires |s| >= BpbEnd && b.bytesPerSector > 512
    ensures var f := b.bytesPerSector / 512;
      var t := FixedBytes(s, 0, b);
      U16(t, 0x16) == Scale(b.sectorsPerFAT, f) % 0x1_0000
      && U16(t, 0x18) == Scale(b.sectorsPerTrack, f) % 0x1_0000
      && I32(t, 0x1C) == Int32(Scale(b.hiddenSectors, f))
  {
    var f := b.bytesPerSector / 512;
    var ws := FixWrites(b);
    FixWritesDisjoint(b);
    ApplyWritesReads16(s, 0, ws, 5, Scale(b.sectorsPerFAT, f), LittleEndian);
    ApplyWritesReads16(s, 0, ws, 6, Scale(b.sectorsPerTrack, f), LittleEndian);
    ApplyWritesReads32(s, 0, ws, 7, Scale(b.hiddenSectors, f), LittleEndian);
  }

  /**
   * fixSectorSize as evidently intended: on FAT32 the decoder reads sectors
   * per FAT at 0x24, so that field is scaled as well as the one at 0x16.
   */
  function CorrectedFixedBytes(s: seq<byte>, b: BootSector): (r: seq<byte>)
    requires |s| >= BpbEnd
    ensures |r| == |s|
  {
    var t := FixedBytes(s, 0, b);
    if b.bytesPerSector > 512 && b.fileSystem == FAT32 then
      ApplyWrites(t, 0, [Write(0x24, Encode16(Scale(b.sectorsPerFAT, b.bytesPerSector / 512), LittleEndian))])
    else t
  }

  /**
   * Decoding after the corrected rewrite: the file system is kept and sectors
   * per FAT is scaled on every file system, FAT32 included.
   */
  lemma CorrectedFixScalesFAT(s: seq<byte>, checksum: int)
    requires |s| >= BpbEnd && U16(s, 0x0B) > 512
    ensures var b := DecodeBootSector(s, checksum);
      var f := b.bytesPerSector / 512;
      var d := DecodeBootSector(CorrectedFixedBytes(s, b), checksum);
      d.fileSystem == b.fileSystem && d.sectorsPerFAT == Scale(b.sectorsPerFAT, f) % 0x1_0000
  {
    CorrectedFixedFAT(s, DecodeBootSector(s, checksum));
  }

  /** The file system and the sectors-per-FAT field the decoder reads, after the corrected rewrite for boot sector b. */
  lemma CorrectedFixedFAT(s: seq<byte>, b: BootSector)
    requires |s| >= BpbEnd && b.bytesPerSector > 512 && b.fileSystem == DetectFileSystem(s)
    ensures var r := CorrectedFixedBytes(s, b);
      DetectFileSystem(r) == b.fileSystem
      && U16(r, if b.fileSystem == FAT32 then 0x24 else 0x16) == Scale(b.sectorsPerFAT, b.bytesPerSector / 512) % 0x1_0000
  {
    var t := FixedBytes(s, 0, b);
    FixedGeometry(s, b);
    FixedBytesKeeps(s, b);
    ExtensionFields(s, t);
    if b.fileSystem == FAT32 {
      RescaleFAT32Field(t, Scale(b.sectorsPerFAT, b.bytesPerSector / 512));
    }
  }

  /** Writing v at 0x24 keeps the file system and reads back v modulo 2^16. */
  lemma RescaleFAT32Field(t: seq<byte>, v: int)
    requires |t| >= BpbEnd
    ensures var r := ApplyWrites(t, 0, [Write(0x24, Encode16(v, LittleEndian))]);
      DetectFileSystem(r) == DetectFileSystem(t) && U16(r, 0x24) == v % 0x1_0000
  {
    var ws := [Write(0x24, Encode16(v, LittleEndian))];
    ApplyWritesReads16(t, 0, ws, 0, v, LittleEndian);
    ApplyWritesFrame(t, 0, ws, 0x26);
    ApplyWritesFrame(t, 0, ws, 0x42);
  }

  /**
   * Decoding after the rewrite keeps the fields the rewrite does not touch:
   * the OEM name, FAT count, root entries, media byte and heads.
   */
  lemma DecodeAfterFixKeeps(s: seq<byte>, checksum: int)
    requires |s| >= BpbEnd && U16(s, 0x0B) > 512
    ensures var b := DecodeBootSector(s, checksum);
      var d := DecodeBootSector(FixedBytes(s, 0, b), checksum);
      d.systemName == b.systemName && d.numFATs == b.numFATs
      && d.maxDirectoryEntries == b.maxDirectoryEntries && d.mediaDescriptor == b.mediaDescriptor
      && d.heads == b.heads && d.checksum == b.checksum
  {
    KeptFields(s, DecodeBootSector(s, checksum));
  }

  /** The OEM name, FAT count, root entries, media byte and heads read the same after fixSectorSize. */
  lemma KeptFields(s: seq<byte>, b: BootSector)
    requires |s| >= BpbEnd
    ensures var t := FixedBytes(s, 0, b);
      Str(t, 0x03, 8) == Str(s, 0x03, 8) && t[0x10] == s[0x10] && U16(t, 0x11) == U16(s, 0x11)
      && t[0x15] == s[0x15] && U16(t, 0x1A) == U16(s, 0x1A)
  {
    var t := FixedBytes(s, 0, b);
    FixedBytesKeeps(s, b);
    assert t[0x03..0x0B] == t[..0x0B][0x03..0x0B];
    assert s[0x03..0x0B] == s[..0x0B][0x03..0x0B];
    assert t[0x10..0x13][0] == t[0x10] && t[0x10..0x13][1] == t[0x11] && t[0x10..0x13][2] == t[0x12];
    assert t[0x1A..0x1C][0] == t[0x1A] && t[0x1A..0x1C][1] == t[0x1B];
  }

  /** Decoding after the rewrite keeps the file system and the serial, label and type of its extension. */
  lemma DecodeAfterFixKeepsExtension(s: seq<byte>, checksum: int)
    requires |s| >= BpbEnd && U16(s, 0x0B) > 512
    ensures var b := DecodeBootSector(s, checksum);
      var d := DecodeBootSector(FixedBytes(s, 0, b), checksum);
      d.fileSystem == b.fileSystem && d.serial == b.serial
      && d.volumeLabel == b.volumeLabel && d.typeName == b.typeName
  {
    var b := DecodeBootSector(s, checksum);
    FixedBytesKeeps(s, b);
    DecodeExtensionLocal(s, FixedBytes(s, 0, b), checksum);
  }

  /** The file system and its extension are decoded from bytes 0x24 on only. */
  lemma DecodeExtensionLocal(s: seq<byte>, t: seq<byte>, checksum: int)
    requires |s| >= BpbEnd && |t| >= BpbEnd && t[0x24..] == s[0x24..]
    ensures var b := DecodeBootSector(s, checksum);
      var d := DecodeBootSector(t, checksum);
      d.fileSystem == b.fileSystem && d.serial == b.serial
      && d.volumeLabel == b.volumeLabel && d.typeName == b.typeName
  {
    ExtensionFields(s, t);
  }

  /** The probes, the FAT32 sectors per FAT and the extension fields read the same from bytes that agree from 0x24 on. */
  lemma ExtensionFields(s: seq<byte>, t: seq<byte>)
    requires |s| >= BpbEnd && |t| >= BpbEnd && t[0x24..] == s[0x24..]
    ensures DetectFileSystem(t) == DetectFileSystem(s) && U16(t, 0x24) == U16(s, 0x24)
    ensures var x := ExtensionBase(DetectFileSystem(s));
      DetectFileSystem(s) != FAT12 ==>
        I32(t, x) == I32(s, x) && Str(t, x + 4, 11) == Str(s, x + 4, 11) && Str(t, x + 0x0F, 8) == Str(s, x + 0x0F, 8)
  {
    forall k | 0x24 <= k < BpbEnd
      ensures t[k] == s[k]
    {
      assert t[k] == t[0x24..][k - 0x24];
    }
    var x := ExtensionBase(DetectFileSystem(s));
    if DetectFileSystem(s) != FAT12 {
      assert t[x..x + 4] == s[x..x + 4];
      assert t[x + 4..x + 15] == s[x + 4..x + 15];
      assert t[x + 0x0F..x + 0x17] == s[x + 0x0F..x + 0x17];
    }
  }

  /** The bytes of the BPB that fixSectorSize leaves alone, for any boot sector b. */
  lemma FixedBytesKeeps(s: seq<byte>, b: BootSector)
    requires |s| >= BpbEnd
    ensures var t := FixedBytes(s, 0, b);
      t[..0x0B] == s[..0x0B] && t[0x10..0x13] == s[0x10..0x13] && t[0x15] == s[0x15]
      && t[0x1A..0x1C] == s[0x1A..0x1C] && t[0x24..] == s[0x24..]
  {
    var t := FixedBytes(s, 0, b);
    forall k | 0 <= k < |s| && !Rewritten(k)
      ensures t[k] == s[k]
    {
      FixedBytesFrame(s, 0, b, k);
    }
  }
}

/**
 * The MS-DOS master boot record written in front of an extracted
 * partition: 16-byte partition entries at 0x1BE, 0x1CE, ... in a zeroed
 * 512-byte little-endian buffer, and the 0x55 0xAA signature at 0x1FE.
 */
module MsDos {
  import opened Wrappers
  import opened Bytes
  import opened Buffers
  import opened IntUtils
  import opened FileSystems
  import opened Partitions

  /** One primary partition: a value whose getters return what the constructor was given. */
  datatype MsDosPartition = MsDosPartition(bootable: bool, partitionType: int, startSector: int, numSectors: int)

  /** The flag byte of an entry: 0x80 marks the active partition. */
  function BootFlag(bootable: bool): byte {
    if bootable then 0x80 else 0x00
  }

  /** The puts of createPartitionEntry, in order: flag, three CHS bytes, type, three CHS bytes, start, count. */
  function EntryWrites(p: MsDosPartition): (ws: seq<Write>)
    ensures |ws| == 10 && Fits(ws, 0, 16)
  {
    [Write(0x00, Encode8(BootFlag(p.bootable))),
     Write(0x01, Encode8(0)), Write(0x02, Encode8(0)), Write(0x03, Encode8(0)),
     Write(0x04, Encode8(p.partitionType)),
     Write(0x05, Encode8(0)), Write(0x06, Encode8(0)), Write(0x07, Encode8(0)),
     Write(0x08, Encode32(p.startSector, LittleEndian)),
     Write(0x0C, Encode32(p.numSectors, LittleEndian))]
  }

  /**
   * The layout of an MS-DOS partition table entry: the flag, an unused CHS
   * start, the type code, an unused CHS end, then the first sector and the
   * number of sectors as little-endian 32-bit values.
   */
  function EntryLayout(p: MsDosPartition): (r: seq<byte>)
    ensures |r| == 16
  {
    [BootFlag(p.bootable), 0, 0, 0, p.partitionType % 0x100, 0, 0, 0]
      + Encode32(p.startSector, LittleEndian) + Encode32(p.numSectors, LittleEndian)
  }

  /** The ten puts into a zeroed 16-byte buffer leave exactly the entry layout. */
  lemma EntryWritesLayout(p: MsDosPartition)
    ensures ApplyWrites(Zeros(16), 0, EntryWrites(p)) == EntryLayout(p)
  {
    forall k | 0 <= k < 16
      ensures ApplyWrites(Zeros(16), 0, EntryWrites(p))[k] == EntryLayout(p)[k]
    {
      EntryWritesAt(p, k);
    }
  }

  /** Byte k of an entry is the one put there by the last write covering it. */
  lemma EntryWritesAt(p: MsDosPartition, k: int)
    requires 0 <= k < 16
    ensures ApplyWrites(Zeros(16), 0, EntryWrites(p))[k] == EntryLayout(p)[k]
  {
    var j := if k < 8 then k else if k < 12 then 8 else 9;
    ApplyWritesRead(Zeros(16), 0, EntryWrites(p), j, k);
  }

  /** An entry as a table reader sees it at index: flag 0x80, type byte, little-endian start and count. */
  function ReadEntry(s: seq<byte>, index: int): (p: MsDosPartition)
    requires 0 <= index && index + 16 <= |s|
    ensures 0 <= p.partitionType < 0x100
    ensures 0 <= p.startSector < 0x1_0000_0000 && 0 <= p.numSectors < 0x1_0000_0000
  {
    MsDosPartition(s[index] == 0x80, s[index + 4], Unsigned32(s, index + 8, LittleEndian), Unsigned32(s, index + 12, LittleEndian))
  }

  /** What an entry can hold of a partition: the type to 8 bits, start and count to 32 bits. */
  function Stored(p: MsDosPartition): MsDosPartition {
    MsDosPartition(p.bootable, p.partitionType % 0x100, p.startSector % 0x1_0000_0000, p.numSectors % 0x1_0000_0000)
  }

  /**
   * Reading an entry back gives the partition to the widths its fields
   * have, and the CHS bytes are zero.
   */
  lemma ReadEntryLayout(p: MsDosPartition)
    ensures ReadEntry(EntryLayout(p), 0) == Stored(p)
    ensures EntryLayout(p)[0] == 0x80 <==> p.bootable
    ensures forall k :: k in {1, 2, 3, 5, 6, 7} ==> EntryLayout(p)[k] == 0
  {
    var e := EntryLayout(p);
    var a, b := Encode32(p.startSector, LittleEndian), Encode32(p.numSectors, LittleEndian);
    assert e[8..12] == a && e[12..16] == b;
    Unsigned32OfEncode32(p.startSector, LittleEndian);
    Unsigned32OfEncode32(p.numSectors, LittleEndian);
    assert Unsigned32(e, 8, LittleEndian) == Unsigned32(e[8..12], 0, LittleEndian);
    assert Unsigned32(e, 12, LittleEndian) == Unsigned32(e[12..16], 0, LittleEndian);
  }

  /**
   * createPartitionEntry: a fresh 16-byte little-endian buffer at position 0
   * holding the entry layout of p.
   */
  method CreatePartitionEntry(p: MsDosPartition) returns (partitionEntry: ByteBuffer)
    ensures fresh(partitionEntry) && fresh(partitionEntry.data) && partitionEntry.Valid()
    ensures partitionEntry.base == 0 && partitionEntry.capacity == 16 && partitionEntry.data.Length == 16
    ensures partitionEntry.order == LittleEndian && partitionEntry.position == 0
    ensures partitionEntry.Bytes() == EntryLayout(p)
  {
    partitionEntry := new ByteBuffer.Allocate(16);
    partitionEntry.SetOrder(LittleEndian);
    ghost var ws := EntryWrites(p);
    WriteEntryFlags(partitionEntry, p);
    SetInt32(partitionEntry, 0x08, p.startSector);
    ApplyWritesSnoc(Zeros(16), 0, ws, 8);
    SetInt32(partitionEntry, 0x0C, p.numSectors);
    ApplyWritesSnoc(Zeros(16), 0, ws, 9);
    assert ws[..10] == ws;
    EntryWritesLayout(p);
    assert partitionEntry.Bytes() == partitionEntry.data[..];
  }

  /** The eight single-byte puts of createPartitionEntry. */
  method WriteEntryFlags(partitionEntry: ByteBuffer, p: MsDosPartition)
    requires partitionEntry.Valid() && partitionEntry.base == 0 && partitionEntry.capacity == 16
    requires partitionEntry.data.Length == 16 && partitionEntry.data[..] == Zeros(16)
    modifies partitionEntry.data
    ensures partitionEntry.data[..] == ApplyWrites(Zeros(16), 0, EntryWrites(p)[..8])
  {
    ghost var ws := EntryWrites(p);
    assert ApplyWrites(Zeros(16), 0, ws[..0]) == Zeros(16) by { assert ws[..0] == []; }
    PutEntryByte(partitionEntry, ws, 0, if p.bootable then 0x80 else 0x00);
    PutEntryChs(partitionEntry, ws, 1);
    PutEntryByte(partitionEntry, ws, 4, p.partitionType);
    PutEntryChs(partitionEntry, ws, 5);
  }

  /** The three zero puts of an unused CHS address, writes j .. j+2 at offsets j .. j+2. */
  method PutEntryChs(partitionEntry: ByteBuffer, ghost ws: seq<Write>, j: nat)
    requires partitionEntry.Valid() && partitionEntry.base == 0 && partitionEntry.capacity == 16
    requires j + 3 <= |ws| && j + 3 <= 16
    requires ws[j] == Write(j, Encode8(0)) && ws[j + 1] == Write(j + 1, Encode8(0)) && ws[j + 2] == Write(j + 2, Encode8(0))
    requires partitionEntry.data[..] == ApplyWrites(Zeros(16), 0, ws[..j])
    modifies partitionEntry.data
    ensures partitionEntry.data[..] == ApplyWrites(Zeros(16), 0, ws[..j + 3])
  {
    PutEntryByte(partitionEntry, ws, j, 0x00);
    PutEntryByte(partitionEntry, ws, j + 1, 0x00);
    PutEntryByte(partitionEntry, ws, j + 2, 0x00);
  }

  /** One single-byte put of createPartitionEntry: the j-th write, at offset j. */
  method PutEntryByte(partitionEntry: ByteBuffer, ghost ws: seq<Write>, j: nat, value: int)
    requires partitionEntry.Valid() && partitionEntry.base == 0 && partitionEntry.capacity == 16
    requires j < |ws| && j < 16 && ws[j] == Write(j, Encode8(value))
    requires partitionEntry.data[..] == ApplyWrites(Zeros(16), 0, ws[..j])
    modifies partitionEntry.data
    ensures partitionEntry.data[..] == ApplyWrites(Zeros(16), 0, ws[..j + 1])
  {
    SetInt8(partitionEntry, j, value);
    ApplyWritesSnoc(Zeros(16), 0, ws, j);
  }

  /** The master boot record: its partitions in constructor order (getPartitions). */
  datatype MsDosMbr = MsDosMbr(partitions: seq<MsDosPartition>)

  /** Why createMbr fails: a fifth entry would start at 0x1FE and run past the 512-byte buffer. */
  datatype MbrError = EntryOverflow

  /** Most entries that fit before the signature. */
  const MaxEntries: nat := 4

  /** Where entry k goes. */
  function EntryOffset(k: int): int {
    0x1BE + 0x10 * k
  }

  /** The entry puts of createMbr for the first n partitions. */
  function TableWrites(ps: seq<MsDosPartition>, n: nat): (ws: seq<Write>)
    requires n <= |ps| && n <= MaxEntries
    ensures |ws| == n && Fits(ws, 0, 0x1FE)
  {
    seq(n, k requires 0 <= k < n => Write(EntryOffset(k), EntryLayout(ps[k])))
  }

  /** The puts of createMbr: one entry per partition, then the two signature bytes. */
  function MbrWrites(ps: seq<MsDosPartition>): (ws: seq<Write>)
    requires |ps| <= MaxEntries
    ensures |ws| == |ps| + 2 && Fits(ws, 0, 512)
    ensures forall k :: 0 <= k < |ps| ==> ws[k] == Write(EntryOffset(k), EntryLayout(ps[k]))
  {
    TableWrites(ps, |ps|) + [Write(0x1FE, Encode8(0x55)), Write(0x1FF, Encode8(0xAA))]
  }

  /** The 512 bytes createMbr returns for at most four partitions. */
  function MbrImage(ps: seq<MsDosPartition>): (r: seq<byte>)
    requires |ps| <= MaxEntries
    ensures |r| == 512
  {
    ApplyWrites(Zeros(512), 0, MbrWrites(ps))
  }

  lemma MbrWritesDisjoint(ps: seq<MsDosPartition>)
    requires |ps| <= MaxEntries
    ensures Disjoint(MbrWrites(ps))
  {
  }

  /**
   * The layout of the record: entry k at 0x1BE + 16k, the signature 0x55 0xAA
   * at 0x1FE, and zeros before the table and between the last entry and the
   * signature.
   */
  lemma {:induction false} MbrLayout(ps: seq<MsDosPartition>)
    requires |ps| <= MaxEntries
    ensures forall k :: 0 <= k < |ps| ==> MbrImage(ps)[EntryOffset(k)..EntryOffset(k) + 16] == EntryLayout(ps[k])
    ensures MbrImage(ps)[0x1FE] == 0x55 && MbrImage(ps)[0x1FF] == 0xAA
    ensures forall i :: 0 <= i < 0x1BE ==> MbrImage(ps)[i] == 0
    ensures forall i :: EntryOffset(|ps|) <= i < 0x1FE ==> MbrImage(ps)[i] == 0
  {
    var ws := MbrWrites(ps);
    MbrWritesDisjoint(ps);
    forall k | 0 <= k < |ps|
      ensures MbrImage(ps)[EntryOffset(k)..EntryOffset(k) + 16] == EntryLayout(ps[k])
    {
      ApplyWritesField(Zeros(512), 0, ws, k);
    }
    ApplyWritesField(Zeros(512), 0, ws, |ps|);
    ApplyWritesField(Zeros(512), 0, ws, |ps| + 1);
    assert MbrImage(ps)[0x1FE] == MbrImage(ps)[0x1FE..0x1FF][0];
    assert MbrImage(ps)[0x1FF] == MbrImage(ps)[0x1FF..0x200][0];
    forall i | 0 <= i < 0x1BE || EntryOffset(|ps|) <= i < 0x1FE
      ensures MbrImage(ps)[i] == 0
    {
      ApplyWritesFrame(Zeros(512), 0, ws, i);
    }
  }

  /** Every entry reads back from the record as the partition to the widths of its fields. */
  lemma ReadMbrEntries(ps: seq<MsDosPartition>, k: int)
    requires |ps| <= MaxEntries && 0 <= k < |ps|
    ensures ReadEntry(MbrImage(ps), EntryOffset(k)) == Stored(ps[k])
  {
    MbrLayout(ps);
    var o := EntryOffset(k);
    var w := MbrImage(ps)[o..o + 16];
    ReadEntryLayout(ps[k]);
    assert MbrImage(ps)[o] == w[0] && MbrImage(ps)[o + 4] == w[4];
    assert Unsigned32(MbrImage(ps), o + 8, LittleEndian) == Unsigned32(w, 8, LittleEndian);
    assert Unsigned32(MbrImage(ps), o + 12, LittleEndian) == Unsigned32(w, 12, LittleEndian);
  }

  /**
   * createMbr: a fresh 512-byte little-endian buffer at position 0 holding
   * the record, or the overflow a fifth partition causes.
   */
  method CreateMbr(mbr: MsDosMbr) returns (r: Result<ByteBuffer, MbrError>)
    ensures r.Err? <==> |mbr.partitions| > MaxEntries
    ensures r.Ok? ==> fresh(r.value) && r.value.Valid() && r.value.capacity == 512
    ensures r.Ok? ==> r.value.order == LittleEndian && r.value.position == 0
    ensures r.Ok? ==> r.value.Bytes() == MbrImage(mbr.partitions)
  {
    var ps := mbr.partitions;
    var buffer := new ByteBuffer.Allocate(512);
    buffer.SetOrder(LittleEndian);
    var fits := PutEntries(buffer, ps);
    if !fits {
      return Err(EntryOverflow);
    }
    ghost var ws := MbrWrites(ps);
    assert ws[..|ps|] == TableWrites(ps, |ps|);
    WriteSignature(buffer, ws, |ps|);
    buffer.SetPosition(0);
    assert buffer.Bytes() == buffer.data[..];
    return Ok(buffer);
  }

  /** The createMbr loop: each entry copied in at 0x1BE + 16k, until one does not fit. */
  method PutEntries(buffer: ByteBuffer, ps: seq<MsDosPartition>) returns (fits: bool)
    requires buffer.Valid() && buffer.base == 0 && buffer.capacity == 512 && buffer.data.Length == 512
    requires buffer.data[..] == Zeros(512)
    modifies buffer, buffer.data
    ensures buffer.Valid() && buffer.order == old(buffer.order)
    ensures fits <==> |ps| <= MaxEntries
    ensures fits ==> buffer.data[..] == ApplyWrites(Zeros(512), 0, TableWrites(ps, |ps|))
  {
    ghost var n := if |ps| <= MaxEntries then |ps| else MaxEntries;
    ghost var ws := TableWrites(ps, n);
    assert ApplyWrites(Zeros(512), 0, ws[..0]) == Zeros(512) by { assert ws[..0] == []; }

    var index := 0x1BE;
    var k := 0;
    while k < |ps|
      invariant 0 <= k <= n && index == EntryOffset(k)
      invariant buffer.Valid() && buffer.order == old(buffer.order)
      invariant buffer.data[..] == ApplyWrites(Zeros(512), 0, ws[..k])
    {
      var fits := PutEntry(buffer, ws, k, index, ps[k]);
      if !fits {
        return false;
      }
      index := index + 0x10;
      k := k + 1;
    }
    assert ws[..k] == ws;
    return true;
  }

  /**
   * One turn of the createMbr loop: the entry of p is built and copied in at
   * index, unless fewer than its 16 bytes remain there.
   */
  method PutEntry(buffer: ByteBuffer, ghost ws: seq<Write>, k: nat, index: int, p: MsDosPartition) returns (fits: bool)
    requires buffer.Valid() && buffer.base == 0 && buffer.capacity == 512 && buffer.data.Length == 512
    requires 0 <= index <= 512 && k <= |ws| && (k < |ws| ==> ws[k] == Write(index, EntryLayout(p)))
    requires k == |ws| ==> index + 16 > 512
    requires buffer.data[..] == ApplyWrites(Zeros(512), 0, ws[..k])
    modifies buffer, buffer.data
    ensures buffer.Valid() && buffer.order == old(buffer.order)
    ensures fits <==> index + 16 <= 512
    ensures fits ==> buffer.data[..] == ApplyWrites(Zeros(512), 0, ws[..k + 1])
  {
    var partitionEntry := CreatePartitionEntry(p);
    buffer.SetPosition(index);
    if buffer.capacity - buffer.position < partitionEntry.capacity - partitionEntry.position {
      return false;
    }
    assert partitionEntry.Remaining() == partitionEntry.Bytes();
    buffer.PutBuffer(partitionEntry);
    ApplyWritesSnoc(Zeros(512), 0, ws, k);
    return true;
  }

  /** The two signature puts after the loop. */
  method WriteSignature(buffer: ByteBuffer, ghost ws: seq<Write>, k: nat)
    requires buffer.Valid() && buffer.base == 0 && buffer.capacity == 512 && buffer.data.Length == 512
    requires Fits(ws, 0, 512) && |ws| == k + 2
    requires ws[k] == Write(0x1FE, Encode8(0x55)) && ws[k + 1] == Write(0x1FF, Encode8(0xAA))
    requires buffer.data[..] == ApplyWrites(Zeros(512), 0, ws[..k])
    modifies buffer.data
    ensures buffer.data[..] == ApplyWrites(Zeros(512), 0, ws)
  {
    SetInt8(buffer, 0x1FE, 0x55);
    ApplyWritesSnoc(Zeros(512), 0, ws, k);
    SetInt8(buffer, 0x1FF, 0xAA);
    ApplyWritesSnoc(Zeros(512), 0, ws, k + 1);
    assert ws[..k + 2] == ws;
  }

  /** Java's long division by 512, which truncates toward zero. */
  function Sectors(length: int): (q: int)
    ensures length >= 0 ==> 0 <= 512 * q <= length < 512 * q + 512
    ensures length < 0 ==> 512 * q - 512 < length <= 512 * q <= 0
  {
    if length >= 0 then length / 512 else -((-length) / 512)
  }

  /** The single entry the partition extractor puts in front of an Atari partition: FAT16, from sector 1, as long as the partition. */
  function ExtractedEntry(p: PartitionInfo): (e: MsDosPartition)
    ensures !e.bootable && e.partitionType == FAT16.Type() && e.startSector == 1
  {
    MsDosPartition(false, FAT16.Type(), 1, Sectors(p.entry.length))
  }

  /**
   * The record of an extracted partition: an inactive FAT16 entry at 0x1BE
   * starting at sector 1 and counting its sectors, an empty remainder of the
   * table, and the signature.
   */
  lemma ExtractedMbr(p: PartitionInfo)
    ensures var image := MbrImage([ExtractedEntry(p)]);
      ReadEntry(image, 0x1BE) == MsDosPartition(false, 0x0E, 1, Sectors(p.entry.length) % 0x1_0000_0000)
      && (forall i :: 0x1CE <= i < 0x1FE ==> image[i] == 0)
      && image[0x1FE] == 0x55 && image[0x1FF] == 0xAA
  {
    var ps := [ExtractedEntry(p)];
    ReadMbrEntries(ps, 0);
    MbrLayout(ps);
  }
}

/**
 * The Atari root sector: disk geometry, size and checksum, and twelve
 * partition slots, four in the standard table at 0x1C6 and eight in the
 * extended table at 0x156, each anchored to the root sector that owns it.
 */
module RootSectors {
  import opened Wrappers
  import opened Bytes
  import opened Buffers
  import opened IntUtils
  import opened Seqs
  import opened Partitions

  /** Number of partition slots in a root sector. */
  const SlotCount: nat := 12

  /** Where slot i starts: slots 0..3 from 0x1C6, slots 4..11 from 0x156, twelve bytes apart. */
  function SlotIndex(i: int): (at: int)
    requires 0 <= i < SlotCount
    ensures 0x156 <= at && at + 12 <= 0x1FE
  {
    if i < 4 then 0x1C6 + 12 * i else 0x156 + 12 * (i - 4)
  }

  /** No two slots share a byte, and no slot reaches into the header fields at 0x1B6 .. 0x1C5. */
  lemma SlotsApart(i: int, j: int)
    requires 0 <= i < SlotCount && 0 <= j < SlotCount && i != j
    ensures SlotIndex(i) + 12 <= SlotIndex(j) || SlotIndex(j) + 12 <= SlotIndex(i)
    ensures SlotIndex(i) + 12 <= 0x1B6 || 0x1C6 <= SlotIndex(i)
  {
  }

  /**
   * Slot i of a root sector at offset: its entry, with the offset of the
   * first container sector when it is a container itself and the sector's
   * own offset otherwise.
   */
  function DecodeSlot(xgmOffset: int, offset: int, s: seq<byte>, i: int): (p: PartitionInfo)
    requires |s| >= 512 && 0 <= i < SlotCount
    ensures p.entry == DecodeEntry(i, s, SlotIndex(i), BigEndian)
    ensures p.offset == if p.entry.IsXGM() then xgmOffset else offset
    ensures p.bootSector.None?
  {
    var e := DecodeEntry(i, s, SlotIndex(i), BigEndian);
    PartitionInfo(e, if e.IsXGM() then xgmOffset else offset, None)
  }

  /** A root sector as a value. */
  datatype RootSectorInfo = RootSectorInfo(
    cylinders: int, heads: int, sectors: int, offset: int, size: int, checksum: int,
    partitions: seq<PartitionInfo>)

  /**
   * RootSector.parse on the bytes of the big-endian slice at the buffer's
   * position: the geometry at 0x1B6, 0x1B8 and 0x1C1, the size in sectors at
   * 0x1C2 (signed) times 512, the checksum over the slice's first 512
   * bytes, and the twelve slots.
   */
  function DecodeRootSector(xgmOffset: int, offset: int, s: seq<byte>): (r: RootSectorInfo)
    requires |s| >= 512
    ensures |r.partitions| == SlotCount && r.offset == offset
    ensures forall i :: 0 <= i < SlotCount ==> r.partitions[i] == DecodeSlot(xgmOffset, offset, s, i)
    ensures 0 <= r.cylinders < 0x1_0000 && 0 <= r.heads < 0x100 && 0 <= r.sectors < 0x100
    ensures r.size % 512 == 0 && 0 <= r.checksum < 0x1_0000
  {
    RootSectorInfo(
      Unsigned16(s, 0x1B6, BigEndian), s[0x1B8], s[0x1C1], offset,
      Signed32(Unsigned32(s, 0x1C2, BigEndian)) * 512,
      Checksum(s, 0, 512, BigEndian),
      seq(SlotCount, i requires 0 <= i < SlotCount => DecodeSlot(xgmOffset, offset, s, i)))
  }

  /** Slot i is numbered i, and its owner offset follows its type. */
  lemma SlotNumbering(xgmOffset: int, offset: int, s: seq<byte>, i: int)
    requires |s| >= 512 && 0 <= i < SlotCount
    ensures var p := DecodeRootSector(xgmOffset, offset, s).partitions[i];
      p.entry.number == i && (p.entry.IsXGM() ==> p.offset == xgmOffset)
      && (!p.entry.IsXGM() ==> p.offset == offset)
  {
  }

  /** Only the first 512 bytes of the slice matter. */
  lemma DecodeRootSectorLocal(xgmOffset: int, offset: int, s: seq<byte>, t: seq<byte>)
    requires |s| >= 512 && |t| >= 512 && s[..512] == t[..512]
    ensures DecodeRootSector(xgmOffset, offset, s) == DecodeRootSector(xgmOffset, offset, t)
  {
    forall k | 0 <= k < 512
      ensures s[k] == t[k]
    {
      assert s[k] == s[..512][k];
    }
    forall i | 0 <= i < SlotCount
      ensures DecodeSlot(xgmOffset, offset, s, i) == DecodeSlot(xgmOffset, offset, t, i)
    {
      var at := SlotIndex(i);
      DecodeEntryLocal(i, s, at, BigEndian);
      DecodeEntryLocal(i, t, at, BigEndian);
      assert s[at..at + 12] == t[at..at + 12];
    }
    WordSumLocal(s, t, 0, 256, BigEndian);
  }

  /** getPartitions keeps partitions by their own values. */
  predicate IsListed(p: Partition) {
    p.entry.Listed()
  }

  /** getRealPartitions keeps partitions by their own values. */
  predicate IsReal(p: Partition) {
    p.entry.Real()
  }

  predicate InfoListed(p: PartitionInfo) {
    p.entry.Listed()
  }

  predicate InfoReal(p: PartitionInfo) {
    p.entry.Real()
  }

  /** The partitions of a list are distinct objects. */
  ghost predicate Distinct(ps: seq<Partition>) {
    forall i, j :: 0 <= i < j < |ps| ==> ps[i] != ps[j]
  }

  class RootSector {
    const cylinders: int
    const heads: int
    const sectors: int
    /** Absolute offset in bytes of this sector in the image. */
    const offset: int
    /** Size of the disk in bytes. */
    const size: int
    const checksum: int
    /** The list add() appends to: all slots, in the order parse adds them. */
    var partitions: seq<Partition>

    /** The constructor: the header fields, and no partitions yet. */
    constructor (cylinders: int, heads: int, sectors: int, offset: int, size: int, checksum: int)
      ensures this.cylinders == cylinders && this.heads == heads && this.sectors == sectors
      ensures this.offset == offset && this.size == size && this.checksum == checksum
      ensures partitions == []
    {
      this.cylinders := cylinders;
      this.heads := heads;
      this.sectors := sectors;
      this.offset := offset;
      this.size := size;
      this.checksum := checksum;
      partitions := [];
    }

    function View(): RootSectorInfo
      reads this, partitions
    {
      RootSectorInfo(cylinders, heads, sectors, offset, size, checksum, Views(partitions))
    }

    /** isXGM: a root sector anywhere but at the start of the image is taken for a container sector. */
    predicate IsXGM() {
      offset > 0
    }

    /** getEnd: where the disk this sector describes ends. */
    function End(): (r: int)
      ensures r - offset == size
    {
      offset + size
    }

    /** add. */
    method Add(p: Partition)
      modifies this
      ensures partitions == old(partitions) + [p]
    {
      partitions := partitions + [p];
    }

    /** getPartitions: the valid and active partitions, in order. */
    method GetPartitions() returns (result: seq<Partition>)
      ensures result == Filter(partitions, IsListed)
    {
      result := [];
      var i := 0;
      while i < |partitions|
        invariant 0 <= i <= |partitions|
        invariant result == Filter(partitions[..i], IsListed)
      {
        var partition := partitions[i];
        FilterSnoc(partitions[..i], partition, IsListed);
        assert partitions[..i + 1] == partitions[..i] + [partition];
        if partition.entry.IsValid() && partition.entry.IsActive() {
          result := result + [partition];
        }
        i := i + 1;
      }
      assert partitions[..i] == partitions;
    }

    /** getRealPartitions: the valid and active partitions that are not containers, in order. */
    method GetRealPartitions() returns (result: seq<Partition>)
      ensures result == Filter(partitions, IsReal)
    {
      result := [];
      var i := 0;
      while i < |partitions|
        invariant 0 <= i <= |partitions|
        invariant result == Filter(partitions[..i], IsReal)
      {
        var partition := partitions[i];
        FilterSnoc(partitions[..i], partition, IsReal);
        assert partitions[..i + 1] == partitions[..i] + [partition];
        if partition.entry.IsValid() && partition.entry.IsActive() && !partition.entry.IsXGM() {
          result := result + [partition];
        }
        i := i + 1;
      }
      assert partitions[..i] == partitions;
    }

    /** hasValidPartitions: whether some partition is valid and active. */
    method HasValidPartitions() returns (r: bool)
      ensures r <==> exists i :: 0 <= i < |partitions| && IsListed(partitions[i])
      ensures r <==> Filter(partitions, IsListed) != []
    {
      FilterEmpty(partitions, IsListed);
      var i := 0;
      while i < |partitions|
        invariant 0 <= i <= |partitions|
        invariant forall k :: 0 <= k < i ==> !IsListed(partitions[k])
      {
        var partition := partitions[i];
        if partition.entry.IsValid() && partition.entry.IsActive() {
          return true;
        }
        i := i + 1;
      }
      return false;
    }

    /**
     * RootSector.parse: reads the header and the twelve slots through a
     * big-endian slice at the buffer's position; each slot becomes a fresh
     * partition whose offset is then set to its owner.
     */
    static method Parse(xgmOffset: int, offset: int, disk: ByteBuffer) returns (r: RootSector)
      requires disk.Valid() && disk.capacity - disk.position >= 512
      ensures fresh(r) && Distinct(r.partitions)
      ensures forall p :: p in r.partitions ==> fresh(p)
      ensures r.View() == DecodeRootSector(xgmOffset, offset, disk.Remaining())
    {
      var rootSector := disk.Slice();
      r := ParseHeader(offset, rootSector);
      r.ParseSlots(xgmOffset, offset, rootSector);
      ViewsOfSlots(r.partitions, xgmOffset, offset, rootSector.Bytes());
      HeaderAndSlots(xgmOffset, offset, rootSector.Bytes(), r.cylinders, r.heads, r.sectors, r.size, r.checksum, Views(r.partitions));
    }

    /** The two slot loops of parse: the four slots at 0x1C6, then the eight at 0x156, each a fresh partition. */
    method ParseSlots(xgmOffset: int, offset: int, rootSector: ByteBuffer)
      requires rootSector.Valid() && rootSector.capacity >= 512 && rootSector.order == BigEndian
      requires partitions == []
      modifies this
      ensures |partitions| == SlotCount && Distinct(partitions)
      ensures forall k :: 0 <= k < SlotCount ==>
        fresh(partitions[k]) && partitions[k].View() == DecodeSlot(xgmOffset, offset, rootSector.Bytes(), k)
    {
      AddSlots(xgmOffset, offset, rootSector, 0x1C6, 0, 4);
      ghost var firstFour := partitions;
      AddSlots(xgmOffset, offset, rootSector, 0x156, 4, 8);
      assert partitions[..4] == firstFour;
    }

    /** The header half of parse: the geometry, size and checksum, and no partitions yet. */
    static method ParseHeader(offset: int, rootSector: ByteBuffer) returns (r: RootSector)
      requires rootSector.Valid() && rootSector.capacity >= 512 && rootSector.order == BigEndian
      ensures fresh(r) && r.partitions == []
      ensures var d := DecodeRootSector(0, offset, rootSector.Bytes());
        r.cylinders == d.cylinders && r.heads == d.heads && r.sectors == d.sectors
        && r.offset == offset && r.size == d.size && r.checksum == d.checksum
    {
      var cylinders := GetInt16(rootSector, 0x1B6);
      var heads := GetInt8(rootSector, 0x1B8);
      var sectors := GetInt8(rootSector, 0x1C1);
      var size := GetInt32(rootSector, 0x1C2) * 512;
      var checksum := ChecksumInt16(rootSector, 0, 512);
      r := new RootSector(cylinders, heads, sectors, offset, size, checksum);
    }

    /** One of the two slot loops of parse: count slots from at, numbered from first, appended in order. */
    method AddSlots(xgmOffset: int, offset: int, rootSector: ByteBuffer, at: int, first: int, count: int)
      requires rootSector.Valid() && rootSector.capacity >= 512 && rootSector.order == BigEndian
      requires 0 <= first && first + count <= SlotCount && 0 <= count
      requires forall k :: first <= k < first + count ==> SlotIndex(k) == at + 12 * (k - first)
      requires Distinct(partitions)
      modifies this
      ensures Distinct(partitions)
      ensures |partitions| == |old(partitions)| + count && partitions[..|old(partitions)|] == old(partitions)
      ensures forall k :: |old(partitions)| <= k < |partitions| ==>
        fresh(partitions[k]) && partitions[k].View() == DecodeSlot(xgmOffset, offset, rootSector.Bytes(), first + k - |old(partitions)|)
    {
      ghost var s := rootSector.Bytes();
      ghost var n := |partitions|;
      var i := 0;
      while i < count
        invariant 0 <= i <= count && |partitions| == n + i
        invariant Distinct(partitions)
        invariant partitions[..n] == old(partitions)
        invariant forall k :: n <= k < n + i ==> fresh(partitions[k])
        invariant Slotted(n, first, xgmOffset, offset, s)
        invariant s == rootSector.Bytes()
      {
        var partition := AddSlot(xgmOffset, offset, rootSector, at + i * 12, first + i, n, first, s);
        i := i + 1;
      }
    }

    /** The partitions from n on hold the slots numbered from first, in order. */
    ghost predicate Slotted(n: int, first: int, xgmOffset: int, offset: int, s: seq<byte>)
      reads this, partitions
    {
      |s| >= 512 && 0 <= n <= |partitions| && 0 <= first && first + |partitions| - n <= SlotCount &&
      forall k :: n <= k < |partitions| ==> partitions[k].View() == DecodeSlot(xgmOffset, offset, s, first + k - n)
    }

    /** One turn of a slot loop: parse the slot and add it; the partitions already added keep their values. */
    method AddSlot(xgmOffset: int, offset: int, rootSector: ByteBuffer, pos: int, i: int, ghost n: int, ghost first: int, ghost s: seq<byte>)
      returns (partition: Partition)
      requires rootSector.Valid() && rootSector.capacity >= 512 && rootSector.order == BigEndian
      requires 0 <= i < SlotCount && pos == SlotIndex(i)
      requires s == rootSector.Bytes() && Distinct(partitions)
      requires Slotted(n, first, xgmOffset, offset, s) && i == first + |partitions| - n
      modifies this
      ensures fresh(partition) && partitions == old(partitions) + [partition]
      ensures Distinct(partitions) && Slotted(n, first, xgmOffset, offset, s) && s == rootSector.Bytes()
    {
      partition := ParseSlot(xgmOffset, offset, rootSector, pos, i);
      Add(partition);
    }

    /** The private parse: one slot, with its offset set to its owner. */
    static method ParseSlot(xgmOffset: int, offset: int, disk: ByteBuffer, pos: int, i: int) returns (partition: Partition)
      requires disk.Valid() && disk.capacity >= 512 && disk.order == BigEndian
      requires 0 <= i < SlotCount && pos == SlotIndex(i)
      ensures fresh(partition)
      ensures partition.View() == DecodeSlot(xgmOffset, offset, disk.Bytes(), i)
    {
      partition := Partition.Parse(i, disk, pos);
      partition.SetOffset(if partition.entry.IsXGM() then xgmOffset else offset);
    }
  }

  /** A root sector value is its header, which does not depend on the container offset, and its slots. */
  lemma HeaderAndSlots(xgmOffset: int, offset: int, s: seq<byte>, cylinders: int, heads: int, sectors: int,
                       size: int, checksum: int, views: seq<PartitionInfo>)
    requires |s| >= 512
    requires var d := DecodeRootSector(0, offset, s);
      cylinders == d.cylinders && heads == d.heads && sectors == d.sectors && size == d.size && checksum == d.checksum
    requires views == DecodeRootSector(xgmOffset, offset, s).partitions
    ensures RootSectorInfo(cylinders, heads, sectors, offset, size, checksum, views) == DecodeRootSector(xgmOffset, offset, s)
  {
  }

  /** Twelve partitions holding the twelve slots in order have the decoded root sector's partition list as their values. */
  lemma ViewsOfSlots(ps: seq<Partition>, xgmOffset: int, offset: int, s: seq<byte>)
    requires |s| >= 512 && |ps| == SlotCount
    requires forall k :: 0 <= k < SlotCount ==> ps[k].View() == DecodeSlot(xgmOffset, offset, s, k)
    ensures Views(ps) == DecodeRootSector(xgmOffset, offset, s).partitions
  {
  }

  /** getRealPartitions keeps a subsequence of what getPartitions keeps, and is getPartitions without the containers. */
  lemma RealAmongListed(ps: seq<Partition>)
    ensures Filter(Filter(ps, IsListed), IsReal) == Filter(ps, IsReal)
    ensures IsSubsequence(Filter(ps, IsReal), Filter(ps, IsListed))
  {
    FilterFilter(ps, IsListed, IsReal);
    FilterIsSubsequence(Filter(ps, IsListed), IsReal);
  }

  /** The two filters of the class select the same partitions as the filters on their values. */
  lemma FiltersOnValues(ps: seq<Partition>)
    ensures Views(Filter(ps, IsListed)) == Filter(Views(ps), InfoListed)
    ensures Views(Filter(ps, IsReal)) == Filter(Views(ps), InfoReal)
  {
    ViewsFilter(ps, IsListed, InfoListed);
    ViewsFilter(ps, IsReal, InfoReal);
  }

  /**
   * After parse, every real partition counts from the sector that holds it,
   * and every listed container counts from the first container sector.
   */
  lemma {:induction false} DecodedOwners(xgmOffset: int, offset: int, s: seq<byte>)
    requires |s| >= 512
    ensures forall p :: p in Filter(DecodeRootSector(xgmOffset, offset, s).partitions, InfoReal) ==> p.offset == offset
    ensures forall p :: p in Filter(DecodeRootSector(xgmOffset, offset, s).partitions, InfoListed) ==>
      (p.entry.IsXGM() ==> p.offset == xgmOffset)
  {
    var ps := DecodeRootSector(xgmOffset, offset, s).partitions;
    forall p | p in Filter(ps, InfoReal)
      ensures p.offset == offset
    {
      FilterMembership(ps, InfoReal, p);
    }
    forall p | p in Filter(ps, InfoListed) && p.entry.IsXGM()
      ensures p.offset == xgmOffset
    {
      FilterMembership(ps, InfoListed, p);
    }
  }
}

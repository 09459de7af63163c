/**
 * One 12-byte partition slot of an Atari root sector: flags, a three-letter
 * type and start/length counted in 512-byte sectors, plus the offset of the
 * root sector that owns it and the boot sector attached after parsing.
 */
module Partitions {
  import opened Wrappers
  import opened Bytes
  import opened Buffers
  import opened IntUtils
  import opened StringUtils
  import opened BootSectors
  import opened Seqs

  /** The values a slot holds, as read: start and length are already in bytes. */
  datatype Entry = Entry(number: int, flags: int, partitionType: string, start: int, length: int)
  {
    /** Flag bit 0. */
    predicate IsActive() {
      Bits(flags, 0, 1) == 1
    }

    /** Flag bit 7. */
    predicate IsBoot() {
      Bits(flags, 7, 1) == 1
    }

    predicate IsGEM() {
      partitionType == "GEM"
    }

    predicate IsBGM() {
      partitionType == "BGM"
    }

    /** A container slot pointing at the next root sector of the chain. */
    predicate IsXGM() {
      partitionType == "XGM"
    }

    /** No flag among bits 1..6, and one of the three known types. */
    predicate IsValid() {
      Bits(flags, 1, 6) == 0 && (IsGEM() || IsBGM() || IsXGM())
    }

    /** What getPartitions keeps: valid and active. */
    predicate Listed() {
      IsValid() && IsActive()
    }

    /** What getRealPartitions keeps: valid, active and not a container. */
    predicate Real() {
      Listed() && !IsXGM()
    }

    /** End in bytes relative to the owning root sector. */
    function End(): (r: int)
      ensures r - start == length
    {
      start + length
    }
  }

  /** The flag tests read single bits of the flag byte. */
  lemma FlagBits(e: Entry)
    requires 0 <= e.flags < 0x100
    ensures e.IsActive() <==> e.flags % 2 == 1
    ensures e.IsBoot() <==> e.flags >= 0x80
    ensures e.IsValid() ==> e.flags in {0x00, 0x01, 0x80, 0x81}
  {
    assert Pow2(7) == 0x80;
    if e.IsValid() {
      assert Pow2(6) == 0x40;
      var high := e.flags / 0x80;
      var middle := (e.flags / 2) % 0x40;
      assert middle == 0;
      assert e.flags == 0x80 * high + 2 * middle + e.flags % 2;
    }
  }

  /** The type tests exclude each other, and a slot of any other type is never valid. */
  lemma TypesExclusive(e: Entry)
    ensures !(e.IsGEM() && e.IsBGM()) && !(e.IsGEM() && e.IsXGM()) && !(e.IsBGM() && e.IsXGM())
    ensures e.partitionType !in {"GEM", "BGM", "XGM"} ==> !e.IsValid()
  {
  }

  /**
   * Partition.parse on the bytes of a buffer in the given order: the flag
   * byte at index, three US-ASCII characters after it, then start and length
   * as signed 32-bit sector counts, multiplied by 512.
   */
  function DecodeEntry(number: int, s: seq<byte>, index: int, order: ByteOrder): (e: Entry)
    requires 0 <= index && index + 12 <= |s|
    ensures e.number == number && 0 <= e.flags < 0x100 && |e.partitionType| == 3
    ensures e.start % 512 == 0 && -0x8000_0000 * 512 <= e.start < 0x8000_0000 * 512
    ensures e.length % 512 == 0 && -0x8000_0000 * 512 <= e.length < 0x8000_0000 * 512
  {
    Entry(number, s[index], Ascii(s[index + 1..index + 4]),
      Signed32(Unsigned32(s, index + 4, order)) * 512,
      Signed32(Unsigned32(s, index + 8, order)) * 512)
  }

  /** A slot decodes from its own twelve bytes only. */
  lemma DecodeEntryLocal(number: int, s: seq<byte>, index: int, order: ByteOrder)
    requires 0 <= index && index + 12 <= |s|
    ensures DecodeEntry(number, s, index, order) == DecodeEntry(number, s[index..index + 12], 0, order)
  {
    var w := s[index..index + 12];
    assert w[1..4] == [w[1], w[2], w[3]];
    assert s[index + 1..index + 4] == [s[index + 1], s[index + 2], s[index + 3]];
    assert w[0] == s[index] && w[4] == s[index + 4] && w[5] == s[index + 5] && w[6] == s[index + 6];
    assert w[7] == s[index + 7] && w[8] == s[index + 8] && w[9] == s[index + 9];
    assert w[1] == s[index + 1] && w[2] == s[index + 2] && w[3] == s[index + 3];
    assert w[10] == s[index + 10] && w[11] == s[index + 11];
  }

  /** The twelve bytes of a slot with the given flag byte, type bytes and sector counts. */
  function EncodeEntry(flags: byte, typeBytes: seq<byte>, startSectors: int, lengthSectors: int, order: ByteOrder): (s: seq<byte>)
    requires |typeBytes| == 3
    ensures |s| == 12
  {
    [flags] + typeBytes + Encode32(startSectors, order) + Encode32(lengthSectors, order)
  }

  /** Decoding an encoded slot gives back the flags, the type and the sector counts in bytes (to 32 signed bits). */
  lemma DecodeEncodeEntry(number: int, flags: byte, typeBytes: seq<byte>, startSectors: int, lengthSectors: int, order: ByteOrder)
    requires |typeBytes| == 3
    ensures DecodeEntry(number, EncodeEntry(flags, typeBytes, startSectors, lengthSectors, order), 0, order)
      == Entry(number, flags, Ascii(typeBytes), Int32(startSectors) * 512, Int32(lengthSectors) * 512)
  {
    var s := EncodeEntry(flags, typeBytes, startSectors, lengthSectors, order);
    var a, b := Encode32(startSectors, order), Encode32(lengthSectors, order);
    assert s == ([flags] + typeBytes) + (a + b);
    assert s[1..4] == typeBytes;
    assert s[4..8] == a;
    assert s[8..12] == b;
    Signed32OfEncode32(startSectors, order);
    Signed32OfEncode32(lengthSectors, order);
    assert Unsigned32(s, 4, order) == Unsigned32(s[4..8], 0, order);
    assert Unsigned32(s, 8, order) == Unsigned32(s[8..12], 0, order);
  }

  /** A partition as a value: its slot, the owning root sector's offset and its boot sector. */
  datatype PartitionInfo = PartitionInfo(entry: Entry, offset: int, bootSector: Option<BootSector>)
  {
    /** Start in bytes from the start of the image. */
    function AbsoluteStart(): (r: int)
      ensures r - offset == entry.start
    {
      offset + entry.start
    }

    /** End in bytes from the start of the image. */
    function AbsoluteEnd(): (r: int)
      ensures r - AbsoluteStart() == entry.length
      ensures r - entry.End() == offset
    {
      AbsoluteStart() + entry.length
    }
  }

  class Partition {
    /** number, flags, type, start and length: fixed by the constructor. */
    const entry: Entry
    /** Absolute offset in bytes of the root sector the start counts from. */
    var offset: int
    /** The BIOS parameter block, None until one is attached. */
    var bootSector: Option<BootSector>

    /** The constructor: offset 0 and no boot sector. */
    constructor (number: int, flags: int, partitionType: string, start: int, length: int)
      ensures entry == Entry(number, flags, partitionType, start, length)
      ensures offset == 0 && bootSector == None
    {
      entry := Entry(number, flags, partitionType, start, length);
      offset := 0;
      bootSector := None;
    }

    function View(): PartitionInfo
      reads this
    {
      PartitionInfo(entry, offset, bootSector)
    }

    /** getAbsoluteStart. */
    function AbsoluteStart(): (r: int)
      reads this
      ensures r == View().AbsoluteStart()
    {
      offset + entry.start
    }

    /** setOffset: only the offset changes. */
    method SetOffset(o: int)
      modifies this
      ensures View() == old(View()).(offset := o)
    {
      offset := o;
    }

    /** setBootSector: only the boot sector changes. */
    method SetBootSector(b: Option<BootSector>)
      modifies this
      ensures View() == old(View()).(bootSector := b)
    {
      bootSector := b;
    }

    /** Partition.parse: a fresh partition holding the slot at index of disk, with offset 0 and no boot sector. */
    static method Parse(number: int, disk: ByteBuffer, index: int) returns (p: Partition)
      requires disk.Valid() && 0 <= index && index + 12 <= disk.capacity
      ensures fresh(p)
      ensures p.View() == PartitionInfo(DecodeEntry(number, disk.Bytes(), index, disk.order), 0, None)
    {
      var flags := GetInt8(disk, index);
      var partitionType := GetString(disk, index + 1, 3);
      var start := GetInt32(disk, index + 4) * 512;
      var length := GetInt32(disk, index + 8) * 512;
      p := new Partition(number, flags, partitionType, start, length);
    }
  }

  /** The values of a list of partitions. */
  function Views(ps: seq<Partition>): (r: seq<PartitionInfo>)
    reads ps
    ensures |r| == |ps|
    ensures forall i :: 0 <= i < |ps| ==> r[i] == ps[i].View()
  {
    if ps == [] then [] else Views(ps[..|ps| - 1]) + [ps[|ps| - 1].View()]
  }

  /** Filtering partitions by a test on their values and then taking the values is filtering the values. */
  lemma {:induction false} ViewsFilter(ps: seq<Partition>, f: Partition -> bool, g: PartitionInfo -> bool)
    requires forall i :: 0 <= i < |ps| ==> f(ps[i]) == g(ps[i].View())
    ensures Views(Filter(ps, f)) == Filter(Views(ps), g)
  {
    if ps != [] {
      var init, last := ps[..|ps| - 1], ps[|ps| - 1];
      ViewsFilter(init, f, g);
      var vs := Views(ps);
      assert vs[..|vs| - 1] == Views(init) && vs[|vs| - 1] == last.View();
      assert Filter(vs, g) == Filter(Views(init), g) + (if g(last.View()) then [last.View()] else []);
      var kept := if f(last) then [last] else [];
      assert Filter(ps, f) == Filter(init, f) + kept;
      ViewsAppend(Filter(init, f), kept);
    }
  }

  lemma ViewsAppend(a: seq<Partition>, b: seq<Partition>)
    ensures Views(a + b) == Views(a) + Views(b)
  {
  }
}

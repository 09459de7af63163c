/**
 * The BIOS parameter block of the older generation: bytes per sector and
 * sectors per cluster, read from a signed byte array with that generation's
 * helpers.
 */
module BiosParameterBlocks {
  import opened Bytes
  import opened LegacyIntUtils
  import BootSectors

  /** The two fields; the getters return them as the constructor stored them. */
  datatype BiosParameterBlock = BiosParameterBlock(bytesPerSector: int, sectorsPerCluster: int)

  /** The block at index: the 16-bit field at index + 11, low byte first, and the byte at index + 13. */
  function Decode(disk: seq<sbyte>, index: int): (b: BiosParameterBlock)
    requires 0 <= index && index + 14 <= |disk|
    ensures 0 <= b.bytesPerSector < 0x1_0000 && 0 <= b.sectorsPerCluster < 0x100
  {
    BiosParameterBlock(ToByte(disk[index + 11]) + 0x100 * ToByte(disk[index + 12]), ToByte(disk[index + 13]))
  }

  /** parse(disk, index): two reads with the older helpers and the constructor. */
  method Parse(disk: seq<sbyte>, index: int) returns (b: BiosParameterBlock)
    requires 0 <= index && index + 14 <= |disk|
    ensures b == Decode(disk, index)
  {
    var bytesPerSector := GetInt16BigEndian(disk, index + 11);
    var sectorsPerCluster := GetInt8(disk, index + 13);
    b := BiosParameterBlock(bytesPerSector, sectorsPerCluster);
  }

  /**
   * The two fields are the ones the image package's boot sector decodes
   * from the same bytes: the older 16-bit read agrees with the newer
   * little-endian one.
   */
  lemma AgreesWithBootSector(disk: seq<sbyte>, index: int, checksum: int)
    requires 0 <= index && index + BootSectors.BpbEnd <= |disk|
    ensures var d := BootSectors.DecodeBootSector(Unsigned(disk[index..]), checksum);
      Decode(disk, index).bytesPerSector == d.bytesPerSector
      && Decode(disk, index).sectorsPerCluster == d.sectorsPerCluster
  {
    var s := Unsigned(disk[index..]);
    BlockBytes(disk, index, s);
  }

  /** The bytes parse reads, seen through the unsigned window at index. */
  lemma BlockBytes(disk: seq<sbyte>, index: int, s: seq<byte>)
    requires 0 <= index && index + 14 <= |disk| && s == Unsigned(disk[index..])
    ensures BootSectors.U16(s, 0x0B) == ToByte(disk[index + 11]) + 0x100 * ToByte(disk[index + 12])
    ensures s[0x0D] == ToByte(disk[index + 13])
  {
    assert disk[index..][11] == disk[index + 11] && disk[index..][12] == disk[index + 12];
    assert disk[index..][13] == disk[index + 13];
  }

  /** Only bytes 11 to 13 of the block matter: two windows that agree there decode alike. */
  lemma DecodeLocal(disk: seq<sbyte>, index: int, other: seq<sbyte>, at: int)
    requires 0 <= index && index + 14 <= |disk| && 0 <= at && at + 14 <= |other|
    requires disk[index + 11..index + 14] == other[at + 11..at + 14]
    ensures Decode(disk, index) == Decode(other, at)
  {
    assert disk[index + 11] == disk[index + 11..index + 14][0];
    assert disk[index + 12] == disk[index + 11..index + 14][1];
    assert disk[index + 13] == disk[index + 11..index + 14][2];
  }
}

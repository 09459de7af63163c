/** The file systems an extracted partition can carry, with their MS-DOS partition type codes. */
module FileSystems {
  import opened Wrappers

  datatype FileSystem = FAT12 | FAT16 | FAT32 {
    /** getType: the partition type code fixed for each constant. */
    function Type(): (t: int)
      ensures 0 <= t < 0x100
      ensures t == 0x01 <==> this == FAT12
      ensures t == 0x0E <==> this == FAT16
      ensures t == 0x0C <==> this == FAT32
    {
      match this
      case FAT12 => 0x01
      case FAT16 => 0x0E
      case FAT32 => 0x0C
    }
  }

  /** The file system a type code stands for, if any. */
  function FromType(t: int): (r: Option<FileSystem>)
    ensures r.Some? ==> r.value.Type() == t
  {
    if t == 0x01 then Some(FAT12)
    else if t == 0x0E then Some(FAT16)
    else if t == 0x0C then Some(FAT32)
    else None
  }

  /** Each file system is recovered from its code, so no two share one. */
  lemma FromTypeOfType(fs: FileSystem)
    ensures FromType(fs.Type()) == Some(fs)
  {
  }

  lemma TypesDistinct(a: FileSystem, b: FileSystem)
    requires a != b
    ensures a.Type() != b.Type()
  {
    FromTypeOfType(a);
    FromTypeOfType(b);
  }
}

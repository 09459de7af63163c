# ataripart in Dafny

A model of the disk-image engine of ataripart. This engine reads a hard-disk image made for an Atari ST or TT under AHDI.

The image starts with a master root sector. That sector holds twelve partition slots:

- four at 0x1C6;
- eight more (the ICD extension) at 0x156.

Each slot has a flag byte, a three-letter type and start and length as 32-bit big-endian sector counts.

- GEM and BGM slots are real partitions. Each starts with an MS-DOS-style boot sector whose BIOS parameter block is little-endian.
- An XGM slot points to an extended root sector. The slots of that sector are relative to the first extended root sector and may point to the next one.

The engine walks that chain and returns every root sector. It attaches a parsed boot sector to each real partition that lies inside the image. It can also write an MS-DOS master boot record that describes one extracted partition.

The model covers both generations of the code:

- the `de.heiden.ataripart.image` package;
- the older `de.heiden` helpers that read the BIOS parameter block from a signed byte array.

Its modules follow the source files:

| module | source | what it holds |
|---|---|---|
| `Bytes` | - | bytes, 16/32-bit reads and writes in both byte orders, 32-bit wrap-around, and writes into a byte sequence (`Splice`, `ApplyWrites`) |
| `Buffers` | `java.nio.ByteBuffer` as used | a class over a shared `array<byte>` with base, capacity, position and byte order; a slice shares its parent's array, as in Java |
| `IntUtils` | `image/IntUtils.java` | 8/16/32-bit gets and sets, the 16-bit sector checksum, `hex` and `hexPlain` |
| `Hex` | `Integer.toHexString`, `Long.toHexString` | hex digits, and reading a hex string back (`ParseHex`) |
| `StringUtils` | `image/StringUtils.java` | US-ASCII decoding and `String.trim` |
| `FileSystems` | `image/FileSystem.java` | the three FAT types and their MBR type bytes |
| `Partitions` | `image/Partition.java` | the slot as a value (`Entry`) and the mutable `Partition` class (offset, boot sector) |
| `RootSectors` | `image/RootSector.java` | the header, the twelve slots, and the listed and real partitions |
| `BootSectors` | `image/BootSector.java` | the boot sector as a value, its decoder, and the in-place sector-size fix |
| `MsDos` | `image/msdos/*.java` | the 16-byte partition entry and the 512-byte MBR |
| `ImageReaders` | `image/ImageReader.java`, `commands/AbstractCommand.java` | reading a root sector with its boot sectors, and walking the XGM chain |
| `HexDumps` | `ataripart/IntUtils.java` | the hex dump as lines, and its rendering |
| `LegacyIntUtils` | `de/heiden/IntUtils.java` | the signed-byte readers, `hexPlain` and `hexDump` |
| `BiosParameterBlocks` | `de/heiden/BiosParameterBlock.java` | bytes per sector and sectors per cluster |

Where the source works by changing state, the model does too:

- buffers are arrays;
- `Partition`, `RootSector` and `ImageReader` are classes;
- the loops of `checksumInt16`, `getPartitions`, `hexDump`, `getIntBigEndian` and `readRootSector` are `while` loops.

Each of those methods is proved against a pure function on sequences, such as `Checksum`, `Filter`, `Lines` or `DecodeRootSector`. The properties are proved about those functions.

The image file is an immutable `seq<byte>` held by `ImageReader`. Java's recursion depth becomes a `fuel` parameter: a chain of XGM root sectors longer than the fuel ends in `ChainTooLong`.

Where the written behaviour of the code and its documentation differ, the model follows the code:

- The `getInt32` helpers are documented as reading an "unsigned" 32-bit integer. They mask with the `int` literal `0xFFFFFFFF`, which is -1, so they return the signed value. Partition start and length and the root-sector size can therefore be negative; `DecodeEntry` and `DecodeRootSector` use `Signed32`.
- For FAT32, `sectorsPerFAT` is read as a 16-bit field at 0x24, as the code does, not as a 32-bit field.
- Strings read from the image are not trimmed on reading. Only the `BootSector` constructor trims them, at both ends, with `String.trim`.
- `de.heiden.IntUtils.getInt16BigEndian` reads low byte first, and `getInt32LittleEndian` reads high byte first. The names are swapped with respect to the order they read; the model follows the reads.

## Model

| member | source | states |
|---|---|---|
| IntUtils.GetInt8 | src/main/java/de/heiden/ataripart/image/IntUtils.java:32-34 | the byte at index, as a value 0..255 |
| IntUtils.GetInt16 | src/main/java/de/heiden/ataripart/image/IntUtils.java:42-44 | a value 0..0xFFFF, read in the buffer's byte order |
| IntUtils.GetInt32 | src/main/java/de/heiden/ataripart/image/IntUtils.java:52-54 | the signed 32-bit value: congruent mod 2^32 to the unsigned reading, and negative exactly when the high byte is 0x80 or more |
| IntUtils.SetInt8 | src/main/java/de/heiden/ataripart/image/IntUtils.java:63-65 | the backing array changes in exactly one byte, which becomes value mod 256 |
| IntUtils.SetInt16 | src/main/java/de/heiden/ataripart/image/IntUtils.java:74-76 | the backing array changes in exactly the two bytes at index, which hold value in the buffer's order |
| IntUtils.SetInt32 | src/main/java/de/heiden/ataripart/image/IntUtils.java:85-87 | the backing array changes in exactly the four bytes at index, which hold `(int) value` in the buffer's order |
| IntUtils.GetAfterSetInt8 | src/main/java/de/heiden/ataripart/image/IntUtils.java:63-65 | reading back a written byte gives value mod 256 |
| IntUtils.GetAfterSetInt16 | src/main/java/de/heiden/ataripart/image/IntUtils.java:74-76 | reading back a written 16-bit field gives value mod 2^16, in either order |
| IntUtils.GetAfterSetInt32 | src/main/java/de/heiden/ataripart/image/IntUtils.java:85-87 | reading back a written 32-bit field gives value truncated to a Java `int` |
| IntUtils.SetInt16Frame | src/main/java/de/heiden/ataripart/image/IntUtils.java:74-76 | a 16-bit write leaves every other byte alone |
| IntUtils.ChecksumInt16 | src/main/java/de/heiden/ataripart/image/IntUtils.java:17-24 | the loop computes `Checksum`: the sum of ceil(length/2) 16-bit words in the buffer's order, mod 2^16, despite the running `int` overflowing |
| IntUtils.Int32Add | src/main/java/de/heiden/ataripart/image/IntUtils.java:17-24 | adding to a wrapped 32-bit sum equals wrapping the exact sum, which is why the overflowing Java loop gives the exact checksum |
| IntUtils.WordSumSplit | src/main/java/de/heiden/ataripart/image/IntUtils.java:17-24 | the word sum over n + m words is the sum over the first n plus the sum over the next m |
| IntUtils.WordSumLocal | src/main/java/de/heiden/ataripart/image/IntUtils.java:17-24 | the checksum depends only on the bytes it covers |
| IntUtils.WordSumBothOrders | src/main/java/de/heiden/ataripart/image/IntUtils.java:17-24 | big-endian plus little-endian word sums equal 257 times the byte sum |
| IntUtils.ChecksumDependsOnOrder | src/main/java/de/heiden/ataripart/image/IntUtils.java:17-24 | the same bytes give different checksums in the two orders |
| IntUtils.HexPlain | src/main/java/de/heiden/ataripart/image/IntUtils.java:107-116 | the result is the hex digits of the 64-bit number, left-padded with zeros to length |
| IntUtils.HexPlainReadBack | src/main/java/de/heiden/ataripart/image/IntUtils.java:107-116 | the result is at least length hex digits, and reads back as the number mod 2^64 (its two's complement for negatives) |
| IntUtils.HexString | src/main/java/de/heiden/ataripart/image/IntUtils.java:96-98 | the result is `$` followed by `hexPlain`, and its digits read back as the number mod 2^64 |
| IntUtils.LongHex | src/main/java/de/heiden/ataripart/image/IntUtils.java:108 | `Long.toHexString`: hex digits that read back as the number mod 2^64 |
| Hex.IntHex | src/main/java/de/heiden/IntUtils.java:50 | `Integer.toHexString`: hex digits that read back as the number mod 2^32 |
| Hex.ParseToHex | src/main/java/de/heiden/IntUtils.java:50 | hex printing and hex reading are inverse |
| Hex.ToHexNoLeadingZero | src/main/java/de/heiden/IntUtils.java:50 | the printed digits start with 0 only for zero |
| Hex.PadLeft | src/main/java/de/heiden/IntUtils.java:51-56 | the zero padding loop: the result ends with the input, has length max(length, input length), and everything before the input is '0' |
| Hex.ParseHexZeros | src/main/java/de/heiden/IntUtils.java:51-56 | leading zeros do not change the value |
| StringUtils.GetString | src/main/java/de/heiden/ataripart/image/StringUtils.java:13-19 | the loop yields one character per byte: US-ASCII for bytes below 0x80, the replacement character otherwise |
| StringUtils.AsciiInjective | src/main/java/de/heiden/ataripart/image/StringUtils.java:13-19 | on 7-bit bytes, decoding loses nothing |
| StringUtils.AsciiLossy | src/main/java/de/heiden/ataripart/image/StringUtils.java:13-19 | bytes 0x80 and 0xFF decode alike |
| StringUtils.TrimIsInfix | src/main/java/de/heiden/ataripart/image/BootSector.java:138-152 | `String.trim` returns a contiguous piece of the input that neither starts nor ends with a blank |
| StringUtils.TrimDropsBlanks | src/main/java/de/heiden/ataripart/image/BootSector.java:138-152 | everything trim removes is a blank (a character up to U+0020) |
| StringUtils.TrimIdempotent | src/main/java/de/heiden/ataripart/image/BootSector.java:138-152 | trimming twice is trimming once |
| StringUtils.TrimFixed | src/main/java/de/heiden/ataripart/image/BootSector.java:138-152 | a string with no blank at either end is its own trim |
| FileSystems.FileSystem.Type | src/main/java/de/heiden/ataripart/image/FileSystem.java:6-30 | the type byte is 0x01, 0x0E or 0x0C, one to one with FAT12, FAT16 and FAT32 |
| FileSystems.FromTypeOfType | src/main/java/de/heiden/ataripart/image/FileSystem.java:6-30 | the type byte identifies the file system |
| FileSystems.TypesDistinct | src/main/java/de/heiden/ataripart/image/FileSystem.java:7-9 | distinct file systems have distinct type bytes |
| Partitions.FlagBits | src/main/java/de/heiden/ataripart/image/Partition.java:74-105 | active is bit 0, boot is bit 7, and a valid partition has no other flag bits |
| Partitions.TypesExclusive | src/main/java/de/heiden/ataripart/image/Partition.java:98-126 | a partition has at most one of the GEM, BGM and XGM types, and any other type is never valid |
| Partitions.Entry.IsActive | src/main/java/de/heiden/ataripart/image/Partition.java:74-76 | active exactly when flag bit 0 is set |
| Partitions.Entry.IsBoot | src/main/java/de/heiden/ataripart/image/Partition.java:81-83 | bootable exactly when flag bit 7 is set |
| Partitions.Entry.IsValid | src/main/java/de/heiden/ataripart/image/Partition.java:98-105 | valid exactly when flag bits 1 to 6 are clear and the type is GEM, BGM or XGM |
| Partitions.Entry.IsGEM | src/main/java/de/heiden/ataripart/image/Partition.java:110-112 | the type is exactly "GEM" |
| Partitions.Entry.IsBGM | src/main/java/de/heiden/ataripart/image/Partition.java:117-119 | the type is exactly "BGM" |
| Partitions.Entry.IsXGM | src/main/java/de/heiden/ataripart/image/Partition.java:124-126 | the type is exactly "XGM", the container slot that `readRootSectors` follows |
| Partitions.Entry.End | src/main/java/de/heiden/ataripart/image/Partition.java:173-175 | the end is start plus length |
| Partitions.PartitionInfo.AbsoluteStart | src/main/java/de/heiden/ataripart/image/Partition.java:145-147 | the absolute start is the relative start shifted by the offset |
| Partitions.PartitionInfo.AbsoluteEnd | src/main/java/de/heiden/ataripart/image/Partition.java:166-168 | the absolute end is the absolute start plus length, and the relative end plus the offset |
| Partitions.DecodeEntry | src/main/java/de/heiden/ataripart/image/Partition.java:234-240 | a slot gives a flag byte, a three-character type, and start and length as multiples of 512 within the signed 32-bit sector range |
| Partitions.DecodeEntryLocal | src/main/java/de/heiden/ataripart/image/Partition.java:234-240 | a slot decodes from its own twelve bytes only |
| Partitions.DecodeEncodeEntry | src/main/java/de/heiden/ataripart/image/Partition.java:234-240 | decoding the twelve bytes of a slot gives back its flags, type and sector counts times 512 |
| Partitions.Partition.constructor | src/main/java/de/heiden/ataripart/image/Partition.java:55-62 | the slot fields as given, offset 0 and no boot sector |
| Partitions.Partition.AbsoluteStart | src/main/java/de/heiden/ataripart/image/Partition.java:145-147 | agrees with the value view |
| Partitions.Partition.SetOffset | src/main/java/de/heiden/ataripart/image/Partition.java:138-140 | only the offset changes |
| Partitions.Partition.SetBootSector | src/main/java/de/heiden/ataripart/image/Partition.java:189-191 | only the boot sector changes |
| Partitions.Partition.Parse | src/main/java/de/heiden/ataripart/image/Partition.java:234-240 | a fresh partition whose view is the decoded slot with offset 0 and no boot sector |
| Partitions.ViewsFilter | src/main/java/de/heiden/ataripart/image/RootSector.java:132-155 | filtering the objects and then taking their values equals filtering the values |
| RootSectors.SlotIndex | src/main/java/de/heiden/ataripart/image/RootSector.java:226-232 | slots 0-3 lie at 0x1C6 + 12i and slots 4-11 at 0x156 + 12(i-4), all inside 0x156..0x1FE |
| RootSectors.SlotsApart | src/main/java/de/heiden/ataripart/image/RootSector.java:226-232 | no two slots overlap, and none overlaps the geometry fields at 0x1B6..0x1C5 |
| RootSectors.DecodeSlot | src/main/java/de/heiden/ataripart/image/RootSector.java:248-252 | slot i decodes big-endian, is numbered i, and gets the XGM offset exactly when it is an XGM slot |
| RootSectors.DecodeRootSector | src/main/java/de/heiden/ataripart/image/RootSector.java:216-236 | twelve partitions in slot order with the given offset; geometry, size and checksum in their ranges |
| RootSectors.SlotNumbering | src/main/java/de/heiden/ataripart/image/RootSector.java:226-232 | partition i carries number i, and an XGM partition is relative to the XGM offset |
| RootSectors.DecodeRootSectorLocal | src/main/java/de/heiden/ataripart/image/RootSector.java:216-236 | a root sector depends only on the first 512 bytes |
| RootSectors.RootSector.constructor | src/main/java/de/heiden/ataripart/image/RootSector.java:56-63 | the header fields as given and no partitions |
| RootSectors.RootSector.IsXGM | src/main/java/de/heiden/ataripart/image/RootSector.java:97-99 | a root sector is taken for an extended (XGM) one exactly when its offset is positive |
| RootSectors.RootSector.End | src/main/java/de/heiden/ataripart/image/RootSector.java:111-113 | the end is offset plus size |
| RootSectors.RootSector.Add | src/main/java/de/heiden/ataripart/image/RootSector.java:162-164 | the partition is appended, nothing else changes |
| RootSectors.RootSector.GetPartitions | src/main/java/de/heiden/ataripart/image/RootSector.java:132-141 | the loop returns exactly the partitions that are valid and active, in order |
| RootSectors.RootSector.GetRealPartitions | src/main/java/de/heiden/ataripart/image/RootSector.java:146-155 | the loop returns exactly the GEM and BGM partitions that are valid and active, in order |
| RootSectors.RootSector.HasValidPartitions | src/main/java/de/heiden/ataripart/image/RootSector.java:172-180 | true exactly when some partition is valid and active, exactly when `getPartitions` is non-empty |
| RootSectors.RootSector.Parse | src/main/java/de/heiden/ataripart/image/RootSector.java:216-236 | a fresh root sector of twelve fresh, distinct partitions whose value is `DecodeRootSector` of the remaining bytes |
| RootSectors.RootSector.ParseSlots | src/main/java/de/heiden/ataripart/image/RootSector.java:226-232 | the two loops add the twelve slots in order, each fresh and decoded from its slot |
| RootSectors.RootSector.ParseHeader | src/main/java/de/heiden/ataripart/image/RootSector.java:217-224 | the header fields read from the slice agree with `DecodeRootSector` |
| RootSectors.RootSector.ParseSlot | src/main/java/de/heiden/ataripart/image/RootSector.java:248-252 | a fresh partition with the slot's value and offset |
| RootSectors.RealAmongListed | src/main/java/de/heiden/ataripart/image/RootSector.java:132-155 | the real partitions are the real ones among the listed ones, and appear in them in order |
| RootSectors.FiltersOnValues | src/main/java/de/heiden/ataripart/image/RootSector.java:132-155 | both filters commute with taking values |
| RootSectors.DecodedOwners | src/main/java/de/heiden/ataripart/image/RootSector.java:248-252 | a real partition is relative to the root sector's own offset, and a listed XGM partition to the XGM offset |
| BootSectors.NewBootSector | src/main/java/de/heiden/ataripart/image/BootSector.java:118-154 | system name, volume label and type name are present as given and trimmed; the other fields are stored unchanged |
| BootSectors.NewBootSectorStable | src/main/java/de/heiden/ataripart/image/BootSector.java:118-154 | constructing from already trimmed fields changes nothing |
| BootSectors.NewBootSectorTrimmed | src/main/java/de/heiden/ataripart/image/BootSector.java:118-154 | the system name, volume label and type name of a constructed boot sector are already trimmed |
| BootSectors.DetectFileSystem | src/main/java/de/heiden/ataripart/image/BootSector.java:344-416 | FAT32 when byte 0x42 is 0x29, else FAT16 when byte 0x26 is 0x29, else FAT12 |
| BootSectors.SectorCount | src/main/java/de/heiden/ataripart/image/BootSector.java:344-416 | the 16-bit count at 0x13 unless it is 0, then the signed 32-bit count at 0x20 |
| BootSectors.DecodeBootSector | src/main/java/de/heiden/ataripart/image/BootSector.java:344-416 | every field at its little-endian offset; FAT12 has no extension, FAT16/FAT32 read serial, label and type at 0x27 or 0x43; strings are trimmed |
| BootSectors.Parse | src/main/java/de/heiden/ataripart/image/BootSector.java:344-416 | the boot sector decoded from the remaining bytes, with the checksum of the 512 bytes of the buffer |
| BootSectors.FixWritesDisjoint | src/main/java/de/heiden/ataripart/image/BootSector.java:313-337 | the eight fields rewritten by the size fix do not overlap |
| BootSectors.FixWritesRewritten | src/main/java/de/heiden/ataripart/image/BootSector.java:313-337 | the fix writes exactly the bytes of the fields it rescales |
| BootSectors.FixedBytesFrame | src/main/java/de/heiden/ataripart/image/BootSector.java:313-337 | every other byte is left alone, and nothing changes for a sector of 512 bytes or less |
| BootSectors.FixSectorSize | src/main/java/de/heiden/ataripart/image/BootSector.java:313-337 | the shared array, seen from the buffer position, becomes `FixedBytes`, and nothing else changes |
| BootSectors.DecodeAfterFixSizes | src/main/java/de/heiden/ataripart/image/BootSector.java:313-337 | after the fix, bytes per sector is 512 and sectors per cluster and reserved sectors are multiplied by the factor, each wrapped to its field |
| BootSectors.DecodeAfterFixSectors | src/main/java/de/heiden/ataripart/image/BootSector.java:313-337 | the total sector count is multiplied by the factor, in the 16-bit field when it fits, else in the 32-bit one |
| BootSectors.DecodeAfterFixGeometry | src/main/java/de/heiden/ataripart/image/BootSector.java:313-337 | sectors per track and hidden sectors are multiplied by the factor; sectors per FAT is scaled, except on FAT32, which keeps the unscaled 16-bit value at 0x24 |
| BootSectors.CorrectedFixScalesFAT | src/main/java/de/heiden/ataripart/image/BootSector.java:313-337 | with the field at 0x24 also rescaled on FAT32, the decoded sectors per FAT is multiplied by the factor on every file system |
| BootSectors.CorrectedFixedFAT | src/main/java/de/heiden/ataripart/image/BootSector.java:385 | the corrected fix keeps the file system and writes the scaled count to the field the decoder reads sectors per FAT from |
| BootSectors.DecodeAfterFixKeeps | src/main/java/de/heiden/ataripart/image/BootSector.java:313-337 | the fix keeps system name, number of FATs, root directory entries, media descriptor and heads |
| BootSectors.DecodeAfterFixKeepsExtension | src/main/java/de/heiden/ataripart/image/BootSector.java:313-337 | the fix keeps the file system, serial, label and type name |
| MsDos.EntryWritesLayout | src/main/java/de/heiden/ataripart/image/msdos/MsDosPartition.java:78-100 | the ten puts of the entry on a zeroed buffer build exactly `EntryLayout` |
| MsDos.ReadEntryLayout | src/main/java/de/heiden/ataripart/image/msdos/MsDosPartition.java:78-100 | an entry reads back as its boot flag, type, and start and length truncated to 32 bits; the CHS bytes are zero |
| MsDos.CreatePartitionEntry | src/main/java/de/heiden/ataripart/image/msdos/MsDosPartition.java:78-100 | a fresh 16-byte little-endian buffer at position 0 holding `EntryLayout` |
| MsDos.MbrWrites | src/main/java/de/heiden/ataripart/image/msdos/MsDosMbr.java:39-55 | entry k goes to 0x1BE + 16k, followed by the 0x55 0xAA signature, all inside 512 bytes |
| MsDos.MbrWritesDisjoint | src/main/java/de/heiden/ataripart/image/msdos/MsDosMbr.java:39-55 | with at most four entries, the writes do not overlap |
| MsDos.MbrLayout | src/main/java/de/heiden/ataripart/image/msdos/MsDosMbr.java:39-55 | the MBR holds each entry at its offset, the signature at 0x1FE, and zeros elsewhere |
| MsDos.ReadMbrEntries | src/main/java/de/heiden/ataripart/image/msdos/MsDosMbr.java:39-55 | each entry reads back from the MBR |
| MsDos.CreateMbr | src/main/java/de/heiden/ataripart/image/msdos/MsDosMbr.java:39-55 | more than four entries overflow the buffer and fail; otherwise a fresh 512-byte little-endian buffer holding `MbrImage` |
| MsDos.Sectors | src/main/java/de/heiden/ataripart/commands/ExtractPartitions.java:104 | Java's `long` division by 512, truncating toward zero |
| MsDos.ExtractedMbr | src/main/java/de/heiden/ataripart/commands/ExtractPartitions.java:99-106 | the MBR for an extracted partition has one non-bootable FAT16 entry at sector 1 with the length in sectors |
| ImageReaders.Chunk | src/main/java/de/heiden/ataripart/image/ImageReader.java:80-85 | a read copies the image bytes from the position, up to the buffer size or the end of the image |
| ImageReaders.ReadCount | src/main/java/de/heiden/ataripart/image/ImageReader.java:80-85 | -1 at or past the end of the image, else the number of bytes copied |
| ImageReaders.SectorAtBytes | src/main/java/de/heiden/ataripart/image/ImageReader.java:153-160 | a fresh 512-byte buffer after a read holds the image bytes, with zeros past the end |
| ImageReaders.WithBootSector | src/main/java/de/heiden/ataripart/image/ImageReader.java:163-166 | a real partition that fits in the image gets the boot sector parsed at its absolute start; any other is unchanged |
| ImageReaders.WithBootSectorAgain | src/main/java/de/heiden/ataripart/image/ImageReader.java:163-166 | attaching the boot sector twice is attaching it once |
| ImageReaders.AttachAll | src/main/java/de/heiden/ataripart/image/ImageReader.java:162-167 | every partition of the root sector is attached pointwise |
| ImageReaders.RootSectorAtBootSectors | src/main/java/de/heiden/ataripart/image/ImageReader.java:153-170 | in a root sector read from the image, a partition has a boot sector exactly when it is real and inside the image |
| ImageReaders.RootSectorAtBadRead | src/main/java/de/heiden/ataripart/image/ImageReader.java:153-170 | a negative read position makes the whole read fail |
| ImageReaders.RootSectorAtRead | src/main/java/de/heiden/ataripart/image/ImageReader.java:153-170 | otherwise the result is the decoded sector with the boot sectors attached |
| ImageReaders.FirstXGMIsFirst | src/main/java/de/heiden/ataripart/image/ImageReader.java:111-119 | the XGM partition followed is the first one among the listed partitions, and none means none is XGM |
| ImageReaders.ChainMoreFuel | src/main/java/de/heiden/ataripart/image/ImageReader.java:131-144 | once a walk succeeds, more fuel does not change it |
| ImageReaders.ChainEnds | src/main/java/de/heiden/ataripart/image/ImageReader.java:131-144 | a successful walk starts with the sector read at the offset and ends with one that has no XGM partition |
| ImageReaders.ChainLinks | src/main/java/de/heiden/ataripart/image/ImageReader.java:131-144 | each sector of the walk is read from where the previous one's XGM partition points |
| ImageReaders.ChainError | src/main/java/de/heiden/ataripart/image/ImageReader.java:131-144 | a failing read fails the walk with its error |
| ImageReaders.ChainNext | src/main/java/de/heiden/ataripart/image/ImageReader.java:131-144 | the walk is the first sector followed by the walk from its XGM partition |
| ImageReaders.ChainCycle | src/main/java/de/heiden/ataripart/image/ImageReader.java:131-144 | an XGM partition pointing back to its own root sector never ends: the walk runs out of fuel |
| ImageReaders.ChainAtLinks | src/main/java/de/heiden/ataripart/image/ImageReader.java:138 | on the image, the next sector is read at the first XGM offset plus the XGM partition's start |
| ImageReaders.ChainAtEnds | src/main/java/de/heiden/ataripart/image/ImageReader.java:131-144 | on the image, the walk starts at the given offset and ends at a sector with no XGM partition |
| ImageReaders.ChainAtCycle | src/main/java/de/heiden/ataripart/image/ImageReader.java:131-144 | a self-referencing extended root sector makes the walk fail |
| ImageReaders.MasterFirst | src/main/java/de/heiden/ataripart/image/ImageReader.java:105-122 | the first root sector returned is the master one, read at 0 with offset 0 |
| ImageReaders.ImageReader.constructor | src/main/java/de/heiden/ataripart/image/ImageReader.java:33-36 | the reader holds the image |
| ImageReaders.ImageReader.Read | src/main/java/de/heiden/ataripart/image/ImageReader.java:80-85 | a negative position fails and leaves the buffer alone; otherwise the buffer holds the chunk read, the count is returned, and the position is 0 |
| ImageReaders.ImageReader.ReadRootSector | src/main/java/de/heiden/ataripart/image/ImageReader.java:153-170 | succeeds exactly when `RootSectorAt` does, with the same error, and yields fresh objects whose value is `RootSectorAt` |
| ImageReaders.ImageReader.ParseRootSectorAt | src/main/java/de/heiden/ataripart/image/ImageReader.java:157-159 | reading 512 bytes and parsing them gives `DecodeRootSector` of `SectorAt` |
| ImageReaders.ImageReader.AttachRealBootSectors | src/main/java/de/heiden/ataripart/image/ImageReader.java:162-167 | the loop over the real partitions fails exactly on a bad read, keeps the partition list, and otherwise attaches every boot sector |
| ImageReaders.ImageReader.AttachBootSectors | src/main/java/de/heiden/ataripart/image/ImageReader.java:162-167 | each real partition gets its boot sector |
| ImageReaders.ImageReader.AttachBootSector | src/main/java/de/heiden/ataripart/image/ImageReader.java:163-166 | one partition gets its boot sector when it fits in the image; a negative position fails |
| ImageReaders.ImageReader.FindXGM | src/main/java/de/heiden/ataripart/image/ImageReader.java:111-119 | the loop finds the first listed XGM partition, or none |
| ImageReaders.ImageReader.ReadXGMRootSectors | src/main/java/de/heiden/ataripart/image/ImageReader.java:131-144 | the recursion appends to the result exactly the walk `Chain` from the offset, as fresh objects, or fails as it does |
| ImageReaders.ImageReader.ReadRootSectors | src/main/java/de/heiden/ataripart/image/ImageReader.java:105-122 | the list is exactly `RootSectorsOf`: the master followed by the XGM walk from its first XGM partition |
| HexDumps.LinesShape | src/main/java/de/heiden/ataripart/IntUtils.java:94-115 | the dump is lines at offsets 0, 16, 32 and so on, each with 1 to 16 bytes, all full but the last |
| HexDumps.DumpedBytes | src/main/java/de/heiden/ataripart/IntUtils.java:94-115 | the lines hold the data from the start to length rounded up to 16, capped by the data |
| HexDumps.CellReadBack | src/main/java/de/heiden/ataripart/IntUtils.java:104 | each byte prints as two hex digits and a space, and reads back as the byte |
| HexDumps.LineParts | src/main/java/de/heiden/ataripart/IntUtils.java:98-110 | a line starts with the four-digit offset and a space, followed by the byte cells |
| HexDumps.DumpBuffer | src/main/java/de/heiden/ataripart/IntUtils.java:94-115 | the loops produce the rendering of `Lines` with the text column |
| HexDumps.DumpOverrunsLength | src/main/java/de/heiden/ataripart/IntUtils.java:94-115 | as written, a length of 1 dumps 16 bytes |
| HexDumps.CorrectedDumpedBytes | src/main/java/de/heiden/ataripart/IntUtils.java:94-115 | corrected, the dump holds exactly the first min(length, size) bytes |
| LegacyIntUtils.ToByteRoundTrip | src/main/java/de/heiden/IntUtils.java:43-46 | masking a signed byte with 0xFF and casting back are inverse |
| LegacyIntUtils.GetInt8 | src/main/java/de/heiden/IntUtils.java:8-11 | a value 0..255 whose byte cast is the stored byte |
| LegacyIntUtils.ReverseValue | src/main/java/de/heiden/IntUtils.java:23-41 | reading a window low byte first equals reading its reverse high byte first |
| LegacyIntUtils.GetIntBigEndian | src/main/java/de/heiden/IntUtils.java:23-31 | the loop from the last byte back computes the low-byte-first value of the window, wrapped to a Java `long` |
| LegacyIntUtils.GetIntLittleEndian | src/main/java/de/heiden/IntUtils.java:33-41 | the loop from the first byte computes the high-byte-first value of the window, wrapped to a Java `long` |
| LegacyIntUtils.ShiftOrStep | src/main/java/de/heiden/IntUtils.java:23-41 | `(result << 8) \| b` on a wrapped `long` is the wrapped exact value |
| LegacyIntUtils.GetInt16BigEndian | src/main/java/de/heiden/IntUtils.java:13-16 | low byte first: equal to the newer 16-bit little-endian read of the same bytes |
| LegacyIntUtils.GetInt32LittleEndian | src/main/java/de/heiden/IntUtils.java:18-21 | high byte first: equal to the newer unsigned 32-bit big-endian read |
| LegacyIntUtils.HexPlain | src/main/java/de/heiden/IntUtils.java:48-59 | the hex digits of the 32-bit number, left-padded with zeros to length |
| LegacyIntUtils.HexPlainReadBack | src/main/java/de/heiden/IntUtils.java:48-59 | at least length hex digits that read back as the number mod 2^32 |
| LegacyIntUtils.HexDump | src/main/java/de/heiden/IntUtils.java:61-77 | the loops produce the rendering of `Lines` without a text column |
| BiosParameterBlocks.Decode | src/main/java/de/heiden/BiosParameterBlock.java:70-76 | bytes per sector is a 16-bit value and sectors per cluster a byte |
| BiosParameterBlocks.Parse | src/main/java/de/heiden/BiosParameterBlock.java:70-76 | the two reads give `Decode` at index |
| BiosParameterBlocks.AgreesWithBootSector | src/main/java/de/heiden/BiosParameterBlock.java:70-76 | both fields agree with those the newer boot-sector decoder reads from the same bytes |
| BiosParameterBlocks.DecodeLocal | src/main/java/de/heiden/BiosParameterBlock.java:70-76 | only bytes 11 to 13 after index matter |

## Left out

- `image/IntUtils.hexDump` (`image/IntUtils.java:126-147`) is not modelled; only the `ataripart/IntUtils.hexDump` variant is. The newer one differs in four ways: it has no `index` parameter, its loops test `i < bytes.capacity()` instead of `index + i < bytes.capacity()`, it reads `getInt8(bytes, i)` from byte 0, and its text column calls `StringUtils.character`, which is not part of this model.
- The text column's `Character.isLetterOrDigit` is a parameter (`isLetterOrDigit`), because Unicode character classes are outside the model.
- The `ataripart/IntUtils` copies of `checksumInt16`, `getInt8`, `getInt16`, `getInt32`, `hex` and `hexPlain` are the same code as in `image/IntUtils`. They are modelled once, in `IntUtils`.
- `AbstractCommand.readFromImage`, `readRootSectors`, `readXGMRootSectors` and `readRootSector` are the same code as in `ImageReader`. `readRootSector` differs only in checking `image.length()` instead of `channel.size()`. They are modelled once, in `ImageReaders.ImageReader`.
- `toString`, `getFile`, `getChannel`, `close`, `finalize` and `transferTo`: output and file handling, not modelled.
- The command-line tools and the other commands, and the older-generation classes other than `IntUtils` and `BiosParameterBlock`, are not part of this model.
- `java.nio.ByteBuffer`: only what the core uses is modelled. That covers absolute gets and puts, byte order, position, slice and bulk put. Limit and mark are not modelled, and reading past the capacity is excluded by preconditions, where Java would throw `IndexOutOfBoundsException`.
- Inputs on which the Java throws are excluded by `requires` in the members below instead of being modelled as errors:
- LegacyIntUtils.GetInt8: requires the index inside the `byte[]`; Java throws `ArrayIndexOutOfBoundsException`.
- LegacyIntUtils.GetIntBigEndian: requires the window inside the `byte[]` when length is positive; Java throws `ArrayIndexOutOfBoundsException`.
- LegacyIntUtils.GetIntLittleEndian: requires the window inside the `byte[]` when length is positive; Java throws `ArrayIndexOutOfBoundsException`.
- LegacyIntUtils.GetInt16BigEndian: requires both bytes inside the `byte[]`; Java throws `ArrayIndexOutOfBoundsException`.
- LegacyIntUtils.GetInt32LittleEndian: requires all four bytes inside the `byte[]`; Java throws `ArrayIndexOutOfBoundsException`.
- LegacyIntUtils.HexDump: requires `index >= 0` when `length > 0`; Java throws `ArrayIndexOutOfBoundsException` on the first read.
- HexDumps.DumpBuffer: requires `index >= 0` when `length > 0`; Java throws `IndexOutOfBoundsException` on the first read.
- StringUtils.GetString: requires `length >= 0`; Java throws `NegativeArraySizeException` at `image/StringUtils.java:14`.
- IntUtils.GetInt8, IntUtils.GetInt16, IntUtils.GetInt32, IntUtils.SetInt8, IntUtils.SetInt16 and IntUtils.SetInt32: require the field inside the buffer; Java throws `IndexOutOfBoundsException`. The same holds for the buffer reads of BootSectors.Parse, Partitions.Partition.Parse and RootSectors.RootSector.Parse.
- File I/O becomes an immutable `seq<byte>`. The channel's `IOException` is not modelled; `FileChannel.position` with a negative argument becomes the error `IllegalPosition`.
- ImageReaders.ImageReader.ReadRootSectors: the recursion depth is bounded by a `fuel` parameter. Where Java would recurse until the stack overflows, the model returns `ChainTooLong`.
- Java `long` arithmetic for offsets (`xgmOffset + partition.getStart()`, `getAbsoluteStart() + 512`) is unbounded in the model. The 32-bit values read from the image, times 512, cannot overflow a `long`.
- LegacyIntUtils.HexPlain and IntUtils.HexPlain take the number as an unbounded integer and print it wrapped to 32 and 64 bits, as `Integer.toHexString` and `Long.toHexString` do for in-range arguments.

## Findings

| source | as written | input that shows it | evidently intended | confidence | as-written member | corrected member |
|---|---|---|---|---|---|---|
| src/main/java/de/heiden/ataripart/IntUtils.java:94-115 | the inner loop finishes the current 16-byte line even after `length` bytes have been dumped | 32 zero bytes, index 0, length 1: one line with 16 bytes | dump exactly `length` bytes (capped by the data) | not executed | HexDumps.DumpOverrunsLength | HexDumps.CorrectedDumpedBytes |
| src/main/java/de/heiden/ataripart/image/BootSector.java:313-337 | on FAT32 the decoder reads sectors per FAT at 0x24 (line 385); the rescale writes the scaled count to 0x16 only (line 334), so the field at 0x24 stays in the old sector size | a FAT32 BPB with 1024 bytes per sector and 1 at 0x24: it still decodes as 1 after the fix, not 2 | rescale the field at 0x24 too on FAT32 | not executed | BootSectors.DecodeAfterFixGeometry | BootSectors.CorrectedFixScalesFAT |
| src/main/java/de/heiden/IntUtils.java:61-77 | the same loop shape in the older generation also dumps whole lines of 16 | 32 zero bytes, index 0, length 1: 16 bytes dumped | dump exactly `length` bytes | not executed | HexDumps.DumpOverrunsLength | HexDumps.CorrectedDumpedBytes |

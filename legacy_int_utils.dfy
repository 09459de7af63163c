/**
 * The conversion helpers of the oldest code generation, which work on a
 * plain Java byte[] whose elements are signed: toByte, the two private
 * shift-accumulator readers and their public 16/32-bit wrappers, hexPlain
 * over Integer.toHexString, and the hex dump without a text column.
 */
module LegacyIntUtils {
  import opened Bytes
  import opened Hex
  import HexDumps

  /** A Java byte: signed, -128..127. */
  type sbyte = b: int | -0x80 <= b < 0x80

  /** The Java byte with bit pattern v. */
  function FromByte(v: byte): (b: sbyte)
    ensures 0 <= v < 0x80 ==> b == v
    ensures 0x80 <= v ==> b == v - 0x100
  {
    if v < 0x80 then v else v - 0x100
  }

  /** toByte: b & 0xFF, the byte's bit pattern as 0..255. */
  function ToByte(b: sbyte): (r: byte)
    ensures b >= 0 ==> r == b
    ensures b < 0 ==> r == b + 0x100
  {
    b % 0x100
  }

  /** toByte and FromByte are inverse bijections between Java bytes and bit patterns. */
  lemma ToByteRoundTrip(b: sbyte, v: byte)
    ensures FromByte(ToByte(b)) == b
    ensures ToByte(FromByte(v)) == v
  {
  }

  /** The bit patterns of a byte[], element by element. */
  function Unsigned(bytes: seq<sbyte>): (r: seq<byte>)
    ensures |r| == |bytes|
    ensures forall k :: 0 <= k < |bytes| ==> r[k] == ToByte(bytes[k])
  {
    seq(|bytes|, k requires 0 <= k < |bytes| => ToByte(bytes[k]))
  }

  /** getInt8: the element at index as 0..255. */
  function GetInt8(bytes: seq<sbyte>, index: int): (r: int)
    requires 0 <= index < |bytes|
    ensures 0 <= r < 0x100 && FromByte(r) == bytes[index]
  {
    ToByteRoundTrip(bytes[index], 0);
    ToByte(bytes[index])
  }

  /** bs read with bs[0] as the least significant byte. */
  function LittleEndianValue(bs: seq<byte>): nat {
    if bs == [] then 0 else bs[0] + 0x100 * LittleEndianValue(bs[1..])
  }

  /** bs read with bs[0] as the most significant byte. */
  function BigEndianValue(bs: seq<byte>): nat {
    if bs == [] then 0 else BigEndianValue(bs[..|bs| - 1]) * 0x100 + bs[|bs| - 1]
  }

  function Reverse(bs: seq<byte>): (r: seq<byte>)
    ensures |r| == |bs|
  {
    if bs == [] then [] else Reverse(bs[1..]) + [bs[0]]
  }

  /** The two readings are mirror images: reading the reversed bytes big-endian is reading them little-endian. */
  lemma {:induction false} ReverseValue(bs: seq<byte>)
    ensures BigEndianValue(Reverse(bs)) == LittleEndianValue(bs)
  {
    if bs != [] {
      var r := Reverse(bs);
      assert r[..|r| - 1] == Reverse(bs[1..]);
      ReverseValue(bs[1..]);
    }
  }

  /** The Java long holding the low 64 bits of x: what long arithmetic wraps x to. */
  function Long(x: int): (r: int)
    ensures -0x8000_0000_0000_0000 <= r < 0x8000_0000_0000_0000
  {
    var m := x % 0x1_0000_0000_0000_0000;
    if m < 0x8000_0000_0000_0000 then m else m - 0x1_0000_0000_0000_0000
  }

  /** Numbers that agree modulo 2^64 wrap to the same long; a long wraps to itself. */
  lemma LongCongruent(x: int, y: int, k: int)
    requires x == y + 0x1_0000_0000_0000_0000 * k
    ensures Long(x) == Long(y)
  {
    var q := y / 0x1_0000_0000_0000_0000;
    assert y == 0x1_0000_0000_0000_0000 * q + y % 0x1_0000_0000_0000_0000;
    assert x == 0x1_0000_0000_0000_0000 * (q + k) + y % 0x1_0000_0000_0000_0000;
  }

  lemma LongOfLong(x: int)
    requires -0x8000_0000_0000_0000 <= x < 0x8000_0000_0000_0000
    ensures Long(x) == x
  {
    if x < 0 {
      assert x + 0x1_0000_0000_0000_0000 == 0x1_0000_0000_0000_0000 * 0 + (x + 0x1_0000_0000_0000_0000);
    }
  }

  /**
   * result << 8 | b on a long result and a byte pattern b. The shift wraps
   * to 64 bits and leaves the low byte zero, so the or adds b.
   */
  function ShiftOr(result: int, b: byte): (r: int)
    ensures r == Long(result * 0x100 + b)
  {
    ShiftOrIsAdd(result, b);
    Long(result * 0x100) + b
  }

  lemma ShiftOrIsAdd(result: int, b: byte)
    ensures Long(result * 0x100) + b == Long(result * 0x100 + b)
  {
    var x := result * 0x100;
    var q := x / 0x1_0000_0000_0000_0000;
    var m := x % 0x1_0000_0000_0000_0000;
    assert x == 0x1_0000_0000_0000_0000 * q + m;
    var t := result - 0x100_0000_0000_0000 * q;
    assert m == 0x100 * t;
    assert x + b == 0x1_0000_0000_0000_0000 * q + (m + b);
    assert (x + b) % 0x1_0000_0000_0000_0000 == m + b;
  }

  /** One step of either reader: shifting in b after the wrapped value of v is wrapping v * 256 + b. */
  lemma ShiftOrStep(v: int, b: byte)
    ensures ShiftOr(Long(v), b) == Long(v * 0x100 + b)
  {
    var q := v / 0x1_0000_0000_0000_0000;
    var k := if v % 0x1_0000_0000_0000_0000 < 0x8000_0000_0000_0000 then q else q + 1;
    assert v == 0x1_0000_0000_0000_0000 * q + v % 0x1_0000_0000_0000_0000;
    assert Long(v) == v - 0x1_0000_0000_0000_0000 * k;
    LongCongruent(Long(v) * 0x100 + b, v * 0x100 + b, -0x100 * k);
  }

  /** The bit patterns of bytes[index .. index+length-1], or none when length is not positive. */
  function Window(bytes: seq<sbyte>, index: int, length: int): (r: seq<byte>)
    requires length <= 0 || (0 <= index && index + length <= |bytes|)
    ensures |r| == if length <= 0 then 0 else length
  {
    if length <= 0 then [] else Unsigned(bytes)[index..index + length]
  }

  /**
   * getIntBigEndian: from the last byte down to the first, each byte is
   * shifted in below the ones before, so bytes[index+length-1] ends up most
   * significant: the window read little-endian, wrapped to a long.
   */
  method GetIntBigEndian(bytes: seq<sbyte>, index: int, length: int) returns (r: int)
    requires length <= 0 || (0 <= index && index + length <= |bytes|)
    ensures r == Long(LittleEndianValue(Window(bytes, index, length)))
  {
    ghost var u := Unsigned(bytes);
    var result := 0;
    var i := length - 1;
    while i >= 0
      invariant length <= 0 ==> i == length - 1 && result == 0
      invariant length > 0 ==> -1 <= i < length
      invariant length > 0 ==> result == Long(LittleEndianValue(u[index + i + 1..index + length]))
    {
      ghost var rest := u[index + i + 1..index + length];
      ghost var s := u[index + i..index + length];
      assert s[1..] == rest;
      ShiftOrStep(LittleEndianValue(rest), u[index + i]);
      result := ShiftOr(result, ToByte(bytes[index + i]));
      i := i - 1;
    }
    if length > 0 {
      assert u[index + i + 1..index + length] == Window(bytes, index, length);
    }
    r := result;
  }

  /**
   * getIntLittleEndian: from the first byte up to the last, each byte is
   * shifted in below the ones before, so bytes[index] ends up most
   * significant: the window read big-endian, wrapped to a long.
   */
  method GetIntLittleEndian(bytes: seq<sbyte>, index: int, length: int) returns (r: int)
    requires length <= 0 || (0 <= index && index + length <= |bytes|)
    ensures r == Long(BigEndianValue(Window(bytes, index, length)))
  {
    ghost var u := Unsigned(bytes);
    var result := 0;
    var i := 0;
    while i < length
      invariant length <= 0 ==> i == 0 && result == 0
      invariant length > 0 ==> 0 <= i <= length
      invariant length > 0 ==> result == Long(BigEndianValue(u[index..index + i]))
    {
      ghost var done := u[index..index + i];
      ghost var s := u[index..index + i + 1];
      assert s[..|s| - 1] == done;
      ShiftOrStep(BigEndianValue(done), u[index + i]);
      result := ShiftOr(result, ToByte(bytes[index + i]));
      i := i + 1;
    }
    if length > 0 {
      assert u[index..index + i] == Window(bytes, index, length);
    }
    r := result;
  }

  /** Two bytes read little-endian, as the cast to int keeps them. */
  lemma TwoBytes(bytes: seq<sbyte>, index: int)
    requires 0 <= index && index + 2 <= |bytes|
    ensures var w := Window(bytes, index, 2);
      LittleEndianValue(w) == ToByte(bytes[index]) + 0x100 * ToByte(bytes[index + 1])
  {
    var w := Window(bytes, index, 2);
    assert w[0] == ToByte(bytes[index]) && w[1] == ToByte(bytes[index + 1]);
    assert LittleEndianValue(w[1..][1..]) == 0;
    assert LittleEndianValue(w[1..]) == w[1];
  }

  lemma FourBytes(bytes: seq<sbyte>, index: int)
    requires 0 <= index && index + 4 <= |bytes|
    ensures var w := Window(bytes, index, 4);
      BigEndianValue(w) == ToByte(bytes[index]) * 0x100_0000 + ToByte(bytes[index + 1]) * 0x1_0000
        + ToByte(bytes[index + 2]) * 0x100 + ToByte(bytes[index + 3])
  {
    var w := Window(bytes, index, 4);
    assert w[0] == ToByte(bytes[index]) && w[1] == ToByte(bytes[index + 1]);
    assert w[2] == ToByte(bytes[index + 2]) && w[3] == ToByte(bytes[index + 3]);
    var w1, w2, w3 := w[..1], w[..2], w[..3];
    assert w1[..0] == [] && w2[..1] == w1 && w3[..2] == w2 && w[..3] == w3;
    assert BigEndianValue(w1) == w[0];
    assert BigEndianValue(w2) == w[0] as int * 0x100 + w[1];
    assert BigEndianValue(w3) == (w[0] as int * 0x100 + w[1]) * 0x100 + w[2];
  }

  /**
   * getInt16BigEndian: despite its name, bytes[index] is the low byte. The
   * value is what the image package's 16-bit read gives in little-endian
   * order.
   */
  method GetInt16BigEndian(bytes: seq<sbyte>, index: int) returns (r: int)
    requires 0 <= index && index + 2 <= |bytes|
    ensures r == ToByte(bytes[index]) + 0x100 * ToByte(bytes[index + 1])
    ensures r == Unsigned16(Unsigned(bytes), index, LittleEndian)
  {
    var v := GetIntBigEndian(bytes, index, 2);
    TwoBytes(bytes, index);
    LongOfLong(LittleEndianValue(Window(bytes, index, 2)));
    r := Int32(v);
  }

  /**
   * getInt32LittleEndian: despite its name, bytes[index] is the high byte,
   * and the long is never negative. The value is what the image package's
   * 32-bit read gives in big-endian order, before its sign is applied.
   */
  method GetInt32LittleEndian(bytes: seq<sbyte>, index: int) returns (r: int)
    requires 0 <= index && index + 4 <= |bytes|
    ensures r == ToByte(bytes[index]) * 0x100_0000 + ToByte(bytes[index + 1]) * 0x1_0000
      + ToByte(bytes[index + 2]) * 0x100 + ToByte(bytes[index + 3])
    ensures 0 <= r < 0x1_0000_0000
    ensures r == Unsigned32(Unsigned(bytes), index, BigEndian)
  {
    r := GetIntLittleEndian(bytes, index, 4);
    FourBytes(bytes, index);
    LongOfLong(BigEndianValue(Window(bytes, index, 4)));
  }

  /**
   * hexPlain: Integer.toHexString in upper case, left-padded with '0' to at
   * least length characters and never cut. Only the low 32 bits of number,
   * a Java int, are printed.
   */
  method HexPlain(number: int, length: int) returns (r: string)
    ensures r == PadLeft(IntHex(number), length)
  {
    var hex := IntHex(number);
    var padding := "";
    var i := |hex|;
    while i < length
      invariant |hex| <= i <= if length > |hex| then length else |hex|
      invariant padding == ZeroPad(i - |hex|)
    {
      padding := padding + "0";
      i := i + 1;
    }
    r := padding + hex;
  }

  /** What hexPlain prints is hex digits only, at least length of them, and they read back as the int's 32-bit pattern. */
  lemma HexPlainReadBack(number: int, length: int)
    ensures var r := PadLeft(IntHex(number), length);
      |r| >= length && (forall i :: 0 <= i < |r| ==> IsHexDigit(r[i])) && ParseHex(r) == number % 0x1_0000_0000
  {
    var hex := IntHex(number);
    ParseHexZeros(if length > |hex| then length - |hex| else 0, hex);
  }

  /** The dump has no text column, so no character test is consulted. */
  function NoText(c: char): bool {
    false
  }

  /**
   * hexDump over a byte[]: from index on, while fewer than length bytes are
   * dumped and the array has more, one line of up to 16 bytes, without a
   * text column. A Java array's length is an int.
   */
  method HexDump(bytes: seq<sbyte>, index: int, length: int) returns (r: string)
    requires |bytes| < 0x8000_0000
    requires length > 0 ==> 0 <= index
    ensures r == HexDumps.Render(HexDumps.Lines(HexDumps.Tail(Unsigned(bytes), index), 0, length), false, NoText)
  {
    ghost var data := HexDumps.Tail(Unsigned(bytes), index);
    ghost var all := HexDumps.Render(HexDumps.Lines(data, 0, length), false, NoText);
    if 0 <= index <= |bytes| {
      assert data == Unsigned(bytes[index..]);
    }
    r := "";
    var i := 0;
    while i < length && index + i < |bytes|
      invariant 0 <= i <= |data|
      invariant length > 0 && i < length ==> (index + i < |bytes| <==> i < |data|)
      invariant all == r + HexDumps.Render(HexDumps.Lines(data, i, length), false, NoText)
      decreases |data| - i
    {
      ghost var i0 := i;
      var line;
      line, i := HexDumpLine(bytes, index, i, data);
      HexDumps.RenderStep(all, r, line, data, i0, i, length, false, NoText);
      r := r + line;
    }
  }

  /** One line of hexDump: the offset of byte i0 and up to 16 cells from byte i0 on. */
  method HexDumpLine(bytes: seq<sbyte>, index: int, i0: int, ghost data: seq<byte>) returns (line: string, i: int)
    requires 0 <= index < |bytes| < 0x8000_0000
    requires data == Unsigned(bytes[index..]) && 0 <= i0 < |data|
    ensures i == i0 + HexDumps.Min(|data| - i0, 16)
    ensures line == HexDumps.RenderLine(HexDumps.Line(i0, data[i0..i]), false, NoText)
  {
    var offset := HexPlain(i0, 4);
    var cells;
    cells, i := HexDumpCells(bytes, index, i0, data);
    HexDumps.LineDone(offset, i0, data[i0..i], offset + " " + cells, "", false, NoText);
    line := offset + " " + cells + "\n";
  }

  /** The i-th unsigned byte of the window starting at index. */
  lemma UnsignedAt(bytes: seq<sbyte>, index: int, i: int)
    requires 0 <= index && 0 <= i && index + i < |bytes|
    ensures Unsigned(bytes[index..])[i] == ToByte(bytes[index + i])
  {
    assert bytes[index..][i] == bytes[index + i];
  }

  /** The inner loop of hexDump: a cell per byte from byte i0 on, while the line has fewer than 16 and the array has more. */
  method HexDumpCells(bytes: seq<sbyte>, index: int, i0: int, ghost data: seq<byte>) returns (cells: string, i: int)
    requires 0 <= index < |bytes| < 0x8000_0000
    requires data == Unsigned(bytes[index..]) && 0 <= i0 < |data|
    ensures i == i0 + HexDumps.Min(|data| - i0, 16)
    ensures cells == HexDumps.Cells(data[i0..i])
  {
    cells, i := "", i0;
    var j := 0;
    while j < 16 && index + i < |bytes|
      invariant i0 <= i <= i0 + HexDumps.Min(|data| - i0, 16) && j == i - i0
      invariant cells == HexDumps.Cells(data[i0..i])
      decreases 16 - j
    {
      cells := AppendCell(bytes, index, i0, i, data, cells);
      i := i + 1;
      j := j + 1;
    }
  }

  /** One step of the dump's inner loop: the cell of the byte at index + i. */
  method AppendCell(bytes: seq<sbyte>, index: int, i0: int, i: int, ghost data: seq<byte>, cells: string) returns (r: string)
    requires 0 <= i0 <= i < |data| && 0 <= index && index + i < |bytes|
    requires data == Unsigned(bytes[index..]) && cells == HexDumps.Cells(data[i0..i])
    ensures r == HexDumps.Cells(data[i0..i + 1])
  {
    var b := ToByte(bytes[index + i]);
    var cell := HexPlain(b, 2);
    UnsignedAt(bytes, index, i);
    HexDumps.IntCellStep(data, i0, i, cells, b, cell);
    r := cells + cell + " ";
  }
}

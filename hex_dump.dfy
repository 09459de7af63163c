/**
 * The debugger-style hex dumps of the two older helper classes. A dump is
 * a run of lines; each line holds a hex offset, up to 16 bytes as two-digit
 * hex cells and, in the ByteBuffer version, a text column.
 */
module HexDumps {
  import opened Bytes
  import opened Buffers
  import opened Hex
  import opened IntUtils

  /** One line of a dump: the offset of its first byte, counted from the start index, and the byte values on it. */
  datatype Line = Line(offset: nat, values: seq<byte>)

  function Min(a: int, b: int): int {
    if a < b then a else b
  }

  /** The bytes from index to the end of the buffer: what the loops may read. */
  function Tail(s: seq<byte>, index: int): (r: seq<byte>)
    ensures 0 <= index <= |s| ==> r == s[index..]
    ensures |r| <= |s|
  {
    if 0 <= index <= |s| then s[index..] else []
  }

  /**
   * The lines the dump loops produce from relative offset i on, over data,
   * the bytes from the start index to the end of the buffer. The outer loop
   * tests i < length and the end of the data; the inner loop tests only the
   * end of the data and the 16 bytes of a line.
   */
  function Lines(data: seq<byte>, i: nat, length: int): (r: seq<Line>)
    requires i <= |data|
    decreases |data| - i
  {
    if i < length && i < |data| then
      var n := Min(|data| - i, 16);
      [Line(i, data[i..i + n])] + Lines(data, i + n, length)
    else []
  }

  /** The loops with the inner test extended by i < length: the dump stops after length bytes. */
  function CorrectedLines(data: seq<byte>, i: nat, length: int): (r: seq<Line>)
    requires i <= |data|
    decreases |data| - i
  {
    if i < length && i < |data| then
      var n := Min(Min(|data| - i, 16), length - i);
      [Line(i, data[i..i + n])] + CorrectedLines(data, i + n, length)
    else []
  }

  /** The byte values of all lines, in order. */
  function Values(lines: seq<Line>): (r: seq<byte>)
  {
    if lines == [] then [] else lines[0].values + Values(lines[1..])
  }

  /** The smallest multiple of 16 not below n. */
  function RoundUp16(n: nat): (r: nat)
    ensures r % 16 == 0 && n <= r < n + 16
  {
    16 * ((n + 15) / 16)
  }

  /** How many bytes the loops dump: length rounded up to a whole line, cut at the end of the data. */
  function Reach(size: nat, length: int): (r: nat)
    ensures r <= size
  {
    if length <= 0 then 0 else Min(size, RoundUp16(length))
  }

  /** A line start below length lies a whole line below the rounded-up length, or exactly one line when length ends that line. */
  lemma RoundUpAbove(k: nat, length: nat)
    requires 16 * k < length
    ensures 16 * k + 16 <= RoundUp16(length)
    ensures length <= 16 * k + 16 ==> RoundUp16(length) == 16 * k + 16
  {
    var q := (length + 15) / 16;
    assert 16 * q <= length + 15 < 16 * q + 16;
    assert k + 1 <= q;
    if length <= 16 * k + 16 {
      assert q <= k + 1;
    }
  }

  /**
   * Lines starting at i: every line starts 16 bytes after the one before
   * and holds 1 to 16 bytes; only the last one may hold fewer than 16.
   */
  predicate Shaped(r: seq<Line>, i: nat) {
    forall k :: 0 <= k < |r| ==>
      r[k].offset == i + 16 * k && 1 <= |r[k].values| <= 16 && (k < |r| - 1 ==> |r[k].values| == 16)
  }

  lemma {:induction false} LinesShape(data: seq<byte>, i: nat, length: int)
    requires i <= |data|
    ensures Shaped(Lines(data, i, length), i)
    decreases |data| - i
  {
    if i < length && i < |data| {
      var n := Min(|data| - i, 16);
      var r := Lines(data, i, length);
      var rest := Lines(data, i + n, length);
      LinesShape(data, i + n, length);
      assert r == [Line(i, data[i..i + n])] + rest;
      forall k | 0 <= k < |r|
        ensures r[k].offset == i + 16 * k && 1 <= |r[k].values| <= 16 && (k < |r| - 1 ==> |r[k].values| == 16)
      {
        if k > 0 {
          assert r[k] == rest[k - 1];
        }
      }
    }
  }

  /**
   * From the line start 16 * k on, the lines hold exactly the data bytes up
   * to Reach: the last line is filled up to 16 bytes past length, but never
   * past the end of the data.
   */
  lemma {:induction false} LinesValues(data: seq<byte>, k: nat, length: int)
    requires 16 * k <= |data|
    ensures 16 * k < length ==> 16 * k <= Reach(|data|, length) && Values(Lines(data, 16 * k, length)) == data[16 * k..Reach(|data|, length)]
    ensures 16 * k >= length ==> Lines(data, 16 * k, length) == []
    decreases |data| - 16 * k
  {
    var i := 16 * k;
    if i < length && i < |data| {
      var n := Min(|data| - i, 16);
      var r := Lines(data, i, length);
      var rest := Lines(data, i + n, length);
      RoundUpAbove(k, length);
      assert r[1..] == rest;
      if n == 16 {
        LinesValues(data, k + 1, length);
      } else {
        assert rest == [];
      }
      assert data[i..Reach(|data|, length)] == data[i..i + n] + data[i + n..Reach(|data|, length)];
    }
  }

  /** The whole dump: the first Reach(size, length) bytes, in order. */
  lemma DumpedBytes(data: seq<byte>, length: int)
    ensures Values(Lines(data, 0, length)) == data[..Reach(|data|, length)]
  {
    LinesValues(data, 0, length);
  }

  /** Asked for one byte of 32, the loops dump a whole line of 16. */
  lemma DumpOverrunsLength()
    ensures |Values(Lines(Zeros(32), 0, 1))| == 16
  {
    DumpedBytes(Zeros(32), 1);
  }

  /** With the corrected inner test, the dump is exactly the first length bytes (fewer at the end of the data). */
  lemma {:induction false} CorrectedValues(data: seq<byte>, i: nat, length: int)
    requires i <= |data|
    ensures i < length ==> Values(CorrectedLines(data, i, length)) == data[i..Min(|data|, length)]
    ensures i >= length ==> CorrectedLines(data, i, length) == []
    decreases |data| - i
  {
    if i < length && i < |data| {
      var n := Min(Min(|data| - i, 16), length - i);
      var r := CorrectedLines(data, i, length);
      assert r[1..] == CorrectedLines(data, i + n, length);
      CorrectedValues(data, i + n, length);
      assert data[i..Min(|data|, length)] == data[i..i + n] + data[i + n..Min(|data|, length)];
    }
  }

  lemma CorrectedDumpedBytes(data: seq<byte>, length: int)
    ensures Values(CorrectedLines(data, 0, length)) == data[..Min(|data|, if length < 0 then 0 else length)]
  {
    CorrectedValues(data, 0, length);
  }

  /** One byte as hexPlain(b, 2) followed by a space. */
  function Cell(v: byte): (r: string)
    ensures |r| == 3 && r[2] == ' '
  {
    assert Pow16(2) == 0x100;
    ToHexLength(v, 2);
    PadLeft(ToHex(v), 2) + " "
  }

  /** A cell's first two characters are hex digits that read back as the byte. */
  lemma CellReadBack(v: byte)
    ensures forall k :: 0 <= k < 2 ==> IsHexDigit(Cell(v)[k])
    ensures ParseHex(Cell(v)[..2]) == v
  {
    assert Pow16(2) == 0x100;
    PaddedHex(v, 2);
    assert Cell(v)[..2] == PadLeft(ToHex(v), 2);
  }

  /** The cells of a line, three characters per byte. */
  function Cells(vs: seq<byte>): (r: string)
    ensures |r| == 3 * |vs|
  {
    if vs == [] then [] else Cell(vs[0]) + Cells(vs[1..])
  }

  /** The text column: a byte taken as a char when it is a letter or digit, '.' otherwise. */
  function TextChar(v: byte, isLetterOrDigit: char -> bool): char {
    if isLetterOrDigit(v as char) then v as char else '.'
  }

  function Text(vs: seq<byte>, isLetterOrDigit: char -> bool): (r: string)
    ensures |r| == |vs|
  {
    if vs == [] then [] else Text(vs[..|vs| - 1], isLetterOrDigit) + [TextChar(vs[|vs| - 1], isLetterOrDigit)]
  }

  /** hexPlain(offset, 4), a space, the cells, the text column when the dump has one, and a newline. */
  function RenderLine(l: Line, withText: bool, isLetterOrDigit: char -> bool): string {
    PadLeft(ToHex(l.offset), 4) + " " + Cells(l.values) + (if withText then Text(l.values, isLetterOrDigit) else "") + "\n"
  }

  function Render(lines: seq<Line>, withText: bool, isLetterOrDigit: char -> bool): string {
    if lines == [] then "" else RenderLine(lines[0], withText, isLetterOrDigit) + Render(lines[1..], withText, isLetterOrDigit)
  }

  /** A number below 16^k pads to exactly k hex digits, which read back as the number. */
  lemma PaddedHex(n: nat, k: nat)
    requires 1 <= k && n < Pow16(k)
    ensures |PadLeft(ToHex(n), k)| == k
    ensures forall i :: 0 <= i < k ==> IsHexDigit(PadLeft(ToHex(n), k)[i])
    ensures ParseHex(PadLeft(ToHex(n), k)) == n
  {
    ToHexLength(n, k);
    ParseToHex(n);
    PadLeftParse(ToHex(n), k);
  }

  /** Padding a string of hex digits keeps it a string of hex digits with the same value. */
  lemma PadLeftParse(s: string, length: int)
    requires forall i :: 0 <= i < |s| ==> IsHexDigit(s[i])
    ensures forall i :: 0 <= i < |PadLeft(s, length)| ==> IsHexDigit(PadLeft(s, length)[i])
    ensures ParseHex(PadLeft(s, length)) == ParseHex(s)
  {
    ParseHexZeros(if length > |s| then length - |s| else 0, s);
  }

  lemma SliceLeft<T>(a: seq<T>, b: seq<T>, lo: nat, hi: nat)
    requires lo <= hi <= |a|
    ensures (a + b)[lo..hi] == a[lo..hi]
  {
  }

  lemma SliceRight<T>(a: seq<T>, b: seq<T>, lo: nat, hi: nat)
    requires |a| <= lo <= hi <= |a| + |b|
    ensures (a + b)[lo..hi] == b[lo - |a|..hi - |a|]
  {
  }

  /** Cell j of a line is the three characters from 3j. */
  lemma {:induction false} CellsAt(vs: seq<byte>, j: nat)
    requires j < |vs|
    ensures Cells(vs)[3 * j..3 * j + 3] == Cell(vs[j])
  {
    var first, rest := Cell(vs[0]), Cells(vs[1..]);
    assert Cells(vs) == first + rest;
    if j == 0 {
      SliceLeft(first, rest, 0, 3);
    } else {
      CellsAt(vs[1..], j - 1);
      SliceRight(first, rest, 3 * j, 3 * j + 3);
    }
  }

  /**
   * A rendered line whose offset is below 0x10000: the offset as four hex
   * digits (which read back, PaddedHex), a space, then the cells of its
   * bytes (cell j at 3j, CellsAt), then the text column and the newline.
   */
  lemma LineParts(l: Line, withText: bool, isLetterOrDigit: char -> bool)
    requires l.offset < 0x1_0000
    ensures var s := RenderLine(l, withText, isLetterOrDigit);
      |s| >= 5 + 3 * |l.values| && s[..4] == PadLeft(ToHex(l.offset), 4) && s[4] == ' '
      && s[5..5 + 3 * |l.values|] == Cells(l.values)
  {
    var head := PadLeft(ToHex(l.offset), 4);
    var cells := Cells(l.values);
    var a := head + " ";
    var b := a + cells;
    var s := b + ((if withText then Text(l.values, isLetterOrDigit) else "") + "\n");
    assert RenderLine(l, withText, isLetterOrDigit) == s;
    assert Pow16(4) == 0x1_0000;
    PaddedHex(l.offset, 4);
    SliceLeft(b, s[|b|..], 0, 5);
    SliceLeft(b, s[|b|..], 5, 5 + |cells|);
    assert a[..4] == head;
    assert b[5..5 + |cells|] == cells;
  }

  /** Splitting off the first line of a non-empty dump. */
  lemma LinesStep(data: seq<byte>, i: nat, length: int, withText: bool, isLetterOrDigit: char -> bool)
    requires i < |data| && i < length
    ensures var n := Min(|data| - i, 16);
      Render(Lines(data, i, length), withText, isLetterOrDigit)
        == RenderLine(Line(i, data[i..i + n]), withText, isLetterOrDigit) + Render(Lines(data, i + n, length), withText, isLetterOrDigit)
  {
    var n := Min(|data| - i, 16);
    assert Lines(data, i, length)[1..] == Lines(data, i + n, length);
  }

  lemma {:induction false} CellsSnoc(vs: seq<byte>, v: byte)
    ensures Cells(vs + [v]) == Cells(vs) + Cell(v)
  {
    if vs == [] {
      assert Cells([v]) == Cell(v) + Cells([]);
    } else {
      var w := vs + [v];
      assert w[1..] == vs[1..] + [v];
      CellsSnoc(vs[1..], v);
      AppendAssoc(Cell(vs[0]), Cells(vs[1..]), Cell(v));
    }
  }

  /** One step of the inner loop: the next byte's character joins the text column. */
  lemma TextStep(data: seq<byte>, i0: nat, i: nat, text: string, isLetterOrDigit: char -> bool)
    requires i0 <= i < |data| && text == Text(data[i0..i], isLetterOrDigit)
    ensures text + [TextChar(data[i], isLetterOrDigit)] == Text(data[i0..i + 1], isLetterOrDigit)
  {
    assert data[i0..i + 1][..i - i0] == data[i0..i];
  }

  /** Both hexPlain helpers print a non-negative int as its plain hex digits. */
  lemma HexOfSmall(n: nat)
    requires n < 0x8000_0000
    ensures LongHex(n) == ToHex(n) && IntHex(n) == ToHex(n)
  {
    assert n % 0x1_0000_0000_0000_0000 == n;
    assert n % 0x1_0000_0000 == n;
  }

  /** Either hexPlain helper, asked for two digits of a byte, gives the byte's cell without its space. */
  lemma CellText(v: byte)
    ensures Cell(v) == PadLeft(LongHex(v), 2) + " " && Cell(v) == PadLeft(IntHex(v), 2) + " "
  {
    HexOfSmall(v);
  }

  /** One step of the inner loop: the next byte's cell joins the line. */
  lemma CellStep(data: seq<byte>, i0: nat, i: nat, cells: string, cell: string)
    requires i0 <= i < |data|
    requires cells == Cells(data[i0..i]) && cell + " " == Cell(data[i])
    ensures cells + cell + " " == Cells(data[i0..i + 1])
  {
    var done := data[i0..i];
    assert data[i0..i + 1] == done + [data[i]];
    AppendAssoc(cells, cell, " ");
    CellsSnoc(done, data[i]);
  }

  /** The pieces hexDump appends for one line make up its rendered line. */
  lemma LineDone(offset: string, i0: nat, vs: seq<byte>, r: string, text: string, withText: bool,
                 isLetterOrDigit: char -> bool)
    requires i0 < 0x8000_0000
    requires offset == PadLeft(LongHex(i0), 4) || offset == PadLeft(IntHex(i0), 4)
    requires r == offset + " " + Cells(vs)
    requires text == if withText then Text(vs, isLetterOrDigit) else ""
    ensures r + text + "\n" == RenderLine(Line(i0, vs), withText, isLetterOrDigit)
  {
    HexOfSmall(i0);
  }

  /** CellStep for a cell printed by the long version of hexPlain. */
  lemma LongCellStep(data: seq<byte>, i0: nat, i: nat, cells: string, b: byte, cell: string)
    requires i0 <= i < |data| && data[i] == b
    requires cells == Cells(data[i0..i]) && cell == PadLeft(LongHex(b), 2)
    ensures cells + cell + " " == Cells(data[i0..i + 1])
  {
    CellText(data[i]);
    CellStep(data, i0, i, cells, cell);
  }

  /** CellStep for a cell printed by the int version of hexPlain. */
  lemma IntCellStep(data: seq<byte>, i0: nat, i: nat, cells: string, b: byte, cell: string)
    requires i0 <= i < |data| && data[i] == b
    requires cells == Cells(data[i0..i]) && cell == PadLeft(IntHex(b), 2)
    ensures cells + cell + " " == Cells(data[i0..i + 1])
  {
    CellText(data[i]);
    CellStep(data, i0, i, cells, cell);
  }

  /** One step of the outer loop: the finished line is the next rendered line of the dump. */
  lemma RenderStep(all: string, r: string, line: string, data: seq<byte>, i0: nat, i: nat, length: int,
                   withText: bool, isLetterOrDigit: char -> bool)
    requires i0 < |data| && i0 < length && i == i0 + Min(|data| - i0, 16)
    requires all == r + Render(Lines(data, i0, length), withText, isLetterOrDigit)
    requires line == RenderLine(Line(i0, data[i0..i]), withText, isLetterOrDigit)
    ensures all == r + line + Render(Lines(data, i, length), withText, isLetterOrDigit)
  {
    LinesStep(data, i0, length, withText, isLetterOrDigit);
    AppendAssoc(r, line, Render(Lines(data, i, length), withText, isLetterOrDigit));
  }

  lemma AppendAssoc<T>(a: seq<T>, b: seq<T>, c: seq<T>)
    ensures a + b + c == a + (b + c)
  {
  }

  /**
   * hexDump of the ByteBuffer helpers: from index on, while fewer than
   * length bytes are dumped and the buffer has more, one line of up to 16
   * bytes with a text column. A Java buffer's capacity is an int.
   */
  method DumpBuffer(bytes: ByteBuffer, index: int, length: int, isLetterOrDigit: char -> bool) returns (r: string)
    requires bytes.Valid() && bytes.capacity < 0x8000_0000
    requires length > 0 ==> 0 <= index
    ensures r == Render(Lines(Tail(bytes.Bytes(), index), 0, length), true, isLetterOrDigit)
  {
    ghost var data := Tail(bytes.Bytes(), index);
    ghost var all := Render(Lines(data, 0, length), true, isLetterOrDigit);
    r := "";
    var i := 0;
    while i < length && index + i < bytes.capacity
      invariant 0 <= i <= |data|
      invariant length > 0 && i < length ==> (index + i < bytes.capacity <==> i < |data|)
      invariant all == r + Render(Lines(data, i, length), true, isLetterOrDigit)
      decreases |data| - i
    {
      ghost var i0 := i;
      var line;
      line, i := DumpLine(bytes, index, i, data, isLetterOrDigit);
      RenderStep(all, r, line, data, i0, i, length, true, isLetterOrDigit);
      r := r + line;
    }
  }

  /**
   * One line of hexDump: the offset of byte i0, then up to 16 cells from
   * byte i0 on, then their characters as the text column.
   */
  method DumpLine(bytes: ByteBuffer, index: int, i0: int, ghost data: seq<byte>, isLetterOrDigit: char -> bool)
    returns (line: string, i: int)
    requires bytes.Valid() && 0 <= index < bytes.capacity < 0x8000_0000
    requires data == bytes.Bytes()[index..] && 0 <= i0 < |data|
    ensures i == i0 + Min(|data| - i0, 16)
    ensures line == RenderLine(Line(i0, data[i0..i]), true, isLetterOrDigit)
  {
    var offset := HexPlain(i0, 4);
    var cells, text;
    cells, text, i := DumpCells(bytes, index, i0, data, isLetterOrDigit);
    LineDone(offset, i0, data[i0..i], offset + " " + cells, text, true, isLetterOrDigit);
    line := offset + " " + cells + text + "\n";
  }

  /**
   * The inner loop of hexDump: from byte i0 on, while the line has fewer
   * than 16 bytes and the buffer has more, a cell per byte and its
   * character in the text column.
   */
  method DumpCells(bytes: ByteBuffer, index: int, i0: int, ghost data: seq<byte>, isLetterOrDigit: char -> bool)
    returns (cells: string, text: string, i: int)
    requires bytes.Valid() && 0 <= index < bytes.capacity < 0x8000_0000
    requires data == bytes.Bytes()[index..] && 0 <= i0 < |data|
    ensures i == i0 + Min(|data| - i0, 16)
    ensures cells == Cells(data[i0..i]) && text == Text(data[i0..i], isLetterOrDigit)
  {
    cells, text, i := "", "", i0;
    var j := 0;
    while j < 16 && index + i < bytes.capacity
      invariant i0 <= i <= i0 + Min(|data| - i0, 16) && j == i - i0
      invariant cells == Cells(data[i0..i]) && text == Text(data[i0..i], isLetterOrDigit)
      decreases 16 - j
    {
      var b := GetInt8(bytes, index + i);
      var cell := HexPlain(b, 2);
      LongCellStep(data, i0, i, cells, b, cell);
      TextStep(data, i0, i, text, isLetterOrDigit);
      cells := cells + cell + " ";
      text := text + [TextChar(b, isLetterOrDigit)];
      i := i + 1;
      j := j + 1;
    }
  }
}

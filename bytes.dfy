/**
 * Bytes, byte order, and the fixed-width two's-complement encodings that
 * java.nio.ByteBuffer's absolute get/put operations read and write.
 */
module Bytes {

  /** An unsigned byte: a Java byte b is held here as b & 0xFF. */
  type byte = b: int | 0 <= b < 0x100

  /** The order in which a ByteBuffer assembles multi-byte values. */
  datatype ByteOrder = BigEndian | LittleEndian

  function Pow2(n: nat): (r: nat)
    ensures r >= 1
  {
    if n == 0 then 1 else 2 * Pow2(n - 1)
  }

  /** Bits lo .. lo+n-1 of x as an unsigned number, i.e. (x >> lo) & (2^n - 1) in two's complement. */
  function Bits(x: int, lo: nat, n: nat): (r: int)
    ensures 0 <= r < Pow2(n)
  {
    (x / Pow2(lo)) % Pow2(n)
  }

  /** n zero bytes: the contents of a freshly allocated buffer. */
  function Zeros(n: nat): (s: seq<byte>)
    ensures |s| == n
    ensures forall i :: 0 <= i < n ==> s[i] == 0
  {
    seq(n, _ => 0)
  }

  /** s with the bytes at at .. at+|w|-1 replaced by w: what an absolute multi-byte put leaves behind. */
  function Splice(s: seq<byte>, at: int, w: seq<byte>): (r: seq<byte>)
    requires 0 <= at && at + |w| <= |s|
    ensures |r| == |s|
    decreases |w|
  {
    if w == [] then s else Splice(s[at := w[0]], at + 1, w[1..])
  }

  /** Splice writes w over the bytes at at .. at+|w|-1 and keeps every other byte. */
  lemma {:induction false} SpliceIndex(s: seq<byte>, at: int, w: seq<byte>)
    requires 0 <= at && at + |w| <= |s|
    ensures forall k :: 0 <= k < |s| ==> Splice(s, at, w)[k] == if at <= k < at + |w| then w[k - at] else s[k]
    decreases |w|
  {
    if w != [] {
      SpliceIndex(s[at := w[0]], at + 1, w[1..]);
    }
  }

  /** Writing one more byte after a written run extends the run. */
  lemma SpliceSnoc(s: seq<byte>, at: int, w: seq<byte>, x: byte)
    requires 0 <= at && at + |w| < |s|
    ensures Splice(s, at, w + [x]) == Splice(s, at, w)[at + |w| := x]
  {
    SpliceIndex(s, at, w + [x]);
    SpliceIndex(s, at, w);
  }

  /** A write outside index k leaves s[k] as it was. */
  lemma SpliceOutside(s: seq<byte>, at: int, w: seq<byte>, k: int)
    requires 0 <= at && at + |w| <= |s| && 0 <= k < |s| && (k < at || at + |w| <= k)
    ensures Splice(s, at, w)[k] == s[k]
  {
    SpliceIndex(s, at, w);
  }

  /** A write into a backing array seen through a window of it that holds the written bytes. */
  lemma SpliceWindow(s: seq<byte>, lo: int, hi: int, at: int, w: seq<byte>)
    requires 0 <= lo <= at && at + |w| <= hi <= |s|
    ensures Splice(s, at, w)[lo..hi] == Splice(s[lo..hi], at - lo, w)
  {
    SpliceIndex(s, at, w);
    SpliceIndex(s[lo..hi], at - lo, w);
  }

  /** One absolute multi-byte put: bytes written at offset, relative to some base. */
  datatype Write = Write(offset: nat, bytes: seq<byte>)

  /** Every write of ws lands inside an array of length n when the offsets count from at. */
  predicate Fits(ws: seq<Write>, at: nat, n: nat) {
    forall i :: 0 <= i < |ws| ==> at + ws[i].offset + |ws[i].bytes| <= n
  }

  /** Write w touches the byte at offset o. */
  predicate Covers(w: Write, o: int) {
    w.offset <= o < w.offset + |w.bytes|
  }

  /**
   * The writes of ws made one after another, offsets counted from at; a
   * write that does not fit in s is skipped (every caller's writes fit).
   */
  function ApplyWrites(s: seq<byte>, at: nat, ws: seq<Write>): (r: seq<byte>)
    ensures |r| == |s|
    decreases |ws|
  {
    if ws == [] then s
    else
      var last := ws[|ws| - 1];
      var prefix := ApplyWrites(s, at, ws[..|ws| - 1]);
      if at + last.offset + |last.bytes| <= |s| then Splice(prefix, at + last.offset, last.bytes) else prefix
  }

  /** A byte that no write touches keeps its value. */
  lemma {:induction false} ApplyWritesFrame(s: seq<byte>, at: nat, ws: seq<Write>, k: int)
    requires Fits(ws, at, |s|) && 0 <= k < |s|
    requires forall i :: 0 <= i < |ws| ==> !Covers(ws[i], k - at)
    ensures ApplyWrites(s, at, ws)[k] == s[k]
    decreases |ws|
  {
    if ws != [] {
      var last := ws[|ws| - 1];
      ApplyWritesFrame(s, at, ws[..|ws| - 1], k);
      assert !Covers(last, k - at);
      SpliceOutside(ApplyWrites(s, at, ws[..|ws| - 1]), at + last.offset, last.bytes, k);
    }
  }

  /** A byte holds what the last write touching it put there. */
  lemma {:induction false} ApplyWritesRead(s: seq<byte>, at: nat, ws: seq<Write>, j: int, k: int)
    requires Fits(ws, at, |s|) && 0 <= j < |ws| && 0 <= k < |s| && Covers(ws[j], k - at)
    requires forall i :: j < i < |ws| ==> !Covers(ws[i], k - at)
    ensures ApplyWrites(s, at, ws)[k] == ws[j].bytes[k - at - ws[j].offset]
    decreases |ws|
  {
    var last := ws[|ws| - 1];
    var prefix := ApplyWrites(s, at, ws[..|ws| - 1]);
    SpliceIndex(prefix, at + last.offset, last.bytes);
    if j < |ws| - 1 {
      ApplyWritesRead(s, at, ws[..|ws| - 1], j, k);
    }
  }

  /** Applying the writes commutes with cutting out a window of the array that holds them all. */
  lemma {:induction false} ApplyWritesWindow(s: seq<byte>, lo: nat, hi: nat, at: nat, ws: seq<Write>)
    requires lo <= at && lo <= hi <= |s| && Fits(ws, at, hi)
    ensures Fits(ws, at - lo, hi - lo)
    ensures ApplyWrites(s, at, ws)[lo..hi] == ApplyWrites(s[lo..hi], at - lo, ws)
    decreases |ws|
  {
    if ws != [] {
      var last := ws[|ws| - 1];
      ApplyWritesWindow(s, lo, hi, at, ws[..|ws| - 1]);
      SpliceWindow(ApplyWrites(s, at, ws[..|ws| - 1]), lo, hi, at + last.offset, last.bytes);
    }
  }

  /** The writes of a prefix of ws, followed by the next one. */
  lemma ApplyWritesSnoc(s: seq<byte>, at: nat, ws: seq<Write>, i: nat)
    requires i < |ws| && at + ws[i].offset + |ws[i].bytes| <= |s|
    ensures ApplyWrites(s, at, ws[..i + 1]) == Splice(ApplyWrites(s, at, ws[..i]), at + ws[i].offset, ws[i].bytes)
  {
    var v := ws[..i + 1];
    assert v[..|v| - 1] == ws[..i];
  }

  /** No two writes of ws touch the same byte. */
  predicate Disjoint(ws: seq<Write>) {
    forall i, j :: 0 <= i < j < |ws| ==>
      ws[i].offset + |ws[i].bytes| <= ws[j].offset || ws[j].offset + |ws[j].bytes| <= ws[i].offset
  }

  /** With disjoint writes, each field holds exactly the bytes written to it. */
  lemma ApplyWritesField(s: seq<byte>, at: nat, ws: seq<Write>, j: int)
    requires Fits(ws, at, |s|) && Disjoint(ws) && 0 <= j < |ws|
    ensures ApplyWrites(s, at, ws)[at + ws[j].offset..at + ws[j].offset + |ws[j].bytes|] == ws[j].bytes
  {
    var r := ApplyWrites(s, at, ws);
    forall k | at + ws[j].offset <= k < at + ws[j].offset + |ws[j].bytes|
      ensures r[k] == ws[j].bytes[k - at - ws[j].offset]
    {
      ApplyWritesRead(s, at, ws, j, k);
    }
  }

  /** A 16-bit field written by one of several disjoint writes reads back modulo 2^16. */
  lemma ApplyWritesReads16(s: seq<byte>, at: nat, ws: seq<Write>, j: int, v: int, order: ByteOrder)
    requires Fits(ws, at, |s|) && Disjoint(ws) && 0 <= j < |ws| && ws[j].bytes == Encode16(v, order)
    ensures Unsigned16(ApplyWrites(s, at, ws), at + ws[j].offset, order) == v % 0x1_0000
  {
    var o := at + ws[j].offset;
    ApplyWritesField(s, at, ws, j);
    Unsigned16OfEncode16(v, order);
    assert ApplyWrites(s, at, ws)[o..o + 2] == Encode16(v, order);
  }

  /** A 32-bit field written by one of several disjoint writes reads back as the signed 32-bit value. */
  lemma ApplyWritesReads32(s: seq<byte>, at: nat, ws: seq<Write>, j: int, v: int, order: ByteOrder)
    requires Fits(ws, at, |s|) && Disjoint(ws) && 0 <= j < |ws| && ws[j].bytes == Encode32(v, order)
    ensures Signed32(Unsigned32(ApplyWrites(s, at, ws), at + ws[j].offset, order)) == Int32(v)
  {
    var o := at + ws[j].offset;
    ApplyWritesField(s, at, ws, j);
    Signed32OfEncode32(v, order);
    assert ApplyWrites(s, at, ws)[o..o + 4] == Encode32(v, order);
  }

  /** The unsigned 16-bit value held by s[i], s[i+1] in the given order. */
  function Unsigned16(s: seq<byte>, i: int, order: ByteOrder): (r: int)
    requires 0 <= i && i + 2 <= |s|
    ensures 0 <= r < 0x1_0000
  {
    match order
    case BigEndian => s[i] as int * 0x100 + s[i + 1]
    case LittleEndian => s[i + 1] as int * 0x100 + s[i]
  }

  /** The unsigned 32-bit value held by s[i] .. s[i+3] in the given order. */
  function Unsigned32(s: seq<byte>, i: int, order: ByteOrder): (r: int)
    requires 0 <= i && i + 4 <= |s|
    ensures 0 <= r < 0x1_0000_0000
  {
    match order
    case BigEndian => s[i] as int * 0x100_0000 + s[i + 1] as int * 0x1_0000 + s[i + 2] as int * 0x100 + s[i + 3]
    case LittleEndian => s[i + 3] as int * 0x100_0000 + s[i + 2] as int * 0x1_0000 + s[i + 1] as int * 0x100 + s[i]
  }

  /** The Java int whose bit pattern is the unsigned 32-bit value u. */
  function Signed32(u: int): (r: int)
    requires 0 <= u < 0x1_0000_0000
    ensures -0x8000_0000 <= r < 0x8000_0000
    ensures r % 0x1_0000_0000 == u
    ensures r < 0 <==> u >= 0x8000_0000
  {
    if u < 0x8000_0000 then u else u - 0x1_0000_0000
  }

  /** The Java int produced by the narrowing cast (int) v of a long v. */
  function Int32(v: int): (r: int)
    ensures -0x8000_0000 <= r < 0x8000_0000
    ensures (r - v) % 0x1_0000_0000 == 0
  {
    Signed32(v % 0x1_0000_0000)
  }

  /** The byte written by put(index, (byte) v). */
  function Encode8(v: int): (s: seq<byte>)
    ensures |s| == 1 && s[0] == v % 0x100
  {
    [v % 0x100]
  }

  /** The two bytes written by putShort(index, (short) v) in the given order. */
  function Encode16(v: int, order: ByteOrder): (s: seq<byte>)
    ensures |s| == 2
  {
    var w := v % 0x1_0000;
    match order
    case BigEndian => [w / 0x100, w % 0x100]
    case LittleEndian => [w % 0x100, w / 0x100]
  }

  /** The four bytes written by putInt(index, (int) v) in the given order. */
  function Encode32(v: int, order: ByteOrder): (s: seq<byte>)
    ensures |s| == 4
  {
    var w := v % 0x1_0000_0000;
    var b := [w / 0x100_0000, (w / 0x1_0000) % 0x100, (w / 0x100) % 0x100, w % 0x100];
    match order
    case BigEndian => b
    case LittleEndian => [b[3], b[2], b[1], b[0]]
  }

  /** Reading back a 16-bit write yields the low 16 bits of the value written. */
  lemma Unsigned16OfEncode16(v: int, order: ByteOrder)
    ensures Unsigned16(Encode16(v, order), 0, order) == v % 0x1_0000
  {
  }

  /** Writing back a 16-bit read reproduces the two bytes read. */
  lemma Encode16OfUnsigned16(s: seq<byte>, i: int, order: ByteOrder)
    requires 0 <= i && i + 2 <= |s|
    ensures Encode16(Unsigned16(s, i, order), order) == s[i..i + 2]
  {
  }

  lemma DivMod256(x: int)
    requires 0 <= x
    ensures x == (x / 0x100) * 0x100 + x % 0x100
    ensures (x / 0x100) / 0x100 == x / 0x1_0000
    ensures (x / 0x1_0000) / 0x100 == x / 0x100_0000
  {
  }

  /** Reading back a 32-bit write yields the low 32 bits of the value written. */
  lemma Unsigned32OfEncode32(v: int, order: ByteOrder)
    ensures Unsigned32(Encode32(v, order), 0, order) == v % 0x1_0000_0000
  {
    var w := v % 0x1_0000_0000;
    DivMod256(w);
    DivMod256(w / 0x100);
    DivMod256(w / 0x1_0000);
    assert w / 0x100 == (w / 0x1_0000) * 0x100 + (w / 0x100) % 0x100;
    assert w / 0x1_0000 == (w / 0x100_0000) * 0x100 + (w / 0x1_0000) % 0x100;
  }

  /** The value with big-endian bytes hi, b1, b2, lo splits back into those bytes. */
  lemma SplitBytes(hi: byte, b1: byte, b2: byte, lo: byte)
    ensures var u := ((hi as int * 0x100 + b1) * 0x100 + b2) * 0x100 + lo;
      u / 0x100_0000 == hi && (u / 0x1_0000) % 0x100 == b1 && (u / 0x100) % 0x100 == b2 && u % 0x100 == lo
  {
    var u2 := hi as int * 0x100 + b1;
    var u3 := u2 * 0x100 + b2;
    var u := u3 * 0x100 + lo;
    assert u / 0x100 == u3 && u % 0x100 == lo;
    assert u3 / 0x100 == u2 && u3 % 0x100 == b2;
    assert u2 / 0x100 == hi && u2 % 0x100 == b1;
    DivMod256(u);
    DivMod256(u / 0x100);
  }

  /** Writing back a 32-bit read reproduces the four bytes read. */
  lemma Encode32OfUnsigned32(s: seq<byte>, i: int, order: ByteOrder)
    requires 0 <= i && i + 4 <= |s|
    ensures Encode32(Unsigned32(s, i, order), order) == s[i..i + 4]
  {
    var u := Unsigned32(s, i, order);
    var hi, b1, b2, lo := s[i], s[i + 1], s[i + 2], s[i + 3];
    if order == LittleEndian {
      hi, b1, b2, lo := s[i + 3], s[i + 2], s[i + 1], s[i];
    }
    assert u == ((hi as int * 0x100 + b1) * 0x100 + b2) * 0x100 + lo;
    SplitBytes(hi, b1, b2, lo);
    assert u % 0x1_0000_0000 == u;
    assert s[i..i + 4] == [s[i], s[i + 1], s[i + 2], s[i + 3]];
  }

  /** A 32-bit read followed by the Java cast to int is what a round trip through putInt preserves. */
  lemma Signed32OfEncode32(v: int, order: ByteOrder)
    ensures Signed32(Unsigned32(Encode32(v, order), 0, order)) == Int32(v)
  {
    Unsigned32OfEncode32(v, order);
  }
}

/**
 * The byte codec of the image package: unsigned 8/16-bit and (sign-keeping)
 * 32-bit reads and writes at absolute indices of a ByteBuffer in the buffer's
 * own byte order, the 16-bit word-sum checksum, and hex formatting.
 */
module IntUtils {
  import opened Bytes
  import opened Buffers
  import opened Hex

  /** getInt8: the byte at index as 0..255. */
  function GetInt8(bytes: ByteBuffer, index: int): (r: int)
    reads bytes, bytes.data
    requires bytes.Valid() && 0 <= index < bytes.capacity
    ensures 0 <= r < 0x100
    ensures r == bytes.Bytes()[index]
  {
    bytes.Bytes()[index]
  }

  /** getInt16: the short at index, in the buffer's order, masked to 0..65535. */
  function GetInt16(bytes: ByteBuffer, index: int): (r: int)
    reads bytes, bytes.data
    requires bytes.Valid() && 0 <= index && index + 2 <= bytes.capacity
    ensures 0 <= r < 0x1_0000
  {
    Unsigned16(bytes.Bytes(), index, bytes.order)
  }

  /**
   * getInt32: the int at index, in the buffer's order. The mask 0xFFFFFFFF is
   * the int -1, so the widening to long keeps the sign: the result is negative
   * exactly when the most significant byte has its top bit set.
   */
  function GetInt32(bytes: ByteBuffer, index: int): (r: int)
    reads bytes, bytes.data
    requires bytes.Valid() && 0 <= index && index + 4 <= bytes.capacity
    ensures -0x8000_0000 <= r < 0x8000_0000
    ensures r % 0x1_0000_0000 == Unsigned32(bytes.Bytes(), index, bytes.order)
    ensures r < 0 <==> bytes.Bytes()[if bytes.order == BigEndian then index else index + 3] >= 0x80
  {
    Signed32(Unsigned32(bytes.Bytes(), index, bytes.order))
  }

  /** setInt8: the low 8 bits of value go to index; nothing else changes. */
  method SetInt8(bytes: ByteBuffer, index: int, value: int)
    requires bytes.Valid() && 0 <= index < bytes.capacity
    modifies bytes.data
    ensures bytes.data[..] == Splice(old(bytes.data[..]), bytes.base + index, Encode8(value))
  {
    bytes.Put(index, value % 0x100);
  }

  /** setInt16: the low 16 bits of value go to index, index+1 in the buffer's order. */
  method SetInt16(bytes: ByteBuffer, index: int, value: int)
    requires bytes.Valid() && 0 <= index && index + 2 <= bytes.capacity
    modifies bytes.data
    ensures bytes.data[..] == Splice(old(bytes.data[..]), bytes.base + index, Encode16(value, bytes.order))
  {
    var w := Encode16(value, bytes.order);
    bytes.Put(index, w[0]);
    bytes.Put(index + 1, w[1]);
    SpliceIndex(old(bytes.data[..]), bytes.base + index, w);
  }

  /** setInt32: the low 32 bits of value go to index .. index+3 in the buffer's order. */
  method SetInt32(bytes: ByteBuffer, index: int, value: int)
    requires bytes.Valid() && 0 <= index && index + 4 <= bytes.capacity
    modifies bytes.data
    ensures bytes.data[..] == Splice(old(bytes.data[..]), bytes.base + index, Encode32(value, bytes.order))
  {
    var w := Encode32(value, bytes.order);
    bytes.Put(index, w[0]);
    bytes.Put(index + 1, w[1]);
    bytes.Put(index + 2, w[2]);
    bytes.Put(index + 3, w[3]);
    SpliceIndex(old(bytes.data[..]), bytes.base + index, w);
  }

  /** getInt8 after setInt8 at the same index reads the low 8 bits of the value. */
  lemma GetAfterSetInt8(s: seq<byte>, index: int, value: int)
    requires 0 <= index < |s|
    ensures Splice(s, index, Encode8(value))[index] == value % 0x100
  {
    SpliceIndex(s, index, Encode8(value));
  }

  /** getInt16 after setInt16 at the same index reads the low 16 bits of the value. */
  lemma GetAfterSetInt16(s: seq<byte>, index: int, value: int, order: ByteOrder)
    requires 0 <= index && index + 2 <= |s|
    ensures Unsigned16(Splice(s, index, Encode16(value, order)), index, order) == value % 0x1_0000
  {
    var w := Encode16(value, order);
    SpliceIndex(s, index, w);
    Unsigned16OfEncode16(value, order);
    assert Unsigned16(Splice(s, index, w), index, order) == Unsigned16(w, 0, order);
  }

  /** getInt32 after setInt32 at the same index reads the value cut to a signed 32-bit int. */
  lemma GetAfterSetInt32(s: seq<byte>, index: int, value: int, order: ByteOrder)
    requires 0 <= index && index + 4 <= |s|
    ensures Signed32(Unsigned32(Splice(s, index, Encode32(value, order)), index, order)) == Int32(value)
  {
    var w := Encode32(value, order);
    SpliceIndex(s, index, w);
    Signed32OfEncode32(value, order);
    assert Unsigned32(Splice(s, index, w), index, order) == Unsigned32(w, 0, order);
  }

  /** setInt16 leaves every byte outside index, index+1 as it was. */
  lemma SetInt16Frame(s: seq<byte>, index: int, value: int, order: ByteOrder, k: int)
    requires 0 <= index && index + 2 <= |s| && 0 <= k < |s| && !(index <= k < index + 2)
    ensures Splice(s, index, Encode16(value, order))[k] == s[k]
  {
    SpliceIndex(s, index, Encode16(value, order));
  }

  /** The number of words the checksum loop adds for a length in bytes: the loop steps by 2 while i < length. */
  function Words(length: int): (n: nat)
    ensures length <= 0 ==> n == 0
    ensures length > 0 ==> length <= 2 * n <= length + 1
  {
    if length <= 0 then 0 else (length + 1) / 2
  }

  /** The exact (unwrapped) sum of the n 16-bit words at index, index+2, ... */
  function WordSum(s: seq<byte>, index: int, n: nat, order: ByteOrder): (r: int)
    requires 0 <= index && index + 2 * n <= |s|
    ensures 0 <= r
  {
    if n == 0 then 0 else WordSum(s, index, n - 1, order) + Unsigned16(s, index + 2 * (n - 1), order)
  }

  /** The checksum the sector-check compares: the word sum reduced to 16 bits. */
  function Checksum(s: seq<byte>, index: int, length: int, order: ByteOrder): (r: int)
    requires 0 <= index && index + 2 * Words(length) <= |s|
    ensures 0 <= r < 0x1_0000
  {
    WordSum(s, index, Words(length), order) % 0x1_0000
  }

  lemma AddMultipleMod(v: int, k: int)
    ensures (v + 0x1_0000_0000 * k) % 0x1_0000 == v % 0x1_0000
  {
    assert v + 0x1_0000_0000 * k == v + 0x1_0000 * (0x1_0000 * k);
  }

  /** The wrap-around of Java's int accumulator is invisible in the low 16 bits. */
  lemma Int32Low16(v: int)
    ensures Int32(v) % 0x1_0000 == v % 0x1_0000
  {
    var q := v / 0x1_0000_0000;
    var k := if v % 0x1_0000_0000 < 0x8000_0000 then -q else -q - 1;
    assert Int32(v) == v + 0x1_0000_0000 * k;
    AddMultipleMod(v, k);
  }

  /** Wrapping after every step gives the same int as wrapping once at the end. */
  lemma Int32Add(x: int, w: int)
    ensures Int32(Int32(x) + w) == Int32(x + w)
  {
    var q := x / 0x1_0000_0000;
    var k := if x % 0x1_0000_0000 < 0x8000_0000 then -q else -q - 1;
    assert Int32(x) == x + 0x1_0000_0000 * k;
    assert (x + w + 0x1_0000_0000 * k) % 0x1_0000_0000 == (x + w) % 0x1_0000_0000;
  }

  /**
   * checksumInt16: adds the words at index, index+2, ... while the byte count
   * is below length, in a wrapping int, and keeps the low 16 bits. An odd
   * length reads one byte past index+length.
   */
  method ChecksumInt16(bytes: ByteBuffer, index: int, length: int) returns (r: int)
    requires bytes.Valid() && 0 <= index && index + 2 * Words(length) <= bytes.capacity
    ensures r == Checksum(bytes.Bytes(), index, length, bytes.order)
  {
    var checksum := 0;
    var i := 0;
    while i < length
      invariant 0 <= i && i % 2 == 0 && i <= 2 * Words(length)
      invariant checksum == Int32(WordSum(bytes.Bytes(), index, i / 2, bytes.order))
    {
      Int32Add(WordSum(bytes.Bytes(), index, i / 2, bytes.order), GetInt16(bytes, index + i));
      checksum := Int32(checksum + GetInt16(bytes, index + i));
      i := i + 2;
    }
    assert i / 2 == Words(length);
    Int32Low16(WordSum(bytes.Bytes(), index, i / 2, bytes.order));
    r := checksum % 0x1_0000;
  }

  /** The word sum splits at any word boundary. */
  lemma {:induction false} WordSumSplit(s: seq<byte>, index: int, n: nat, m: nat, order: ByteOrder)
    requires 0 <= index && index + 2 * (n + m) <= |s|
    ensures WordSum(s, index, n + m, order) == WordSum(s, index, n, order) + WordSum(s, index + 2 * n, m, order)
  {
    if m > 0 {
      WordSumSplit(s, index, n, m - 1, order);
    }
  }

  /** The word sum reads only the bytes of its words. */
  lemma {:induction false} WordSumLocal(s: seq<byte>, t: seq<byte>, index: int, n: nat, order: ByteOrder)
    requires 0 <= index && index + 2 * n <= |s| && index + 2 * n <= |t|
    requires forall k :: index <= k < index + 2 * n ==> s[k] == t[k]
    ensures WordSum(s, index, n, order) == WordSum(t, index, n, order)
  {
    if n > 0 {
      WordSumLocal(s, t, index, n - 1, order);
      var at := index + 2 * (n - 1);
      assert s[at] == t[at] && s[at + 1] == t[at + 1];
    }
  }

  /** The sum of the bytes s[index .. index+count-1]. */
  function ByteSum(s: seq<byte>, index: int, count: nat): (r: int)
    requires 0 <= index && index + count <= |s|
    ensures 0 <= r
  {
    if count == 0 then 0 else ByteSum(s, index, count - 1) + s[index + count - 1]
  }

  /**
   * The byte order matters: a big-endian and a little-endian word sum of the
   * same bytes together weigh every byte by 257, so they agree only when
   * that total splits evenly.
   */
  lemma {:induction false} WordSumBothOrders(s: seq<byte>, index: int, n: nat)
    requires 0 <= index && index + 2 * n <= |s|
    ensures WordSum(s, index, n, BigEndian) + WordSum(s, index, n, LittleEndian) == 257 * ByteSum(s, index, 2 * n)
  {
    if n > 0 {
      WordSumBothOrders(s, index, n - 1);
      assert ByteSum(s, index, 2 * n) == ByteSum(s, index, 2 * (n - 1)) + s[index + 2 * n - 2] + s[index + 2 * n - 1];
    }
  }

  /** Two bytes that checksum differently under the two orders. */
  lemma ChecksumDependsOnOrder()
    ensures Checksum([1, 0], 0, 2, BigEndian) == 0x100
    ensures Checksum([1, 0], 0, 2, LittleEndian) == 1
  {
    assert WordSum([1, 0], 0, 1, BigEndian) == 0x100;
    assert WordSum([1, 0], 0, 1, LittleEndian) == 1;
  }

  /** Long.toHexString: a negative long prints as its 64-bit two's-complement pattern. */
  function LongHex(number: int): (r: string)
    ensures forall i :: 0 <= i < |r| ==> IsHexDigit(r[i])
    ensures ParseHex(r) == number % 0x1_0000_0000_0000_0000
  {
    ParseToHex(number % 0x1_0000_0000_0000_0000);
    ToHex(number % 0x1_0000_0000_0000_0000)
  }

  /**
   * hexPlain: the upper-case hex of number, left-padded with '0' to at least
   * length characters and never truncated.
   */
  method HexPlain(number: int, length: int) returns (r: string)
    ensures r == PadLeft(LongHex(number), length)
  {
    var hex := LongHex(number);
    var padding := "";
    var i := |hex|;
    while i < length
      invariant |hex| <= i <= if length > |hex| then length else |hex|
      invariant padding == ZeroPad(i - |hex|)
    {
      padding := padding + "0";
      i := i + 1;
    }
    r := padding + hex;
  }

  /** What hexPlain prints is hex digits only, at least length of them, and they read back as the long's 64-bit pattern. */
  lemma HexPlainReadBack(number: int, length: int)
    ensures var r := PadLeft(LongHex(number), length);
      |r| >= length && (forall i :: 0 <= i < |r| ==> IsHexDigit(r[i])) && ParseHex(r) == number % 0x1_0000_0000_0000_0000
  {
    var hex := LongHex(number);
    ParseHexZeros(if length > |hex| then length - |hex| else 0, hex);
  }

  /** hex: hexPlain with a "$" in front. */
  method HexString(number: int, length: int) returns (r: string)
    ensures |r| >= 2 && r[0] == '$'
    ensures r[1..] == PadLeft(LongHex(number), length)
    ensures forall i :: 1 <= i < |r| ==> IsHexDigit(r[i])
    ensures ParseHex(r[1..]) == number % 0x1_0000_0000_0000_0000
  {
    var plain := HexPlain(number, length);
    HexPlainReadBack(number, length);
    r := "$" + plain;
    assert r[1..] == plain;
  }
}

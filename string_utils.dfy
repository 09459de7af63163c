/**
 * Fixed-width US-ASCII strings read out of a buffer, and the String.trim()
 * the boot-sector constructor applies to them.
 */
module StringUtils {
  import opened Bytes
  import opened Buffers

  /** The replacement character the US-ASCII decoder produces for bytes 0x80..0xFF. */
  const Replacement: char := '\U{FFFD}'

  /** How the US-ASCII decoder maps one byte. */
  function AsciiChar(b: byte): (c: char)
    ensures b < 0x80 ==> c as int == b
    ensures b >= 0x80 ==> c == Replacement
  {
    if b < 0x80 then b as char else Replacement
  }

  /** new String(bytes, US_ASCII): one character per byte, nothing trimmed or cut at a zero byte. */
  function Ascii(s: seq<byte>): (r: string)
    ensures |r| == |s|
    ensures forall i :: 0 <= i < |s| ==> r[i] == AsciiChar(s[i])
  {
    seq(|s|, i requires 0 <= i < |s| => AsciiChar(s[i]))
  }

  /**
   * getString: copies length bytes from the absolute positions offset ..
   * offset+length-1 into a fresh array and decodes them; the buffer's position
   * is neither used nor moved.
   */
  method GetString(buffer: ByteBuffer, offset: int, length: int) returns (r: string)
    requires buffer.Valid() && 0 <= offset && 0 <= length && offset + length <= buffer.capacity
    ensures |r| == length
    ensures r == Ascii(buffer.Bytes()[offset..offset + length])
  {
    var bytes := new byte[length];
    var i := 0;
    while i < length
      invariant 0 <= i <= length
      invariant bytes[..i] == buffer.Bytes()[offset..offset + i]
    {
      bytes[i] := buffer.data[buffer.base + offset + i];
      i := i + 1;
    }
    assert bytes[..] == buffer.Bytes()[offset..offset + length];
    r := Ascii(bytes[..]);
  }

  /** Bytes below 0x80 survive the decoding: distinct ASCII byte strings decode to distinct strings. */
  lemma AsciiInjective(s: seq<byte>, t: seq<byte>)
    requires forall i :: 0 <= i < |s| ==> s[i] < 0x80
    requires forall i :: 0 <= i < |t| ==> t[i] < 0x80
    requires Ascii(s) == Ascii(t)
    ensures s == t
  {
    assert |s| == |t|;
    forall i | 0 <= i < |s|
      ensures s[i] == t[i]
    {
      assert AsciiChar(s[i]) == AsciiChar(t[i]);
    }
  }

  /** All bytes from 0x80 up decode to the same character, so the decoding loses them. */
  lemma AsciiLossy()
    ensures Ascii([0x80]) == Ascii([0xFF]) == [Replacement]
  {
  }

  /** Java's whitespace test in String.trim(): every character up to U+0020. */
  predicate IsBlank(c: char) {
    c <= ' '
  }

  /** s without its leading blanks. */
  function StripLeading(s: string): (r: string)
    ensures |r| <= |s| && r == s[|s| - |r|..]
    ensures forall k :: 0 <= k < |s| - |r| ==> IsBlank(s[k])
    ensures r == [] || !IsBlank(r[0])
  {
    if s != [] && IsBlank(s[0]) then StripLeading(s[1..]) else s
  }

  /** s without its trailing blanks. */
  function StripTrailing(s: string): (r: string)
    ensures |r| <= |s| && r == s[..|r|]
    ensures forall k :: |r| <= k < |s| ==> IsBlank(s[k])
    ensures r == [] || !IsBlank(r[|r| - 1])
  {
    if s != [] && IsBlank(s[|s| - 1]) then StripTrailing(s[..|s| - 1]) else s
  }

  /** String.trim(): blanks removed from both ends. */
  function Trim(s: string): (r: string)
  {
    StripTrailing(StripLeading(s))
  }

  /** Where the piece trim() keeps starts in s. */
  function TrimStart(s: string): (i: nat)
    ensures i <= |s|
  {
    |s| - |StripLeading(s)|
  }

  /**
   * What trim() keeps: a contiguous piece of s, which starts and ends with a
   * non-blank when it is not empty.
   */
  lemma {:induction false} TrimIsInfix(s: string)
    ensures TrimStart(s) + |Trim(s)| <= |s|
    ensures Trim(s) == s[TrimStart(s)..TrimStart(s) + |Trim(s)|]
    ensures Trim(s) == [] || (!IsBlank(Trim(s)[0]) && !IsBlank(Trim(s)[|Trim(s)| - 1]))
  {
    var l := StripLeading(s);
    var r := StripTrailing(l);
    assert r == l[..|r|];
    if r != [] {
      assert r[0] == l[0];
    }
  }

  /** What trim() drops: only blanks, before and after the piece it keeps. */
  lemma {:induction false} TrimDropsBlanks(s: string)
    ensures TrimStart(s) + |Trim(s)| <= |s|
    ensures forall k :: 0 <= k < TrimStart(s) ==> IsBlank(s[k])
    ensures forall k :: TrimStart(s) + |Trim(s)| <= k < |s| ==> IsBlank(s[k])
  {
    var l := StripLeading(s);
    var r := StripTrailing(l);
    var i := TrimStart(s);
    forall k | i + |r| <= k < |s|
      ensures IsBlank(s[k])
    {
      assert s[k] == l[k - i];
    }
  }

  /** Trimming twice is trimming once. */
  lemma {:induction false} TrimIdempotent(s: string)
    ensures Trim(Trim(s)) == Trim(s)
  {
    var r := Trim(s);
    TrimIsInfix(s);
    assert StripLeading(r) == r;
    assert StripTrailing(r) == r;
  }

  /** A string without blank ends is left as it is. */
  lemma TrimFixed(s: string)
    requires s == [] || (!IsBlank(s[0]) && !IsBlank(s[|s| - 1]))
    ensures Trim(s) == s
  {
  }
}

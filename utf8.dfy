/**
 * UTF-8 as defined in section 3 of RFC 3629.  A Rust `&str` is the UTF-8
 * encoding of a sequence of Unicode scalar values; the lexer works on those
 * values (Dafny `char`s) and measures its spans in bytes of the encoding.
 */
module Utf8 {
  import opened Wrappers

  newtype byte = x: int | 0 <= x < 0x100

  /** A continuation byte has the bit pattern 10xxxxxx. */
  predicate IsContinuation(b: byte) {
    0x80 <= b < 0xC0
  }

  /** Number of bytes of the encoding of `c`. */
  function Width(c: char): (w: nat)
    ensures 1 <= w <= 4
  {
    if c as int < 0x80 then 1
    else if c as int < 0x800 then 2
    else if c as int < 0x1_0000 then 3
    else 4
  }

  /** The encoding of one scalar value, by the table of section 3 of RFC 3629. */
  function EncodeChar(c: char): (r: seq<byte>)
    ensures |r| == Width(c)
    ensures !IsContinuation(r[0])
    ensures forall i :: 1 <= i < |r| ==> IsContinuation(r[i])
  {
    var x := c as int;
    if x < 0x80 then
      [x as byte]
    else if x < 0x800 then
      [(0xC0 + x / 0x40) as byte, (0x80 + x % 0x40) as byte]
    else if x < 0x1_0000 then
      [(0xE0 + x / 0x1000) as byte, (0x80 + x / 0x40 % 0x40) as byte, (0x80 + x % 0x40) as byte]
    else
      [(0xF0 + x / 0x4_0000) as byte, (0x80 + x / 0x1000 % 0x40) as byte,
       (0x80 + x / 0x40 % 0x40) as byte, (0x80 + x % 0x40) as byte]
  }

  /** Byte offset of code point `k` of `s`: the widths of the code points before it. */
  function Offset(s: string, k: nat): nat
    requires k <= |s|
  {
    if k == 0 then 0 else Offset(s, k - 1) + Width(s[k - 1])
  }

  /** `str::len`: the length in bytes. */
  function ByteLen(s: string): nat {
    Offset(s, |s|)
  }

  /** The bytes of the first `k` code points. */
  function EncodePrefix(s: string, k: nat): (r: seq<byte>)
    requires k <= |s|
    ensures |r| == Offset(s, k)
  {
    if k == 0 then [] else EncodePrefix(s, k - 1) + EncodeChar(s[k - 1])
  }

  /** The encoding of a whole string: what Rust stores for a `&str`. */
  function Encode(s: string): (r: seq<byte>)
    ensures |r| == ByteLen(s)
  {
    EncodePrefix(s, |s|)
  }

  /** Offsets of code points grow strictly with the code-point index. */
  lemma {:induction false} OffsetStrict(s: string, i: nat, j: nat)
    requires i < j <= |s|
    ensures Offset(s, i) < Offset(s, j)
  {
    if i + 1 < j {
      OffsetStrict(s, i, j - 1);
    }
  }

  /** Offsets of code points are ordered like their indices. */
  lemma OffsetOrder(s: string, i: nat, j: nat)
    requires i <= |s| && j <= |s|
    requires Offset(s, i) <= Offset(s, j)
    ensures i <= j
  {
    if j < i {
      OffsetStrict(s, j, i);
    }
  }

  /** Offsets inside a slice are the offsets of the whole, shifted. */
  lemma {:induction false} OffsetSlice(s: string, i: nat, j: nat, m: nat)
    requires i <= j <= |s| && m <= j - i
    ensures Offset(s, i) + Offset(s[i..j], m) == Offset(s, i + m)
  {
    if m > 0 {
      OffsetSlice(s, i, j, m - 1);
      assert s[i..j][m - 1] == s[i + m - 1];
    }
  }

  /** Each offset is at most the length. */
  lemma OffsetBound(s: string, k: nat)
    requires k <= |s|
    ensures Offset(s, k) <= ByteLen(s)
    ensures k < |s| ==> Offset(s, k) < ByteLen(s)
  {
    if k < |s| {
      OffsetStrict(s, k, |s|);
    }
  }

  /** The first code point at or after `k` that starts at byte `b`, if any. */
  function IndexFrom(s: string, b: nat, k: nat): (r: Option<nat>)
    requires k <= |s|
    ensures r.Some? ==> k <= r.value <= |s| && Offset(s, r.value) == b
    decreases |s| - k
  {
    if Offset(s, k) == b then Some(k)
    else if b < Offset(s, k) || k == |s| then None
    else IndexFrom(s, b, k + 1)
  }

  /**
   * The index of the code point that starts at byte offset `b`, if `b` is the
   * offset of one (or the offset just past the end).
   */
  function CodePointIndex(s: string, b: nat): (r: Option<nat>)
    ensures r.Some? ==> r.value <= |s| && Offset(s, r.value) == b
  {
    IndexFrom(s, b, 0)
  }

  lemma {:induction false} IndexFromOffset(s: string, k: nat, j: nat)
    requires j <= k <= |s|
    ensures IndexFrom(s, Offset(s, k), j) == Some(k)
    decreases k - j
  {
    if j < k {
      OffsetStrict(s, j, k);
      IndexFromOffset(s, k, j + 1);
    }
  }

  /** Every code-point offset is found again by CodePointIndex. */
  lemma CodePointIndexOfOffset(s: string, k: nat)
    requires k <= |s|
    ensures CodePointIndex(s, Offset(s, k)) == Some(k)
  {
    IndexFromOffset(s, k, 0);
  }

  /** `b` does not split a code point. */
  predicate IsCharBoundary(s: string, b: nat) {
    CodePointIndex(s, b).Some?
  }

  /** The length in bytes is a boundary, the one of index |s|. */
  lemma EndIsBoundary(s: string)
    ensures CodePointIndex(s, ByteLen(s)) == Some(|s|)
  {
    CodePointIndexOfOffset(s, |s|);
  }

  /** The code point whose encoding holds byte `b`, searched from `k` on. */
  ghost function Containing(s: string, b: nat, k: nat): (r: nat)
    requires k < |s| && Offset(s, k) <= b < ByteLen(s)
    ensures k <= r < |s| && Offset(s, r) <= b < Offset(s, r + 1)
    decreases |s| - k
  {
    if b < Offset(s, k + 1) then k
    else
      OffsetBound(s, k + 1);
      Containing(s, b, k + 1)
  }

  /** A shorter prefix of the encoding is a prefix of a longer one. */
  lemma {:induction false} EncodePrefixMono(s: string, k: nat, m: nat)
    requires k <= m <= |s|
    ensures Offset(s, k) <= Offset(s, m)
    ensures EncodePrefix(s, m)[..Offset(s, k)] == EncodePrefix(s, k)
    decreases m - k
  {
    if k < m {
      EncodePrefixMono(s, k, m - 1);
      var p := EncodePrefix(s, m - 1);
      assert (p + EncodeChar(s[m - 1]))[..Offset(s, k)] == p[..Offset(s, k)];
    }
  }

  /** Byte `b` of the encoding lies in the encoding of code point `k`. */
  lemma EncodeAt(s: string, k: nat, b: nat)
    requires k < |s| && Offset(s, k) <= b < Offset(s, k + 1)
    ensures Offset(s, k + 1) <= ByteLen(s)
    ensures Encode(s)[b] == EncodeChar(s[k])[b - Offset(s, k)]
  {
    EncodePrefixMono(s, k + 1, |s|);
    assert Encode(s)[b] == EncodePrefix(s, k + 1)[b];
  }

  /**
   * The boundary test of Rust's `str::is_char_boundary`, on the bytes: the
   * offset is 0, the length, or the position of a byte that does not continue
   * a multi-byte sequence.
   */
  lemma CharBoundaryByBytes(s: string, b: nat)
    ensures IsCharBoundary(s, b) <==>
      (b == 0 || b == ByteLen(s) || (b < ByteLen(s) && !IsContinuation(Encode(s)[b])))
  {
    if b == ByteLen(s) {
      EndIsBoundary(s);
    } else if b > ByteLen(s) {
      var r := CodePointIndex(s, b);
      if r.Some? {
        OffsetBound(s, r.value);
      }
    } else if b > 0 {
      var k := Containing(s, b, 0);
      EncodeAt(s, k, b);
      var r := CodePointIndex(s, b);
      if r.Some? {
        OffsetOrder(s, k, r.value);
        OffsetOrder(s, r.value, k + 1);
        assert r.value == k;
      } else if b == Offset(s, k) {
        CodePointIndexOfOffset(s, k);
      }
    }
  }
}

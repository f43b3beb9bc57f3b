/**
 * Bytes and the two ways the plugin turns text into bytes and back:
 * `String.fromCharCode` over bytes (one Latin-1 character per byte) and
 * `TextEncoder.encode` (UTF-8, RFC 3629).
 */
module Bytes {
  import opened Text

  type byte = x: int | 0 <= x < 256

  /** Every character has a code point below 256, as `btoa` demands. */
  predicate IsLatin1(s: string)
  {
    forall i :: 0 <= i < |s| ==> s[i] as int < 256
  }

  predicate IsAscii(s: string)
  {
    forall i :: 0 <= i < |s| ==> s[i] as int < 128
  }

  /** `String.fromCharCode(...bytes)`: one character per byte, in order. */
  function Latin1String(b: seq<byte>): (s: string)
    ensures |s| == |b| && IsLatin1(s)
    ensures forall i :: 0 <= i < |b| ==> s[i] as int == b[i]
  {
    seq(|b|, i requires 0 <= i < |b| => b[i] as char)
  }

  /** The bytes a Latin-1 string stands for (what `btoa` encodes). */
  function Latin1Bytes(s: string): (b: seq<byte>)
    requires IsLatin1(s)
    ensures |b| == |s| && forall i :: 0 <= i < |s| ==> b[i] == s[i] as int
  {
    seq(|s|, i requires 0 <= i < |s| => s[i] as int)
  }

  lemma Latin1RoundTrip(b: seq<byte>)
    ensures Latin1Bytes(Latin1String(b)) == b
  {
  }

  lemma Latin1BytesRoundTrip(s: string)
    requires IsLatin1(s)
    ensures Latin1String(Latin1Bytes(s)) == s
  {
  }

  /** The UTF-8 encoding of one Unicode scalar value (RFC 3629 section 3). */
  function Utf8Char(c: char): (b: seq<byte>)
    ensures 1 <= |b| <= 4
    ensures c as int < 128 <==> |b| == 1
    ensures c as int < 128 ==> b[0] == c as int
  {
    var n := c as int;
    if n < 0x80 then [n]
    else if n < 0x800 then [0xC0 + n / 64, 0x80 + n % 64]
    else if n < 0x10000 then [0xE0 + n / 4096, 0x80 + (n / 64) % 64, 0x80 + n % 64]
    else [0xF0 + n / 262144, 0x80 + (n / 4096) % 64, 0x80 + (n / 64) % 64, 0x80 + n % 64]
  }

  /** `new TextEncoder().encode(s)`. */
  function Utf8Encode(s: string): (b: seq<byte>)
    ensures |s| <= |b| <= 4 * |s|
  {
    if |s| == 0 then [] else Utf8Char(s[0]) + Utf8Encode(s[1..])
  }

  lemma {:induction false} Utf8Append(a: string, b: string)
    ensures Utf8Encode(a + b) == Utf8Encode(a) + Utf8Encode(b)
    decreases |a|
  {
    if |a| > 0 {
      assert (a + b)[1..] == a[1..] + b;
      Utf8Append(a[1..], b);
    } else {
      assert a + b == b;
    }
  }

  /** On ASCII text UTF-8 is the identity on code points. */
  lemma {:induction false} Utf8Ascii(s: string)
    requires IsAscii(s)
    ensures Utf8Encode(s) == Latin1Bytes(s)
    decreases |s|
  {
    if |s| > 0 {
      Utf8Ascii(s[1..]);
      assert Latin1Bytes(s) == [s[0] as int] + Latin1Bytes(s[1..]);
    }
  }
}

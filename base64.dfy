/**
 * Base 64 encoding, RFC 4648 section 4 (the alphabet `A`-`Z`, `a`-`z`,
 * `0`-`9`, `+`, `/` with `=` padding), as `btoa` produces it, and a decoder
 * that inverts it.
 */
module Base64 {
  import opened Optional
  import opened Bytes

  type sextet = x: int | 0 <= x < 64

  predicate IsAlphabetChar(c: char)
  {
    ('A' <= c <= 'Z') || ('a' <= c <= 'z') || ('0' <= c <= '9') || c == '+' || c == '/'
  }

  /** The character of the alphabet for a 6-bit value (table 1 of RFC 4648). */
  function CharOf(v: sextet): (c: char)
    ensures IsAlphabetChar(c)
  {
    if v < 26 then ('A' as int + v) as char
    else if v < 52 then ('a' as int + (v - 26)) as char
    else if v < 62 then ('0' as int + (v - 52)) as char
    else if v == 62 then '+'
    else '/'
  }

  /** The 6-bit value of an alphabet character, or nothing for any other character. */
  function ValueOf(c: char): (r: Option<sextet>)
    ensures r.Some? <==> IsAlphabetChar(c)
  {
    if 'A' <= c <= 'Z' then Some(c as int - 'A' as int)
    else if 'a' <= c <= 'z' then Some(c as int - 'a' as int + 26)
    else if '0' <= c <= '9' then Some(c as int - '0' as int + 52)
    else if c == '+' then Some(62)
    else if c == '/' then Some(63)
    else None
  }

  lemma ValueOfCharOf(v: sextet)
    ensures ValueOf(CharOf(v)) == Some(v)
  {
  }

  // The four 6-bit values of three bytes, high bits first.
  function Sextet0(b0: byte): sextet { b0 / 4 }
  function Sextet1(b0: byte, b1: byte): sextet { (b0 % 4) * 16 + b1 / 16 }
  function Sextet2(b1: byte, b2: byte): sextet { (b1 % 16) * 4 + b2 / 64 }
  function Sextet3(b2: byte): sextet { b2 % 64 }

  // The three bytes of four 6-bit values.
  function Byte0(v0: sextet, v1: sextet): byte { v0 * 4 + v1 / 16 }
  function Byte1(v1: sextet, v2: sextet): byte { (v1 % 16) * 16 + v2 / 4 }
  function Byte2(v2: sextet, v3: sextet): byte { (v2 % 4) * 64 + v3 }

  lemma Regroup0(b0: byte, b1: byte)
    ensures Byte0(Sextet0(b0), Sextet1(b0, b1)) == b0
  {
    var lo := b0 % 4;
    assert Sextet1(b0, b1) == lo * 16 + b1 / 16 && b1 / 16 < 16;
    assert Sextet1(b0, b1) / 16 == lo;
    assert (b0 / 4) * 4 + lo == b0;
  }

  lemma Regroup1(b0: byte, b1: byte, b2: byte)
    ensures Byte1(Sextet1(b0, b1), Sextet2(b1, b2)) == b1
  {
    var hi, lo := b1 / 16, b1 % 16;
    var v1, v2 := Sextet1(b0, b1), Sextet2(b1, b2);
    assert v1 == (b0 % 4) * 16 + hi;
    assert v1 % 16 == hi;
    assert v2 == lo * 4 + b2 / 64;
    assert v2 / 4 == lo;
    assert hi * 16 + lo == b1;
  }

  lemma Regroup2(b1: byte, b2: byte)
    ensures Byte2(Sextet2(b1, b2), Sextet3(b2)) == b2
  {
    var hi := b2 / 64;
    assert Sextet2(b1, b2) == (b1 % 16) * 4 + hi && hi < 4;
    assert Sextet2(b1, b2) % 4 == hi;
    assert hi * 64 + b2 % 64 == b2;
  }

  /** Three bytes as four characters. */
  function EncodeGroup(b0: byte, b1: byte, b2: byte): string
  {
    [CharOf(Sextet0(b0)), CharOf(Sextet1(b0, b1)), CharOf(Sextet2(b1, b2)), CharOf(Sextet3(b2))]
  }

  predicate IsEncodedChar(c: char)
  {
    IsAlphabetChar(c) || c == '='
  }

  /** `btoa` on the Latin-1 string of `b`: 4 characters per 3 bytes, the last group padded with `=`. */
  function Encode(b: seq<byte>): (s: string)
    ensures |s| == EncodedLength(|b|)
    ensures forall i :: 0 <= i < |s| ==> IsEncodedChar(s[i])
    decreases |b|
  {
    if |b| == 0 then ""
    else if |b| == 1 then [CharOf(Sextet0(b[0])), CharOf(Sextet1(b[0], 0)), '=', '=']
    else if |b| == 2 then [CharOf(Sextet0(b[0])), CharOf(Sextet1(b[0], b[1])), CharOf(Sextet2(b[1], 0)), '=']
    else EncodeGroup(b[0], b[1], b[2]) + Encode(b[3..])
  }

  /** Four characters for every started group of three bytes. */
  function EncodedLength(n: nat): nat
  {
    if n == 0 then 0 else if n <= 3 then 4 else 4 + EncodedLength(n - 3)
  }

  lemma {:induction false} EncodedLengthIs(n: nat)
    ensures EncodedLength(n) == 4 * ((n + 2) / 3)
  {
    if n > 3 {
      EncodedLengthIs(n - 3);
      assert (n + 2) / 3 == (n - 3 + 2) / 3 + 1;
    }
  }

  /** Decodes padded base 64; nothing for a length that is not a multiple of 4 or a stray character. */
  function Decode(s: string): Option<seq<byte>>
    decreases |s|
  {
    if |s| == 0 then Some([])
    else if |s| < 4 then None
    else
      var v0, v1, v2, v3 := ValueOf(s[0]), ValueOf(s[1]), ValueOf(s[2]), ValueOf(s[3]);
      if v0.None? || v1.None? then None
      else
        var b0 := Byte0(v0.value, v1.value);
        if |s| == 4 && s[2] == '=' && s[3] == '=' then Some([b0])
        else if v2.None? then None
        else
          var b1 := Byte1(v1.value, v2.value);
          if |s| == 4 && s[3] == '=' then Some([b0, b1])
          else if v3.None? then None
          else
            var b2 := Byte2(v2.value, v3.value);
            match Decode(s[4..])
            case None => None
            case Some(rest) => Some([b0, b1, b2] + rest)
  }

  lemma DecodeOneByte(b: seq<byte>)
    requires |b| == 1
    ensures Decode(Encode(b)) == Some(b)
  {
    var s := [CharOf(Sextet0(b[0])), CharOf(Sextet1(b[0], 0)), '=', '='];
    assert Encode(b) == s;
    DecodePaddedTwice(b[0]);
    assert b == [b[0]];
  }

  lemma DecodePaddedTwice(b0: byte)
    ensures Decode([CharOf(Sextet0(b0)), CharOf(Sextet1(b0, 0)), '=', '=']) == Some([b0])
  {
    var s := [CharOf(Sextet0(b0)), CharOf(Sextet1(b0, 0)), '=', '='];
    ValueOfCharOf(Sextet0(b0));
    ValueOfCharOf(Sextet1(b0, 0));
    assert ValueOf(s[2]).None?;
    var x := Byte0(Sextet0(b0), Sextet1(b0, 0));
    assert Decode(s) == Some([x]);
    Regroup0(b0, 0);
  }

  lemma DecodeTwoBytes(b: seq<byte>)
    requires |b| == 2
    ensures Decode(Encode(b)) == Some(b)
  {
    Regroup0(b[0], b[1]);
    Regroup1(b[0], b[1], 0);
    ValueOfCharOf(Sextet0(b[0]));
    ValueOfCharOf(Sextet1(b[0], b[1]));
    ValueOfCharOf(Sextet2(b[1], 0));
    assert b == [b[0], b[1]];
  }

  /** Four alphabet characters decode to three bytes ahead of whatever follows them. */
  lemma DecodeQuad(c0: char, c1: char, c2: char, c3: char, w0: sextet, w1: sextet, w2: sextet, w3: sextet, t: string)
    requires ValueOf(c0) == Some(w0) && ValueOf(c1) == Some(w1)
    requires ValueOf(c2) == Some(w2) && ValueOf(c3) == Some(w3)
    requires |t| == 0 || |t| >= 4
    ensures Decode([c0, c1, c2, c3] + t) ==
      match Decode(t) case None => None case Some(rest) => Some([Byte0(w0, w1), Byte1(w1, w2), Byte2(w2, w3)] + rest)
  {
    var s := [c0, c1, c2, c3] + t;
    assert s[0] == c0 && s[1] == c1 && s[2] == c2 && s[3] == c3;
    assert c2 != '=' && c3 != '=';
    assert s[4..] == t;
  }

  /** A full group decodes to its three bytes ahead of whatever follows it. */
  lemma DecodeGroup(b0: byte, b1: byte, b2: byte, t: string)
    requires |t| == 0 || |t| >= 4
    ensures Decode(EncodeGroup(b0, b1, b2) + t) ==
      match Decode(t) case None => None case Some(rest) => Some([b0, b1, b2] + rest)
  {
    var w0, w1, w2, w3 := Sextet0(b0), Sextet1(b0, b1), Sextet2(b1, b2), Sextet3(b2);
    ValueOfCharOf(w0);
    ValueOfCharOf(w1);
    ValueOfCharOf(w2);
    ValueOfCharOf(w3);
    DecodeQuad(CharOf(w0), CharOf(w1), CharOf(w2), CharOf(w3), w0, w1, w2, w3, t);
    Regroup0(b0, b1);
    Regroup1(b0, b1, b2);
    Regroup2(b1, b2);
  }

  lemma DecodeEncodeStep(b: seq<byte>)
    requires |b| >= 3
    requires Decode(Encode(b[3..])) == Some(b[3..])
    ensures Decode(Encode(b)) == Some(b)
  {
    var t := Encode(b[3..]);
    DecodeGroup(b[0], b[1], b[2], t);
    FirstThree(b);
  }

  lemma FirstThree(b: seq<byte>)
    requires |b| >= 3
    ensures b == [b[0], b[1], b[2]] + b[3..]
  {
    assert b[..3] == [b[0], b[1], b[2]];
    assert b == b[..3] + b[3..];
  }

  /** Decoding inverts encoding. */
  lemma {:induction false} DecodeEncode(b: seq<byte>)
    ensures Decode(Encode(b)) == Some(b)
    decreases |b|
  {
    if |b| == 1 {
      DecodeOneByte(b);
    } else if |b| == 2 {
      DecodeTwoBytes(b);
    } else if |b| >= 3 {
      DecodeEncode(b[3..]);
      DecodeEncodeStep(b);
    }
  }

  /**
   * The padding reflects the length: none for a multiple of 3 bytes, two
   * `=` for one byte over, one `=` for two bytes over, and `=` nowhere else.
   */
  lemma {:induction false} Padding(b: seq<byte>)
    ensures PaddedFor(Encode(b), |b|)
    decreases |b|
  {
    var s := Encode(b);
    if |b| == 1 {
      assert NoPad(s, 2);
    } else if |b| == 2 {
      assert NoPad(s, 3);
    } else if |b| >= 3 {
      Padding(b[3..]);
      var g := EncodeGroup(b[0], b[1], b[2]);
      assert NoPad(g, 4) by {
        forall i | 0 <= i < 4 ensures g[i] != '=' {
          assert IsAlphabetChar(g[i]);
        }
      }
      PaddingStep(g, Encode(b[3..]), |b| - 3);
    }
  }

  /** A full group in front keeps the padding of what follows it. */
  lemma PaddingStep(g: string, t: string, m: nat)
    requires |g| == 4 && NoPad(g, 4)
    requires PaddedFor(t, m)
    ensures PaddedFor(g + t, m + 3)
  {
    var s := g + t;
    var k := if m % 3 == 0 then 0 else if m % 3 == 1 then 2 else 1;
    assert NoPad(s, |s| - k) by {
      forall i | 0 <= i < |s| - k ensures s[i] != '=' {
        if i >= 4 { assert s[i] == t[i - 4]; }
      }
    }
    assert m % 3 != 0 ==> s[|s| - 1] == t[|t| - 1];
    assert m % 3 == 1 ==> s[|s| - 2] == t[|t| - 2];
  }

  /** No `=` among the first `n` characters. */
  predicate NoPad(s: string, n: int)
  {
    forall i :: 0 <= i < n && i < |s| ==> s[i] != '='
  }

  /** The padding of the encoding of `n` bytes: none, two `=` or one `=`, and only at the end. */
  predicate PaddedFor(s: string, n: nat)
  {
    && (n % 3 == 0 ==> NoPad(s, |s|))
    && (n % 3 == 1 ==> |s| >= 4 && s[|s| - 1] == '=' && s[|s| - 2] == '=' && NoPad(s, |s| - 2))
    && (n % 3 == 2 ==> |s| >= 4 && s[|s| - 1] == '=' && NoPad(s, |s| - 1))
  }

  /** `btoa`: throws (here: nothing) on a character above U+00FF, else the base 64 of its Latin-1 bytes. */
  function Btoa(s: string): (r: Option<string>)
    ensures r.Some? <==> IsLatin1(s)
  {
    if IsLatin1(s) then Some(Encode(Latin1Bytes(s))) else None
  }
}

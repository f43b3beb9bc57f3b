/**
 * The `X-WSSE` header: a UsernameToken with a password digest in the style
 * of section 3.1 of the OASIS Web Services Security UsernameToken Profile
 * 1.0, as the plugin builds it. The random nonce bytes, the creation time
 * and SHA-1 are parameters. Two things differ from the profile: the nonce
 * that is hashed is the decimal renderings of the bytes run together, and
 * the `Nonce` field is the base 64 of that digit string, not of the bytes.
 */
module Wsse {
  import opened Optional
  import opened Text
  import opened Bytes
  import Base64

  /** Twenty bytes: the nonce the plugin draws and the SHA-1 output alike. */
  type Bytes20 = b: seq<byte> | |b| == 20 witness seq(20, i => 0)

  /** `Array.from(nonce).join('')`: each byte in decimal, with no separator. */
  function NonceString(nonce: seq<byte>): (r: string)
    ensures forall i :: 0 <= i < |r| ==> IsDigit(r[i])
    ensures |nonce| <= |r| <= 3 * |nonce|
  {
    if |nonce| == 0 then ""
    else
      DecimalStringOfByte(nonce[0]);
      DecimalString(nonce[0]) + NonceString(nonce[1..])
  }

  lemma DigitsAreAscii(s: string)
    requires forall i :: 0 <= i < |s| ==> IsDigit(s[i])
    ensures IsAscii(s) && IsLatin1(s)
  {
  }

  /** The fields of the token, in the order the header lists them. */
  datatype Token = Token(username: string, passwordDigest: string, nonce: string, created: string)

  /** One field: its label and opening quote, the value, the closing quote, then what follows. */
  function FieldText(lit: string, v: string, rest: string): string
  {
    lit + v + "\"" + rest
  }

  /**
   * The header value: `UsernameToken Username="…", PasswordDigest="…",
   * Nonce="…", Created="…"`. It lists the four fields in order and reads
   * back to them, when none holds a `"`.
   */
  function Render(t: Token): (r: string)
    ensures Unquoted(t) ==> ParseHeader(r) == Some(t)
  {
    var p0, p1, p2, p3 := "UsernameToken Username=\"", ", PasswordDigest=\"", ", Nonce=\"", ", Created=\"";
    var s3 := FieldText(p3, t.created, "");
    var s2 := FieldText(p2, t.nonce, s3);
    var s1 := FieldText(p1, t.passwordDigest, s2);
    var r := FieldText(p0, t.username, s1);
    if Unquoted(t) then
      FieldConcat(p0, t.username, s1);
      FieldConcat(p1, t.passwordDigest, s2);
      FieldConcat(p2, t.nonce, s3);
      FieldConcat(p3, t.created, "");
      r
    else r
  }

  /** A field `lit` + value + `"` at the front of `s`: the value and what follows. */
  function Field(s: string, lit: string): Option<(string, string)>
  {
    match Expect(s, lit)
    case None => None
    case Some(t) => UpTo(t, '"')
  }

  lemma FieldConcat(lit: string, v: string, t: string)
    requires '"' !in v
    ensures Field(FieldText(lit, v, t), lit) == Some((v, t))
  {
    assert lit + v + "\"" + t == lit + (v + "\"" + t);
    ExpectConcat(lit, v + "\"" + t);
    UpToConcat(v, '"', t);
  }

  /** Reads a header back into its fields; nothing if it is not of the rendered form. */
  function ParseHeader(h: string): Option<Token>
  {
    match Field(h, "UsernameToken Username=\"")
    case None => None
    case Some((u, s1)) =>
      match Field(s1, ", PasswordDigest=\"")
      case None => None
      case Some((d, s2)) =>
        match Field(s2, ", Nonce=\"")
        case None => None
        case Some((n, s3)) =>
          match Field(s3, ", Created=\"")
          case None => None
          case Some((c, s4)) => if s4 == "" then Some(Token(u, d, n, c)) else None
  }

  predicate Unquoted(t: Token)
  {
    '"' !in t.username && '"' !in t.passwordDigest && '"' !in t.nonce && '"' !in t.created
  }

  /** `btoa(String.fromCharCode(...digest))`: the base 64 of the digest bytes. */
  function DigestField(digest: Bytes20): (r: string)
    ensures |r| == 28
  {
    Base64.EncodedLengthIs(20);
    Base64.Btoa(Latin1String(digest)).value
  }

  /**
   * `btoa(nonceStr)`: the base 64 of the ASCII digit string, so it decodes
   * to the codes of the digits and holds only base 64 characters.
   */
  function NonceField(nonce: Bytes20): (r: string)
    ensures IsLatin1(NonceString(nonce)) && Base64.Decode(r) == Some(Latin1Bytes(NonceString(nonce)))
    ensures forall i :: 0 <= i < |r| ==> Base64.IsEncodedChar(r[i])
  {
    DigitsAreAscii(NonceString(nonce));
    Base64.DecodeEncode(Latin1Bytes(NonceString(nonce)));
    Base64.Btoa(NonceString(nonce)).value
  }

  /**
   * What is hashed: the nonce digits, then the creation time, then the API
   * key, each as UTF-8 and run together.
   */
  function DigestInput(nonce: Bytes20, created: string, apiKey: string): (r: seq<byte>)
    ensures r == Utf8Encode(NonceString(nonce)) + Utf8Encode(created) + Utf8Encode(apiKey)
  {
    Utf8Append(NonceString(nonce) + created, apiKey);
    Utf8Append(NonceString(nonce), created);
    Utf8Encode(NonceString(nonce) + created + apiKey)
  }

  /**
   * `generateWsseHeader`, with the random bytes, the clock and SHA-1 given.
   * When the user name and the time hold no `"`, the header reads back to
   * the user name, the base 64 of the SHA-1 of the digest input, the nonce
   * field and the time.
   */
  function GenerateHeader(username: string, apiKey: string, nonce: Bytes20, created: string,
                          sha1: seq<byte> -> Bytes20): (r: string)
    ensures '"' !in username && '"' !in created ==>
      ParseHeader(r) == Some(Token(username, Base64.Encode(sha1(DigestInput(nonce, created, apiKey))), NonceField(nonce), created))
  {
    var digest := sha1(DigestInput(nonce, created, apiKey));
    DigestFieldIs(digest);
    NoQuoteInBase64(Base64.Encode(digest));
    NoQuoteInBase64(NonceField(nonce));
    Render(Token(username, DigestField(digest), NonceField(nonce), created))
  }

  lemma DigestFieldIs(digest: Bytes20)
    ensures DigestField(digest) == Base64.Encode(digest)
  {
    Latin1RoundTrip(digest);
  }

  /** The password digest is 28 characters: 27 of the alphabet and one `=` of padding. */
  lemma DigestFieldShape(digest: Bytes20)
    ensures |DigestField(digest)| == 28
    ensures DigestField(digest)[27] == '='
    ensures forall i :: 0 <= i < 27 ==> Base64.IsAlphabetChar(DigestField(digest)[i])
  {
    DigestFieldIs(digest);
    Base64.Padding(digest);
    var s := DigestField(digest);
    assert Base64.NoPad(s, 27);
  }

  /** The digit string is as long as the nonce only when every byte is a single digit. */
  lemma {:induction false} ShortNonceString(nonce: seq<byte>)
    requires |NonceString(nonce)| == |nonce|
    ensures forall i :: 0 <= i < |nonce| ==> nonce[i] < 10
  {
    if |nonce| > 0 {
      assert |NonceString(nonce[1..])| >= |nonce| - 1;
      ShortNonceString(nonce[1..]);
      forall i | 0 <= i < |nonce| ensures nonce[i] < 10 {
        if i > 0 { assert nonce[i] == nonce[1..][i - 1]; }
      }
    }
  }

  /** The `Nonce` field never carries the raw nonce bytes. */
  lemma NonceFieldIsNotRawNonce(nonce: Bytes20)
    ensures Base64.Decode(NonceField(nonce)) != Some(nonce)
  {
    var digits := NonceString(nonce);
    DigitsAreAscii(digits);
    if |digits| == 20 {
      ShortNonceString(nonce);
      assert digits[0] == DigitChar(nonce[0]);
      assert Latin1Bytes(digits)[0] != nonce[0];
    }
  }

  /**
   * What a server does with the header: decode the `Nonce` field, hash the
   * resulting text with the creation time and the API key it holds, and
   * compare with the digest field.
   */
  predicate ServerAccepts(t: Token, apiKey: string, sha1: seq<byte> -> Bytes20)
  {
    match Base64.Decode(t.nonce)
    case None => false
    case Some(nb) => Base64.Encode(sha1(Utf8Encode(Latin1String(nb) + t.created + apiKey))) == t.passwordDigest
  }

  /**
   * The generated header reads back to the given user name and creation
   * time, and a server holding the same API key accepts it.
   */
  lemma HeaderAccepted(username: string, apiKey: string, nonce: Bytes20, created: string,
                       sha1: seq<byte> -> Bytes20)
    requires '"' !in username && '"' !in created
    ensures ParseHeader(GenerateHeader(username, apiKey, nonce, created, sha1)).Some?
    ensures var t := ParseHeader(GenerateHeader(username, apiKey, nonce, created, sha1)).value;
      t.username == username && t.created == created && ServerAccepts(t, apiKey, sha1)
  {
    Latin1BytesRoundTrip(NonceString(nonce));
  }

  lemma NoQuoteInBase64(s: string)
    requires forall i :: 0 <= i < |s| ==> Base64.IsEncodedChar(s[i])
    ensures '"' !in s
  {
  }
}

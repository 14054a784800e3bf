/** The E2EE key token: version byte and root key, printed as canonical unpadded base64url. */
module KeyToken {
  import opened Wrappers
  import opened Bytes
  import opened Base64

  const E2EE_VERSION: byte := 1
  const ROOT_KEY_LENGTH := 32
  const KEY_TOKEN_LENGTH := 33

  /** The errors the E2EE module throws, without their messages. */
  datatype E2eeError = KeyError | FormatError | AuthenticationError

  // The browser's primitives, specified by the WHATWG Infra and HTML standards.

  /** A "binary string" holds one byte per character. */
  predicate IsBinary(s: string) {
    forall i :: 0 <= i < |s| ==> s[i] as int < 256
  }

  function BinaryOf(b: seq<byte>): (s: string)
    ensures |s| == |b| && IsBinary(s)
    ensures forall i :: 0 <= i < |b| ==> s[i] as int == b[i]
  {
    seq(|b|, i requires 0 <= i < |b| => b[i] as char)
  }

  function BytesOf(s: string): (b: seq<byte>)
    requires IsBinary(s)
    ensures |b| == |s|
    ensures forall i :: 0 <= i < |s| ==> b[i] == s[i] as int
  {
    seq(|s|, i requires 0 <= i < |s| => s[i] as int)
  }

  function Repeat(c: char, n: nat): (s: string)
    ensures |s| == n && forall i :: 0 <= i < n ==> s[i] == c
  {
    seq(n, _ => c)
  }

  /** s.replaceAll(from, to) for single characters. */
  function ReplaceAll(s: string, from: char, to: char): (r: string)
    ensures |r| == |s|
    ensures forall i :: 0 <= i < |s| ==> r[i] == if s[i] == from then to else s[i]
  {
    seq(|s|, i requires 0 <= i < |s| => if s[i] == from then to else s[i])
  }

  /** s.replace(/=+$/, ""). */
  function StripEquals(s: string): string {
    if s != "" && s[|s| - 1] == '=' then StripEquals(s[..|s| - 1]) else s
  }

  /** btoa: padded base64 of a binary string. */
  function Btoa(binary: string): string
    requires IsBinary(binary)
  {
    EncodeRaw(Standard, BytesOf(binary)) + Repeat('=', (3 - |binary| % 3) % 3)
  }

  /** Forgiving-base64 decode drops one or two trailing '=' when the length is a multiple of four. */
  function Unpad(s: string): string {
    if |s| % 4 != 0 || s == "" || s[|s| - 1] != '=' then s
    else if s[|s| - 2] == '=' then s[..|s| - 2]
    else s[..|s| - 1]
  }

  /** atob: forgiving-base64 decode. Its only call site never passes white space. */
  function Atob(s: string): Option<seq<byte>> {
    DecodeRaw(Standard, Unpad(s))
  }

  // The source's codec.

  function ToBase64Url(b: seq<byte>): string {
    StripEquals(ReplaceAll(ReplaceAll(Btoa(BinaryOf(b)), '+', '-'), '/', '_'))
  }

  function FromBase64Url(s: string): Option<seq<byte>> {
    Atob(ReplaceAll(ReplaceAll(s, '-', '+'), '_', '/') + Repeat('=', (4 - |s| % 4) % 4))
  }

  /** /^[A-Za-z0-9_-]+$/ */
  predicate IsTokenText(s: string) {
    s != "" && InAlphabet(Url, s)
  }

  function EncodeKeyToken(rootKey: seq<byte>): Result<string, E2eeError> {
    if |rootKey| != ROOT_KEY_LENGTH then Err(KeyError) else Ok(ToBase64Url([E2EE_VERSION] + rootKey))
  }

  function DecodeKeyToken(token: string): Result<(byte, seq<byte>), E2eeError> {
    if !IsTokenText(token) then Err(KeyError)
    else
      match FromBase64Url(token)
      case None => Err(KeyError)
      case Some(bytes) =>
        if |bytes| != KEY_TOKEN_LENGTH || ToBase64Url(bytes) != token then Err(KeyError)
        else if bytes[0] != E2EE_VERSION then Err(KeyError)
        else Ok((bytes[0], bytes[1..]))
  }

  /** bytesToBase64URL, whose loop builds the binary string one character at a time. */
  method BytesToBase64Url(bytes: seq<byte>) returns (text: string)
    ensures text == EncodeRaw(Url, bytes)
  {
    var binary := "";
    for index := 0 to |bytes|
      invariant |binary| == index && IsBinary(binary)
      invariant forall i :: 0 <= i < index ==> binary[i] as int == bytes[i]
    {
      binary := binary + [bytes[index] as char];
    }
    assert binary == BinaryOf(bytes);
    text := StripEquals(ReplaceAll(ReplaceAll(Btoa(binary), '+', '-'), '/', '_'));
    ToBase64UrlIsRaw(bytes);
  }

  lemma {:induction false} StripPadding(s: string, n: nat)
    requires forall i :: 0 <= i < |s| ==> s[i] != '='
    ensures StripEquals(s + Repeat('=', n)) == s
  {
    if n == 0 {
      assert s + Repeat('=', n) == s;
    } else {
      assert (s + Repeat('=', n))[..|s| + n - 1] == s + Repeat('=', n - 1);
      StripPadding(s, n - 1);
    }
  }

  /** Padding with btoa, renaming two characters and stripping is plain unpadded base64url. */
  lemma ToBase64UrlIsRaw(b: seq<byte>)
    ensures ToBase64Url(b) == EncodeRaw(Url, b)
  {
    assert BytesOf(BinaryOf(b)) == b;
    var n := (3 - |b| % 3) % 3;
    assert ReplaceAll(ReplaceAll(Btoa(BinaryOf(b)), '+', '-'), '/', '_')
        == EncodeRaw(Url, b) + Repeat('=', n);
    StripPadding(EncodeRaw(Url, b), n);
  }

  lemma StandardText(s: string)
    requires InAlphabet(Url, s)
    ensures var t := ReplaceAll(ReplaceAll(s, '-', '+'), '_', '/');
            InAlphabet(Standard, t) && Scan(Standard, t) == Scan(Url, s)
            && forall i :: 0 <= i < |t| ==> t[i] != '='
  {
    var t := ReplaceAll(ReplaceAll(s, '-', '+'), '_', '/');
    forall i | 0 <= i < |s| ensures CharSextet(Standard, t[i]) == CharSextet(Url, s[i]) && t[i] != '=' {
      assert CharSextet(Url, s[i]).Some?;
    }
  }

  lemma PaddedSlices(t: string, n: nat)
    ensures var padded := t + Repeat('=', n);
            && |padded| == |t| + n
            && padded[..|t|] == t && (n >= 1 ==> padded[..|t| + 1] == t + "=")
            && forall i :: |t| <= i < |padded| ==> padded[i] == '='
  {
    EqualsRepeat(n);
  }

  lemma {:induction false} EqualsRepeat(n: nat)
    ensures |Repeat('=', n)| == n && forall i :: 0 <= i < n ==> Repeat('=', n)[i] == '='
  {
    if n > 0 {
      EqualsRepeat(n - 1);
    }
  }

  lemma UnpadPadded(t: string, n: nat)
    requires InAlphabet(Standard, t) && n == (4 - |t| % 4) % 4
    ensures Unpad(t + Repeat('=', n)) == if n < 3 then t else t + "="
  {
    PaddedSlices(t, n);
    assert t != "" ==> CharSextet(Standard, t[|t| - 1]).Some?;
  }

  lemma AtobPadded(t: string, n: nat)
    requires InAlphabet(Standard, t) && n == (4 - |t| % 4) % 4
    ensures Atob(t + Repeat('=', n)) == DecodeRaw(Standard, t)
  {
    UnpadPadded(t, n);
    if n == 3 {
      assert CharSextet(Standard, (t + "=")[|t|]).None?;
      assert |Scan(Standard, t)| % 4 == 1;
    }
  }

  /** Padding and atob accept exactly what unpadded base64url decoding accepts, with the same bytes. */
  lemma FromBase64UrlIsRaw(s: string)
    requires InAlphabet(Url, s)
    ensures FromBase64Url(s) == DecodeRaw(Url, s)
  {
    StandardText(s);
    AtobPadded(ReplaceAll(ReplaceAll(s, '-', '+'), '_', '/'), (4 - |s| % 4) % 4);
  }

  /** A 32-byte key survives encoding and decoding. */
  lemma KeyTokenRoundTrip(rootKey: seq<byte>)
    requires |rootKey| == ROOT_KEY_LENGTH
    ensures EncodeKeyToken(rootKey).Ok?
    ensures DecodeKeyToken(EncodeKeyToken(rootKey).value) == Ok((E2EE_VERSION, rootKey))
  {
    var bytes := [E2EE_VERSION] + rootKey;
    ToBase64UrlIsRaw(bytes);
    RawRoundTrip(Url, bytes);
    SextetsLength(bytes);
    FromBase64UrlIsRaw(ToBase64Url(bytes));
  }

  /** The decoder accepts exactly the image of the encoder: each key has one token text. */
  lemma DecodeIsImageOfEncode(token: string, version: byte, rootKey: seq<byte>)
    ensures DecodeKeyToken(token) == Ok((version, rootKey))
       <==> version == E2EE_VERSION && EncodeKeyToken(rootKey) == Ok(token)
  {
    if DecodeKeyToken(token) == Ok((version, rootKey)) {
      var bytes := FromBase64Url(token).value;
      assert bytes == [E2EE_VERSION] + rootKey;
    } else if version == E2EE_VERSION && EncodeKeyToken(rootKey) == Ok(token) {
      KeyTokenRoundTrip(rootKey);
    }
  }

  /** Every token the encoder prints has 44 characters. */
  lemma KeyTokenLength(rootKey: seq<byte>)
    requires EncodeKeyToken(rootKey).Ok?
    ensures |EncodeKeyToken(rootKey).value| == 44
  {
    ToBase64UrlIsRaw([E2EE_VERSION] + rootKey);
    SextetsLength([E2EE_VERSION] + rootKey);
  }

  /** Spelled out: a token is unpadded base64url of the byte 1 and the 32 key bytes; any other key is a KeyError. */
  lemma KeyTokenText(rootKey: seq<byte>)
    ensures EncodeKeyToken(rootKey)
         == if |rootKey| == 32 then Ok(EncodeRaw(Url, [1] + rootKey)) else Err(KeyError)
  {
    ToBase64UrlIsRaw([1] + rootKey);
  }

  /** Every other text is refused as a KeyError. */
  lemma OtherTokensRefused(token: string)
    ensures DecodeKeyToken(token).Err? ==> DecodeKeyToken(token) == Err(KeyError)
    ensures |token| != 44 ==> DecodeKeyToken(token) == Err(KeyError)
  {
    if DecodeKeyToken(token).Ok? {
      var (version, rootKey) := DecodeKeyToken(token).value;
      DecodeIsImageOfEncode(token, version, rootKey);
      KeyTokenLength(rootKey);
    }
  }
}

/**
 Base64 as used by both languages (sections 4 and 5 of RFC 4648), split into the regrouping of
 bytes into 6-bit values and the alphabet that prints them.
 */
module Base64 {
  import opened Wrappers
  import opened Bytes

  type sextet = x: int | 0 <= x < 64

  datatype Alphabet = Standard | Url

  /** Three bytes become four sextets; a rest of one or two bytes is padded with zero bits. */
  function Sextets(b: seq<byte>): seq<sextet> {
    if |b| == 0 then []
    else if |b| == 1 then Quad(b[0], 0, 0)[..2]
    else if |b| == 2 then Quad(b[0], b[1], 0)[..3]
    else Quad(b[0], b[1], b[2]) + Sextets(b[3..])
  }

  // The three bytes packed into four sextets.

  function Byte0(v0: sextet, v1: sextet): (b: int)
    ensures 0 <= b < 256
  {
    var high: int := v0;
    high * 4 + v1 / 16
  }

  function Byte1(v1: sextet, v2: sextet): (b: int)
    ensures 0 <= b < 256
  {
    var high: int := v1;
    high % 16 * 16 + v2 / 4
  }

  function Byte2(v2: sextet, v3: sextet): (b: int)
    ensures 0 <= b < 256
  {
    var high: int := v2;
    high % 4 * 64 + v3
  }

  lemma FourLess(n: int)
    ensures (n - 4) % 4 == n % 4
  {
  }

  lemma ThreeMore(n: int)
    ensures (n + 3) % 3 == n % 3
  {
  }

  /** The lenient inverse: spare low bits of the last sextet are dropped, a lone sextet is an error. */
  function FromSextets(v: seq<sextet>): (r: Option<seq<byte>>)
    ensures r.None? <==> |v| % 4 == 1
  {
    if |v| == 0 then Some([])
    else if |v| == 1 then None
    else if |v| == 2 then Some([Byte0(v[0], v[1])])
    else if |v| == 3 then Some([Byte0(v[0], v[1]), Byte1(v[1], v[2])])
    else
      FourLess(|v|);
      match FromSextets(v[4..])
      case None => None
      case Some(rest) => Some([Byte0(v[0], v[1]), Byte1(v[1], v[2]), Byte2(v[2], v[3])] + rest)
  }

  function SextetChar(a: Alphabet, v: sextet): char {
    if v < 26 then 'A' + v as char
    else if v < 52 then 'a' + (v - 26) as char
    else if v < 62 then '0' + (v - 52) as char
    else if v == 62 then (if a.Standard? then '+' else '-')
    else (if a.Standard? then '/' else '_')
  }

  function CharSextet(a: Alphabet, c: char): Option<sextet> {
    if 'A' <= c <= 'Z' then Some((c - 'A') as int)
    else if 'a' <= c <= 'z' then Some((c - 'a') as int + 26)
    else if '0' <= c <= '9' then Some((c - '0') as int + 52)
    else if c == (if a.Standard? then '+' else '-') then Some(62)
    else if c == (if a.Standard? then '/' else '_') then Some(63)
    else None
  }

  predicate InAlphabet(a: Alphabet, s: string) {
    forall i :: 0 <= i < |s| ==> CharSextet(a, s[i]).Some?
  }

  function Print(a: Alphabet, v: seq<sextet>): (s: string)
    ensures |s| == |v|
    ensures forall i :: 0 <= i < |v| ==> s[i] == SextetChar(a, v[i])
  {
    seq(|v|, i requires 0 <= i < |v| => SextetChar(a, v[i]))
  }

  function Scan(a: Alphabet, s: string): (v: seq<sextet>)
    requires InAlphabet(a, s)
    ensures |v| == |s|
    ensures forall i :: 0 <= i < |s| ==> v[i] == CharSextet(a, s[i]).value
  {
    seq(|s|, i requires 0 <= i < |s| => CharSextet(a, s[i]).value)
  }

  /** Unpadded encoding: Go's RawStdEncoding and RawURLEncoding. */
  function EncodeRaw(a: Alphabet, b: seq<byte>): string {
    Print(a, Sextets(b))
  }

  /** Unpadded decoding that ignores spare low bits. */
  function DecodeRaw(a: Alphabet, s: string): Option<seq<byte>> {
    if InAlphabet(a, s) then FromSextets(Scan(a, s)) else None
  }

  lemma {:induction false} SextetsLength(b: seq<byte>)
    ensures |Sextets(b)| == (|b| * 4 + 2) / 3
  {
    if |b| >= 3 {
      SextetsLength(b[3..]);
    }
  }

  lemma QuadRoundTrip(b0: byte, b1: byte, b2: byte)
    ensures Byte0(b0 / 4, b0 % 4 * 16 + b1 / 16) == b0
    ensures Byte1(b0 % 4 * 16 + b1 / 16, b1 % 16 * 4 + b2 / 64) == b1
    ensures Byte2(b1 % 16 * 4 + b2 / 64, b2 % 64) == b2
  {
  }

  lemma Assemble(b: seq<byte>, v: seq<sextet>, rest: seq<sextet>)
    requires |b| >= 3 && |v| == 4 && FromSextets(rest) == Some(b[3..])
    requires Byte0(v[0], v[1]) == b[0] && Byte1(v[1], v[2]) == b[1] && Byte2(v[2], v[3]) == b[2]
    ensures FromSextets(v + rest) == Some(b)
  {
    assert (v + rest)[4..] == rest;
    assert b == [b[0], b[1], b[2]] + b[3..];
  }

  function Quad(b0: byte, b1: byte, b2: byte): (v: seq<sextet>)
    ensures |v| == 4
    ensures Byte0(v[0], v[1]) == b0 && Byte1(v[1], v[2]) == b1 && Byte2(v[2], v[3]) == b2
  {
    QuadRoundTrip(b0, b1, b2);
    [b0 / 4, b0 % 4 * 16 + b1 / 16, b1 % 16 * 4 + b2 / 64, b2 % 64]
  }

  lemma AssembleTail(b: seq<byte>, v: seq<sextet>)
    requires 1 <= |b| <= 2 && |v| == |b| + 1
    requires Byte0(v[0], v[1]) == b[0]
    requires |b| == 2 ==> Byte1(v[1], v[2]) == b[1]
    ensures FromSextets(v) == Some(b)
  {
    assert b == if |b| == 1 then [b[0]] else [b[0], b[1]];
  }

  lemma {:induction false} SextetsRoundTrip(b: seq<byte>)
    ensures FromSextets(Sextets(b)) == Some(b)
  {
    if |b| == 0 {
    } else if |b| == 1 {
      AssembleTail(b, Quad(b[0], 0, 0)[..2]);
    } else if |b| == 2 {
      AssembleTail(b, Quad(b[0], b[1], 0)[..3]);
    } else {
      SextetsRoundTrip(b[3..]);
      Assemble(b, Quad(b[0], b[1], b[2]), Sextets(b[3..]));
    }
  }

  lemma AlphabetRoundTrip(a: Alphabet, v: sextet)
    ensures CharSextet(a, SextetChar(a, v)) == Some(v)
  {
  }

  lemma PrintScan(a: Alphabet, v: seq<sextet>)
    ensures InAlphabet(a, Print(a, v)) && Scan(a, Print(a, v)) == v
  {
    forall i | 0 <= i < |v| ensures CharSextet(a, Print(a, v)[i]) == Some(v[i]) {
      AlphabetRoundTrip(a, v[i]);
    }
  }

  /** Decoding what was encoded returns the bytes, for every byte string and both alphabets. */
  lemma RawRoundTrip(a: Alphabet, b: seq<byte>)
    ensures InAlphabet(a, EncodeRaw(a, b))
    ensures DecodeRaw(a, EncodeRaw(a, b)) == Some(b)
  {
    PrintScan(a, Sextets(b));
    SextetsRoundTrip(b);
  }

  lemma CharRoundTrip(a: Alphabet, c: char)
    requires CharSextet(a, c).Some?
    ensures SextetChar(a, CharSextet(a, c).value) == c
  {
  }

  lemma FirstTwo(v0: sextet, v1: sextet, v2: sextet)
    ensures Byte0(v0, v1) / 4 == v0
    ensures Byte0(v0, v1) % 4 * 16 + Byte1(v1, v2) / 16 == v1
    ensures Byte1(v1, v2) % 16 == v2 / 4
  {
  }

  lemma HighAndLow(high: int, low: int)
    requires 0 <= low < 64
    ensures (high * 64 + low) / 64 == high && (high * 64 + low) % 64 == low
  {
  }

  lemma LastTwo(v1: sextet, v2: sextet, v3: sextet)
    ensures Byte1(v1, v2) % 16 * 4 + Byte2(v2, v3) / 64 == v2
    ensures Byte2(v2, v3) % 64 == v3
  {
    FirstTwo(0, v1, v2);
    var middle: int := v2;
    HighAndLow(middle % 4, v3);
    assert middle / 4 * 4 + middle % 4 == middle;
  }

  /** The last sextet without its two spare bits. */
  function ClearSpare(v: seq<sextet>): seq<sextet>
    requires v != []
  {
    v[|v| - 1 := v[|v| - 1] / 4 * 4]
  }

  lemma QuadBack(v0: sextet, v1: sextet, v2: sextet, v3: sextet)
    ensures Quad(Byte0(v0, v1), Byte1(v1, v2), Byte2(v2, v3)) == [v0, v1, v2, v3]
  {
    FirstTwo(v0, v1, v2);
    LastTwo(v1, v2, v3);
  }

  lemma TailBack(v0: sextet, v1: sextet, v2: sextet)
    ensures Sextets([Byte0(v0, v1), Byte1(v1, v2)]) == [v0, v1, v2 / 4 * 4]
  {
    FirstTwo(v0, v1, v2);
  }

  lemma HeadBack(b0: byte, b1: byte, b2: byte, rest: seq<byte>)
    ensures Sextets([b0, b1, b2] + rest) == Quad(b0, b1, b2) + Sextets(rest)
  {
    assert ([b0, b1, b2] + rest)[3..] == rest;
  }

  lemma ClearSpareOfRest(v: seq<sextet>)
    requires |v| > 4
    ensures ClearSpare(v) == [v[0], v[1], v[2], v[3]] + ClearSpare(v[4..])
  {
  }

  /** Encoding what a text with two bytes over decodes to gives the text back with its spare bits cleared. */
  lemma {:induction false} ReencodeClears(v: seq<sextet>)
    requires |v| % 4 == 3
    ensures FromSextets(v).Some? && Sextets(FromSextets(v).value) == ClearSpare(v)
    decreases v
  {
    if |v| == 3 {
      TailBack(v[0], v[1], v[2]);
    } else {
      var rest := v[4..];
      ReencodeClears(rest);
      QuadBack(v[0], v[1], v[2], v[3]);
      HeadBack(Byte0(v[0], v[1]), Byte1(v[1], v[2]), Byte2(v[2], v[3]), FromSextets(rest).value);
      ClearSpareOfRest(v);
    }
  }

  lemma {:induction false} DecodedLength(v: seq<sextet>)
    requires FromSextets(v).Some?
    ensures |FromSextets(v).value| % 3 == 2 <==> |v| % 4 == 3
    decreases v
  {
    if |v| >= 4 {
      DecodedLength(v[4..]);
      FourLess(|v|);
      ThreeMore(|FromSextets(v[4..]).value|);
    }
  }

  /** With two bytes over, two texts decode alike exactly when they differ in the last character's spare bits only. */
  lemma DecodesToIff(v: seq<sextet>, b: seq<byte>)
    requires |b| % 3 == 2
    ensures Sextets(b) != []
    ensures FromSextets(v) == Some(b) <==> |v| == |Sextets(b)| && ClearSpare(v) == Sextets(b)
  {
    SextetsRoundTrip(b);
    DecodedLength(Sextets(b));
    ReencodeClears(Sextets(b));
    if FromSextets(v) == Some(b) {
      DecodedLength(v);
      ReencodeClears(v);
    }
    if |v| == |Sextets(b)| && ClearSpare(v) == Sextets(b) {
      ReencodeClears(v);
      SextetsRoundTrip(FromSextets(v).value);
    }
  }

  // The tables and the bit groups of section 4 of RFC 4648.

  /** Tables 1 and 2: the letters, the digits, and the two signs that tell the alphabets apart. */
  lemma SextetTable(v: sextet, a: Alphabet)
    ensures v < 26 ==> SextetChar(a, v) == "ABCDEFGHIJKLMNOPQRSTUVWXYZ"[v]
    ensures 26 <= v < 52 ==> SextetChar(a, v) == "abcdefghijklmnopqrstuvwxyz"[v - 26]
    ensures 52 <= v < 62 ==> SextetChar(a, v) == "0123456789"[v - 52]
    ensures v >= 62 ==> SextetChar(a, v) == (if a.Standard? then "+/" else "-_")[v - 62]
  {
    if v < 26 {
      UpperTable(v, a);
    } else if v < 52 {
      LowerTable(v, a);
    } else if v < 62 {
      DigitTable(v, a);
    } else {
      assert v == 62 || v == 63;
    }
  }

  lemma UpperTable(v: sextet, a: Alphabet)
    requires 0 <= v < 26
    ensures SextetChar(a, v) == "ABCDEFGHIJKLMNOPQRSTUVWXYZ"[v]
  {
    assert v == 0 || v == 1 || v == 2 || v == 3 || v == 4 || v == 5 || v == 6 || v == 7 || v == 8 || v == 9 ||
        v == 10 || v == 11 || v == 12 || v == 13 || v == 14 || v == 15 || v == 16 || v == 17 || v == 18 ||
        v == 19 || v == 20 || v == 21 || v == 22 || v == 23 || v == 24 || v == 25;
  }

  lemma LowerTable(v: sextet, a: Alphabet)
    requires 26 <= v < 52
    ensures SextetChar(a, v) == "abcdefghijklmnopqrstuvwxyz"[v - 26]
  {
    assert v == 26 || v == 27 || v == 28 || v == 29 || v == 30 || v == 31 || v == 32 || v == 33 || v == 34 ||
        v == 35 || v == 36 || v == 37 || v == 38 || v == 39 || v == 40 || v == 41 || v == 42 || v == 43 ||
        v == 44 || v == 45 || v == 46 || v == 47 || v == 48 || v == 49 || v == 50 || v == 51;
  }

  lemma DigitTable(v: sextet, a: Alphabet)
    requires 52 <= v < 62
    ensures SextetChar(a, v) == "0123456789"[v - 52]
  {
    assert v == 52 || v == 53 || v == 54 || v == 55 || v == 56 || v == 57 || v == 58 || v == 59 || v == 60 ||
        v == 61;
  }

  /** A group of three bytes is one 24-bit number, printed six bits at a time from the top. */
  lemma GroupBits(a: byte, b: byte, c: byte)
    ensures var v := Sextets([a, b, c]);
            |v| == 4 && ((v[0] as int * 64 + v[1] as int) * 64 + v[2] as int) * 64 + v[3] as int
                        == (a as int * 256 + b as int) * 256 + c as int
  {
    assert [a, b, c][3..] == [];
  }

  /** A rest of one or two bytes prints as the same bytes filled up with zeros, cut short. */
  lemma RestBits(a: byte, b: byte)
    ensures Sextets([a]) == Sextets([a, 0, 0])[..2] && Sextets([a, b]) == Sextets([a, b, 0])[..3]
  {
    assert [a, 0, 0][3..] == [] && [a, b, 0][3..] == [];
  }

  lemma OneGroup(front: seq<byte>, a: byte, b: byte, c: byte)
    requires front == [a, b, c]
    ensures Sextets(front) == Quad(a, b, c)
  {
    assert Sextets(front[3..]) == [];
  }

  lemma NextGroup(bytes: seq<byte>, a: byte, b: byte, c: byte, rest: seq<byte>)
    requires bytes == [a, b, c] + rest
    ensures Sextets(bytes) == Quad(a, b, c) + Sextets(rest)
  {
    assert bytes[3..] == rest;
  }

  /** Groups print one after the other. */
  lemma GroupsInOrder(front: seq<byte>, rest: seq<byte>)
    requires |front| == 3
    ensures Sextets(front + rest) == Sextets(front) + Sextets(rest)
  {
    OneGroup(front, front[0], front[1], front[2]);
    NextGroup(front + rest, front[0], front[1], front[2], rest);
  }
}

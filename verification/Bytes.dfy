/** Bytes, 32-bit big-endian fields and the 64-bit wrap-around of Go's int64. */
module Bytes {

  type byte = x: int | 0 <= x < 256

  type Data = seq<byte>

  const U32_LIMIT: nat := 0x1_0000_0000
  const MAX_INT64: int := 0x7FFF_FFFF_FFFF_FFFF
  const MIN_INT64: int := -0x8000_0000_0000_0000

  predicate InInt64(x: int) {
    MIN_INT64 <= x <= MAX_INT64
  }

  /** The value an int64 variable holds after an operation whose exact result is x. */
  function Wrap64(x: int): (r: int)
    ensures InInt64(r)
    ensures InInt64(x) ==> r == x
  {
    var m := x % 0x1_0000_0000_0000_0000;
    if m <= MAX_INT64 then m else m - 0x1_0000_0000_0000_0000
  }

  /** Go's integer division truncates toward zero. */
  function TruncDiv(a: int, b: int): (q: int)
    requires b > 0
    ensures a >= 0 ==> q == a / b
    ensures a <= 0 ==> q == -(-a / b)
  {
    if a >= 0 then a / b else -(-a / b)
  }

  /** DataView.getUint32(_, false) and binary.BigEndian.Uint32. */
  function DecodeU32(b: seq<byte>): (n: nat)
    requires |b| == 4
    ensures n < U32_LIMIT
  {
    var b0: int := b[0];
    ((b0 * 256 + b[1]) * 256 + b[2]) * 256 + b[3]
  }

  /** The bytes of a number below 2^32, most significant first. */
  function BigEndian(m: nat): (b: seq<byte>)
    requires m < U32_LIMIT
    ensures |b| == 4 && DecodeU32(b) == m
  {
    var high24 := m / 256;
    var high16 := high24 / 256;
    [high16 / 256, high16 % 256, high24 % 256, m % 256]
  }

  /** b is a four-byte field holding m. */
  predicate Reads(b: seq<byte>, m: nat) {
    |b| == 4 && DecodeU32(b) == m
  }

  lemma FourBytesAreDetermined(a: seq<byte>, b: seq<byte>)
    requires |a| == 4 && |b| == 4 && DecodeU32(a) == DecodeU32(b)
    ensures a == b
  {
    var a0: int, b0: int := a[0], b[0];
    var a1: int, b1: int := a[1], b[1];
    var a2: int, b2: int := a[2], b[2];
    assert (a0 * 256 + a1) * 256 + a2 == (b0 * 256 + b1) * 256 + b2;
    assert a0 * 256 + a1 == b0 * 256 + b1;
    assert a == [a[0], a[1], a[2], a[3]] && b == [b[0], b[1], b[2], b[3]];
  }

  /** DataView.setUint32(_, n, false): the four bytes that read back as the low 32 bits of n. */
  function EncodeU32(n: nat): (b: seq<byte>)
    ensures |b| == 4
  {
    var m := n % U32_LIMIT;
    assert Reads(BigEndian(m), m);
    assert forall x, y :: Reads(x, m) && Reads(y, m) ==> x == y by {
      forall x, y | Reads(x, m) && Reads(y, m) ensures x == y {
        FourBytesAreDetermined(x, y);
      }
    }
    var b :| Reads(b, m);
    b
  }

  lemma SmallModulus(n: nat)
    requires n < U32_LIMIT
    ensures n % U32_LIMIT == n
  {
  }

  lemma U32RoundTrip(n: nat)
    requires n < U32_LIMIT
    ensures DecodeU32(EncodeU32(n)) == n
  {
    SmallModulus(n);
  }

  lemma OnlyEncoding(b: seq<byte>, n: nat)
    requires n < U32_LIMIT && Reads(b, n)
    ensures EncodeU32(n) == b
  {
    U32RoundTrip(n);
    FourBytesAreDetermined(EncodeU32(n), b);
  }

  /** Reading a field and writing it back restores the same four bytes. */
  lemma U32Canonical(b: seq<byte>)
    requires |b| == 4
    ensures EncodeU32(DecodeU32(b)) == b
  {
    OnlyEncoding(b, DecodeU32(b));
  }

  /** Spelled out: the most significant byte comes first. */
  lemma U32BigEndian(n: nat)
    requires n < 0x1_0000_0000
    ensures EncodeU32(n) == [n / 16_777_216, n / 65_536 % 256, n / 256 % 256, n % 256]
  {
    OnlyEncoding([n / 16_777_216, n / 65_536 % 256, n / 256 % 256, n % 256], n);
  }

  /** Wrapping changes a number by a multiple of 2^64. */
  lemma WrapsByMultiple(x: int)
    ensures (x - Wrap64(x)) % 18_446_744_073_709_551_616 == 0
    ensures -9_223_372_036_854_775_808 <= Wrap64(x) <= 9_223_372_036_854_775_807
  {
  }
}

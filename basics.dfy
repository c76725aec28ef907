/** Machine types and little-endian helpers shared by the BPS modules. */
module Basics {

  /** Go's `byte`. */
  type byte = x: int | 0 <= x < 0x100

  /** Go's `uint32`. */
  type u32 = x: int | 0 <= x < 0x1_0000_0000

  /** Go's `uint64`. */
  type u64 = x: int | 0 <= x < 0x1_0000_0000_0000_0000

  /** The modulus of `uint64` arithmetic. */
  const U64: nat := 0x1_0000_0000_0000_0000

  /** An outcome that is either a value or an error. */
  datatype Result<+T, +E> = Ok(value: T) | Err(error: E)

  /** `binary.LittleEndian.Uint32`: four bytes, least significant first. */
  function LE32(b: seq<byte>): u32
    requires |b| == 4
  {
    b[0] + 0x100 * (b[1] + 0x100 * (b[2] + 0x100 * (b[3] as int)))
  }

  /** The four little-endian bytes of a `uint32`. */
  function LE32Bytes(x: u32): (b: seq<byte>)
    ensures |b| == 4
  {
    var q1 := x / 0x100;
    var q2 := q1 / 0x100;
    [x % 0x100, q1 % 0x100, q2 % 0x100, q2 / 0x100]
  }

  /** Splitting off the low byte of `lo + 256 * hi` gives `lo` and `hi` back. */
  lemma ByteSplit(lo: int, hi: int)
    requires 0 <= lo < 0x100
    ensures (lo + 0x100 * hi) % 0x100 == lo && (lo + 0x100 * hi) / 0x100 == hi
  {
  }

  lemma LE32RoundTrip(x: u32)
    ensures LE32(LE32Bytes(x)) == x
  {
    var q1 := x / 0x100;
    var q2 := q1 / 0x100;
    assert x == x % 0x100 + 0x100 * q1;
    assert q1 == q1 % 0x100 + 0x100 * q2;
    assert q2 == q2 % 0x100 + 0x100 * (q2 / 0x100);
  }

  lemma LE32BytesRoundTrip(b: seq<byte>)
    requires |b| == 4
    ensures LE32Bytes(LE32(b)) == b
  {
    var h2 := b[2] + 0x100 * (b[3] as int);
    var h1 := b[1] + 0x100 * h2;
    ByteSplit(b[0], h1);
    ByteSplit(b[1], h2);
    ByteSplit(b[2], b[3]);
  }

  /** `(a % U64 + b * (c % U64)) % U64` is `(a + b * c) % U64`: the law that lets a
      wrapping `uint64` accumulator stand for the unbounded sum. */
  lemma ModMulAdd(a: int, b: int, c: int)
    ensures (a % U64 + b * (c % U64)) % U64 == (a + b * c) % U64
  {
    var q := c / U64;
    var r := c % U64;
    assert c == U64 * q + r;
    assert b * c == U64 * (b * q) + b * r;
    var k := b * q;
    var s := b * r;
    assert a == U64 * (a / U64) + a % U64;
    assert a + b * c == (a % U64 + s) + U64 * (k + a / U64);
  }
}

/** The BPS variable-length unsigned integer: seven value bits per byte, least
    significant group first, the high bit (0x80) set on the final byte only. After
    each non-final group the encoder subtracts one from what is left, and the decoder
    adds the matching bias back, so every byte string whose only final byte is its last
    is the encoding of exactly one number. */
module VarInt {
  import opened Basics

  /** The stream ended before a byte with the 0x80 bit was seen. */
  datatype DecodeError = Unterminated

  /** The encoding of `n`, as `WriteNum` emits it. */
  function Enc(n: nat): seq<byte>
    decreases n
  {
    if n < 0x80 then [0x80 + n]
    else [n % 0x80] + Enc(n / 0x80 - 1)
  }

  /** Every byte of an encoding but the last has the 0x80 bit clear, the last has
      it set, and a number below 128 is the single byte `0x80 | n`. */
  lemma {:induction false} EncShape(n: nat)
    ensures |Enc(n)| >= 1 && Enc(n)[|Enc(n)| - 1] >= 0x80
    ensures forall i :: 0 <= i < |Enc(n)| - 1 ==> Enc(n)[i] < 0x80
    ensures n < 0x80 <==> Enc(n) == [0x80 + n]
    decreases n
  {
    if n >= 0x80 {
      var m := n / 0x80 - 1;
      EncShape(m);
      assert Enc(n) == [n % 0x80] + Enc(m);
    }
  }

  /** The number at the front of `s` and the bytes after it, without any bound on
      the number's size. */
  function Dec(s: seq<byte>): Result<(nat, seq<byte>), DecodeError>
  {
    if |s| == 0 then Err(Unterminated)
    else if s[0] >= 0x80 then Ok((s[0] - 0x80, s[1..]))
    else match Dec(s[1..])
      case Err(e) => Err(e)
      case Ok((v, rest)) => Ok((s[0] + 0x80 * (1 + v), rest))
  }

  /** What `bps_read_num` returns: the number accumulated in `uint64` arithmetic,
      that is, `Dec`'s number modulo 2^64. */
  function Decode64(s: seq<byte>): Result<(u64, seq<byte>), DecodeError>
  {
    match Dec(s)
    case Err(e) => Err(e)
    case Ok((v, rest)) => Ok((v % U64, rest))
  }

  /** The decoder fails exactly when no byte has the 0x80 bit set (the empty stream
      included); otherwise it stops at the first such byte, consuming at least one
      byte, and the remainder is everything after it. */
  lemma {:induction false} DecStops(s: seq<byte>)
    ensures Dec(s).Err? <==> forall i :: 0 <= i < |s| ==> s[i] < 0x80
    ensures Dec(s).Ok? ==>
      var k := |s| - |Dec(s).value.1|;
      1 <= k && Dec(s).value.1 == s[k..] && s[k - 1] >= 0x80 &&
      forall i :: 0 <= i < k - 1 ==> s[i] < 0x80
    decreases |s|
  {
    if |s| > 0 && s[0] < 0x80 {
      DecStops(s[1..]);
      assert forall i :: 1 <= i < |s| ==> s[i] == s[1..][i - 1];
    }
  }

  /** A successful read consumes at least one byte and returns what follows it. */
  lemma Decode64Suffix(s: seq<byte>)
    requires Decode64(s).Ok?
    ensures var rest := Decode64(s).value.1;
      |rest| < |s| && rest == s[|s| - |rest|..]
  {
    DecStops(s);
  }

  /** Decoding an encoding gives the number back and leaves what followed it. */
  lemma {:induction false} DecEnc(n: nat, rest: seq<byte>)
    ensures Dec(Enc(n) + rest) == Ok((n, rest))
    decreases n
  {
    if n >= 0x80 {
      var m := n / 0x80 - 1;
      DecEnc(m, rest);
      assert Enc(n) + rest == [n % 0x80] + (Enc(m) + rest);
      assert (Enc(n) + rest)[1..] == Enc(m) + rest;
    }
  }

  /** Every byte string the decoder accepts starts with the encoding of the number it
      decodes: there is no second spelling of a number. */
  lemma {:induction false} EncDec(s: seq<byte>)
    requires Dec(s).Ok?
    ensures s == Enc(Dec(s).value.0) + Dec(s).value.1
    decreases |s|
  {
    if s[0] < 0x80 {
      EncDec(s[1..]);
      var v := Dec(s[1..]).value.0;
      var n := s[0] + 0x80 * (1 + v);
      assert n % 0x80 == s[0] && n / 0x80 - 1 == v;
    }
  }

  /** For every 64-bit number and every tail, the decoder reads back the number,
      consumes exactly its encoding and returns the tail. */
  lemma RoundTrip(n: u64, rest: seq<byte>)
    ensures Decode64(Enc(n) + rest) == Ok((n, rest))
    ensures |Enc(n) + rest| - |Decode64(Enc(n) + rest).value.1| == |Enc(n)|
  {
    var s := Enc(n) + rest;
    DecEnc(n, rest);
    assert Dec(s) == Ok((n as nat, rest));
    assert (n as nat) % U64 == n;
  }

  /** A number of 2^64 or more is read without complaint and wraps: the encoding of
      2^64 reads back as zero. */
  lemma Decode64Wraps()
    ensures Decode64(Enc(U64)) == Ok((0, []))
  {
    DecEnc(U64, []);
    assert Enc(U64) + [] == Enc(U64);
  }

  /** 128 to the power `k`. */
  ghost function Pow128(k: nat): (p: nat)
    ensures p >= 1
  {
    if k == 0 then 1 else 0x80 * Pow128(k - 1)
  }

  /** A number below 128^k takes at most k bytes. */
  lemma {:induction false} EncLengthBound(n: nat, k: nat)
    requires 1 <= k && n < Pow128(k)
    ensures |Enc(n)| <= k
    decreases k
  {
    if n >= 0x80 {
      assert Pow128(1) == 0x80;
      assert n / 0x80 < Pow128(k - 1);
      EncLengthBound(n / 0x80 - 1, k - 1);
    }
  }

  /** A 64-bit number takes at most ten bytes. */
  lemma EncLength64(n: u64)
    ensures |Enc(n)| <= 10
  {
    assert Pow128(10) == 0x40_0000_0000_0000_0000;
    EncLengthBound(n, 10);
  }

  /** The encodings the source's tests check. */
  lemma EncodeExamples()
    ensures Enc(11) == [0x8B]
    ensures Enc(651) == [0x0B, 0x84]
    ensures |Enc(0xDEAD_BEEF_DEAD_BEEF)| == 10
  {
  }

  /** The decodings the source's tests check: one byte read for 11, two for 651. */
  lemma DecodeExamples()
    ensures Decode64([0x8B]) == Ok((11, []))
    ensures Decode64([0x0B, 0x84]) == Ok((651, []))
  {
    EncodeExamples();
    RoundTrip(11, []);
    assert Enc(11) + [] == [0x8B];
    RoundTrip(651, []);
    assert Enc(651) + [] == [0x0B, 0x84];
  }

  /** `bps_write_num`: emit seven bits at a time, marking the last byte. */
  method WriteNum(num: u64) returns (out: seq<byte>)
    ensures out == Enc(num)
  {
    out := [];
    var n: nat := num;
    while true
      invariant out + Enc(n) == Enc(num)
      decreases n
    {
      var x := n % 0x80;           // num & 0x7f
      ghost var before := n;
      n := n / 0x80;               // num >>= 7
      if n == 0 {
        assert Enc(before) == [0x80 + x];
        out := out + [0x80 + x];   // 0x80 | x
        return;
      }
      assert out + [x] + Enc(n - 1) == Enc(num) by {
        assert Enc(before) == [x] + Enc(n - 1);
        assert out + [x] + Enc(n - 1) == out + ([x] + Enc(n - 1));
      }
      out := out + [x];
      n := n - 1;
    }
  }

  /** `Dec` with the first `shift`-weighted number folded in. */
  function Lift(acc: nat, shift: nat, d: Result<(nat, seq<byte>), DecodeError>): Result<(nat, seq<byte>), DecodeError>
  {
    match d
    case Err(e) => Err(e)
    case Ok((v, rest)) => Ok((acc + shift * v, rest))
  }

  /** After `bps_read_num` has read `i` non-final bytes of `stream`, its `uint64`
      `data` and `shift` are the unbounded `acc` and `p` modulo 2^64, and `Dec`'s
      number is `acc` plus `p` times the number in the rest of the stream. */
  ghost predicate Tracks(stream: seq<byte>, i: nat, acc: nat, p: nat, data: u64, shift: u64)
  {
    i <= |stream| && p >= 1 && shift == p % U64 && data == acc % U64 &&
    Dec(stream) == Lift(acc, p, Dec(stream[i..]))
  }

  /** `bps_read_num`: accumulate seven bits per byte, weighted by a `uint64` shift,
      until a byte with the 0x80 bit set. */
  method ReadNum(stream: seq<byte>) returns (r: Result<(u64, seq<byte>), DecodeError>)
    ensures r == Decode64(stream)
  {
    var bytesRead := 0;
    var shift: u64 := 1;
    var data: u64 := 0;
    ghost var acc: nat := 0;   // data without wrap-around
    ghost var p: nat := 1;     // shift without wrap-around
    assert stream[0..] == stream;
    while bytesRead < |stream|
      invariant Tracks(stream, bytesRead, acc, p, data, shift)
      decreases |stream| - bytesRead
    {
      var x := stream[bytesRead];
      if x >= 0x80 {
        ReadFinal(stream, bytesRead, acc, p, data, shift);
        bytesRead := bytesRead + 1;
        data := (data + (x - 0x80) * shift) % U64;
        return Ok((data, stream[bytesRead..]));
      }
      ghost var acc0, p0, data0, shift0 := acc, p, data, shift;
      bytesRead := bytesRead + 1;
      data := (data + x * shift) % U64;
      shift := (shift * 0x80) % U64;
      data := (data + shift) % U64;
      acc, p := acc + p * (x + 0x80), p * 0x80;
      ReadContinue(stream, bytesRead - 1, acc0, p0, data0, shift0, acc, p, data, shift);
    }
    ReadExhausted(stream, acc, p, data, shift);
    return Err(Unterminated);
  }

  /** `ReadNum`'s last byte: the `uint64` result is `Dec`'s number modulo 2^64. */
  lemma ReadFinal(stream: seq<byte>, i: nat, acc: nat, p: nat, data: u64, shift: u64)
    requires i < |stream| && stream[i] >= 0x80
    requires Tracks(stream, i, acc, p, data, shift)
    ensures Decode64(stream) == Ok(((data + (stream[i] - 0x80) * shift) % U64, stream[i + 1..]))
  {
    DecFirst(stream[i..]);
    assert stream[i..][1..] == stream[i + 1..];
    var y := stream[i] - 0x80;
    ModMulAdd(acc, y, p);
    assert y * p == p * y;
  }

  /** `ReadNum` on a non-final byte: the `uint64` updates keep tracking the
      unbounded accumulator and shift. */
  lemma ReadContinue(stream: seq<byte>, i: nat, acc: nat, p: nat, data: u64, shift: u64,
                     acc': nat, p': nat, data': u64, shift': u64)
    requires i < |stream| && stream[i] < 0x80
    requires Tracks(stream, i, acc, p, data, shift)
    requires shift' == (shift * 0x80) % U64
    requires data' == ((data + stream[i] * shift) % U64 + shift') % U64
    requires acc' == acc + p * (stream[i] + 0x80) && p' == p * 0x80
    ensures Tracks(stream, i + 1, acc', p', data', shift')
  {
    var x := stream[i];
    ShiftStep(acc, p, x);
    DecFirst(stream[i..]);
    assert stream[i..][1..] == stream[i + 1..];
    LiftLift(acc, p, x + 0x80, 0x80, Dec(stream[i + 1..]));
  }

  /** `ReadNum` ran out of bytes: `Dec` fails too. */
  lemma ReadExhausted(stream: seq<byte>, acc: nat, p: nat, data: u64, shift: u64)
    requires Tracks(stream, |stream|, acc, p, data, shift)
    ensures Decode64(stream).Err?
  {
    assert stream[|stream|..] == [];
  }

  /** One byte of `Dec`: a final byte ends the number, any other adds its seven
      bits plus the bias to the number that follows, weighted by 128. */
  lemma DecFirst(s: seq<byte>)
    requires |s| > 0
    ensures Dec(s) == if s[0] >= 0x80 then Ok((s[0] - 0x80, s[1..]))
                      else Lift(s[0] + 0x80, 0x80, Dec(s[1..]))
  {
  }

  /** The `uint64` updates of a non-final byte agree, modulo 2^64, with the
      unbounded accumulator and shift. */
  lemma ShiftStep(acc: nat, p: nat, x: nat)
    ensures ((p % U64) * 0x80) % U64 == (p * 0x80) % U64
    ensures ((acc % U64 + x * (p % U64)) % U64 + ((p % U64) * 0x80) % U64) % U64
            == (acc + p * (x + 0x80)) % U64
  {
    ModMulAdd(0, 0x80, p);
    ModMulAdd(acc, x, p);
    ModMulAdd(acc + x * p, 1, p * 0x80);
    assert acc + x * p + p * 0x80 == acc + p * (x + 0x80);
  }

  lemma LiftLift(acc: nat, p: nat, a: nat, q: nat, d: Result<(nat, seq<byte>), DecodeError>)
    ensures Lift(acc, p, Lift(a, q, d)) == Lift(acc + p * a, p * q, d)
  {
    if d.Ok? {
      var v := d.value.0;
      assert p * (a + q * v) == p * a + (p * q) * v;
    }
  }
}

/** Bitcoin Core's VarInt, most significant digit first in base 128, and the block index record. */
module VarInts {
  import opened Common

  const U64_MAX: nat := 0xFFFF_FFFF_FFFF_FFFF
  const U32_SIZE: nat := 0x1_0000_0000

  /** Machine words: the verifier checks that no operation on them leaves the range. */
  newtype u64 = x: int | 0 <= x <= 0xFFFF_FFFF_FFFF_FFFF

  datatype ReadError = UnexpectedEof | InvalidData

  /** A value and the bytes after it. */
  type Read<T> = Result<(T, Bytes), ReadError>

  // ---------------------------------------------------------------- decoding and encoding

  /** The seven payload bits. */
  function Payload(b: byte): (d: nat)
    ensures d < 128 && b as nat == if b < 128 then d else 128 + d
  {
    b as nat % 128
  }

  function ReadVarIntFrom(n: nat, bytes: Bytes): Read<nat>
    decreases |bytes|
  {
    if bytes == [] then Err(UnexpectedEof)
    else if n > U64_MAX / 128 then Err(InvalidData)
    else
      var m := n * 128 + Payload(bytes[0]);
      if bytes[0] < 128 then Ok((m, bytes[1..]))
      else if m == U64_MAX then Err(InvalidData)
      else ReadVarIntFrom(m + 1, bytes[1..])
  }

  function ReadVarInt(bytes: Bytes): Read<nat> {
    ReadVarIntFrom(0, bytes)
  }

  /** All digits but the last carry a continuation bit and stand for one less than they weigh. */
  function EncodeHigh(n: nat): Bytes {
    (if n < 128 then [] else EncodeHigh(n / 128 - 1)) + [(128 + n % 128) as byte]
  }

  function Encode(n: nat): Bytes {
    (if n < 128 then [] else EncodeHigh(n / 128 - 1)) + [(n % 128) as byte]
  }

  lemma ReadDigit(n: nat, d: nat, rest: Bytes)
    requires d < 128
    ensures ReadVarIntFrom(n, [(128 + d) as byte] + rest)
         == if n * 128 + d < U64_MAX then ReadVarIntFrom(n * 128 + d + 1, rest) else Err(InvalidData)
    ensures ReadVarIntFrom(n, [d as byte] + rest)
         == if n * 128 + d <= U64_MAX then Ok((n * 128 + d, rest)) else Err(InvalidData)
  {
    assert ([(128 + d) as byte] + rest)[1..] == rest;
    assert ([d as byte] + rest)[1..] == rest;
  }

  /** The digits read so far when the accumulator is `n`. */
  function Digits(n: nat): Bytes {
    if n == 0 then [] else EncodeHigh(n - 1)
  }

  lemma OneMoreDigit(n: nat, d: nat)
    requires d < 128
    ensures (n * 128 + d) / 128 == n && (n * 128 + d) % 128 == d
    ensures Digits(n * 128 + d + 1) == Digits(n) + [(128 + d) as byte]
    ensures Encode(n * 128 + d) == Digits(n) + [d as byte]
  {
  }

  lemma {:induction false} ReadDigits(n: nat, rest: Bytes)
    ensures ReadVarInt(Digits(n) + rest) == if n <= U64_MAX then ReadVarIntFrom(n, rest) else Err(InvalidData)
    decreases n, 1
  {
    if n == 0 {
      assert Digits(n) + rest == rest;
    } else {
      ReadLastDigit((n - 1) / 128, (n - 1) % 128, rest);
    }
  }

  lemma {:induction false} ReadLastDigit(high: nat, d: nat, rest: Bytes)
    requires d < 128
    ensures var n := high * 128 + d + 1;
            ReadVarInt(Digits(n) + rest) == if n <= U64_MAX then ReadVarIntFrom(n, rest) else Err(InvalidData)
    decreases high * 128 + d + 1, 0
  {
    OneMoreDigit(high, d);
    var digit := [(128 + d) as byte];
    assert Digits(high * 128 + d + 1) + rest == Digits(high) + (digit + rest);
    ReadDigits(high, digit + rest);
    ReadDigit(high, d, rest);
  }

  /** Reading inverts encoding for every 64-bit value and refuses every larger one. */
  lemma ReadEncoded(n: nat, rest: Bytes)
    ensures ReadVarInt(Encode(n) + rest)
         == if n < 0x1_0000_0000_0000_0000 then Ok((n, rest)) else Err(InvalidData)
  {
    var high, d := n / 128, n % 128;
    OneMoreDigit(high, d);
    assert n == high * 128 + d;
    var digit := [d as byte];
    assert Encode(n) + rest == Digits(high) + (digit + rest);
    ReadDigits(high, digit + rest);
    ReadDigit(high, d, rest);
  }

  /** The first byte read ends the number or is followed by more. */
  lemma ReadFirst(n: nat, bytes: Bytes, d: nat, v: nat, rest: Bytes)
    requires ReadVarIntFrom(n, bytes) == Ok((v, rest))
    requires bytes != [] ==> d == Payload(bytes[0])
    ensures bytes != []
    ensures bytes[0] < 128 ==> v == n * 128 + d <= U64_MAX && rest == bytes[1..] && bytes[0] == d as byte
    ensures bytes[0] >= 128 ==>
              ReadVarIntFrom(n * 128 + d + 1, bytes[1..]) == Ok((v, rest)) && bytes[0] == (128 + d) as byte
  {
  }

  lemma TakeFirst(front: Bytes, bytes: Bytes)
    requires bytes != []
    ensures front + bytes == front + [bytes[0]] + bytes[1..]
  {
  }

  lemma {:induction false} ReadFromIsEncoded(n: nat, bytes: Bytes, v: nat, rest: Bytes)
    requires ReadVarIntFrom(n, bytes) == Ok((v, rest))
    ensures v <= U64_MAX && Digits(n) + bytes == Encode(v) + rest
    decreases |bytes|
  {
    var d := if bytes == [] then 0 else Payload(bytes[0]);
    ReadFirst(n, bytes, d, v, rest);
    OneMoreDigit(n, d);
    TakeFirst(Digits(n), bytes);
    if bytes[0] >= 128 {
      ReadFromIsEncoded(n * 128 + d + 1, bytes[1..], v, rest);
    }
  }

  /** A bijection: the accepted inputs are exactly the encodings of 64-bit values, each with one value. */
  lemma VarIntIsBijective(bytes: Bytes, n: nat, rest: Bytes)
    ensures ReadVarInt(bytes) == Ok((n, rest)) <==> n < 0x1_0000_0000_0000_0000 && bytes == Encode(n) + rest
  {
    ReadEncoded(n, rest);
    if ReadVarInt(bytes).Ok? {
      var (v, tail) := ReadVarInt(bytes).value;
      ReadFromIsEncoded(0, bytes, v, tail);
      if v == n && tail == rest {
        assert bytes == Encode(n) + rest;
      }
    }
  }

  /** What two bytes stand for: the first one counts from one, so that no number has two forms. */
  lemma TwoDigits(high: nat, low: nat, rest: Bytes)
    requires high < 128 && low < 128
    ensures ReadVarInt([low as byte] + rest) == Ok((low, rest))
    ensures ReadVarInt([(128 + high) as byte] + ([low as byte] + rest)) == Ok((128 * (high + 1) + low, rest))
  {
    ReadDigit(0, low, rest);
    ReadDigit(0, high, [low as byte] + rest);
    ReadDigit(high + 1, low, rest);
  }

  /** One byte more, `high` being what stands before the last digit. */
  lemma EncodeStep(n: nat, high: nat, front: Bytes, d: byte)
    requires 128 * (high + 1) <= n < 128 * (high + 2) && front == EncodeHigh(high)
    requires d as nat == n - 128 * (high + 1)
    ensures Encode(n) == front + [d] && EncodeHigh(n) == front + [128 + d]
  {
    assert n / 128 == high + 1 && n % 128 == d as nat;
  }

  lemma EncodeDigit(d: byte)
    requires d < 128
    ensures Encode(d as nat) == [d] && EncodeHigh(d as nat) == [128 + d]
  {
  }

  /** The short encodings that Bitcoin Core's documentation of the format lists. */
  lemma ShortEncodings()
    ensures Encode(0) == [0x00] && Encode(1) == [0x01] && Encode(127) == [0x7F]
    ensures Encode(128) == [0x80, 0x00] && Encode(255) == [0x80, 0x7F] && Encode(256) == [0x81, 0x00]
    ensures Encode(16383) == [0xFE, 0x7F] && Encode(16384) == [0xFF, 0x00] && Encode(16511) == [0xFF, 0x7F]
  {
    EncodeDigit(0);
    EncodeDigit(1);
    EncodeDigit(126);
    EncodeDigit(127);
    EncodeStep(128, 0, [0x80], 0x00);
    EncodeStep(255, 0, [0x80], 0x7F);
    EncodeStep(256, 1, [0x81], 0x00);
    EncodeStep(16383, 126, [0xFE], 0x7F);
    EncodeStep(16384, 127, [0xFF], 0x00);
    EncodeStep(16511, 127, [0xFF], 0x7F);
  }

  /** And the long ones. */
  lemma LongEncodings()
    ensures Encode(65535) == [0x82, 0xFE, 0x7F]
    ensures Encode(0x1_0000_0000) == [0x8E, 0xFE, 0xFE, 0xFF, 0x00]
  {
    EncodeDigit(2);
    EncodeStep(510, 2, [0x82], 0x7E);
    EncodeStep(65535, 510, [0x82, 0xFE], 0x7F);
    EncodeDigit(14);
    EncodeStep(2046, 14, [0x8E], 0x7E);
    EncodeStep(262142, 2046, [0x8E, 0xFE], 0x7E);
    EncodeStep(33554431, 262142, [0x8E, 0xFE, 0xFE], 0x7F);
    EncodeStep(0x1_0000_0000, 33554431, [0x8E, 0xFE, 0xFE, 0xFF], 0x00);
  }

  // ---------------------------------------------------------------- fixed-size fields

  function ReadBytes(bytes: Bytes, n: nat): Read<Bytes> {
    if |bytes| < n then Err(UnexpectedEof) else Ok((bytes[..n], bytes[n..]))
  }

  function ReadU32(bytes: Bytes): Read<nat> {
    var (b, rest) :- ReadBytes(bytes, 4);
    Ok((LittleEndian(b), rest))
  }

  lemma U32IsBijective(bytes: Bytes, n: nat, rest: Bytes)
    ensures ReadU32(bytes) == Ok((n, rest)) <==> n < U32_SIZE && bytes == ToLittleEndian(n, 4) + rest
  {
    assert Pow256(4) == U32_SIZE by {
      assert Pow256(2) == 0x1_0000;
    }
    var le := ToLittleEndian(n, 4);
    assert (le + rest)[..4] == le && (le + rest)[4..] == rest;
    if n < U32_SIZE {
      LittleEndianInverts(n, 4);
    }
    if |bytes| >= 4 {
      ToLittleEndianInverts(bytes[..4]);
      assert bytes == bytes[..4] + bytes[4..];
    }
  }

  lemma BytesAreBijective(bytes: Bytes, n: nat, b: Bytes, rest: Bytes)
    ensures ReadBytes(bytes, n) == Ok((b, rest)) <==> |b| == n && bytes == b + rest
  {
    if |bytes| >= n {
      assert bytes == bytes[..n] + bytes[n..];
    }
    if |b| == n {
      assert (b + rest)[..n] == b && (b + rest)[n..] == rest;
    }
  }

  // ---------------------------------------------------------------- the reader as the program runs it

  /** A byte stream that is consumed from the front. */
  class ByteReader {
    var rest: Bytes

    constructor (bytes: Bytes)
      ensures rest == bytes
    {
      rest := bytes;
    }

    method ReadExact(n: nat) returns (r: Result<Bytes, ReadError>)
      modifies this
      ensures match ReadBytes(old(rest), n)
              case Ok((b, tail)) => r == Ok(b) && rest == tail
              case Err(e) => r == Err(e)
    {
      if |rest| < n {
        rest := [];
        return Err(UnexpectedEof);
      }
      r := Ok(rest[..n]);
      rest := rest[n..];
    }

    /** All arithmetic is on 64-bit words. */
    method ReadVarInt() returns (r: Result<u64, ReadError>)
      modifies this
      ensures match ReadVarIntFrom(0, old(rest))
              case Ok((n, tail)) => r.Ok? && r.value as nat == n && rest == tail
              case Err(e) => r == Err(e)
    {
      var n: u64 := 0;
      while true
        invariant ReadVarIntFrom(n as nat, rest) == ReadVarIntFrom(0, old(rest))
        decreases |rest|
      {
        if |rest| == 0 {
          return Err(UnexpectedEof);
        }
        var chData := rest[0];
        rest := rest[1..];
        if n > 0xFFFF_FFFF_FFFF_FFFF / 128 {
          return Err(InvalidData);
        }
        n := n * 128 + (chData % 128) as u64;
        if chData >= 128 {
          if n == 0xFFFF_FFFF_FFFF_FFFF {
            return Err(InvalidData);
          }
          n := n + 1;
        } else {
          return Ok(n);
        }
      }
    }
  }
}

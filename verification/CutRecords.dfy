/** Records that end too early: every strict prefix of what Core writes is refused as cut short. */
module CutRecords {
  import opened Common
  import opened VarInts
  import opened BlockIndexes

  // ---------------------------------------------------------------- varints

  /** Digits without the last one are not a number yet. */
  lemma {:induction false} DigitsAreNotEnough(n: nat, k: nat)
    requires n <= U64_MAX && k <= |Digits(n)|
    ensures ReadVarInt(Digits(n)[..k]) == Err(UnexpectedEof)
    decreases n
  {
    if k == |Digits(n)| {
      ReadDigits(n, []);
      assert Digits(n)[..k] == Digits(n) + [];
    } else {
      var high, d := (n - 1) / 128, (n - 1) % 128;
      OneMoreDigit(high, d);
      assert Digits(n)[..k] == Digits(high)[..k];
      DigitsAreNotEnough(high, k);
    }
  }

  /** A varint out of a stream that ends after `k` bytes. */
  lemma VarIntOnPrefix(n: nat, rest: Bytes, k: nat)
    requires n <= U64_MAX && k <= |Encode(n)| + |rest|
    ensures ReadVarInt((Encode(n) + rest)[..k])
         == if k < |Encode(n)| then Err(UnexpectedEof) else Ok((n, rest[..k - |Encode(n)|]))
  {
    if k < |Encode(n)| {
      var high, d := n / 128, n % 128;
      OneMoreDigit(high, d);
      assert n == high * 128 + d;
      assert (Encode(n) + rest)[..k] == Digits(high)[..k];
      DigitsAreNotEnough(high, k);
    } else {
      assert (Encode(n) + rest)[..k] == Encode(n) + rest[..k - |Encode(n)|];
      ReadEncoded(n, rest[..k - |Encode(n)|]);
    }
  }

  // ---------------------------------------------------------------- the other fields

  lemma BytesOnPrefix(b: Bytes, rest: Bytes, k: nat)
    requires k <= |b| + |rest|
    ensures ReadBytes((b + rest)[..k], |b|)
         == if k < |b| then Err(UnexpectedEof) else Ok((b, rest[..k - |b|]))
  {
    if k >= |b| {
      assert (b + rest)[..k] == b + rest[..k - |b|];
      BytesAreBijective((b + rest)[..k], |b|, b, rest[..k - |b|]);
    }
  }

  lemma U32OnPrefix(n: nat, rest: Bytes, k: nat)
    requires n < U32_SIZE && k <= 4 + |rest|
    ensures ReadU32((ToLittleEndian(n, 4) + rest)[..k])
         == if k < 4 then Err(UnexpectedEof) else Ok((n, rest[..k - 4]))
  {
    var b := ToLittleEndian(n, 4);
    if k >= 4 {
      assert (b + rest)[..k] == b + rest[..k - 4];
      U32IsBijective((b + rest)[..k], n, rest[..k - 4]);
    }
  }

  lemma OptionalOnPrefix(present: bool, n: Option<nat>, rest: Bytes, k: nat)
    requires OptionalFits(n, present) && k <= |WriteOptional(n)| + |rest|
    ensures ReadOptional(present, (WriteOptional(n) + rest)[..k])
         == if k < |WriteOptional(n)| then Err(UnexpectedEof) else Ok((n, rest[..k - |WriteOptional(n)|]))
  {
    if n.Some? {
      VarIntOnPrefix(n.value, rest, k);
    } else {
      assert [] + rest == rest;
    }
  }

  // ---------------------------------------------------------------- the three parts

  /** Four reads in a row out of a stream that ends after `k` bytes. */
  lemma FourReads(bytes: Bytes, n: (nat, nat, nat, nat), r1: Bytes, r2: Bytes, r3: Bytes, r4: Result<Bytes, ReadError>)
    requires ReadVarInt(bytes) == Ok((n.0, r1)) && ReadVarInt(r1) == Ok((n.1, r2)) && ReadVarInt(r2) == Ok((n.2, r3))
    requires ReadVarInt(r3) == if r4.Ok? then Ok((n.3, r4.value)) else Err(r4.error)
    ensures ReadHead(bytes) == if r4.Ok? then Ok((Head(n.0, n.1, n.2, n.3), r4.value)) else Err(r4.error)
  {
  }

  lemma FirstReads(bytes: Bytes, n: (nat, nat, nat), r1: Bytes, r2: Bytes)
    ensures ReadVarInt(bytes) == Err(UnexpectedEof) ==> ReadHead(bytes) == Err(UnexpectedEof)
    ensures ReadVarInt(bytes) == Ok((n.0, r1)) && ReadVarInt(r1) == Err(UnexpectedEof) ==>
              ReadHead(bytes) == Err(UnexpectedEof)
    ensures ReadVarInt(bytes) == Ok((n.0, r1)) && ReadVarInt(r1) == Ok((n.1, r2))
            && ReadVarInt(r2) == Err(UnexpectedEof) ==>
              ReadHead(bytes) == Err(UnexpectedEof)
  {
  }

  lemma HeadOnPrefix(h: Head, rest: Bytes, k: nat)
    requires HeadFits(h) && k <= |WriteHead(h)| + |rest|
    ensures ReadHead((WriteHead(h) + rest)[..k])
         == if k < |WriteHead(h)| then Err(UnexpectedEof) else Ok((h, rest[..k - |WriteHead(h)|]))
  {
    var c := Encode(h.txCount) + rest;
    var b := Encode(h.status) + c;
    var a := Encode(h.height) + b;
    assert WriteHead(h) + rest == Encode(h.version) + a;
    var bytes := (Encode(h.version) + a)[..k];
    var k1 := k - |Encode(h.version)|;
    VarIntOnPrefix(h.version, a, k);
    if k1 < 0 {
      FirstReads(bytes, (0, 0, 0), [], []);
      return;
    }
    var k2 := k1 - |Encode(h.height)|;
    VarIntOnPrefix(h.height, b, k1);
    if k2 < 0 {
      FirstReads(bytes, (h.version, 0, 0), a[..k1], []);
      return;
    }
    var k3 := k2 - |Encode(h.status)|;
    VarIntOnPrefix(h.status, c, k2);
    if k3 < 0 {
      FirstReads(bytes, (h.version, h.height, 0), a[..k1], b[..k2]);
      return;
    }
    VarIntOnPrefix(h.txCount, rest, k3);
    FourReads(bytes, (h.version, h.height, h.status, h.txCount), a[..k1], b[..k2], c[..k3],
              if k3 < |Encode(h.txCount)| then Err(UnexpectedEof) else Ok(rest[..k3 - |Encode(h.txCount)|]));
  }

  lemma ThreeReads(hasData: bool, hasUndo: bool, bytes: Bytes, p: Positions, r1: Bytes, r2: Bytes,
                   r3: Result<Bytes, ReadError>)
    requires ReadOptional(hasData || hasUndo, bytes) == Ok((p.file, r1))
    requires ReadOptional(hasData, r1) == Ok((p.data, r2))
    requires ReadOptional(hasUndo, r2) == if r3.Ok? then Ok((p.undo, r3.value)) else Err(r3.error)
    ensures ReadPositions(hasData, hasUndo, bytes) == if r3.Ok? then Ok((p, r3.value)) else Err(r3.error)
  {
  }

  lemma FirstOptionalReads(hasData: bool, hasUndo: bool, bytes: Bytes, file: Option<nat>, r1: Bytes)
    requires || ReadOptional(hasData || hasUndo, bytes) == Err(UnexpectedEof)
             || (ReadOptional(hasData || hasUndo, bytes) == Ok((file, r1))
                 && ReadOptional(hasData, r1) == Err(UnexpectedEof))
    ensures ReadPositions(hasData, hasUndo, bytes) == Err(UnexpectedEof)
  {
  }

  lemma PositionsInTurn(p: Positions, a: Bytes, b: Bytes, rest: Bytes)
    requires b == WriteOptional(p.undo) + rest && a == WriteOptional(p.data) + b
    ensures WritePositions(p) + rest == WriteOptional(p.file) + a
    ensures |WritePositions(p)| == |WriteOptional(p.file)| + |WriteOptional(p.data)| + |WriteOptional(p.undo)|
  {
    var file, data, undo := WriteOptional(p.file), WriteOptional(p.data), WriteOptional(p.undo);
    Split(file, data + undo, rest);
    Split(data, undo, rest);
  }

  lemma PositionsOnPrefix(hasData: bool, hasUndo: bool, p: Positions, rest: Bytes, k: nat)
    requires PositionsFit(hasData, hasUndo, p) && k <= |WritePositions(p)| + |rest|
    ensures ReadPositions(hasData, hasUndo, (WritePositions(p) + rest)[..k])
         == if k < |WritePositions(p)| then Err(UnexpectedEof) else Ok((p, rest[..k - |WritePositions(p)|]))
  {
    var b := WriteOptional(p.undo) + rest;
    var a := WriteOptional(p.data) + b;
    PositionsInTurn(p, a, b, rest);
    var bytes := (WriteOptional(p.file) + a)[..k];
    var k1 := k - |WriteOptional(p.file)|;
    OptionalOnPrefix(hasData || hasUndo, p.file, a, k);
    if k1 < 0 {
      FirstOptionalReads(hasData, hasUndo, bytes, None, []);
      return;
    }
    var k2 := k1 - |WriteOptional(p.data)|;
    OptionalOnPrefix(hasData, p.data, b, k1);
    if k2 < 0 {
      FirstOptionalReads(hasData, hasUndo, bytes, p.file, a[..k1]);
      return;
    }
    OptionalOnPrefix(hasUndo, p.undo, rest, k2);
    ThreeReads(hasData, hasUndo, bytes, p, a[..k1], b[..k2],
               if k2 < |WriteOptional(p.undo)| then Err(UnexpectedEof) else Ok(rest[..k2 - |WriteOptional(p.undo)|]));
  }

  lemma TailIsCut(t: Tail, k: nat)
    requires TailFits(t) && k < |WriteTail(t)|
    ensures ReadTail(WriteTail(t)[..k]) == Err(UnexpectedEof)
  {
    var e := ToLittleEndian(t.nonce, 4);
    var d := ToLittleEndian(t.bits, 4) + e;
    var c := ToLittleEndian(t.timestamp, 4) + d;
    var b := t.root + c;
    var a := t.prev + b;
    U32OnPrefix(t.blockVersion, a, k);
    if k >= 4 {
      BytesOnPrefix(t.prev, b, k - 4);
      if k >= 36 {
        BytesOnPrefix(t.root, c, k - 36);
        if k >= 68 {
          U32OnPrefix(t.timestamp, d, k - 68);
          if k >= 72 {
            U32OnPrefix(t.bits, e, k - 72);
            if k >= 76 {
              assert e + [] == e;
              U32OnPrefix(t.nonce, [], k - 76);
            }
          }
        }
      }
    }
  }

  // ---------------------------------------------------------------- the whole record

  /** A record fails with the first of its parts that fails. */
  lemma PartsFail(bytes: Bytes, x: Index, r1: Bytes, r2: Bytes)
    requires WellTyped(x)
    requires || ReadHead(bytes) == Err(UnexpectedEof)
             || (ReadHead(bytes) == Ok((HeadOf(x), r1))
                 && (|| ReadPositions(HasData(x.status), HasUndo(x.status), r1) == Err(UnexpectedEof)
                     || (ReadPositions(HasData(x.status), HasUndo(x.status), r1) == Ok((PositionsOf(x), r2))
                         && ReadTail(r2) == Err(UnexpectedEof))))
    ensures Deserialize(bytes) == Err(UnexpectedEof)
  {
  }

  /** A record is read from a stream exactly when the stream holds all of it; a shorter one is cut short. */
  lemma CutRecordIsRefused(x: Index, k: nat)
    requires WellTyped(x) && k <= |Serialize(x)|
    ensures Deserialize(Serialize(x)[..k]) == if k < |Serialize(x)| then Err(UnexpectedEof) else Ok((x, []))
  {
    if k == |Serialize(x)| {
      IndexRoundTrip(x, []);
      assert Serialize(x)[..k] == Serialize(x) + [];
      return;
    }
    var tail := WriteTail(TailOf(x));
    var a := WritePositions(PositionsOf(x)) + tail;
    var k1 := k - |WriteHead(HeadOf(x))|;
    HeadOnPrefix(HeadOf(x), a, k);
    if k1 < 0 {
      PartsFail(Serialize(x)[..k], x, [], []);
      return;
    }
    var k2 := k1 - |WritePositions(PositionsOf(x))|;
    PositionsOnPrefix(HasData(x.status), HasUndo(x.status), PositionsOf(x), tail, k1);
    if k2 < 0 {
      PartsFail(Serialize(x)[..k], x, a[..k1], []);
      return;
    }
    TailIsCut(TailOf(x), k2);
    PartsFail(Serialize(x)[..k], x, a[..k1], tail[..k2]);
  }
}

/** Core's block index record: varints, fields present or not by status, then the header. */
module BlockIndexes {
  import opened Common
  import opened VarInts

  /** Position of the block's bytes in its file, and fields of the header. */
  datatype Index = Index(
    version: nat,
    height: nat,
    status: nat,
    txCount: nat,
    fileNumber: Option<nat>,
    dataPos: Option<nat>,
    undoPos: Option<nat>,
    blockVersion: nat,
    prevBlockHash: Bytes,
    merkleRoot: Bytes,
    timestamp: nat,
    bits: nat,
    nonce: nat)

  /** Status bit 8. */
  predicate HasData(status: nat) {
    status / 8 % 2 == 1
  }

  /** Status bit 16. */
  predicate HasUndo(status: nat) {
    status / 16 % 2 == 1
  }

  /** Where `set_offset` has to go: magic and size precede the block's bytes. */
  function AdjustedDataPos(dataPos: Option<nat>): Option<nat> {
    if dataPos.Some? && dataPos.value >= 8 then Some(dataPos.value - 8) else None
  }

  // ---------------------------------------------------------------- reading

  function ReadOptional(present: bool, bytes: Bytes): Read<Option<nat>> {
    if present then
      var (n, rest) :- ReadVarInt(bytes);
      Ok((Some(n), rest))
    else Ok((None, bytes))
  }

  /** The fields after the varints. */
  datatype Tail = Tail(blockVersion: nat, prev: Bytes, root: Bytes, timestamp: nat, bits: nat, nonce: nat)

  function ReadTail(bytes: Bytes): Read<Tail> {
    var (blockVersion, r1) :- ReadU32(bytes);
    var (prev, r2) :- ReadBytes(r1, 32);
    var (root, r3) :- ReadBytes(r2, 32);
    var (timestamp, r4) :- ReadU32(r3);
    var (bits, r5) :- ReadU32(r4);
    var (nonce, r6) :- ReadU32(r5);
    Ok((Tail(blockVersion, prev, root, timestamp, bits, nonce), r6))
  }

  /** The four varints of every record, before any is narrowed to 32 bits. */
  datatype Head = Head(version: nat, height: nat, status: nat, txCount: nat)

  function ReadHead(bytes: Bytes): Read<Head> {
    var (version, r1) :- ReadVarInt(bytes);
    var (height, r2) :- ReadVarInt(r1);
    var (status, r3) :- ReadVarInt(r2);
    var (txCount, r4) :- ReadVarInt(r3);
    Ok((Head(version, height, status, txCount), r4))
  }

  /** Where the block and its undo data are, as the status says. */
  datatype Positions = Positions(file: Option<nat>, data: Option<nat>, undo: Option<nat>)

  function ReadPositions(hasData: bool, hasUndo: bool, bytes: Bytes): Read<Positions> {
    var (file, r1) :- ReadOptional(hasData || hasUndo, bytes);
    var (data, r2) :- ReadOptional(hasData, r1);
    var (undo, r3) :- ReadOptional(hasUndo, r2);
    Ok((Positions(file, data, undo), r3))
  }

  /** Keeping the low 32 bits. */
  function Low32(n: nat): (r: nat)
    ensures r < U32_SIZE && (n < U32_SIZE ==> r == n)
  {
    n % U32_SIZE
  }

  function NarrowFile(file: Option<nat>): Option<nat> {
    if file.Some? then Some(Low32(file.value)) else None
  }

  /** Status and file number are kept as 32-bit numbers. */
  function Narrow(h: Head, p: Positions, t: Tail): Index {
    Index(h.version, h.height, Low32(h.status), h.txCount, NarrowFile(p.file), p.data, p.undo,
          t.blockVersion, t.prev, t.root, t.timestamp, t.bits, t.nonce)
  }

  function Deserialize(bytes: Bytes): Read<Index> {
    var (head, r1) :- ReadHead(bytes);
    var status := Low32(head.status);
    var (positions, r2) :- ReadPositions(HasData(status), HasUndo(status), r1);
    var (tail, r3) :- ReadTail(r2);
    Ok((Narrow(head, positions, tail), r3))
  }

  // ---------------------------------------------------------------- writing

  function WriteOptional(n: Option<nat>): Bytes {
    if n.Some? then Encode(n.value) else []
  }

  function WriteHead(h: Head): Bytes {
    Encode(h.version) + (Encode(h.height) + (Encode(h.status) + Encode(h.txCount)))
  }

  function WritePositions(p: Positions): Bytes {
    WriteOptional(p.file) + (WriteOptional(p.data) + WriteOptional(p.undo))
  }

  function WriteTail(t: Tail): Bytes {
    ToLittleEndian(t.blockVersion, 4) + (t.prev + (t.root + (ToLittleEndian(t.timestamp, 4)
    + (ToLittleEndian(t.bits, 4) + ToLittleEndian(t.nonce, 4)))))
  }

  function HeadOf(x: Index): Head {
    Head(x.version, x.height, x.status, x.txCount)
  }

  function PositionsOf(x: Index): Positions {
    Positions(x.fileNumber, x.dataPos, x.undoPos)
  }

  function TailOf(x: Index): Tail {
    Tail(x.blockVersion, x.prevBlockHash, x.merkleRoot, x.timestamp, x.bits, x.nonce)
  }

  /** Core's serialization of a record. */
  function Serialize(x: Index): Bytes {
    WriteHead(HeadOf(x)) + (WritePositions(PositionsOf(x)) + WriteTail(TailOf(x)))
  }

  predicate OptionalFits(n: Option<nat>, present: bool) {
    n.Some? == present && (n.Some? ==> n.value <= U64_MAX)
  }

  predicate HeadFits(h: Head) {
    h.version <= U64_MAX && h.height <= U64_MAX && h.status <= U64_MAX && h.txCount <= U64_MAX
  }

  /** The optional fields are there exactly when the status says so. */
  predicate PositionsFit(hasData: bool, hasUndo: bool, p: Positions) {
    OptionalFits(p.file, hasData || hasUndo) && OptionalFits(p.data, hasData) && OptionalFits(p.undo, hasUndo)
  }

  predicate TailFits(t: Tail) {
    && t.blockVersion < U32_SIZE && t.timestamp < U32_SIZE && t.bits < U32_SIZE && t.nonce < U32_SIZE
    && |t.prev| == 32 && |t.root| == 32
  }

  /** The record's fields fit their types. */
  predicate WellTyped(x: Index) {
    && x.status < U32_SIZE && (x.fileNumber.Some? ==> x.fileNumber.value < U32_SIZE)
    && HeadFits(HeadOf(x)) && TailFits(TailOf(x))
    && PositionsFit(HasData(x.status), HasUndo(x.status), PositionsOf(x))
  }

  // ---------------------------------------------------------------- each part is a bijection

  lemma OptionalIsBijective(present: bool, bytes: Bytes, n: Option<nat>, rest: Bytes)
    ensures ReadOptional(present, bytes) == Ok((n, rest))
       <==> OptionalFits(n, present) && bytes == WriteOptional(n) + rest
  {
    assert [] + rest == rest;
    if n.Some? {
      VarIntIsBijective(bytes, n.value, rest);
    }
    if present && ReadVarInt(bytes).Ok? {
      VarIntIsBijective(bytes, ReadVarInt(bytes).value.0, ReadVarInt(bytes).value.1);
    }
  }

  lemma Split(a: Bytes, b: Bytes, c: Bytes)
    ensures (a + b) + c == a + (b + c)
  {
  }

  lemma ReadWrittenTail(t: Tail, rest: Bytes)
    requires TailFits(t)
    ensures ReadTail(WriteTail(t) + rest) == Ok((t, rest))
  {
    var e := ToLittleEndian(t.nonce, 4) + rest;
    var d := ToLittleEndian(t.bits, 4) + e;
    var c := ToLittleEndian(t.timestamp, 4) + d;
    var b := t.root + c;
    var a := t.prev + b;
    assert WriteTail(t) + rest == ToLittleEndian(t.blockVersion, 4) + a;
    U32IsBijective(WriteTail(t) + rest, t.blockVersion, a);
    BytesAreBijective(a, 32, t.prev, b);
    BytesAreBijective(b, 32, t.root, c);
    U32IsBijective(c, t.timestamp, d);
    U32IsBijective(d, t.bits, e);
    U32IsBijective(e, t.nonce, rest);
  }

  lemma ReadTailIsWritten(bytes: Bytes)
    requires ReadTail(bytes).Ok?
    ensures var (t, rest) := ReadTail(bytes).value; TailFits(t) && bytes == WriteTail(t) + rest
  {
    var (blockVersion, r1) := ReadU32(bytes).value;
    var (prev, r2) := ReadBytes(r1, 32).value;
    var (root, r3) := ReadBytes(r2, 32).value;
    var (timestamp, r4) := ReadU32(r3).value;
    var (bits, r5) := ReadU32(r4).value;
    var (nonce, r6) := ReadU32(r5).value;
    U32IsBijective(bytes, blockVersion, r1);
    BytesAreBijective(r1, 32, prev, r2);
    BytesAreBijective(r2, 32, root, r3);
    U32IsBijective(r3, timestamp, r4);
    U32IsBijective(r4, bits, r5);
    U32IsBijective(r5, nonce, r6);
    var t := Tail(blockVersion, prev, root, timestamp, bits, nonce);
    var e := ToLittleEndian(nonce, 4);
    var d := ToLittleEndian(bits, 4) + e;
    var c := ToLittleEndian(timestamp, 4) + d;
    Split(ToLittleEndian(bits, 4), e, r6);
    Split(ToLittleEndian(timestamp, 4), d, r6);
    Split(root, c, r6);
    Split(prev, root + c, r6);
    Split(ToLittleEndian(blockVersion, 4), prev + (root + c), r6);
  }

  lemma ReadWrittenHead(h: Head, rest: Bytes)
    requires HeadFits(h)
    ensures ReadHead(WriteHead(h) + rest) == Ok((h, rest))
  {
    var c := Encode(h.txCount) + rest;
    var b := Encode(h.status) + c;
    var a := Encode(h.height) + b;
    assert WriteHead(h) + rest == Encode(h.version) + a;
    VarIntIsBijective(WriteHead(h) + rest, h.version, a);
    VarIntIsBijective(a, h.height, b);
    VarIntIsBijective(b, h.status, c);
    VarIntIsBijective(c, h.txCount, rest);
  }

  lemma ReadHeadIsWritten(bytes: Bytes)
    requires ReadHead(bytes).Ok?
    ensures var (h, rest) := ReadHead(bytes).value; HeadFits(h) && bytes == WriteHead(h) + rest
  {
    var (version, r1) := ReadVarInt(bytes).value;
    var (height, r2) := ReadVarInt(r1).value;
    var (status, r3) := ReadVarInt(r2).value;
    var (txCount, r4) := ReadVarInt(r3).value;
    VarIntIsBijective(bytes, version, r1);
    VarIntIsBijective(r1, height, r2);
    VarIntIsBijective(r2, status, r3);
    VarIntIsBijective(r3, txCount, r4);
    Split(Encode(status), Encode(txCount), r4);
    Split(Encode(height), Encode(status) + Encode(txCount), r4);
    Split(Encode(version), Encode(height) + (Encode(status) + Encode(txCount)), r4);
  }

  lemma ReadWrittenPositions(hasData: bool, hasUndo: bool, p: Positions, rest: Bytes)
    requires PositionsFit(hasData, hasUndo, p)
    ensures ReadPositions(hasData, hasUndo, WritePositions(p) + rest) == Ok((p, rest))
  {
    var b := WriteOptional(p.undo) + rest;
    var a := WriteOptional(p.data) + b;
    assert WritePositions(p) + rest == WriteOptional(p.file) + a;
    OptionalIsBijective(hasData || hasUndo, WritePositions(p) + rest, p.file, a);
    OptionalIsBijective(hasData, a, p.data, b);
    OptionalIsBijective(hasUndo, b, p.undo, rest);
  }

  lemma ReadPositionsIsWritten(hasData: bool, hasUndo: bool, bytes: Bytes)
    requires ReadPositions(hasData, hasUndo, bytes).Ok?
    ensures var (p, rest) := ReadPositions(hasData, hasUndo, bytes).value;
            PositionsFit(hasData, hasUndo, p) && bytes == WritePositions(p) + rest
  {
    var (file, r1) := ReadOptional(hasData || hasUndo, bytes).value;
    var (data, r2) := ReadOptional(hasData, r1).value;
    var (undo, r3) := ReadOptional(hasUndo, r2).value;
    OptionalIsBijective(hasData || hasUndo, bytes, file, r1);
    OptionalIsBijective(hasData, r1, data, r2);
    OptionalIsBijective(hasUndo, r2, undo, r3);
    Split(WriteOptional(data), WriteOptional(undo), r3);
    Split(WriteOptional(file), WriteOptional(data) + WriteOptional(undo), r3);
  }

  // ---------------------------------------------------------------- the whole record

  /** Reading inverts Core's writing for every record whose fields fit their types. */
  lemma IndexRoundTrip(x: Index, rest: Bytes)
    requires WellTyped(x)
    ensures Deserialize(Serialize(x) + rest) == Ok((x, rest))
  {
    var h, p, t := HeadOf(x), PositionsOf(x), TailOf(x);
    var b := WriteTail(t) + rest;
    var a := WritePositions(p) + b;
    Split(WritePositions(p), WriteTail(t), rest);
    Split(WriteHead(h), WritePositions(p) + WriteTail(t), rest);
    ReadWrittenHead(h, a);
    ReadWrittenPositions(HasData(x.status), HasUndo(x.status), p, b);
    ReadWrittenTail(t, rest);
  }

  /** What is read has fields that fit their types, whatever the bytes. */
  lemma DeserializedIsWellTyped(bytes: Bytes)
    requires Deserialize(bytes).Ok?
    ensures WellTyped(Deserialize(bytes).value.0)
  {
    var (h, r1) := ReadHead(bytes).value;
    ReadHeadIsWritten(bytes);
    var status := Low32(h.status);
    ReadPositionsIsWritten(HasData(status), HasUndo(status), r1);
    ReadTailIsWritten(ReadPositions(HasData(status), HasUndo(status), r1).value.1);
  }

  /** Whether the record as written keeps its status and file number within 32 bits. */
  predicate FitsNarrow(bytes: Bytes)
    requires Deserialize(bytes).Ok?
  {
    var (h, r1) := ReadHead(bytes).value;
    var (p, _) := ReadPositions(HasData(Low32(h.status)), HasUndo(Low32(h.status)), r1).value;
    h.status < U32_SIZE && (p.file.Some? ==> p.file.value < U32_SIZE)
  }

  lemma NarrowBytesAreWritten(bytes: Bytes)
    requires Deserialize(bytes).Ok? && FitsNarrow(bytes)
    ensures var (x, rest) := Deserialize(bytes).value; bytes == Serialize(x) + rest
  {
    var (h, r1) := ReadHead(bytes).value;
    var (p, r2) := ReadPositions(HasData(h.status), HasUndo(h.status), r1).value;
    var (t, r3) := ReadTail(r2).value;
    ReadHeadIsWritten(bytes);
    ReadPositionsIsWritten(HasData(h.status), HasUndo(h.status), r1);
    ReadTailIsWritten(r2);
    Split(WritePositions(p), WriteTail(t), r3);
    Split(WriteHead(h), WritePositions(p) + WriteTail(t), r3);
  }

  lemma WrittenBytesAreNarrow(x: Index, rest: Bytes)
    requires WellTyped(x)
    ensures Deserialize(Serialize(x) + rest) == Ok((x, rest))
    ensures FitsNarrow(Serialize(x) + rest)
  {
    IndexRoundTrip(x, rest);
    var h, p, t := HeadOf(x), PositionsOf(x), TailOf(x);
    var a := WritePositions(p) + (WriteTail(t) + rest);
    Split(WritePositions(p), WriteTail(t), rest);
    Split(WriteHead(h), WritePositions(p) + WriteTail(t), rest);
    ReadWrittenHead(h, a);
    ReadWrittenPositions(HasData(x.status), HasUndo(x.status), p, WriteTail(t) + rest);
  }

  /** An accepted input is what Core writes for the result exactly when narrowing cut nothing off. */
  lemma DeserializedIsWrittenExactlyWhen(bytes: Bytes)
    requires Deserialize(bytes).Ok?
    ensures var (x, rest) := Deserialize(bytes).value; bytes == Serialize(x) + rest <==> FitsNarrow(bytes)
  {
    var (x, rest) := Deserialize(bytes).value;
    DeserializedIsWellTyped(bytes);
    WrittenBytesAreNarrow(x, rest);
    if FitsNarrow(bytes) {
      NarrowBytesAreWritten(bytes);
    }
  }

  // ---------------------------------------------------------------- the status flags

  /** Bit 8 of the status stands for the block's data, bit 16 for its undo data; no other bit matters. */
  lemma FlagsAreBits(low: nat, d: nat, u: nat, high: nat)
    requires low < 8 && d < 2 && u < 2
    ensures HasData(low + 8 * d + 16 * u + 32 * high) <==> d == 1
    ensures HasUndo(low + 8 * d + 16 * u + 32 * high) <==> u == 1
  {
    var status := low + 8 * d + 16 * u + 32 * high;
    assert status / 8 == d + 2 * u + 4 * high;
    assert status / 16 == u + 2 * high;
  }

  function When(present: nat, bytes: Bytes): Bytes {
    if present == 1 then bytes else []
  }

  /**
   * A record as Core writes it under a status: the file number if there is data or undo data, then the
   * data position, then the undo position, each only if its bit is set; all of it reads back.
   */
  lemma RecordReadsBack(low: nat, d: nat, u: nat, high: nat, head: Head, file: nat, data: nat, undo: nat, tail: Tail,
                        bytes: Bytes, rest: Bytes)
    requires low < 8 && d < 2 && u < 2 && head.status == low + 8 * d + 16 * u + 32 * high < 0x1_0000_0000
    requires HeadFits(head) && TailFits(tail) && file < 0x1_0000_0000 && data <= U64_MAX && undo <= U64_MAX
    requires bytes == Encode(head.version) + (Encode(head.height) + (Encode(head.status) + Encode(head.txCount)))
                      + (When(if d == 1 then 1 else u, Encode(file))
                         + (When(d, Encode(data)) + When(u, Encode(undo))) + WriteTail(tail))
    ensures Deserialize(bytes + rest)
         == Ok((Index(head.version, head.height, head.status, head.txCount,
                      if d == 1 || u == 1 then Some(file) else None,
                      if d == 1 then Some(data) else None,
                      if u == 1 then Some(undo) else None,
                      tail.blockVersion, tail.prev, tail.root, tail.timestamp, tail.bits, tail.nonce), rest))
  {
    FlagsAreBits(low, d, u, high);
    var x := Index(head.version, head.height, head.status, head.txCount,
                   if d == 1 || u == 1 then Some(file) else None,
                   if d == 1 then Some(data) else None,
                   if u == 1 then Some(undo) else None,
                   tail.blockVersion, tail.prev, tail.root, tail.timestamp, tail.bits, tail.nonce);
    assert HeadOf(x) == head && TailOf(x) == tail;
    assert bytes == Serialize(x);
    IndexRoundTrip(x, rest);
  }

  /** The position to go to is eight bytes before the block, where its frame starts. */
  lemma FrameStartsEightBefore(frame: nat)
    ensures AdjustedDataPos(Some(frame + 8)) == Some(frame)
    ensures frame < 8 ==> AdjustedDataPos(Some(frame)) == None
    ensures AdjustedDataPos(None) == None
  {
  }

  /** Narrowing keeps the low 32 bits. */
  lemma NarrowingCutsOff(n: nat, k: nat)
    requires n < 0x1_0000_0000
    ensures Low32(n + 0x1_0000_0000 * k) == n
  {
  }

  // ---------------------------------------------------------------- the reader as the program runs it

  method ReadOptionalField(reader: ByteReader, present: bool) returns (r: Result<Option<nat>, ReadError>)
    modifies reader
    ensures match ReadOptional(present, old(reader.rest))
            case Ok((n, tail)) => r == Ok(n) && reader.rest == tail
            case Err(e) => r == Err(e)
  {
    if !present {
      return Ok(None);
    }
    var n :- reader.ReadVarInt();
    r := Ok(Some(n as nat));
  }

  method ReadUint32(reader: ByteReader) returns (r: Result<nat, ReadError>)
    modifies reader
    ensures match ReadU32(old(reader.rest))
            case Ok((n, tail)) => r == Ok(n) && reader.rest == tail
            case Err(e) => r == Err(e)
  {
    var b :- reader.ReadExact(4);
    r := Ok(LittleEndian(b));
  }

  method DeserializeTail(reader: ByteReader) returns (r: Result<Tail, ReadError>)
    modifies reader
    ensures match ReadTail(old(reader.rest))
            case Ok((t, tail)) => r == Ok(t) && reader.rest == tail
            case Err(e) => r == Err(e)
  {
    var blockVersion :- ReadUint32(reader);
    var prev :- reader.ReadExact(32);
    var root :- reader.ReadExact(32);
    var timestamp :- ReadUint32(reader);
    var bits :- ReadUint32(reader);
    var nonce :- ReadUint32(reader);
    r := Ok(Tail(blockVersion, prev, root, timestamp, bits, nonce));
  }

  /** Field by field off the stream; the first failing read is the result. */
  method DeserializeIndex(reader: ByteReader) returns (r: Result<Index, ReadError>)
    modifies reader
    ensures match Deserialize(old(reader.rest))
            case Ok((x, tail)) => r == Ok(x) && reader.rest == tail
            case Err(e) => r == Err(e)
  {
    var version :- reader.ReadVarInt();
    var height :- reader.ReadVarInt();
    var statusRaw :- reader.ReadVarInt();
    var status := Low32(statusRaw as nat);
    var txCount :- reader.ReadVarInt();

    var hasData, hasUndo := HasData(status), HasUndo(status);
    var file :- ReadOptionalField(reader, hasData || hasUndo);
    var data :- ReadOptionalField(reader, hasData);
    var undo :- ReadOptionalField(reader, hasUndo);

    var t :- DeserializeTail(reader);
    r := Ok(Index(version as nat, height as nat, status, txCount as nat, NarrowFile(file), data, undo,
                  t.blockVersion, t.prev, t.root, t.timestamp, t.bits, t.nonce));
  }
}

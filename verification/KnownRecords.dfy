/** Two records out of Core's block index, byte by byte: what the reader makes of them. */
module KnownRecords {
  import opened Common
  import opened VarInts
  import opened BlockIndexes

  /** Four bytes, the least significant first. */
  lemma FourBytes(b0: byte, b1: byte, b2: byte, b3: byte, n: nat)
    requires n == b0 as nat + 0x100 * (b1 as nat + 0x100 * (b2 as nat + 0x100 * b3 as nat))
    ensures n < U32_SIZE && ToLittleEndian(n, 4) == [b0, b1, b2, b3]
  {
    var n1 := b1 as nat + 0x100 * (b2 as nat + 0x100 * b3 as nat);
    var n2 := b2 as nat + 0x100 * b3 as nat;
    assert ToLittleEndian(b3 as nat, 1) == [b3] by {
      assert ToLittleEndian(b3 as nat / 256, 0) == [];
    }
    assert ToLittleEndian(n2, 2) == [b2] + [b3];
    assert ToLittleEndian(n1, 3) == [b1] + [b2, b3];
  }

  /** Three varint bytes. */
  lemma ThreeDigits(d0: byte, d1: byte, d2: byte, n: nat)
    requires d0 < 128 && d1 < 128 && d2 < 128
    requires n == 128 * (128 * (d0 as nat + 1) + d1 as nat + 1) + d2 as nat
    ensures Encode(n) == [128 + d0, 128 + d1, d2]
    ensures EncodeHigh(n) == [128 + d0, 128 + d1, 128 + d2]
  {
    var high := 128 * (d0 as nat + 1) + d1 as nat;
    EncodeDigit(d0);
    EncodeStep(high, d0 as nat, [128 + d0], d1);
    EncodeStep(n, high, [128 + d0, 128 + d1], d2);
  }

  /** Four varint bytes. */
  lemma FourDigits(d0: byte, d1: byte, d2: byte, d3: byte, n: nat)
    requires d0 < 128 && d1 < 128 && d2 < 128 && d3 < 128
    requires n == 128 * (128 * (128 * (d0 as nat + 1) + d1 as nat + 1) + d2 as nat + 1) + d3 as nat
    ensures Encode(n) == [128 + d0, 128 + d1, 128 + d2, d3]
  {
    var high := 128 * (128 * (d0 as nat + 1) + d1 as nat + 1) + d2 as nat;
    ThreeDigits(d0, d1, d2, high);
    EncodeStep(n, high, [128 + d0, 128 + d1, 128 + d2], d3);
  }

  /** The bytes of a record, field by field. */
  datatype Fields = Fields(version: Bytes, height: Bytes, status: Bytes, txCount: Bytes,
                           file: Bytes, data: Bytes, undo: Bytes, blockVersion: Bytes, prev: Bytes, root: Bytes,
                           timestamp: Bytes, bits: Bytes, nonce: Bytes)

  function Joined(f: Fields): Bytes {
    f.version + (f.height + (f.status + f.txCount))
    + (f.file + (f.data + f.undo)
       + (f.blockVersion + (f.prev + (f.root + (f.timestamp + (f.bits + f.nonce))))))
  }

  /** A record is read as Core wrote it, field by field. */
  lemma ReadFields(x: Index, f: Fields)
    requires WellTyped(x)
    requires f.version == Encode(x.version) && f.height == Encode(x.height)
    requires f.status == Encode(x.status) && f.txCount == Encode(x.txCount)
    requires f.file == WriteOptional(x.fileNumber) && f.data == WriteOptional(x.dataPos)
    requires f.undo == WriteOptional(x.undoPos)
    requires f.blockVersion == ToLittleEndian(x.blockVersion, 4) && f.prev == x.prevBlockHash && f.root == x.merkleRoot
    requires f.timestamp == ToLittleEndian(x.timestamp, 4) && f.bits == ToLittleEndian(x.bits, 4)
    requires f.nonce == ToLittleEndian(x.nonce, 4)
    ensures Deserialize(Joined(f)) == Ok((x, []))
  {
    IndexRoundTrip(x, []);
    assert Serialize(x) + [] == Joined(f);
  }

  /** Varints of the two records. */
  lemma KnownVarInts()
    ensures Encode(259900) == [0x8E, 0xED, 0x3C]
    ensures Encode(135401) == [0x87, 0xA0, 0x69] && Encode(293374) == [0x90, 0xF2, 0x7E]
    ensures Encode(98553394) == [0xAD, 0xFE, 0x9B, 0x32] && Encode(12017622) == [0x84, 0xDC, 0xBE, 0x56]
    ensures Encode(0) == [0x00] && Encode(2) == [0x02] && Encode(29) == [0x1D] && Encode(48) == [0x30]
  {
    ThreeDigits(0x0E, 0x6D, 0x3C, 259900);
    ThreeDigits(0x07, 0x20, 0x69, 135401);
    ThreeDigits(0x10, 0x72, 0x7E, 293374);
    FourDigits(0x2D, 0x7E, 0x1B, 0x32, 98553394);
    FourDigits(0x04, 0x5C, 0x3E, 0x56, 12017622);
    EncodeDigit(0);
    EncodeDigit(2);
    EncodeDigit(29);
    EncodeDigit(48);
  }

  /** The record of block 135401, fully downloaded: status 29 stands for data and undo data on disk. */
  lemma DownloadedBlock(prev: Bytes, root: Bytes, f: Fields)
    requires |prev| == |root| == 32
    requires f == Fields([0x8E, 0xED, 0x3C], [0x87, 0xA0, 0x69], [0x1D], [0x30],
                         [0x02], [0xAD, 0xFE, 0x9B, 0x32], [0x84, 0xDC, 0xBE, 0x56], [0x01, 0x00, 0x00, 0x00],
                         prev, root, [0xC0, 0xAE, 0x17, 0x4E], [0xCF, 0xBB, 0x0A, 0x1A], [0xE0, 0xDC, 0x85, 0xD6])
    ensures Deserialize(Joined(f))
         == Ok((Index(259900, 135401, 29, 48, Some(2), Some(98553394), Some(12017622), 1, prev, root,
                      1310174912, 0x1A0A_BBCF, 0xD685_DCE0), []))
    ensures AdjustedDataPos(Some(98553394)) == Some(98553386)
  {
    var x := Index(259900, 135401, 29, 48, Some(2), Some(98553394), Some(12017622), 1, prev, root,
                   1310174912, 0x1A0A_BBCF, 0xD685_DCE0);
    KnownVarInts();
    FourBytes(0x01, 0x00, 0x00, 0x00, 1);
    FourBytes(0xC0, 0xAE, 0x17, 0x4E, 1310174912);
    FourBytes(0xCF, 0xBB, 0x0A, 0x1A, 0x1A0A_BBCF);
    FourBytes(0xE0, 0xDC, 0x85, 0xD6, 0xD685_DCE0);
    FlagsAreBits(5, 1, 1, 0);
    ReadFields(x, f);
  }

  /** The record of block 293374, of which only the header is there. */
  lemma HeaderOnlyBlock(prev: Bytes, root: Bytes, f: Fields)
    requires |prev| == |root| == 32
    requires f == Fields([0x8E, 0xED, 0x3C], [0x90, 0xF2, 0x7E], [0x02], [0x00], [], [], [],
                         [0x02, 0x00, 0x00, 0x00], prev, root, [0x00, 0x3E, 0x39, 0x53], [0x99, 0xDB, 0x00, 0x19],
                         [0x14, 0x6A, 0xE2, 0x3F])
    ensures Deserialize(Joined(f))
         == Ok((Index(259900, 293374, 2, 0, None, None, None, 2, prev, root, 1396260352, 0x1900_DB99, 0x3FE2_6A14), []))
    ensures AdjustedDataPos(None) == None
  {
    var x := Index(259900, 293374, 2, 0, None, None, None, 2, prev, root, 1396260352, 0x1900_DB99, 0x3FE2_6A14);
    KnownVarInts();
    FourBytes(0x02, 0x00, 0x00, 0x00, 2);
    FourBytes(0x00, 0x3E, 0x39, 0x53, 1396260352);
    FourBytes(0x99, 0xDB, 0x00, 0x19, 0x1900_DB99);
    FourBytes(0x14, 0x6A, 0xE2, 0x3F, 0x3FE2_6A14);
    FlagsAreBits(2, 0, 0, 0);
    ReadFields(x, f);
  }
}

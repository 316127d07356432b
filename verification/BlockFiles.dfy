/** Framing of blocks in Bitcoin Core's block files: magic, size, header, transactions, zero padding. */
module BlockFiles {
  import opened Common
  import opened Obfuscations

  const MAX_BLOCK_SERIALIZED_SIZE: nat := 4_000_000
  const HEADER_SIZE: nat := 80

  datatype Network = Bitcoin | Testnet | Testnet4 | Signet | Regtest

  function Magic(network: Network): (m: Bytes)
    ensures |m| == 4 && m[0] != 0
  {
    match network
    case Bitcoin => [0xF9, 0xBE, 0xB4, 0xD9]
    case Testnet | Testnet4 => [0x0B, 0x11, 0x09, 0x07]
    case Signet => [0x0A, 0x03, 0xCF, 0x40]
    case Regtest => [0xFA, 0xBF, 0xB5, 0xDA]
  }

  /** The message start bytes of Bitcoin Core's own chain parameters, which it writes before each block. */
  function CoreMagic(network: Network): (m: Bytes)
    ensures |m| == 4 && m[0] != 0
  {
    match network
    case Bitcoin => [0xF9, 0xBE, 0xB4, 0xD9]
    case Testnet => [0x0B, 0x11, 0x09, 0x07]
    case Testnet4 => [0x1C, 0x16, 0x3F, 0x28]
    case Signet => [0x0A, 0x03, 0xCF, 0x40]
    case Regtest => [0xFA, 0xBF, 0xB5, 0xDA]
  }

  /** The parser knows what Core writes for every network but Testnet4. */
  lemma MagicsAgreeExactlyWhen(network: Network)
    ensures CoreMagic(network) == Magic(network) <==> network != Testnet4
  {
    assert CoreMagic(Testnet4)[0] == 0x1C && Magic(Testnet4)[0] == 0x0B;
  }

  lemma MagicsDiffer(a: Network, b: Network)
    ensures CoreMagic(a) == CoreMagic(b) ==> a == b
  {
    assert CoreMagic(a)[0] == CoreMagic(b)[0] ==> a == b;
  }

  /** A block as found: its header, its transactions undecoded, where its frame starts. */
  datatype ParsedBlock = ParsedBlock(header: Bytes, rawTxData: Bytes, offset: nat)

  datatype FileError =
    | Io
    | InvalidMagic(found: Bytes, expected: Bytes, offset: nat)
    | InvalidNetwork(foundNetwork: Network, expectedNetwork: Network)
    | BlockSizeTooLarge(size: nat)
    | BlockSizeTooSmall(size: nat)
    | HeaderDecode
    | UintDecode

  // ---------------------------------------------------------------- one block

  /** The result of a call and where it leaves the reader. */
  datatype Outcome = Outcome(result: Result<Option<ParsedBlock>, FileError>, offset: nat)

  function ReadAt(plain: Bytes, offset: nat, n: nat): (r: Option<Bytes>)
    ensures r.Some? ==> |r.value| == n
  {
    if n == 0 then Some([])
    else if offset + n <= |plain| then Some(plain[offset..offset + n])
    else None
  }

  /** A read that fails has consumed all there was. */
  function EndOfFile(plain: Bytes, offset: nat): nat {
    if offset < |plain| then |plain| else offset
  }

  /** Whether four bytes just read are zero once the key is put back on. */
  predicate IsPadding(magic: Bytes, key: Option<XorKey>, offset: nat)
    requires |magic| == 4 <= offset
  {
    forall i :: 0 <= i < 4 ==> Mask(magic[i], key, offset - 4 + i) == 0
  }

  function WrongMagic(found: Bytes, network: Network, offset: nat): FileError {
    if found == Magic(Bitcoin) then InvalidNetwork(Bitcoin, network)
    else if found == Magic(Regtest) then InvalidNetwork(Regtest, network)
    else if found == Magic(Testnet) then InvalidNetwork(Testnet, network)
    else if found == Magic(Signet) then InvalidNetwork(Signet, network)
    else InvalidMagic(found, Magic(network), offset)
  }

  /** What follows the magic of the frame that starts at `start`. */
  function ReadFrame(plain: Bytes, start: nat): Outcome {
    match ReadAt(plain, start + 4, 4)
    case None => Outcome(Err(UintDecode), EndOfFile(plain, start + 4))
    case Some(sizeBytes) =>
      var size := LittleEndian(sizeBytes);
      if size > MAX_BLOCK_SERIALIZED_SIZE then Outcome(Err(BlockSizeTooLarge(size)), start + 8)
      else
        match ReadAt(plain, start + 8, HEADER_SIZE)
        case None => Outcome(Err(HeaderDecode), EndOfFile(plain, start + 8))
        case Some(header) =>
          if size < HEADER_SIZE then Outcome(Err(BlockSizeTooSmall(size)), start + 88)
          else
            match ReadAt(plain, start + 88, size - HEADER_SIZE)
            case None => Outcome(Err(Io), EndOfFile(plain, start + 88))
            case Some(txData) => Outcome(Ok(Some(ParsedBlock(header, txData, start))), start + 8 + size)
  }

  function NextBlock(plain: Bytes, key: Option<XorKey>, network: Network, offset: nat): Outcome {
    match ReadAt(plain, offset, 4)
    case None => Outcome(Ok(None), EndOfFile(plain, offset))
    case Some(magic) =>
      if IsPadding(magic, key, offset + 4) then Outcome(Ok(None), offset + 4)
      else if magic != Magic(network) then Outcome(Err(WrongMagic(magic, network, offset)), offset + 4)
      else ReadFrame(plain, offset)
  }

  /** A block takes its frame off the file and lies within it. */
  lemma FoundBlockAdvances(plain: Bytes, key: Option<XorKey>, network: Network, offset: nat)
    requires var o := NextBlock(plain, key, network, offset); o.result.Ok? && o.result.value.Some?
    ensures var o := NextBlock(plain, key, network, offset);
            offset + 88 <= o.offset <= |plain| && o.result.value.value.offset == offset
  {
  }

  // ---------------------------------------------------------------- a file, a directory

  /** The blocks up to the end, or how many there were before the failing one and what failed. */
  function AllBlocks(plain: Bytes, key: Option<XorKey>, network: Network, offset: nat)
    : Result<seq<ParsedBlock>, (nat, FileError)>
  {
    AllBlocksFrom(plain, key, network, offset, [])
  }

  function AllBlocksFrom(plain: Bytes, key: Option<XorKey>, network: Network, offset: nat, blocks: seq<ParsedBlock>)
    : Result<seq<ParsedBlock>, (nat, FileError)>
    decreases |plain| - offset
  {
    var o := NextBlock(plain, key, network, offset);
    match o.result
    case Err(e) => Err((|blocks|, e))
    case Ok(None) => Ok(blocks)
    case Ok(Some(block)) =>
      FoundBlockAdvances(plain, key, network, offset);
      AllBlocksFrom(plain, key, network, o.offset, blocks + [block])
  }

  /** Block after block from `offset` on, up to `end`. */
  ghost predicate FoundInTurn(plain: Bytes, key: Option<XorKey>, network: Network, offset: nat,
                              found: seq<ParsedBlock>, end: nat)
    decreases |found|
  {
    if found == [] then end == offset
    else
      var o := NextBlock(plain, key, network, offset);
      o.result == Ok(Some(found[0])) && FoundInTurn(plain, key, network, o.offset, found[1..], end)
  }

  /** All blocks found when the end came well, or how many there were and what failed. */
  ghost predicate EndsWith(r: Result<seq<ParsedBlock>, (nat, FileError)>, found: seq<ParsedBlock>, last: Outcome) {
    match last.result
    case Err(e) => r == Err((|found|, e))
    case Ok(block) => block == None && r == Ok(found)
  }

  lemma AllBlocksEnd(plain: Bytes, key: Option<XorKey>, network: Network, offset: nat, blocks: seq<ParsedBlock>,
                     last: Outcome)
    requires last == NextBlock(plain, key, network, offset) && (last.result.Ok? ==> last.result.value == None)
    ensures EndsWith(AllBlocksFrom(plain, key, network, offset, blocks), blocks, last)
  {
  }

  /** The blocks in turn and where they end. */
  function InTurn(plain: Bytes, key: Option<XorKey>, network: Network, offset: nat): (seq<ParsedBlock>, nat)
    decreases |plain| - offset
  {
    var o := NextBlock(plain, key, network, offset);
    if o.result.Ok? && o.result.value.Some? then
      FoundBlockAdvances(plain, key, network, offset);
      var (rest, end) := InTurn(plain, key, network, o.offset);
      ([o.result.value.value] + rest, end)
    else ([], offset)
  }

  lemma InTurnStep(plain: Bytes, key: Option<XorKey>, network: Network, offset: nat, block: ParsedBlock, after: nat)
    requires NextBlock(plain, key, network, offset) == Outcome(Ok(Some(block)), after)
    ensures offset < after <= |plain|
    ensures InTurn(plain, key, network, offset).0 == [block] + InTurn(plain, key, network, after).0
    ensures InTurn(plain, key, network, offset).1 == InTurn(plain, key, network, after).1
  {
    FoundBlockAdvances(plain, key, network, offset);
  }

  lemma InTurnEnd(plain: Bytes, key: Option<XorKey>, network: Network, offset: nat)
    requires var last := NextBlock(plain, key, network, offset); last.result.Ok? ==> last.result.value == None
    ensures InTurn(plain, key, network, offset) == ([], offset)
  {
  }

  lemma {:induction false} InTurnIsFound(plain: Bytes, key: Option<XorKey>, network: Network, offset: nat)
    ensures var (found, end) := InTurn(plain, key, network, offset);
            FoundInTurn(plain, key, network, offset, found, end)
    decreases |plain| - offset
  {
    var o := NextBlock(plain, key, network, offset);
    if o.result.Ok? && o.result.value.Some? {
      var block, after := o.result.value.value, o.offset;
      InTurnStep(plain, key, network, offset, block, after);
      InTurnIsFound(plain, key, network, after);
      var (rest, end) := InTurn(plain, key, network, after);
      OneMoreInTurn(plain, key, network, offset, block, after, rest, end);
    } else {
      InTurnEnd(plain, key, network, offset);
    }
  }

  lemma {:induction false} AllBlocksFromEnds(plain: Bytes, key: Option<XorKey>, network: Network, offset: nat,
                                             blocks: seq<ParsedBlock>)
    ensures var (found, end) := InTurn(plain, key, network, offset);
            EndsWith(AllBlocksFrom(plain, key, network, offset, blocks), blocks + found,
                     NextBlock(plain, key, network, end))
    decreases |plain| - offset
  {
    var o := NextBlock(plain, key, network, offset);
    if o.result.Ok? && o.result.value.Some? {
      var block, after := o.result.value.value, o.offset;
      InTurnStep(plain, key, network, offset, block, after);
      AllBlocksStep(plain, key, network, offset, blocks, block, after);
      AllBlocksFromEnds(plain, key, network, after, blocks + [block]);
      Regrouped(blocks, block, InTurn(plain, key, network, after).0);
    } else {
      InTurnEnd(plain, key, network, offset);
      AllBlocksEnd(plain, key, network, offset, blocks, o);
      assert blocks + [] == blocks;
    }
  }

  lemma Regrouped(blocks: seq<ParsedBlock>, block: ParsedBlock, rest: seq<ParsedBlock>)
    ensures blocks + [block] + rest == blocks + ([block] + rest)
  {
  }

  lemma OneMoreInTurn(plain: Bytes, key: Option<XorKey>, network: Network, offset: nat, block: ParsedBlock, after: nat,
                     rest: seq<ParsedBlock>, end: nat)
    requires NextBlock(plain, key, network, offset) == Outcome(Ok(Some(block)), after)
    requires FoundInTurn(plain, key, network, after, rest, end)
    ensures FoundInTurn(plain, key, network, offset, [block] + rest, end)
  {
    assert ([block] + rest)[1..] == rest;
  }

  /** Whatever the file holds: all its blocks in turn, or where and why the next one fails. */
  lemma AllBlocksStopsWhere(plain: Bytes, key: Option<XorKey>, network: Network, offset: nat)
    returns (found: seq<ParsedBlock>, end: nat)
    ensures FoundInTurn(plain, key, network, offset, found, end)
    ensures AllBlocks(plain, key, network, offset)
         == match NextBlock(plain, key, network, end).result
            case Ok(_) => Ok(found)
            case Err(e) => Err((|found|, e))
    ensures NextBlock(plain, key, network, end).result.Ok? ==>
              NextBlock(plain, key, network, end).result == Ok(None)
  {
    var (blocks, last) := InTurn(plain, key, network, offset);
    found, end := blocks, last;
    InTurnIsFound(plain, key, network, offset);
    AllBlocksFromEnds(plain, key, network, offset, []);
    assert [] + found == found;
  }

  // ---------------------------------------------------------------- writing

  datatype Frame = Frame(header: Bytes, txData: Bytes)

  predicate ValidFrame(f: Frame) {
    |f.header| == 80 && 80 + |f.txData| <= 4_000_000
  }

  predicate ValidFrames(frames: seq<Frame>) {
    forall f :: f in frames ==> ValidFrame(f)
  }

  function FrameSize(f: Frame): nat {
    8 + |f.header| + |f.txData|
  }

  function FrameBytes(network: Network, f: Frame): (b: Bytes)
    ensures |b| == FrameSize(f)
  {
    CoreMagic(network) + ToLittleEndian(80 + |f.txData|, 4) + f.header + f.txData
  }

  function FramesBytes(network: Network, frames: seq<Frame>): Bytes {
    if frames == [] then [] else FrameBytes(network, frames[0]) + FramesBytes(network, frames[1..])
  }

  /** The file on disk: the frames under the key, then space that was never written. */
  function DiskImage(network: Network, key: Option<XorKey>, frames: seq<Frame>, padding: nat): Bytes {
    Masked(FramesBytes(network, frames), key, 0) + seq(padding, _ => 0)
  }

  /** The frames as the parser reports them when the first starts at `offset`. */
  function Located(frames: seq<Frame>, offset: nat): (blocks: seq<ParsedBlock>)
    ensures |blocks| == |frames|
    decreases |frames|
  {
    if frames == [] then []
    else
      var f := frames[0];
      [ParsedBlock(f.header, f.txData, offset)] + Located(frames[1..], offset + FrameSize(f))
  }

  // ---------------------------------------------------------------- reading what was written

  /** The key bytes from `offset` on are the magic that Core writes: a frame here starts with zeros on disk. */
  predicate Hidden(network: Network, key: Option<XorKey>, offset: nat) {
    key.Some? && KeyWindow(key.value, offset) == CoreMagic(network)
  }

  /** The frames before the first hidden one. */
  function Visible(network: Network, key: Option<XorKey>, frames: seq<Frame>, offset: nat): (v: seq<Frame>)
    ensures v <= frames
    decreases |frames|
  {
    if frames == [] || Hidden(network, key, offset) then []
    else
      var f := frames[0];
      [f] + Visible(network, key, frames[1..], offset + FrameSize(f))
  }

  /** The test for padding holds exactly when the four bytes on disk are zero. */
  lemma PaddingIsZeroOnDisk(disk: Bytes, key: Option<XorKey>, offset: nat)
    requires offset + 4 <= |disk|
    ensures IsPadding(Masked(disk, key, 0)[offset..offset + 4], key, offset + 4)
       <==> forall i :: offset <= i < offset + 4 ==> disk[i] == 0
  {
    var magic := Masked(disk, key, 0)[offset..offset + 4];
    forall i | 0 <= i < 4 ensures Mask(magic[i], key, offset + i) == disk[offset + i] {
      MaskTwice(disk[offset + i], key, offset + i);
    }
    FourAreZero(magic, disk, key, offset);
  }

  lemma FourAreZero(magic: Bytes, disk: Bytes, key: Option<XorKey>, offset: nat)
    requires |magic| == 4 && offset + 4 <= |disk|
    requires forall i :: 0 <= i < 4 ==> Mask(magic[i], key, offset + i) == disk[offset + i]
    ensures IsPadding(magic, key, offset + 4) <==> forall i :: offset <= i < offset + 4 ==> disk[i] == 0
  {
    if IsPadding(magic, key, offset + 4) {
      forall i | offset <= i < offset + 4 ensures disk[i] == 0 {
        assert Mask(magic[i - offset], key, offset + (i - offset)) == 0;
      }
    }
  }

  lemma MagicIsPaddingWhenHidden(network: Network, key: Option<XorKey>, offset: nat)
    ensures IsPadding(CoreMagic(network), key, offset + 4) <==> Hidden(network, key, offset)
  {
    var magic := CoreMagic(network);
    if key.Some? {
      var window := KeyWindow(key.value, offset);
      forall i | 0 <= i < 4 ensures Mask(magic[i], key, offset + i) == 0 <==> magic[i] == window[i] {
        XorZero(magic[i], KeyByte(key.value, offset + i));
      }
    } else {
      assert Mask(magic[0], key, offset) != 0;
    }
  }

  lemma SliceOfSlice(s: Bytes, i: nat, j: nat, a: nat, b: nat)
    requires i <= j <= |s| && a <= b <= j - i
    ensures s[i..j][a..b] == s[i + a..i + b]
  {
    forall k | 0 <= k < b - a ensures s[i..j][a..b][k] == s[i + a..i + b][k] {
      assert s[i..j][a + k] == s[i + a + k];
    }
  }

  lemma FrameParts(network: Network, f: Frame)
    requires ValidFrame(f)
    ensures var b := FrameBytes(network, f);
            && b[0..4] == CoreMagic(network)
            && LittleEndian(b[4..8]) == HEADER_SIZE + |f.txData|
            && b[8..88] == f.header
            && b[88..] == f.txData
  {
    var size := ToLittleEndian(HEADER_SIZE + |f.txData|, 4);
    assert FrameBytes(network, f)[4..8] == size;
    assert Pow256(2) == 0x1_0000;
    LittleEndianInverts(HEADER_SIZE + |f.txData|, 4);
  }

  ghost predicate StandsAt(plain: Bytes, network: Network, offset: nat, f: Frame) {
    ValidFrame(f) && offset + FrameSize(f) <= |plain| && plain[offset..offset + FrameSize(f)] == FrameBytes(network, f)
  }

  /**
   * A written frame is found where it stands, unless it is hidden: then the file seems to end there. A
   * magic that the parser does not know for the network is an error.
   */
  lemma NextIsFrame(plain: Bytes, key: Option<XorKey>, network: Network, offset: nat, f: Frame)
    requires StandsAt(plain, network, offset, f)
    ensures NextBlock(plain, key, network, offset)
         == if Hidden(network, key, offset) then Outcome(Ok(None), offset + 4)
            else if CoreMagic(network) != Magic(network) then
              Outcome(Err(WrongMagic(CoreMagic(network), network, offset)), offset + 4)
            else Outcome(Ok(Some(ParsedBlock(f.header, f.txData, offset))), offset + FrameSize(f))
  {
    var size := HEADER_SIZE + |f.txData|;
    var end := offset + 8 + size;
    FrameParts(network, f);
    SliceOfSlice(plain, offset, end, 0, 4);
    SliceOfSlice(plain, offset, end, 4, 8);
    SliceOfSlice(plain, offset, end, 8, 88);
    SliceOfSlice(plain, offset, end, 88, 8 + size);
    MagicIsPaddingWhenHidden(network, key, offset);
    assert ReadFrame(plain, offset) == Outcome(Ok(Some(ParsedBlock(f.header, f.txData, offset))), end);
  }

  /** From `offset` on the file is zero on disk. */
  ghost predicate BlankFrom(plain: Bytes, key: Option<XorKey>, offset: nat) {
    forall i :: offset <= i < |plain| ==> Mask(plain[i], key, i) == 0
  }

  lemma BlankEndsTheFile(plain: Bytes, key: Option<XorKey>, network: Network, offset: nat)
    requires BlankFrom(plain, key, offset)
    ensures NextBlock(plain, key, network, offset).result == Ok(None)
  {
    if offset + 4 <= |plain| {
      assert IsPadding(plain[offset..offset + 4], key, offset + 4);
    }
  }

  /** The frames stand one after another from `offset` on, and nothing was written after them. */
  ghost predicate Holds(plain: Bytes, key: Option<XorKey>, network: Network, offset: nat, frames: seq<Frame>)
    decreases |frames|
  {
    if frames == [] then BlankFrom(plain, key, offset)
    else
      && StandsAt(plain, network, offset, frames[0])
      && Holds(plain, key, network, offset + FrameSize(frames[0]), frames[1..])
  }

  lemma ConcatenationAt(plain: Bytes, offset: nat, first: Bytes, rest: Bytes)
    requires offset + |first + rest| <= |plain| && plain[offset..offset + |first + rest|] == first + rest
    ensures plain[offset..offset + |first|] == first
    ensures plain[offset + |first|..offset + |first| + |rest|] == rest
  {
    var b := first + rest;
    SliceOfSlice(plain, offset, offset + |b|, 0, |first|);
    SliceOfSlice(plain, offset, offset + |b|, |first|, |b|);
    assert b[0..|first|] == first && b[|first|..|b|] == rest;
  }

  lemma {:induction false} BytesHold(plain: Bytes, key: Option<XorKey>, network: Network, offset: nat,
                                     frames: seq<Frame>, b: Bytes)
    requires ValidFrames(frames) && b == FramesBytes(network, frames)
    requires offset + |b| <= |plain| && plain[offset..offset + |b|] == b && BlankFrom(plain, key, offset + |b|)
    ensures Holds(plain, key, network, offset, frames)
    decreases |frames|
  {
    if frames != [] {
      var first, rest := FrameBytes(network, frames[0]), FramesBytes(network, frames[1..]);
      ConcatenationAt(plain, offset, first, rest);
      BytesHold(plain, key, network, offset + |first|, frames[1..], rest);
    }
  }

  lemma AllBlocksStep(plain: Bytes, key: Option<XorKey>, network: Network, offset: nat, blocks: seq<ParsedBlock>,
                      block: ParsedBlock, next: nat)
    requires NextBlock(plain, key, network, offset) == Outcome(Ok(Some(block)), next)
    ensures AllBlocksFrom(plain, key, network, offset, blocks)
         == AllBlocksFrom(plain, key, network, next, blocks + [block])
  {
  }

  /** Call by call, the parser finds these frames and then nothing. */
  ghost predicate Finds(plain: Bytes, key: Option<XorKey>, network: Network, offset: nat, frames: seq<Frame>)
    decreases |frames|
  {
    var o := NextBlock(plain, key, network, offset);
    if frames == [] then o.result == Ok(None)
    else
      var f := frames[0];
      && o == Outcome(Ok(Some(ParsedBlock(f.header, f.txData, offset))), offset + FrameSize(f))
      && Finds(plain, key, network, offset + FrameSize(f), frames[1..])
  }

  lemma OneMoreFound(plain: Bytes, key: Option<XorKey>, network: Network, offset: nat, f: Frame, next: nat,
                     rest: seq<Frame>)
    requires NextBlock(plain, key, network, offset) == Outcome(Ok(Some(ParsedBlock(f.header, f.txData, offset))), next)
    requires next == offset + FrameSize(f) && Finds(plain, key, network, next, rest)
    ensures Finds(plain, key, network, offset, [f] + rest)
  {
    assert ([f] + rest)[1..] == rest;
  }

  lemma VisibleStep(network: Network, key: Option<XorKey>, frames: seq<Frame>, offset: nat, next: nat)
    requires frames != [] && !Hidden(network, key, offset) && next == offset + FrameSize(frames[0])
    ensures Visible(network, key, frames, offset) == [frames[0]] + Visible(network, key, frames[1..], next)
  {
  }

  lemma NoneFound(plain: Bytes, key: Option<XorKey>, network: Network, offset: nat, frames: seq<Frame>)
    requires Holds(plain, key, network, offset, frames) && (frames == [] || Hidden(network, key, offset))
    ensures Finds(plain, key, network, offset, [])
  {
    if frames == [] {
      BlankEndsTheFile(plain, key, network, offset);
    } else {
      NextIsFrame(plain, key, network, offset, frames[0]);
    }
  }

  lemma {:induction false} HeldIsFound(plain: Bytes, key: Option<XorKey>, network: Network, offset: nat,
                                       frames: seq<Frame>)
    requires CoreMagic(network) == Magic(network) && Holds(plain, key, network, offset, frames)
    ensures Finds(plain, key, network, offset, Visible(network, key, frames, offset))
    decreases |frames|
  {
    if frames == [] || Hidden(network, key, offset) {
      NoneFound(plain, key, network, offset, frames);
    } else {
      var next := offset + FrameSize(frames[0]);
      NextIsFrame(plain, key, network, offset, frames[0]);
      HeldIsFound(plain, key, network, next, frames[1..]);
      OneMoreFound(plain, key, network, offset, frames[0], next, Visible(network, key, frames[1..], next));
      VisibleStep(network, key, frames, offset, next);
    }
  }

  lemma {:induction false} FoundIsCollected(plain: Bytes, key: Option<XorKey>, network: Network, offset: nat,
                                            frames: seq<Frame>, blocks: seq<ParsedBlock>)
    requires Finds(plain, key, network, offset, frames)
    ensures AllBlocksFrom(plain, key, network, offset, blocks) == Ok(blocks + Located(frames, offset))
    decreases |frames|
  {
    if frames == [] {
      assert blocks + [] == blocks;
    } else {
      var next := offset + FrameSize(frames[0]);
      var block := ParsedBlock(frames[0].header, frames[0].txData, offset);
      AllBlocksStep(plain, key, network, offset, blocks, block, next);
      FoundIsCollected(plain, key, network, next, frames[1..], blocks + [block]);
      Grouping(blocks, [block], Located(frames[1..], next));
    }
  }

  lemma FramesAreFound(plain: Bytes, key: Option<XorKey>, network: Network, offset: nat, frames: seq<Frame>)
    requires CoreMagic(network) == Magic(network) && Holds(plain, key, network, offset, frames)
    ensures AllBlocks(plain, key, network, offset) == Ok(Located(Visible(network, key, frames, offset), offset))
  {
    var found := Visible(network, key, frames, offset);
    HeldIsFound(plain, key, network, offset, frames);
    FoundIsCollected(plain, key, network, offset, found, []);
    assert [] + Located(found, offset) == Located(found, offset);
  }

  lemma Grouping(a: seq<ParsedBlock>, b: seq<ParsedBlock>, c: seq<ParsedBlock>)
    ensures (a + b) + c == a + (b + c)
  {
  }

  lemma ImageHolds(network: Network, key: Option<XorKey>, frames: seq<Frame>, padding: nat)
    requires ValidFrames(frames)
    ensures Holds(Masked(DiskImage(network, key, frames, padding), key, 0), key, network, 0, frames)
  {
    var b := FramesBytes(network, frames);
    var disk := DiskImage(network, key, frames, padding);
    var plain := Masked(disk, key, 0);
    MaskedConcat(Masked(b, key, 0), seq(padding, _ => 0), key, 0);
    MaskedTwice(b, key, 0);
    assert plain[0..0 + |b|] == b;
    forall i | |b| <= i < |plain| ensures Mask(plain[i], key, i) == 0 {
      MaskTwice(disk[i], key, i);
    }
    BytesHold(plain, key, network, 0, frames, b);
  }

  /** The parser returns the frames of a file in order with their offsets, up to the first hidden one. */
  lemma ImageIsReadUpToFirstHidden(network: Network, key: Option<XorKey>, frames: seq<Frame>, padding: nat)
    requires ValidFrames(frames) && CoreMagic(network) == Magic(network)
    ensures AllBlocks(Masked(DiskImage(network, key, frames, padding), key, 0), key, network, 0)
         == Ok(Located(Visible(network, key, frames, 0), 0))
  {
    ImageHolds(network, key, frames, padding);
    FramesAreFound(Masked(DiskImage(network, key, frames, padding), key, 0), key, network, 0, frames);
  }

  // ---------------------------------------------------------------- which keys are safe

  /** A file of a network whose magic the parser does not know is refused at its first frame. */
  lemma UnknownMagicIsRefused(network: Network, key: Option<XorKey>, frames: seq<Frame>, padding: nat)
    requires ValidFrames(frames) && CoreMagic(network) != Magic(network) && frames != []
    ensures AllBlocks(Masked(DiskImage(network, key, frames, padding), key, 0), key, network, 0)
         == if Hidden(network, key, 0) then Ok([])
            else Err((0, InvalidMagic(CoreMagic(network), Magic(network), 0)))
  {
    var plain := Masked(DiskImage(network, key, frames, padding), key, 0);
    ImageHolds(network, key, frames, padding);
    NextIsFrame(plain, key, network, 0, frames[0]);
    assert CoreMagic(network)[0] == 0x1C;
  }

  /** The magic of another network stands where a frame should start. */
  lemma OtherNetworkIsNamed(plain: Bytes, key: Option<XorKey>, network: Network, offset: nat, found: Network)
    requires offset + 4 <= |plain| && plain[offset..offset + 4] == CoreMagic(found) && found != Testnet4
    requires !Hidden(found, key, offset)
    requires found != network && !(found == Testnet && network == Testnet4)
    ensures NextBlock(plain, key, network, offset) == Outcome(Err(InvalidNetwork(found, network)), offset + 4)
  {
    MagicIsPaddingWhenHidden(found, key, offset);
    MagicsAgreeExactlyWhen(found);
    MagicsAgreeExactlyWhen(network);
    MagicsDiffer(found, network);
    MagicsDiffer(found, Testnet);
    MagicsDiffer(found, Bitcoin);
    MagicsDiffer(found, Regtest);
    MagicsDiffer(found, Signet);
  }

  /** Behind the right magic: sizes beyond the limits, and frames that are cut short. */
  lemma BrokenFrames(plain: Bytes, key: Option<XorKey>, network: Network, offset: nat, size: nat)
    requires offset + 8 <= |plain| && plain[offset..offset + 4] == CoreMagic(network) && network != Testnet4
    requires !Hidden(network, key, offset)
    requires size < Pow256(4) && plain[offset + 4..offset + 8] == ToLittleEndian(size, 4)
    ensures NextBlock(plain, key, network, offset).result.Ok?
       <==> 80 <= size <= 4_000_000 && offset + 8 + size <= |plain|
    ensures var o := NextBlock(plain, key, network, offset);
            && (size > 4_000_000 ==> o == Outcome(Err(BlockSizeTooLarge(size)), offset + 8))
            && (size <= 4_000_000 && offset + 88 > |plain| ==> o == Outcome(Err(HeaderDecode), |plain|))
            && (size < 80 && offset + 88 <= |plain| ==> o == Outcome(Err(BlockSizeTooSmall(size)), offset + 88))
            && (80 <= size <= 4_000_000 && offset + 88 <= |plain| < offset + 8 + size ==>
                  o == Outcome(Err(Io), |plain|))
  {
    MagicIsPaddingWhenHidden(network, key, offset);
    MagicsAgreeExactlyWhen(network);
    LittleEndianInverts(size, 4);
  }

  /** A file that ends within the magic has no more blocks; one that ends within the size is damaged. */
  lemma FileEndsBeforeFrame(plain: Bytes, key: Option<XorKey>, network: Network, offset: nat)
    requires |plain| < offset + 8
    requires offset + 4 <= |plain| ==>
               plain[offset..offset + 4] == CoreMagic(network) && network != Testnet4 && !Hidden(network, key, offset)
    ensures NextBlock(plain, key, network, offset)
         == Outcome(if |plain| < offset + 4 then Ok(None) else Err(UintDecode),
                    if |plain| < offset then offset else |plain|)
  {
    if offset + 4 <= |plain| {
      MagicIsPaddingWhenHidden(network, key, offset);
      MagicsAgreeExactlyWhen(network);
    }
  }

  /** No four consecutive bytes of the repeated key are the network's magic. */
  predicate ClearKey(network: Network, key: Option<XorKey>) {
    forall i :: 0 <= i < 8 ==> !Hidden(network, key, i)
  }

  /** What the parser needs: it knows the magic that Core writes, and the key hides none. */
  predicate Safe(network: Network, key: Option<XorKey>) {
    CoreMagic(network) == Magic(network) && ClearKey(network, key)
  }

  ghost predicate RoundTrips(network: Network, key: Option<XorKey>, frames: seq<Frame>, padding: nat) {
    AllBlocks(Masked(DiskImage(network, key, frames, padding), key, 0), key, network, 0) == Ok(Located(frames, 0))
  }

  lemma HiddenIsCyclic(network: Network, key: Option<XorKey>, offset: nat)
    ensures Hidden(network, key, offset) <==> Hidden(network, key, offset % 8)
  {
    if key.Some? {
      KeyWindowIsCyclic(key.value, offset);
    }
  }

  lemma {:induction false} ClearKeyHidesNothing(network: Network, key: Option<XorKey>, frames: seq<Frame>, offset: nat)
    requires ClearKey(network, key)
    ensures Visible(network, key, frames, offset) == frames
    decreases |frames|
  {
    HiddenIsCyclic(network, key, offset);
    if frames != [] {
      ClearKeyHidesNothing(network, key, frames[1..], offset + FrameSize(frames[0]));
    }
  }

  lemma ClearIsFound(plain: Bytes, key: Option<XorKey>, network: Network, offset: nat, frames: seq<Frame>)
    requires Safe(network, key) && Holds(plain, key, network, offset, frames)
    ensures Finds(plain, key, network, offset, frames)
  {
    HeldIsFound(plain, key, network, offset, frames);
    ClearKeyHidesNothing(network, key, frames, offset);
  }

  /** Two frames, the second at an offset with the given remainder modulo eight. */
  function TwoFrames(remainder: nat): (frames: seq<Frame>)
    requires remainder < 8
    ensures |frames| == 2 && ValidFrames(frames) && |frames[0].txData| == remainder
  {
    var header := seq(HEADER_SIZE, _ => 0);
    [Frame(header, seq(remainder, _ => 0)), Frame(header, [])]
  }

  lemma HiddenSecondIsCut(network: Network, key: Option<XorKey>, frames: seq<Frame>)
    requires |frames| == 2 && ValidFrame(frames[0]) && Hidden(network, key, 88 + |frames[0].txData|)
    ensures |Visible(network, key, frames, 0)| < 2
  {
  }

  lemma TwoFramesAreCut(network: Network, key: Option<XorKey>, remainder: nat)
    requires remainder < 8 && Hidden(network, key, remainder) && CoreMagic(network) == Magic(network)
    ensures !RoundTrips(network, key, TwoFrames(remainder), 0)
  {
    var frames := TwoFrames(remainder);
    assert (88 + remainder) % 8 == remainder;
    HiddenIsCyclic(network, key, 88 + remainder);
    HiddenSecondIsCut(network, key, frames);
    ImageIsReadUpToFirstHidden(network, key, frames, 0);
    assert |Located(frames, 0)| == 2;
  }

  /**
   * Every list of blocks as Core writes it, with any padding, reads back exactly when the parser knows
   * the network's magic and no window of the key is that magic.
   */
  lemma RoundTripExactlyWhen(network: Network, key: Option<XorKey>)
    ensures (forall frames, padding :: ValidFrames(frames) ==> RoundTrips(network, key, frames, padding))
       <==> Safe(network, key)
  {
    if Safe(network, key) {
      forall frames, padding | ValidFrames(frames) ensures RoundTrips(network, key, frames, padding) {
        ImageIsReadUpToFirstHidden(network, key, frames, padding);
        ClearKeyHidesNothing(network, key, frames, 0);
      }
    } else if CoreMagic(network) == Magic(network) {
      var i :| 0 <= i < 8 && Hidden(network, key, i);
      TwoFramesAreCut(network, key, i);
    } else {
      UnknownMagicIsRefused(network, key, TwoFrames(0), 0);
      assert |Located(TwoFrames(0), 0)| == 2;
      assert !RoundTrips(network, key, TwoFrames(0), 0);
    }
  }

  // ---------------------------------------------------------------- going to a reported offset

  /** Where the frame with the given index starts. */
  function OffsetOf(frames: seq<Frame>, index: nat): nat
    requires index <= |frames|
    decreases index
  {
    if index == 0 then 0 else FrameSize(frames[0]) + OffsetOf(frames[1..], index - 1)
  }

  lemma {:induction false} HoldsFrom(plain: Bytes, key: Option<XorKey>, network: Network, offset: nat,
                                     frames: seq<Frame>, index: nat)
    requires index <= |frames| && Holds(plain, key, network, offset, frames)
    ensures Holds(plain, key, network, offset + OffsetOf(frames, index), frames[index..])
    decreases index
  {
    if index > 0 {
      HoldsFrom(plain, key, network, offset + FrameSize(frames[0]), frames[1..], index - 1);
      assert frames[1..][index - 1..] == frames[index..];
    } else {
      assert frames[0..] == frames;
    }
  }

  lemma {:induction false} LocatedAt(frames: seq<Frame>, offset: nat, index: nat)
    requires index < |frames|
    ensures Located(frames, offset)[index]
         == ParsedBlock(frames[index].header, frames[index].txData, offset + OffsetOf(frames, index))
    decreases index
  {
    if index > 0 {
      LocatedAt(frames[1..], offset + FrameSize(frames[0]), index - 1);
    }
  }

  lemma ReadingOnFrom(plain: Bytes, key: Option<XorKey>, network: Network, frames: seq<Frame>, offset: nat)
    requires frames != [] && Safe(network, key) && Holds(plain, key, network, offset, frames)
    ensures NextBlock(plain, key, network, offset).result
         == Ok(Some(ParsedBlock(frames[0].header, frames[0].txData, offset)))
    ensures AllBlocks(plain, key, network, offset) == Ok(Located(frames, offset))
  {
    NextIsFrame(plain, key, network, offset, frames[0]);
    HiddenIsCyclic(network, key, offset);
    FramesAreFound(plain, key, network, offset, frames);
    ClearKeyHidesNothing(network, key, frames, offset);
  }

  lemma ReportedOffsetInFile(plain: Bytes, key: Option<XorKey>, network: Network, frames: seq<Frame>, index: nat)
    requires Holds(plain, key, network, 0, frames) && Safe(network, key) && index < |frames|
    ensures Located(frames, 0)[index]
         == ParsedBlock(frames[index].header, frames[index].txData, OffsetOf(frames, index))
    ensures NextBlock(plain, key, network, OffsetOf(frames, index)).result == Ok(Some(Located(frames, 0)[index]))
    ensures AllBlocks(plain, key, network, OffsetOf(frames, index))
         == Ok(Located(frames[index..], OffsetOf(frames, index)))
  {
    LocatedAt(frames, 0, index);
    HoldsFrom(plain, key, network, 0, frames, index);
    ReadingOnFrom(plain, key, network, frames[index..], OffsetOf(frames, index));
  }

  /** Reading from the offset reported for a block yields that block, then the rest of the file. */
  lemma ReportedOffsetYieldsTheBlock(network: Network, key: Option<XorKey>, frames: seq<Frame>, padding: nat,
                                     index: nat, plain: Bytes, block: ParsedBlock)
    requires ValidFrames(frames) && Safe(network, key) && index < |frames|
    requires plain == Masked(DiskImage(network, key, frames, padding), key, 0)
    requires block == Located(frames, 0)[index]
    ensures block.header == frames[index].header && block.rawTxData == frames[index].txData
    ensures NextBlock(plain, key, network, block.offset).result == Ok(Some(block))
    ensures AllBlocks(plain, key, network, block.offset) == Ok(Located(frames[index..], block.offset))
  {
    ImageHolds(network, key, frames, padding);
    ReportedOffsetInFile(plain, key, network, frames, index);
  }
}

/** The blocks of a directory of block files, read file after file. */
module BlockDirectories {
  import opened Common
  import opened Obfuscations
  import opened BlockFiles
  import BlockIndexes

  /** The files by number; they do not change while they are read. */
  type Files = map<nat, Bytes>

  /** One call of a file parser, by the file on disk and the offset in it. */
  type Parser = (Bytes, nat) -> Outcome

  function ParserOf(key: Option<XorKey>, network: Network): (next: Parser)
    ensures Parses(next, key, network)
  {
    (disk: Bytes, offset: nat) => NextBlock(Masked(disk, key, 0), key, network, offset)
  }

  predicate IsBlock(o: Outcome) {
    o.result.Ok? && o.result.value.Some?
  }

  /** A parser takes every block it finds off the file. */
  ghost predicate Advances(next: Parser) {
    forall disk: Bytes, offset: nat :: IsBlock(next(disk, offset)) ==> offset < next(disk, offset).offset <= |disk|
  }

  ghost predicate Parses(next: Parser, key: Option<XorKey>, network: Network) {
    forall disk: Bytes, offset: nat {:trigger next(disk, offset)} ::
      next(disk, offset) == NextBlock(Masked(disk, key, 0), key, network, offset)
  }

  lemma ParserAdvances(next: Parser, key: Option<XorKey>, network: Network)
    requires Parses(next, key, network)
    ensures Advances(next)
  {
    forall disk: Bytes, offset: nat | IsBlock(next(disk, offset)) ensures offset < next(disk, offset).offset <= |disk| {
      FoundBlockAdvances(Masked(disk, key, 0), key, network, offset);
    }
  }

  // ---------------------------------------------------------------- one call

  /** The number of the file to open next or being read, and the file being read with the offset in it. */
  datatype Cursor = Cursor(fileIndex: nat, current: Option<(Bytes, nat)>)

  datatype Found = Found(result: Result<Option<ParsedBlock>, FileError>, cursor: Cursor)

  function FromFile(files: Files, fileIndex: nat): set<nat> {
    set i | i in files && i >= fileIndex
  }

  /** Opens one file after another until one yields a block or fails, or there is none. */
  function OpenNext(next: Parser, files: Files, fileIndex: nat): Found
    decreases FromFile(files, fileIndex)
  {
    if fileIndex !in files then Found(Ok(None), Cursor(fileIndex, None))
    else
      var o := next(files[fileIndex], 0);
      if o.result == Ok(None) then
        assert fileIndex in FromFile(files, fileIndex) && fileIndex !in FromFile(files, fileIndex + 1);
        OpenNext(next, files, fileIndex + 1)
      else Found(o.result, Cursor(fileIndex, Some((files[fileIndex], o.offset))))
  }

  /** The next block of the directory; an exhausted file gives way to the one numbered next. */
  function DirectoryNext(next: Parser, files: Files, c: Cursor): Found {
    match c.current
    case None => OpenNext(next, files, c.fileIndex)
    case Some((disk, offset)) =>
      var o := next(disk, offset);
      if o.result == Ok(None) then OpenNext(next, files, c.fileIndex + 1)
      else Found(o.result, Cursor(c.fileIndex, Some((disk, o.offset))))
  }

  /** At the end of a file the parser goes on as if the next one were not open yet. */
  lemma ExhaustedGoesOn(next: Parser, files: Files, c: Cursor)
    requires c.current.Some? && next(c.current.value.0, c.current.value.1).result == Ok(None)
    ensures DirectoryNext(next, files, c) == DirectoryNext(next, files, Cursor(c.fileIndex + 1, None))
    ensures Ahead(files, Cursor(c.fileIndex + 1, None)) == Ahead(files, c)
  {
  }

  /** Opening a file moves the parser on to its start. */
  lemma OpeningGoesOn(next: Parser, files: Files, fileIndex: nat)
    requires fileIndex in files
    ensures DirectoryNext(next, files, Cursor(fileIndex, None))
         == DirectoryNext(next, files, Cursor(fileIndex, Some((files[fileIndex], 0))))
    ensures Ahead(files, Cursor(fileIndex, Some((files[fileIndex], 0)))) < Ahead(files, Cursor(fileIndex, None))
  {
    assert fileIndex in FromFile(files, fileIndex) && fileIndex !in FromFile(files, fileIndex + 1);
  }

  /** Positioning opens the numbered file unless one is being read; a missing file cannot be opened. */
  function SetOffset(files: Files, c: Cursor, offset: nat): Option<Cursor> {
    if c.current.Some? then Some(Cursor(c.fileIndex, Some((c.current.value.0, offset))))
    else if c.fileIndex in files then Some(Cursor(c.fileIndex, Some((files[c.fileIndex], offset))))
    else None
  }

  /**
   * A number set while a file is open does not open the file of that number: positioning and reading stay
   * in the open file, and behind it the numbered file is passed over.
   */
  lemma NumberSetWhileOpen(next: Parser, files: Files, disk: Bytes, at: nat, number: nat, offset: nat)
    ensures SetOffset(files, Cursor(number, Some((disk, at))), offset) == Some(Cursor(number, Some((disk, offset))))
    ensures var f := DirectoryNext(next, files, Cursor(number, Some((disk, offset))));
            if next(disk, offset).result == Ok(None) then f == DirectoryNext(next, files, Cursor(number + 1, None))
            else f.result == next(disk, offset).result
  {
    if next(disk, offset).result == Ok(None) {
      ExhaustedGoesOn(next, files, Cursor(number, Some((disk, offset))));
    }
  }

  // ---------------------------------------------------------------- iterating

  function Unread(c: Cursor): nat {
    match c.current
    case None => 0
    case Some((disk, offset)) => if offset < |disk| then |disk| - offset else 0
  }

  /** The files that are not yet open. */
  function Ahead(files: Files, c: Cursor): set<nat> {
    FromFile(files, if c.current.Some? then c.fileIndex + 1 else c.fileIndex)
  }

  lemma {:induction false} OpeningMovesOn(next: Parser, files: Files, fileIndex: nat)
    requires var f := OpenNext(next, files, fileIndex); f.result.Ok? && f.result.value.Some?
    ensures Ahead(files, OpenNext(next, files, fileIndex).cursor) < FromFile(files, fileIndex)
    decreases FromFile(files, fileIndex)
  {
    assert fileIndex in FromFile(files, fileIndex) && fileIndex !in FromFile(files, fileIndex + 1);
    if next(files[fileIndex], 0).result == Ok(None) {
      OpeningMovesOn(next, files, fileIndex + 1);
    }
  }

  lemma FoundBlockMovesOn(next: Parser, files: Files, c: Cursor)
    requires Advances(next)
    requires var f := DirectoryNext(next, files, c); f.result.Ok? && f.result.value.Some?
    ensures var c' := DirectoryNext(next, files, c).cursor;
            || Ahead(files, c') < Ahead(files, c)
            || (Ahead(files, c') == Ahead(files, c) && Unread(c') < Unread(c))
  {
    if c.current.Some? {
      var (disk, offset) := c.current.value;
      if next(disk, offset).result == Ok(None) {
        OpeningMovesOn(next, files, c.fileIndex + 1);
      } else {
        assert IsBlock(next(disk, offset));
      }
    } else {
      OpeningMovesOn(next, files, c.fileIndex);
    }
  }

  /** All blocks from the cursor on, or the first failure. */
  ghost function Stream(next: Parser, files: Files, c: Cursor, blocks: seq<ParsedBlock>)
    : Result<seq<ParsedBlock>, FileError>
    requires Advances(next)
    decreases Ahead(files, c), Unread(c)
  {
    var f := DirectoryNext(next, files, c);
    match f.result
    case Err(e) => Err(e)
    case Ok(None) => Ok(blocks)
    case Ok(Some(block)) =>
      FoundBlockMovesOn(next, files, c);
      Stream(next, files, f.cursor, blocks + [block])
  }

  // ---------------------------------------------------------------- reading on across files

  /** From an offset on, the parser finds these blocks and then nothing. */
  ghost predicate Delivers(next: Parser, disk: Bytes, offset: nat, blocks: seq<ParsedBlock>)
    decreases |blocks|
  {
    var o := next(disk, offset);
    if blocks == [] then o.result == Ok(None)
    else o.result == Ok(Some(blocks[0])) && Delivers(next, disk, o.offset, blocks[1..])
  }

  /** From file `first` on, each file delivers the given blocks, and then the files end. */
  ghost predicate DeliversAll(next: Parser, files: Files, first: nat, contents: seq<seq<ParsedBlock>>)
    decreases |contents|
  {
    if contents == [] then first !in files
    else
      && first in files && Delivers(next, files[first], 0, contents[0])
      && DeliversAll(next, files, first + 1, contents[1..])
  }

  function Concat(contents: seq<seq<ParsedBlock>>): seq<ParsedBlock> {
    if contents == [] then [] else contents[0] + Concat(contents[1..])
  }

  /** Reading a file to its end is going on with the next file. */
  lemma {:induction false} RestOfFile(next: Parser, files: Files, fileIndex: nat, disk: Bytes, offset: nat,
                                      rest: seq<ParsedBlock>, blocks: seq<ParsedBlock>)
    requires Advances(next) && Delivers(next, disk, offset, rest)
    ensures Stream(next, files, Cursor(fileIndex, Some((disk, offset))), blocks)
         == Stream(next, files, Cursor(fileIndex + 1, None), blocks + rest)
    decreases |rest|
  {
    if rest == [] {
      assert blocks + [] == blocks;
    } else {
      var o := next(disk, offset);
      assert Stream(next, files, Cursor(fileIndex, Some((disk, offset))), blocks)
          == Stream(next, files, Cursor(fileIndex, Some((disk, o.offset))), blocks + [rest[0]]);
      RestOfFile(next, files, fileIndex, disk, o.offset, rest[1..], blocks + [rest[0]]);
      assert blocks + [rest[0]] + rest[1..] == blocks + rest;
    }
  }

  lemma {:induction false} StreamOfFiles(next: Parser, files: Files, first: nat, contents: seq<seq<ParsedBlock>>,
                                         blocks: seq<ParsedBlock>)
    requires Advances(next) && DeliversAll(next, files, first, contents)
    ensures Stream(next, files, Cursor(first, None), blocks) == Ok(blocks + Concat(contents))
    decreases |contents|
  {
    if contents == [] {
      assert blocks + [] == blocks;
    } else {
      assert Stream(next, files, Cursor(first, None), blocks)
          == Stream(next, files, Cursor(first, Some((files[first], 0))), blocks);
      RestOfFile(next, files, first, files[first], 0, contents[0], blocks);
      StreamOfFiles(next, files, first + 1, contents[1..], blocks + contents[0]);
      Grouping(blocks, contents[0], Concat(contents[1..]));
    }
  }

  lemma ReadingOn(next: Parser, files: Files, fileIndex: nat, disk: Bytes, offset: nat,
                  here: seq<ParsedBlock>, later: seq<seq<ParsedBlock>>)
    requires Advances(next) && Delivers(next, disk, offset, here) && DeliversAll(next, files, fileIndex + 1, later)
    ensures Stream(next, files, Cursor(fileIndex, Some((disk, offset))), []) == Ok(here + Concat(later))
  {
    RestOfFile(next, files, fileIndex, disk, offset, here, []);
    assert [] + here == here;
    StreamOfFiles(next, files, fileIndex + 1, later, here);
  }

  // ---------------------------------------------------------------- a directory written by Core

  lemma OneMoreDelivered(next: Parser, disk: Bytes, offset: nat, block: ParsedBlock, after: nat, rest: seq<ParsedBlock>)
    requires next(disk, offset) == Outcome(Ok(Some(block)), after) && Delivers(next, disk, after, rest)
    ensures Delivers(next, disk, offset, [block] + rest)
  {
  }

  /** The same for one file, whose bytes without the key are given. */
  ghost predicate ParsesFile(next: Parser, disk: Bytes, plain: Bytes, key: Option<XorKey>, network: Network) {
    forall offset: nat {:trigger next(disk, offset)} :: next(disk, offset) == NextBlock(plain, key, network, offset)
  }

  lemma {:induction false} FoundIsDelivered(next: Parser, disk: Bytes, plain: Bytes, key: Option<XorKey>,
                                            network: Network, offset: nat, frames: seq<Frame>)
    requires ParsesFile(next, disk, plain, key, network) && Finds(plain, key, network, offset, frames)
    ensures Delivers(next, disk, offset, Located(frames, offset))
    decreases |frames|
  {
    if frames != [] {
      var block, after := ParsedBlock(frames[0].header, frames[0].txData, offset), offset + FrameSize(frames[0]);
      FirstIsFound(next, disk, plain, key, network, offset, frames, block, after);
      FoundIsDelivered(next, disk, plain, key, network, after, frames[1..]);
      OneMoreDelivered(next, disk, offset, block, after, Located(frames[1..], after));
    }
  }

  lemma FirstIsFound(next: Parser, disk: Bytes, plain: Bytes, key: Option<XorKey>, network: Network, offset: nat,
                     frames: seq<Frame>, block: ParsedBlock, after: nat)
    requires ParsesFile(next, disk, plain, key, network) && Finds(plain, key, network, offset, frames) && frames != []
    requires block == ParsedBlock(frames[0].header, frames[0].txData, offset) && after == offset + FrameSize(frames[0])
    ensures next(disk, offset) == Outcome(Ok(Some(block)), after)
    ensures Finds(plain, key, network, after, frames[1..])
    ensures Located(frames, offset) == [block] + Located(frames[1..], after)
  {
    assert next(disk, offset) == NextBlock(plain, key, network, offset);
  }

  lemma HeldIsDelivered(next: Parser, disk: Bytes, plain: Bytes, key: Option<XorKey>, network: Network, offset: nat,
                        frames: seq<Frame>)
    requires ParsesFile(next, disk, plain, key, network)
    requires Safe(network, key) && Holds(plain, key, network, offset, frames)
    ensures Delivers(next, disk, offset, Located(frames, offset))
  {
    ClearIsFound(plain, key, network, offset, frames);
    FoundIsDelivered(next, disk, plain, key, network, offset, frames);
  }

  lemma RestIsHeld(plain: Bytes, key: Option<XorKey>, network: Network, start: nat, frames: seq<Frame>, index: nat,
                   offset: nat, rest: seq<Frame>)
    requires Holds(plain, key, network, start, frames) && index <= |frames|
    requires offset == start + OffsetOf(frames, index) && rest == frames[index..]
    ensures Holds(plain, key, network, offset, rest)
  {
    HoldsFrom(plain, key, network, start, frames, index);
  }

  lemma RestIsDelivered(next: Parser, disk: Bytes, plain: Bytes, key: Option<XorKey>, network: Network,
                        frames: seq<Frame>, index: nat, offset: nat, rest: seq<Frame>)
    requires ParsesFile(next, disk, plain, key, network)
    requires Safe(network, key) && Holds(plain, key, network, 0, frames) && index <= |frames|
    requires offset == OffsetOf(frames, index) && rest == frames[index..]
    ensures Delivers(next, disk, offset, Located(rest, offset))
  {
    RestIsHeld(plain, key, network, 0, frames, index, offset, rest);
    HeldIsDelivered(next, disk, plain, key, network, offset, rest);
  }

  /** From file `first` on, each file holds the given frames and blank space, and then the files end. */
  ghost predicate Stores(files: Files, key: Option<XorKey>, network: Network, first: nat, contents: seq<seq<Frame>>)
    decreases |contents|
  {
    if contents == [] then first !in files
    else
      && first in files && Holds(Masked(files[first], key, 0), key, network, 0, contents[0])
      && Stores(files, key, network, first + 1, contents[1..])
  }

  /** The blocks of each file as its own parser reports them. */
  function LocatedInFiles(contents: seq<seq<Frame>>): seq<seq<ParsedBlock>> {
    if contents == [] then [] else [Located(contents[0], 0)] + LocatedInFiles(contents[1..])
  }

  lemma {:induction false} StoredIsDelivered(next: Parser, files: Files, key: Option<XorKey>, network: Network,
                                             first: nat, contents: seq<seq<Frame>>)
    requires Parses(next, key, network)
    requires Safe(network, key) && Stores(files, key, network, first, contents)
    ensures DeliversAll(next, files, first, LocatedInFiles(contents))
    decreases |contents|
  {
    if contents != [] {
      assert contents[0][0..] == contents[0] && OffsetOf(contents[0], 0) == 0;
      RestIsDelivered(next, files[first], Masked(files[first], key, 0), key, network, contents[0], 0, 0, contents[0]);
      StoredIsDelivered(next, files, key, network, first + 1, contents[1..]);
      assert LocatedInFiles(contents)[1..] == LocatedInFiles(contents[1..]);
    }
  }

  lemma ResumedIsDelivered(next: Parser, files: Files, key: Option<XorKey>, network: Network, first: nat,
                           contents: seq<seq<Frame>>, index: nat, offset: nat)
    requires Parses(next, key, network) && Safe(network, key)
    requires contents != [] && Stores(files, key, network, first, contents)
    requires index <= |contents[0]| && offset == OffsetOf(contents[0], index)
    ensures first in files && Delivers(next, files[first], offset, Located(contents[0][index..], offset))
    ensures DeliversAll(next, files, first + 1, LocatedInFiles(contents[1..]))
  {
    RestIsDelivered(next, files[first], Masked(files[first], key, 0), key, network, contents[0], index,
                    offset, contents[0][index..]);
    StoredIsDelivered(next, files, key, network, first + 1, contents[1..]);
  }

  /**
   * Sent to the file and the adjusted data position that the block index gives for a block, the parser
   * delivers that block, then the rest of its file, then all later files, in order.
   */
  lemma DirectoryResumes(files: Files, key: Option<XorKey>, network: Network, contents: seq<seq<Frame>>,
                         entry: BlockIndexes.Index, index: nat, offset: nat, next: Parser)
    requires Parses(next, key, network)
    requires Safe(network, key) && contents != [] && index <= |contents[0]|
    requires entry.fileNumber.Some? && Stores(files, key, network, entry.fileNumber.value, contents)
    requires offset == OffsetOf(contents[0], index) && entry.dataPos == Some(offset + 8)
    ensures BlockIndexes.AdjustedDataPos(entry.dataPos) == Some(offset) && Advances(next)
    ensures var c := SetOffset(files, Cursor(entry.fileNumber.value, None), offset);
            && c.Some?
            && Stream(next, files, c.value, [])
            == Ok(Located(contents[0][index..], offset) + Concat(LocatedInFiles(contents[1..])))
  {
    var first := entry.fileNumber.value;
    ParserAdvances(next, key, network);
    ResumedIsDelivered(next, files, key, network, first, contents, index, offset);
    ReadingOn(next, files, first, files[first], offset, Located(contents[0][index..], offset),
              LocatedInFiles(contents[1..]));
  }
}

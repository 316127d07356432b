/** The readers and parsers of block files as they run. */
module BlockFileParsers {
  import opened Common
  import opened Obfuscations
  import opened BlockFiles
  import opened BlockDirectories

  /** Reads a file and takes the key off; it keeps its own offset beside the file's position. */
  class XorReader {
    const disk: Bytes
    const xorKey: Option<XorKey>
    var position: nat
    var offset: nat

    ghost predicate Valid()
      reads this
    {
      position == offset
    }

    /** The file without its key. */
    ghost function Plain(): (p: Bytes)
      ensures |p| == |disk|
    {
      Masked(disk, xorKey, 0)
    }

    constructor (disk: Bytes, xorKey: Option<XorKey>)
      ensures Valid() && this.disk == disk && this.xorKey == xorKey && offset == 0
    {
      this.disk, this.xorKey := disk, xorKey;
      position, offset := 0, 0;
    }

    /** The file's own read: fills some of the buffer from `start` on; how much is up to the system. */
    method ReadRaw(buf: array<byte>, start: nat) returns (n: nat)
      requires start <= buf.Length
      modifies this`position, buf
      ensures position == old(position) + n && n <= buf.Length - start
      ensures n == 0 <==> start == buf.Length || |disk| <= old(position)
      ensures n > 0 ==> position <= |disk|
      ensures forall i :: 0 <= i < buf.Length ==>
                buf[i] == if start <= i < start + n then disk[old(position) + (i - start)] else old(buf[i])
    {
      n := 0;
      if start < buf.Length && position < |disk| {
        n :| 0 < n <= buf.Length - start && n <= |disk| - position;
      }
      forall i | start <= i < start + n {
        buf[i] := disk[position + (i - start)];
      }
      position := position + n;
    }

    /** Takes the key off the bytes that a read left in the buffer. */
    method ApplyKey(buf: array<byte>, start: nat, n: nat)
      requires start + n <= buf.Length
      modifies buf
      ensures forall i :: 0 <= i < buf.Length ==>
                buf[i] == if start <= i < start + n then Mask(old(buf[i]), xorKey, offset + (i - start))
                          else old(buf[i])
    {
      if xorKey.Some? {
        for i := 0 to n
          invariant forall j :: 0 <= j < buf.Length ==>
                      buf[j] == if start <= j < start + i then Mask(old(buf[j]), xorKey, offset + (j - start))
                                else old(buf[j])
        {
          KeyByteIsIndexed(xorKey.value, offset + i);
          buf[start + i] := Xor(buf[start + i], xorKey.value[(offset + i) % 8]);
        }
      }
    }

    /** Fills some of the buffer from `start` on with bytes of the file without its key. */
    method Read(buf: array<byte>, start: nat) returns (n: nat)
      requires Valid() && start <= buf.Length
      modifies this, buf
      ensures Valid() && offset == old(offset) + n
      ensures n <= buf.Length - start && (n == 0 <==> start == buf.Length || |disk| <= old(offset))
      ensures n > 0 ==> offset <= |disk|
      ensures forall i :: 0 <= i < buf.Length ==>
                buf[i] == if start <= i < start + n then Plain()[old(offset) + (i - start)] else old(buf[i])
    {
      n := ReadRaw(buf, start);
      ApplyKey(buf, start, n);
      offset := offset + n;
    }

    /** Reads until the buffer is full; at the end of the file, fails with everything consumed. */
    method ReadExact(buf: array<byte>) returns (ok: bool)
      requires Valid()
      modifies this, buf
      ensures Valid()
      ensures match ReadAt(Plain(), old(offset), buf.Length)
              case Some(b) => ok && buf[..] == b && offset == old(offset) + buf.Length
              case None => !ok && offset == EndOfFile(Plain(), old(offset))
    {
      var filled := 0;
      while filled < buf.Length
        invariant Valid() && filled <= buf.Length && offset == old(offset) + filled
        invariant filled > 0 ==> offset <= |disk|
        invariant forall i :: 0 <= i < filled ==> buf[i] == Plain()[old(offset) + i]
      {
        var n := Read(buf, filled);
        if n == 0 {
          return false;
        }
        filled := filled + n;
      }
      ok := true;
    }

    method Seek(to: nat)
      modifies this
      ensures Valid() && offset == to
    {
      position := to;
      offset := position;
    }
  }

  /** Parses one file. */
  class BlockFileParser {
    const reader: XorReader
    const network: Network

    ghost predicate Valid()
      reads reader
    {
      reader.Valid()
    }

    constructor (xorKey: Option<XorKey>, disk: Bytes, network: Network)
      ensures Valid() && fresh(reader)
      ensures reader.disk == disk && reader.xorKey == xorKey && reader.offset == 0 && this.network == network
    {
      reader := new XorReader(disk, xorKey);
      this.network := network;
    }

    method SetOffset(to: nat)
      modifies reader
      ensures Valid() && reader.offset == to
    {
      reader.Seek(to);
    }

    /** The rest of a frame whose magic was read. */
    method ReadAfterMagic(start: nat) returns (r: Result<Option<ParsedBlock>, FileError>)
      requires Valid() && reader.offset == start + 4
      modifies reader
      ensures Valid() && Outcome(r, reader.offset) == ReadFrame(reader.Plain(), start)
    {
      var sizeBytes := new byte[4];
      var ok := reader.ReadExact(sizeBytes);
      if !ok {
        return Err(UintDecode);
      }
      var size := LittleEndian(sizeBytes[..]);
      if size > MAX_BLOCK_SERIALIZED_SIZE {
        return Err(BlockSizeTooLarge(size));
      }

      var header := new byte[HEADER_SIZE];
      ok := reader.ReadExact(header);
      if !ok {
        return Err(HeaderDecode);
      }
      if size < HEADER_SIZE {
        return Err(BlockSizeTooSmall(size));
      }

      var txData := new byte[size - HEADER_SIZE];
      ok := reader.ReadExact(txData);
      if !ok {
        return Err(Io);
      }
      r := Ok(Some(ParsedBlock(header[..], txData[..], start)));
    }

    method NextBlock() returns (r: Result<Option<ParsedBlock>, FileError>)
      requires Valid()
      modifies reader
      ensures Valid()
      ensures Outcome(r, reader.offset)
           == BlockFiles.NextBlock(reader.Plain(), reader.xorKey, network, old(reader.offset))
    {
      var offset := reader.offset;
      var magic := new byte[4];
      var ok := reader.ReadExact(magic);
      if !ok {
        return Ok(None);
      }
      if IsPadding(magic[..], reader.xorKey, reader.offset) {
        return Ok(None);
      }
      if magic[..] != Magic(network) {
        return Err(WrongMagic(magic[..], network, offset));
      }
      r := ReadAfterMagic(offset);
    }

    method AllBlocks() returns (r: Result<seq<ParsedBlock>, (nat, FileError)>)
      requires Valid()
      modifies reader
      ensures Valid()
      ensures r == BlockFiles.AllBlocks(reader.Plain(), reader.xorKey, network, old(reader.offset))
    {
      var blocks := [];
      while true
        invariant Valid()
        invariant AllBlocksFrom(reader.Plain(), reader.xorKey, network, reader.offset, blocks)
               == BlockFiles.AllBlocks(reader.Plain(), reader.xorKey, network, old(reader.offset))
        decreases |reader.disk| - reader.offset
      {
        var next := NextBlock();
        match next
        case Err(e) => return Err((|blocks|, e));
        case Ok(None) => return Ok(blocks);
        case Ok(Some(block)) => blocks := blocks + [block];
      }
    }
  }

  /** Parses the files of a directory in order of their numbers. */
  class BlockDirectoryParser {
    const files: Files
    const xorKey: Option<XorKey>
    const network: Network
    var fileIndex: nat
    var currentParser: BlockFileParser?

    ghost predicate Valid()
      reads this, if currentParser == null then {} else {currentParser.reader}
    {
      currentParser != null ==>
        && currentParser.Valid()
        && currentParser.network == network && currentParser.reader.xorKey == xorKey
    }

    /** Where the parser stands. */
    ghost function At(): Cursor
      reads this, if currentParser == null then {} else {currentParser.reader}
    {
      Cursor(fileIndex,
             if currentParser == null then None
             else Some((currentParser.reader.disk, currentParser.reader.offset)))
    }

    constructor (files: Files, xorKey: XorKey, network: Network)
      ensures Valid() && this.files == files && this.network == network && At() == Cursor(0, None)
      ensures this.xorKey == if forall b :: b in xorKey ==> b == 0 then None else Some(xorKey)
    {
      this.files, this.network := files, network;
      this.xorKey := if forall b | b in xorKey :: b == 0 then None else Some(xorKey);
      fileIndex := 0;
      currentParser := null;
    }

    method SetFileNumber(number: nat)
      requires Valid()
      modifies this`fileIndex
      ensures Valid() && At() == old(At()).(fileIndex := number)
    {
      fileIndex := number;
    }

    /** Opens the numbered file if none is open; reports whether there is one. */
    method GetOrInitParser() returns (ok: bool)
      requires Valid()
      modifies this`currentParser
      ensures Valid() && ok == (currentParser != null)
      ensures old(currentParser) != null ==> currentParser == old(currentParser) && At() == old(At())
      ensures old(currentParser) == null && currentParser != null ==>
                && fresh(currentParser) && fresh(currentParser.reader)
                && fileIndex in files && At() == Cursor(fileIndex, Some((files[fileIndex], 0)))
      ensures currentParser == null ==> fileIndex !in files
    {
      if currentParser == null && fileIndex in files {
        currentParser := new BlockFileParser(xorKey, files[fileIndex], network);
      }
      ok := currentParser != null;
    }

    method SetOffset(offset: nat) returns (ok: bool)
      requires Valid()
      modifies this`currentParser, if currentParser == null then {} else {currentParser.reader}
      ensures Valid()
      ensures match BlockDirectories.SetOffset(files, old(At()), offset)
              case Some(c) => ok && At() == c
              case None => !ok && At() == old(At())
    {
      ok := GetOrInitParser();
      if ok {
        currentParser.SetOffset(offset);
      }
    }

    method NextBlock() returns (r: Result<Option<ParsedBlock>, FileError>)
      requires Valid()
      modifies this`currentParser, this`fileIndex, if currentParser == null then {} else {currentParser.reader}
      ensures Valid()
      ensures Found(r, At()) == DirectoryNext(ParserOf(xorKey, network), files, old(At()))
    {
      ghost var next := ParserOf(xorKey, network);
      while true
        invariant Valid()
        invariant currentParser == old(currentParser) || currentParser == null || fresh(currentParser.reader)
        invariant DirectoryNext(next, files, At()) == DirectoryNext(next, files, old(At()))
        decreases Ahead(files, At()), if currentParser == null then 0 else 1
      {
        if currentParser != null {
          ghost var disk, offset := currentParser.reader.disk, currentParser.reader.offset;
          var found := currentParser.NextBlock();
          assert Outcome(found, currentParser.reader.offset) == next(disk, offset);
          if found != Ok(None) {
            return found;
          }
          ExhaustedGoesOn(next, files, Cursor(fileIndex, Some((disk, offset))));
          currentParser := null;
          fileIndex := fileIndex + 1;
        } else {
          if fileIndex !in files {
            return Ok(None);
          }
          OpeningGoesOn(next, files, fileIndex);
          currentParser := new BlockFileParser(xorKey, files[fileIndex], network);
        }
      }
    }
  }
}

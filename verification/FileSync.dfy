/** Block-file sync as the program runs it: a missing-block stack, a pending batch and a cache. */
module FileSyncs {
  import opened Common
  import opened BlockCaches
  import opened BlockFileSync

  class FileSync {
    var missingBlocks: seq<BlockHash>
    var pendingBlocks: seq<Block>
    var totalHandledBlocks: nat
    /** The blocks committed to the validator's database by this run. */
    var connected: seq<Block>
    const blockCache: BlockCache

    ghost predicate Valid()
      reads this, blockCache
    {
      blockCache.Valid() && blockCache.maxSize == MAX_BLOCK_CACHE_SIZE
    }

    ghost function View(): State
      reads this, blockCache
      requires Valid()
    {
      State(missingBlocks, pendingBlocks, connected, totalHandledBlocks, blockCache.Contents())
    }

    constructor (missing: seq<BlockHash>)
      ensures Valid() && fresh(blockCache)
      ensures View() == Start(missing)
    {
      missingBlocks := missing;
      pendingBlocks, connected, totalHandledBlocks := [], [], 0;
      blockCache := new BlockCache(MAX_BLOCK_CACHE_SIZE);
    }

    /** Works on a write transaction: `connected` changes only when the caller commits the result. */
    method HandleBlockBatch(judge: Judge, blocks: seq<Block>) returns (r: Batch)
      ensures r == BlockFileSync.HandleBlockBatch(judge, connected, blocks)
    {
      var txn := connected;
      var i := 0;
      while i < |blocks|
        invariant 0 <= i <= |blocks|
        invariant BlockFileSync.HandleBlockBatch(judge, connected, blocks)
               == BlockFileSync.HandleBlockBatch(judge, txn, blocks[i..])
      {
        var block := blocks[i];
        assert blocks[i..][0] == block && blocks[i..][1..] == blocks[i + 1..];
        match judge(txn, block) {
          case Connects => txn := txn + [block];
          case Rejects => return BatchDone(txn, Some(block.hash));
          case Fails => return BatchFailed;
        }
        i := i + 1;
      }
      return BatchDone(txn, None);
    }

    method ConnectPendingBlocks(judge: Judge) returns (r: Result<bool, SyncError>)
      requires Valid()
      modifies this
      ensures Valid()
      ensures var step := ConnectPending(judge, old(View())); View() == step.s && r == Answer(step)
    {
      var batch := HandleBlockBatch(judge, pendingBlocks);
      if batch.BatchFailed? {
        return Err(ConnectFailed);
      }
      ghost var before := connected;
      connected := batch.connected;
      if batch.rejected.None? {
        totalHandledBlocks := totalHandledBlocks + |pendingBlocks|;
        pendingBlocks := [];
        return Ok(true);
      }
      RejectedIsInBatch(judge, before, pendingBlocks);
      var rejectedIdx := RejectedIndex(batch.rejected.value);
      RestoreMissing(pendingBlocks[rejectedIdx..]);
      totalHandledBlocks := totalHandledBlocks + rejectedIdx;
      pendingBlocks := [];
      return Ok(false);
    }

    method RejectedIndex(rejected: BlockHash) returns (idx: nat)
      requires rejected in Hashes(pendingBlocks)
      ensures idx == PositionOf(pendingBlocks, rejected)
    {
      idx := 0;
      while pendingBlocks[idx].hash != rejected
        invariant 0 <= idx <= PositionOf(pendingBlocks, rejected)
        decreases |pendingBlocks| - idx
      {
        idx := idx + 1;
      }
    }

    /** Put unconnected blocks back so that the first of them is the next expected one. */
    method RestoreMissing(tail: seq<Block>)
      modifies this`missingBlocks
      ensures missingBlocks == old(missingBlocks) + Reverse(Hashes(tail))
    {
      var i := |tail|;
      while i > 0
        invariant 0 <= i <= |tail|
        invariant missingBlocks == old(missingBlocks) + Reverse(Hashes(tail[i..]))
      {
        i := i - 1;
        assert Hashes(tail[i..]) == [tail[i].hash] + Hashes(tail[i + 1..]);
        missingBlocks := missingBlocks + [tail[i].hash];
      }
      assert tail[0..] == tail;
    }

    /** Connect when the batch is full or nothing is missing any more. */
    method ConnectIfDue(judge: Judge) returns (r: Result<bool, SyncError>)
      requires Valid()
      modifies this
      ensures Valid()
      ensures var step := BlockFileSync.ConnectIfDue(judge, old(View())); View() == step.s && r == Answer(step)
    {
      if |pendingBlocks| >= BLOCKS_DIR_CONNECT_BATCH_SIZE || missingBlocks == [] {
        r := ConnectPendingBlocks(judge);
      } else {
        r := Ok(true);
      }
    }

    method ProcessCachedBlocks(judge: Judge) returns (r: Result<bool, SyncError>)
      requires Valid()
      modifies this, blockCache
      ensures Valid()
      ensures var step := ProcessCached(judge, old(View())); View() == step.s && r == Answer(step)
    {
      ghost var start := View();
      while |missingBlocks| > 0
        invariant Valid()
        invariant ProcessCached(judge, View()) == ProcessCached(judge, start)
        decreases |missingBlocks|
      {
        ghost var now := View();
        var expected := missingBlocks[|missingBlocks| - 1];
        var cached := blockCache.Remove(expected);
        if cached.None? {
          assert View() == now;
          return Ok(true);
        }
        pendingBlocks := pendingBlocks + [cached.value];
        missingBlocks := missingBlocks[..|missingBlocks| - 1];
        assert View() == Take(now, cached.value).(cache := FifoRemove(now.cache, expected));
        r := ConnectIfDue(judge);
        if r != Ok(true) {
          return;
        }
      }
      return Ok(true);
    }

    /** Process any remaining blocks of the current batch; a rejection is not an error here. */
    method FlushPending(judge: Judge) returns (r: Result<bool, SyncError>)
      requires Valid()
      modifies this
      ensures Valid()
      ensures var step := Flush(judge, old(View())); View() == step.s && r == Answer(step)
    {
      if pendingBlocks != [] {
        r := ConnectPendingBlocks(judge);
      } else {
        r := Ok(true);
      }
    }

    /** The batch left over at the end of file sync, and the count that is returned. */
    method FinishSync(judge: Judge) returns (r: Result<nat, SyncError>)
      requires Valid()
      modifies this
      ensures Valid()
      ensures Finish(judge, old(View())) == Outcome(View(), r)
    {
      var flushed := FlushPending(judge);
      if flushed.Err? {
        return Err(flushed.error);
      }
      return Ok(totalHandledBlocks % 0x1_0000_0000);
    }

    method Cache(block: Block)
      requires Valid()
      modifies blockCache
      ensures Valid()
      ensures View() == Store(old(View()), block)
    {
      blockCache.Insert(block.hash, block);
    }

    /** One round of the main loop after an item was read: the answer is None if the loop goes on. */
    method ReadItem(judge: Judge, first: BlockHash, item: Item, found: bool, noMatch: nat)
      returns (answer: Option<Result<nat, SyncError>>, found': bool, noMatch': nat)
      requires Valid()
      modifies this, blockCache
      ensures Valid()
      ensures Read(judge, first, item, old(View()), found, noMatch)
           == if answer.None? then Next(View(), found', noMatch') else Leave(Outcome(View(), answer.value))
    {
      found', noMatch' := found, noMatch;
      if item.Unreadable? {
        return Some(Err(ParseFailed)), found', noMatch';
      }
      var block := item.block;
      if !found && block.hash != first {
        if !item.txDataDecodes {
          return Some(Err(ParseFailed)), found', noMatch';
        }
        Cache(block);
        return None, found', noMatch';
      }
      found' := true;
      if missingBlocks == [] {
        var r := FinishSync(judge);
        return Some(r), found', noMatch';
      }
      if !item.txDataDecodes {
        return Some(Err(ParseFailed)), found', noMatch';
      }
      if block.hash == missingBlocks[|missingBlocks| - 1] {
        noMatch' := 0;
        var connectedSoFar := TakeExpected(judge, block);
        if connectedSoFar.Err? {
          return Some(Err(connectedSoFar.error)), found', noMatch';
        }
        if !connectedSoFar.value {
          var r := FinishSync(judge);
          return Some(r), found', noMatch';
        }
      } else {
        Cache(block);
        noMatch' := noMatch + 1;
        if noMatch' >= MAX_ITERATIONS_WITHOUT_MATCH {
          var flushed := FlushPending(judge);
          if flushed.Err? {
            return Some(Err(flushed.error)), found', noMatch';
          }
          var r := FinishSync(judge);
          return Some(r), found', noMatch';
        }
      }
      return None, found', noMatch';
    }

    method SyncFromDirectory(judge: Judge, cancel: Cancel, items: seq<Item>) returns (r: Result<nat, SyncError>)
      requires Valid() && missingBlocks != [] && View() == Start(missingBlocks)
      modifies this, blockCache
      ensures Valid()
      ensures Outcome(View(), r) == BlockFileSync.SyncFromDirectory(judge, cancel, items, old(missingBlocks))
    {
      var first := missingBlocks[|missingBlocks| - 1];
      var found, noMatch, iter := false, 0, 0;
      var rest := items;
      ghost var expected := BlockFileSync.SyncFromDirectory(judge, cancel, items, missingBlocks);
      while true
        invariant Valid()
        invariant noMatch >= 0 && iter >= 0
        invariant SyncLoop(judge, cancel, first, rest, View(), found, noMatch, iter) == expected
        decreases |rest|
      {
        if iter % 100 == 0 && cancel(iter) {
          var flushed := FlushPending(judge);
          return Err(if flushed.Err? then flushed.error else Shutdown);
        }
        if rest == [] {
          r := FinishSync(judge);
          return;
        }
        var answer, found', noMatch' := ReadItem(judge, first, rest[0], found, noMatch);
        if answer.Some? {
          return answer.value;
        }
        found, noMatch, iter, rest := found', noMatch', iter + 1, rest[1..];
      }
    }

    /** The expected block was found in the files: batch it, then look in the cache. */
    method TakeExpected(judge: Judge, block: Block) returns (r: Result<bool, SyncError>)
      requires Valid() && missingBlocks != []
      modifies this, blockCache
      ensures Valid()
      ensures var step := Expected(judge, old(View()), block); View() == step.s && r == Answer(step)
    {
      pendingBlocks := pendingBlocks + [block];
      missingBlocks := missingBlocks[..|missingBlocks| - 1];
      assert View() == Take(old(View()), block);
      r := ConnectIfDue(judge);
      if r == Ok(true) {
        r := ProcessCachedBlocks(judge);
      }
    }
  }

  /** The answer of a method that took the given step. */
  function Answer(step: Step): Result<bool, SyncError> {
    match step
    case Going(_) => Ok(true)
    case Halted(_) => Ok(false)
    case Failed(_) => Err(ConnectFailed)
  }
}

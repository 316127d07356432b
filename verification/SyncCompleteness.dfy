/** What a block-file sync achieves, read off the stream before it starts. */
module SyncCompleteness {
  import opened Common
  import opened BlockCaches
  import opened BlockFileSync

  // ---------------------------------------------------------------- the stream

  predicate HasHash(item: Item, h: BlockHash) {
    item.Parsed? && item.block.hash == h
  }

  ghost predicate Holds(items: seq<Item>, h: BlockHash) {
    exists i :: 0 <= i < |items| && HasHash(items[i], h)
  }

  /** Where a block is read first. */
  ghost function FirstAt(items: seq<Item>, h: BlockHash): (i: nat)
    requires Holds(items, h)
    ensures i < |items| && HasHash(items[i], h)
    ensures forall j :: 0 <= j < i ==> !HasHash(items[j], h)
  {
    if HasHash(items[0], h) then 0
    else
      assert Holds(items[1..], h) by {
        var i :| 0 <= i < |items| && HasHash(items[i], h);
        assert HasHash(items[1..][i - 1], h);
      }
      1 + FirstAt(items[1..], h)
  }

  /** How many blocks, from the first one due, the items hold without a gap. */
  ghost function HeldPrefix(items: seq<Item>, due: seq<BlockHash>): (n: nat)
    ensures n <= |due|
    ensures forall j :: 0 <= j < n ==> Holds(items, due[j])
    ensures n < |due| ==> !Holds(items, due[n])
  {
    HeldFrom(items, due, 0)
  }

  ghost function HeldFrom(items: seq<Item>, due: seq<BlockHash>, n: nat): (r: nat)
    requires n <= |due|
    ensures n <= r <= |due|
    ensures forall j :: n <= j < r ==> Holds(items, due[j])
    ensures r < |due| ==> !Holds(items, due[r])
    decreases |due| - n
  {
    if n < |due| && Holds(items, due[n]) then HeldFrom(items, due, n + 1) else n
  }

  lemma HeldPrefixIs(items: seq<Item>, due: seq<BlockHash>, n: nat)
    requires n <= |due| && (forall j :: 0 <= j < n ==> Holds(items, due[j]))
    requires n < |due| ==> !Holds(items, due[n])
    ensures HeldPrefix(items, due) == n
  {
  }

  lemma HoldsMore(items: seq<Item>, i: nat, h: BlockHash)
    requires i < |items|
    ensures Holds(items[..i + 1], h) <==> Holds(items[..i], h) || HasHash(items[i], h)
  {
    if Holds(items[..i], h) {
      var j :| 0 <= j < i && HasHash(items[..i][j], h);
      assert HasHash(items[..i + 1][j], h);
    }
    if HasHash(items[i], h) {
      assert HasHash(items[..i + 1][i], h);
    }
    if Holds(items[..i + 1], h) && !HasHash(items[i], h) {
      var j :| 0 <= j < i + 1 && HasHash(items[..i + 1][j], h);
      assert HasHash(items[..i][j], h);
    }
  }

  lemma HeldIsReadBefore(items: seq<Item>, i: nat, h: BlockHash)
    requires i <= |items| && Holds(items[..i], h)
    ensures Holds(items, h) && FirstAt(items, h) < i
  {
    var j :| 0 <= j < i && HasHash(items[..i][j], h);
    assert HasHash(items[j], h);
  }

  lemma NotHeldIsReadLater(items: seq<Item>, i: nat, h: BlockHash)
    requires i <= |items| && !Holds(items[..i], h) && Holds(items, h)
    ensures FirstAt(items, h) >= i
  {
  }

  /** When the first `n` blocks due have all been read. */
  ghost function Turn(items: seq<Item>, due: seq<BlockHash>, n: nat): (i: nat)
    requires 0 < n <= |due| && forall j :: 0 <= j < n ==> Holds(items, due[j])
    ensures forall j :: 0 <= j < n ==> FirstAt(items, due[j]) <= i
    ensures exists j :: 0 <= j < n && FirstAt(items, due[j]) == i
  {
    var last := FirstAt(items, due[n - 1]);
    if n == 1 then last
    else
      var before := Turn(items, due, n - 1);
      if last <= before then before else last
  }

  /** No undecodable block and no damaged record. */
  predicate Readable(item: Item) {
    item.Parsed? && item.txDataDecodes
  }

  predicate AllDecode(items: seq<Item>) {
    forall i :: 0 <= i < |items| ==> Readable(items[i])
  }

  /** The validator accepts the due blocks in their order. */
  ghost predicate AcceptsDue(judge: Judge, due: seq<BlockHash>) {
    forall connected: seq<Block>, block: Block {:trigger judge(connected, block)} ::
      Hashes(connected) + [block.hash] <= due ==> judge(connected, block) == Connects
  }

  // ---------------------------------------------------------------- no error, nothing lost

  /** The validator makes up its mind on every due block whose turn it is. */
  ghost predicate NeverFails(judge: Judge, due: seq<BlockHash>) {
    forall connected: seq<Block>, block: Block {:trigger judge(connected, block)} ::
      Hashes(connected) + [block.hash] <= due ==> judge(connected, block) != Fails
  }

  /** Once nothing is missing nothing waits either. */
  predicate Settled(s: State) {
    s.missing == [] ==> s.pending == []
  }

  lemma FirstIsDue(due: seq<BlockHash>, connected: seq<Block>, blocks: seq<Block>)
    requires blocks != [] && Hashes(connected) + Hashes(blocks) <= due
    ensures Hashes(connected) + [blocks[0].hash] <= due
    ensures Hashes(connected + [blocks[0]]) + Hashes(blocks[1..]) <= due
  {
    assert Hashes(blocks)[0] == blocks[0].hash;
    assert Hashes(connected) + [blocks[0].hash] <= Hashes(connected) + Hashes(blocks);
    assert Hashes(connected + [blocks[0]]) + Hashes(blocks[1..]) == Hashes(connected) + Hashes(blocks);
  }

  lemma {:induction false} BatchNeverFails(judge: Judge, due: seq<BlockHash>, connected: seq<Block>, blocks: seq<Block>)
    requires NeverFails(judge, due) && Hashes(connected) + Hashes(blocks) <= due
    ensures HandleBlockBatch(judge, connected, blocks).BatchDone?
    decreases |blocks|
  {
    if blocks != [] {
      FirstIsDue(due, connected, blocks);
      BatchNeverFails(judge, due, connected + [blocks[0]], blocks[1..]);
    }
  }

  lemma ConnectNeverFails(judge: Judge, s: State, due: seq<BlockHash>)
    requires NeverFails(judge, due) && Good(s, due)
    ensures !ConnectPending(judge, s).Failed? && !Flush(judge, s).Failed? && Finish(judge, s).result.Ok?
  {
    var all := Hashes(s.connected) + Hashes(s.pending);
    assert all == due[..|all|];
    BatchNeverFails(judge, due, s.connected, s.pending);
  }

  lemma {:induction false} ProcessCachedNeverFails(judge: Judge, s: State, due: seq<BlockHash>)
    requires NeverFails(judge, due) && Good(s, due) && Settled(s)
    ensures !ProcessCached(judge, s).Failed?
    ensures ProcessCached(judge, s).Going? ==> Settled(ProcessCached(judge, s).s)
    decreases |s.missing|
  {
    if s.missing != [] {
      var expected := s.missing[|s.missing| - 1];
      if FifoLookup(s.cache, expected).Some? {
        var block := FifoLookup(s.cache, expected).value;
        var s0 := s.(cache := FifoRemove(s.cache, expected));
        CachedBlockHasItsHash(s, due, expected);
        TakeIsGood(s0, block, due);
        var s1 := Take(s0, block);
        ConnectNeverFails(judge, s1, due);
        ConnectPendingIsGood(judge, s1, due);
        assert s1 == Take(s, block).(cache := FifoRemove(s.cache, expected));
        if ConnectIfDue(judge, s1).Going? {
          ProcessCachedNeverFails(judge, ConnectIfDue(judge, s1).s, due);
        }
      }
    }
  }

  lemma ExpectedNeverFails(judge: Judge, s: State, block: Block, due: seq<BlockHash>)
    requires NeverFails(judge, due) && Good(s, due)
    requires s.missing != [] && block.hash == s.missing[|s.missing| - 1]
    ensures !Expected(judge, s, block).Failed?
    ensures Expected(judge, s, block).Going? ==> Settled(Expected(judge, s, block).s)
    ensures Expected(judge, s, block).Halted? ==> Finish(judge, Expected(judge, s, block).s).result.Ok?
  {
    var s1 := Take(s, block);
    TakeIsGood(s, block, due);
    ConnectNeverFails(judge, s1, due);
    ConnectPendingIsGood(judge, s1, due);
    ExpectedIsGood(judge, s, block, due);
    if ConnectIfDue(judge, s1).Going? {
      ProcessCachedNeverFails(judge, ConnectIfDue(judge, s1).s, due);
    }
    ConnectNeverFails(judge, Expected(judge, s, block).s, due);
  }

  /** The run ended without an error of the validator; only an unreadable item ends it badly. */
  ghost predicate EndsUnfailed(out: Outcome, allRead: bool) {
    && (out.result.Ok? || out.result == Err(Shutdown) || (out.result == Err(ParseFailed) && !allRead))
    && (out.result == Err(ParseFailed) ==> Settled(out.s))
  }

  lemma StopNeverFails(judge: Judge, s: State, due: seq<BlockHash>)
    requires NeverFails(judge, due) && Good(s, due)
    ensures !Flush(judge, s).Failed? && Finish(judge, Flush(judge, s).s).result.Ok?
  {
    ConnectNeverFails(judge, s, due);
    FlushIsGood(judge, s, due);
    ConnectNeverFails(judge, Flush(judge, s).s, due);
  }

  lemma ReadNeverFails(judge: Judge, first: BlockHash, item: Item, s: State, found: bool, noMatch: nat,
                       due: seq<BlockHash>)
    requires NeverFails(judge, due) && Good(s, due) && Settled(s)
    ensures match Read(judge, first, item, s, found, noMatch)
            case Next(s', _, _) => Settled(s')
            case Leave(out) => EndsUnfailed(out, Readable(item))
  {
    ConnectNeverFails(judge, s, due);
    if item.Parsed? {
      var block := item.block;
      StoreIsGood(s, block, due);
      StopNeverFails(judge, Store(s, block), due);
      if s.missing != [] && block.hash == s.missing[|s.missing| - 1] {
        ExpectedNeverFails(judge, s, block, due);
      }
    }
  }

  lemma {:induction false} LoopNeverFails(judge: Judge, cancel: Cancel, first: BlockHash, items: seq<Item>, s: State,
                                          found: bool, noMatch: nat, iter: nat, due: seq<BlockHash>)
    requires NeverFails(judge, due) && Good(s, due) && Settled(s)
    ensures EndsUnfailed(SyncLoop(judge, cancel, first, items, s, found, noMatch, iter), AllDecode(items))
    decreases |items|
  {
    ConnectNeverFails(judge, s, due);
    if items != [] {
      ReadNeverFails(judge, first, items[0], s, found, noMatch, due);
      ReadIsGood(judge, first, items[0], s, found, noMatch, due);
      match Read(judge, first, items[0], s, found, noMatch)
      case Next(s', found', noMatch') =>
        LoopNeverFails(judge, cancel, first, items[1..], s', found', noMatch', iter + 1, due);
      case Leave(_) =>
    }
  }

  /** Without an error of the validator only an unreadable item can end a sync badly. */
  lemma SyncNeverFails(judge: Judge, cancel: Cancel, items: seq<Item>, missing: seq<BlockHash>)
    requires missing != [] && Distinct(missing) && NeverFails(judge, Reverse(missing))
    ensures EndsUnfailed(SyncFromDirectory(judge, cancel, items, missing), AllDecode(items))
  {
    StartIsGood(missing);
    LoopNeverFails(judge, cancel, missing[|missing| - 1], items, Start(missing), false, 0, 0, Reverse(missing));
  }

  /** Readable files and no validator error: the balance is kept in every order, cancelled or rejected. */
  lemma ReadableFilesConserve(judge: Judge, cancel: Cancel, items: seq<Item>, missing: seq<BlockHash>)
    requires missing != [] && Distinct(missing)
    requires AllDecode(items) && NeverFails(judge, Reverse(missing))
    ensures var out := SyncFromDirectory(judge, cancel, items, missing);
            (out.result.Ok? || out.result == Err(Shutdown)) && Conserved(missing, out.s)
  {
    SyncNeverFails(judge, cancel, items, missing);
    SyncConserves(judge, cancel, items, missing);
  }

  // ---------------------------------------------------------------- a validator that accepts what is due

  lemma {:induction false} BatchConnectsAll(judge: Judge, due: seq<BlockHash>, connected: seq<Block>,
                                            blocks: seq<Block>)
    requires AcceptsDue(judge, due) && Hashes(connected) + Hashes(blocks) <= due
    ensures HandleBlockBatch(judge, connected, blocks) == BatchDone(connected + blocks, None)
    decreases |blocks|
  {
    if blocks == [] {
      assert connected + blocks == connected;
    } else {
      FirstIsDue(due, connected, blocks);
      BatchConnectsAll(judge, due, connected + [blocks[0]], blocks[1..]);
      assert connected + [blocks[0]] + blocks[1..] == connected + blocks;
    }
  }

  lemma PendingConnects(judge: Judge, s: State, due: seq<BlockHash>)
    requires AcceptsDue(judge, due) && Good(s, due)
    ensures ConnectPending(judge, s)
         == Going(s.(connected := s.connected + s.pending, total := s.total + |s.pending|, pending := []))
    ensures Flush(judge, s).Going? && Flush(judge, s).s.missing == s.missing
    ensures Finish(judge, s).result.Ok? && Finish(judge, s).s.missing == s.missing
  {
    var all := Hashes(s.connected) + Hashes(s.pending);
    assert all == due[..|all|];
    BatchConnectsAll(judge, due, s.connected, s.pending);
  }

  /** How many blocks are no longer on the stack. */
  function Taken(s: State, due: seq<BlockHash>): int {
    |due| - |s.missing|
  }

  lemma MissingIsTheRest(s: State, due: seq<BlockHash>)
    requires Good(s, due)
    ensures 0 <= Taken(s, due) <= |due|
    ensures s.missing != [] ==> s.missing[|s.missing| - 1] == due[Taken(s, due)]
  {
    var front := Hashes(s.connected) + Hashes(s.pending);
    assert due == front + Reverse(s.missing);
    if s.missing != [] {
      assert due[|front|] == Reverse(s.missing)[0];
    }
  }

  // ---------------------------------------------------------------- how old the cached blocks are

  /** Counted from the back, an entry's place in the queue is no more than the items read since it came. */
  ghost predicate Aged(cache: seq<Entry>, items: seq<Item>, i: nat)
    requires i <= |items|
  {
    forall k {:trigger AgedAt(cache, items, i, k)} :: 0 <= k < |cache| ==> AgedAt(cache, items, i, k)
  }

  ghost predicate AgedAt(cache: seq<Entry>, items: seq<Item>, i: nat, k: nat)
    requires i <= |items| && k < |cache|
  {
    Holds(items[..i], cache[k].hash) && Holds(items, cache[k].hash) && |cache| - k <= i - FirstAt(items, cache[k].hash)
  }

  lemma RemoveKeepsAged(cache: seq<Entry>, items: seq<Item>, i: nat, h: BlockHash)
    requires i <= |items| && Aged(cache, items, i)
    ensures Aged(FifoRemove(cache, h), items, i)
  {
    if Has(cache, h) {
      var p := FifoPosition(cache, h);
      DropKeepsAged(cache, items, i, p, cache[..p] + cache[p + 1..]);
    }
  }

  lemma DropKeepsAged(cache: seq<Entry>, items: seq<Item>, i: nat, p: nat, rest: seq<Entry>)
    requires i <= |items| && Aged(cache, items, i) && p < |cache| && rest == cache[..p] + cache[p + 1..]
    ensures Aged(rest, items, i)
  {
    forall k | 0 <= k < |rest| ensures AgedAt(rest, items, i, k) {
      assert AgedAt(cache, items, i, if k < p then k else k + 1);
    }
  }

  /** Storing the item read makes everything one item older; only the oldest entry can be lost. */
  lemma StoreKeepsAged(cache: seq<Entry>, items: seq<Item>, i: nat, block: Block)
    requires i < |items| && HasHash(items[i], block.hash) && Aged(cache, items, i) && |cache| <= MAX_BLOCK_CACHE_SIZE
    ensures Aged(FifoInsert(cache, MAX_BLOCK_CACHE_SIZE, Entry(block.hash, block)), items, i + 1)
  {
    var e := Entry(block.hash, block);
    var cache' := FifoInsert(cache, MAX_BLOCK_CACHE_SIZE, e);
    var dropped, i' := |cache| + 1 - |cache'|, i + 1;
    forall k | 0 <= k < |cache'| ensures AgedAt(cache', items, i', k) {
      HoldsMore(items, i, cache'[k].hash);
      if Has(cache, e.hash) {
        assert AgedAt(cache, items, i, k);
      } else if k < |cache'| - 1 {
        assert cache'[k] == cache[k + dropped];
        assert AgedAt(cache, items, i, k + dropped);
      } else {
        HeldIsReadBefore(items, i + 1, e.hash);
      }
    }
  }

  lemma StoreKeepsYoung(cache: seq<Entry>, items: seq<Item>, i: nat, block: Block, h: BlockHash)
    requires i < |items| && Aged(cache, items, i) && |cache| <= MAX_BLOCK_CACHE_SIZE && Has(cache, h)
    requires Holds(items, h) && i - FirstAt(items, h) < MAX_BLOCK_CACHE_SIZE
    ensures Has(FifoInsert(cache, MAX_BLOCK_CACHE_SIZE, Entry(block.hash, block)), h)
  {
    var e, p := Entry(block.hash, block), FifoPosition(cache, h);
    var cache' := FifoInsert(cache, MAX_BLOCK_CACHE_SIZE, e);
    assert AgedAt(cache, items, i, p);
    if !Has(cache, e.hash) {
      var dropped := |cache| + 1 - |cache'|;
      assert cache'[p - dropped].hash == h;
    }
  }

  // ---------------------------------------------------------------- the invariant of a run

  /** Every block read that is still due is in the cache. */
  ghost predicate Kept(s: State, items: seq<Item>, i: nat, due: seq<BlockHash>)
    requires i <= |items|
  {
    forall j :: 0 <= j < |due| && Taken(s, due) <= j && Holds(items[..i], due[j]) ==> Has(s.cache, due[j])
  }

  /** After `i` items: everything that could be taken was, the rest that was read is cached. */
  ghost predicate Collects(s: State, found: bool, noMatch: nat, items: seq<Item>, i: nat, due: seq<BlockHash>)
    requires i <= |items|
  {
    && Good(s, due) && 0 <= Taken(s, due) <= |due|
    && |s.cache| <= MAX_BLOCK_CACHE_SIZE && Aged(s.cache, items, i)
    && Kept(s, items, i, due)
    && HeldPrefix(items[..i], due) == Taken(s, due)
    && InStride(Taken(s, due), found, noMatch, items, i, due)
  }

  /** The counter tells how many items were read since the last block was taken. */
  ghost predicate InStride(n: nat, found: bool, noMatch: nat, items: seq<Item>, i: nat, due: seq<BlockHash>)
    requires n <= |due| && i <= |items|
  {
    if !found then n == 0 && noMatch == 0
    else n > 0 && (forall j :: 0 <= j < n ==> Holds(items, due[j])) && noMatch + Turn(items, due, n) + 1 == i
  }

  /** The next item can be read without losing a due block from the cache or giving up. */
  ghost predicate Unhurried(items: seq<Item>, due: seq<BlockHash>, i: nat)
    requires i < |items|
  {
    var n := HeldPrefix(items[..i], due);
    n < |due| && !HasHash(items[i], due[n]) ==>
      && (forall j :: n <= j < |due| && Holds(items[..i], due[j]) ==>
            Holds(items, due[j]) && i - FirstAt(items, due[j]) < 5000)
      && (n > 0 ==>
            && (forall j :: 0 <= j < n ==> Holds(items, due[j]))
            && i - Turn(items, due, n) < 5000)
  }

  /** One block is taken out of the cache and off the stack. */
  lemma CachedIsTaken(judge: Judge, s: State, items: seq<Item>, i: nat, due: seq<BlockHash>) returns (s1: State)
    requires AcceptsDue(judge, due) && Good(s, due) && i <= |items| && Aged(s.cache, items, i)
    requires 0 <= Taken(s, due) < |due| && s.missing != [] && s.missing[|s.missing| - 1] == due[Taken(s, due)]
    requires Has(s.cache, due[Taken(s, due)])
    ensures ProcessCached(judge, s) == ProcessCached(judge, s1)
    ensures Good(s1, due) && Aged(s1.cache, items, i) && |s1.cache| <= |s.cache|
    ensures Taken(s1, due) == Taken(s, due) + 1
    ensures forall j :: Taken(s, due) < j < |due| ==> (Has(s1.cache, due[j]) <==> Has(s.cache, due[j]))
  {
    var n, expected := Taken(s, due), due[Taken(s, due)];
    var block := FifoLookup(s.cache, expected).value;
    var s0 := s.(cache := FifoRemove(s.cache, expected));
    CachedBlockHasItsHash(s, due, expected);
    RemoveKeepsAged(s.cache, items, i, expected);
    RemoveStaysBounded(s.cache, expected);
    TakeIsGood(s0, block, due);
    PendingConnects(judge, Take(s0, block), due);
    ConnectPendingIsGood(judge, Take(s0, block), due);
    s1 := ConnectIfDue(judge, Take(s0, block)).s;
    assert Take(s0, block) == Take(s, block).(cache := FifoRemove(s.cache, expected));
    forall j | n < j < |due| ensures Has(s1.cache, due[j]) <==> Has(s.cache, due[j]) {
      RemoveKeepsOthers(s.cache, expected, due[j]);
    }
  }

  /** Working through the cache takes blocks for as long as the next one is there, and loses no other. */
  lemma {:induction false} ProcessCachedTakes(judge: Judge, s: State, items: seq<Item>, i: nat, due: seq<BlockHash>)
    requires AcceptsDue(judge, due) && Good(s, due) && i <= |items| && Aged(s.cache, items, i)
    ensures ProcessCached(judge, s).Going?
    ensures var s' := ProcessCached(judge, s).s;
            && Good(s', due) && Aged(s'.cache, items, i) && |s'.cache| <= |s.cache|
            && 0 <= Taken(s, due) <= Taken(s', due) <= |due|
            && (forall j :: Taken(s, due) <= j < Taken(s', due) ==> Has(s.cache, due[j]))
            && (forall j :: Taken(s', due) <= j < |due| && Has(s.cache, due[j]) ==> Has(s'.cache, due[j]))
            && (Taken(s', due) < |due| ==> !Has(s'.cache, due[Taken(s', due)]))
    decreases |s.missing|
  {
    MissingIsTheRest(s, due);
    if s.missing != [] && Has(s.cache, due[Taken(s, due)]) {
      var s1 := CachedIsTaken(judge, s, items, i, due);
      ProcessCachedTakes(judge, s1, items, i, due);
    }
  }

  lemma RemoveKeepsOthers(q: seq<Entry>, h: BlockHash, k: BlockHash)
    requires DistinctHashes(q) && h != k
    ensures Has(FifoRemove(q, h), k) <==> Has(q, k)
    ensures |FifoRemove(q, h)| <= |q|
  {
    LookupAfterRemove(q, h, k);
  }

  // ---------------------------------------------------------------- one item

  lemma PrefixStays(items: seq<Item>, i: nat, due: seq<BlockHash>)
    requires i < |items|
    requires var n := HeldPrefix(items[..i], due); n == |due| || !HasHash(items[i], due[n])
    ensures HeldPrefix(items[..i + 1], due) == HeldPrefix(items[..i], due)
  {
    var n := HeldPrefix(items[..i], due);
    forall j | 0 <= j < |due|
      ensures Holds(items[..i + 1], due[j]) <==> Holds(items[..i], due[j]) || HasHash(items[i], due[j])
    {
      HoldsMore(items, i, due[j]);
    }
    HeldPrefixIs(items[..i + 1], due, n);
  }

  /** An item that is not the expected block goes to the cache; no due block is lost, nothing is given up. */
  lemma StoreCollects(s: State, block: Block, found: bool, noMatch: nat, items: seq<Item>, i: nat, due: seq<BlockHash>)
    requires i < |items| && Collects(s, found, noMatch, items, i, due) && Unhurried(items, due, i)
    requires items[i] == Parsed(block, true)
    requires Taken(s, due) < |due| && block.hash != due[Taken(s, due)]
    ensures Collects(Store(s, block), found, if found then noMatch + 1 else 0, items, i + 1, due)
    ensures found ==> noMatch + 1 < MAX_ITERATIONS_WITHOUT_MATCH
  {
    var n, s' := Taken(s, due), Store(s, block);
    StoreIsGood(s, block, due);
    InsertStaysBounded(s.cache, MAX_BLOCK_CACHE_SIZE, Entry(block.hash, block));
    StoreKeepsAged(s.cache, items, i, block);
    PrefixStays(items, i, due);
    forall j | 0 <= j < |due| && n <= j && Holds(items[..i + 1], due[j]) ensures Has(s'.cache, due[j]) {
      HoldsMore(items, i, due[j]);
      if Holds(items[..i], due[j]) {
        StoreKeepsYoung(s.cache, items, i, block, due[j]);
      }
    }
  }

  lemma CachedIsHeld(cache: seq<Entry>, items: seq<Item>, i: nat, h: BlockHash)
    requires i <= |items| && Aged(cache, items, i) && Has(cache, h)
    ensures Holds(items[..i], h)
  {
    assert AgedAt(cache, items, i, FifoPosition(cache, h));
  }

  lemma HeldAfterTaking(cache: seq<Entry>, items: seq<Item>, i: nat, h: BlockHash)
    requires i < |items| && Aged(cache, items, i)
    requires Holds(items[..i], h) || HasHash(items[i], h) || Has(cache, h)
    ensures Holds(items[..i + 1], h)
  {
    HoldsMore(items, i, h);
    if Has(cache, h) {
      CachedIsHeld(cache, items, i, h);
    }
  }

  /** After taking the block read and those cached behind it, the new count is the new prefix. */
  lemma NewPrefix(cache: seq<Entry>, items: seq<Item>, i: nat, due: seq<BlockHash>, n: nat, n': nat)
    requires i < |items| && Aged(cache, items, i) && n < n' <= |due| && Distinct(due)
    requires n' < |due| && Holds(items[..i], due[n']) ==> Has(cache, due[n'])
    requires HeldPrefix(items[..i], due) == n && HasHash(items[i], due[n])
    requires forall j :: n < j < n' ==> Has(cache, due[j])
    requires n' < |due| ==> !Has(cache, due[n'])
    ensures HeldPrefix(items[..i + 1], due) == n'
  {
    forall j | 0 <= j < n' ensures Holds(items[..i + 1], due[j]) {
      HeldAfterTaking(cache, items, i, due[j]);
    }
    if n' < |due| {
      HoldsMore(items, i, due[n']);
    }
    HeldPrefixIs(items[..i + 1], due, n');
  }

  lemma AgedLater(cache: seq<Entry>, items: seq<Item>, i: nat)
    requires i < |items| && Aged(cache, items, i)
    ensures Aged(cache, items, i + 1)
  {
    var i' := i + 1;
    forall k | 0 <= k < |cache| ensures AgedAt(cache, items, i', k) {
      assert AgedAt(cache, items, i, k);
      HoldsMore(items, i, cache[k].hash);
    }
  }

  lemma TurnIsNow(items: seq<Item>, i: nat, due: seq<BlockHash>, n: nat, n': nat)
    requires i < |items| && n < n' <= |due| && HeldPrefix(items[..i], due) == n
    requires HasHash(items[i], due[n]) && HeldPrefix(items[..i + 1], due) == n'
    ensures forall j :: 0 <= j < n' ==> Holds(items, due[j])
    ensures Turn(items, due, n') == i
  {
    forall j | 0 <= j < n' ensures Holds(items, due[j]) && FirstAt(items, due[j]) <= i {
      HeldIsReadBefore(items, i + 1, due[j]);
    }
    NotHeldIsReadLater(items, i, due[n]);
    assert FirstAt(items, due[n]) == i;
  }

  /** The step that takes an expected block and what follows it in the cache. */
  lemma ExpectedTakes(judge: Judge, s: State, block: Block, items: seq<Item>, i: nat, due: seq<BlockHash>)
    returns (n': nat)
    requires AcceptsDue(judge, due) && Good(s, due) && i <= |items| && Aged(s.cache, items, i)
    requires s.missing != [] && block.hash == s.missing[|s.missing| - 1]
    ensures Expected(judge, s, block).Going?
    ensures var s' := Expected(judge, s, block).s;
            && Good(s', due) && Aged(s'.cache, items, i) && |s'.cache| <= |s.cache| && n' == Taken(s', due)
            && (forall j :: n' <= j < |due| && Has(s.cache, due[j]) ==> Has(s'.cache, due[j]))
    ensures 0 <= Taken(s, due) < n' <= |due|
    ensures forall j :: Taken(s, due) < j < n' ==> Has(s.cache, due[j])
    ensures n' < |due| ==> !Has(s.cache, due[n'])
  {
    MissingIsTheRest(s, due);
    TakeIsGood(s, block, due);
    PendingConnects(judge, Take(s, block), due);
    ConnectPendingIsGood(judge, Take(s, block), due);
    var s1 := ConnectIfDue(judge, Take(s, block)).s;
    assert s1.cache == s.cache && Taken(s1, due) == Taken(s, due) + 1;
    ProcessCachedTakes(judge, s1, items, i, due);
    n' := Taken(ProcessCached(judge, s1).s, due);
  }

  lemma KeptAfter(s: State, s': State, items: seq<Item>, i: nat, due: seq<BlockHash>, n: nat, n': nat)
    requires i < |items| && Kept(s, items, i, due) && Distinct(due)
    requires Taken(s, due) == n < n' == Taken(s', due) <= |due|
    requires HasHash(items[i], due[n])
    requires forall j :: n' <= j < |due| && Has(s.cache, due[j]) ==> Has(s'.cache, due[j])
    ensures Kept(s', items, i + 1, due)
  {
    forall j | 0 <= j < |due| && n' <= j && Holds(items[..i + 1], due[j]) ensures Has(s'.cache, due[j]) {
      HoldsMore(items, i, due[j]);
      assert due[n] != due[j];
    }
  }

  /** The expected block is taken, and with it every cached block that follows without a gap. */
  lemma TakeCollects(judge: Judge, s: State, block: Block, found: bool, noMatch: nat, items: seq<Item>, i: nat,
                     due: seq<BlockHash>)
    requires AcceptsDue(judge, due) && i < |items| && Collects(s, found, noMatch, items, i, due)
    requires items[i] == Parsed(block, true)
    requires s.missing != [] && block.hash == s.missing[|s.missing| - 1]
    ensures Expected(judge, s, block).Going?
    ensures Collects(Expected(judge, s, block).s, true, 0, items, i + 1, due)
  {
    var n := Taken(s, due);
    MissingIsTheRest(s, due);
    var n' := ExpectedTakes(judge, s, block, items, i, due);
    var s' := Expected(judge, s, block).s;
    AgedLater(s'.cache, items, i);
    NewPrefix(s.cache, items, i, due, n, n');
    TurnIsNow(items, i, due, n, n');
    KeptAfter(s, s', items, i, due, n, n');
  }

  lemma ReadStores(judge: Judge, first: BlockHash, block: Block, s: State, found: bool, noMatch: nat)
    requires s.missing != [] && block.hash != s.missing[|s.missing| - 1]
    requires if found then noMatch + 1 < MAX_ITERATIONS_WITHOUT_MATCH else noMatch == 0 && block.hash != first
    ensures Read(judge, first, Parsed(block, true), s, found, noMatch)
         == Next(Store(s, block), found, if found then noMatch + 1 else 0)
  {
  }

  lemma ReadTakes(judge: Judge, first: BlockHash, block: Block, s: State, found: bool, noMatch: nat)
    requires s.missing != [] && block.hash == s.missing[|s.missing| - 1]
    requires (found || block.hash == first) && Expected(judge, s, block).Going?
    ensures Read(judge, first, Parsed(block, true), s, found, noMatch)
         == Next(Expected(judge, s, block).s, true, 0)
  {
  }

  /** Before the first block is found, it is the expected one. */
  lemma ExpectedIsDue(s: State, found: bool, noMatch: nat, items: seq<Item>, i: nat, due: seq<BlockHash>)
    requires i <= |items| && Collects(s, found, noMatch, items, i, due) && s.missing != []
    ensures 0 <= Taken(s, due) < |due| && s.missing[|s.missing| - 1] == due[Taken(s, due)]
    ensures !found ==> noMatch == 0 && due[Taken(s, due)] == due[0]
  {
    MissingIsTheRest(s, due);
  }

  /** One round of the loop while blocks are missing. */
  lemma ReadCollects(judge: Judge, s: State, found: bool, noMatch: nat, items: seq<Item>, i: nat, due: seq<BlockHash>)
    requires AcceptsDue(judge, due) && i < |items| && Collects(s, found, noMatch, items, i, due)
    requires Readable(items[i]) && Unhurried(items, due, i) && s.missing != []
    ensures |due| > 0
    ensures var r := Read(judge, due[0], items[i], s, found, noMatch);
            r.Next? && Collects(r.s, r.found, r.noMatch, items, i + 1, due)
  {
    var block := items[i].block;
    assert items[i] == Parsed(block, true);
    ExpectedIsDue(s, found, noMatch, items, i, due);
    if block.hash == s.missing[|s.missing| - 1] {
      TakeCollects(judge, s, block, found, noMatch, items, i, due);
      ReadTakes(judge, due[0], block, s, found, noMatch);
    } else {
      StoreCollects(s, block, found, noMatch, items, i, due);
      ReadStores(judge, due[0], block, s, found, noMatch);
    }
  }

  // ---------------------------------------------------------------- whole runs

  /** `b` is where the first unreadable item is, or the end. */
  ghost predicate ReadableUpTo(items: seq<Item>, b: nat) {
    b <= |items| && (forall i :: 0 <= i < b ==> Readable(items[i])) && (b < |items| ==> !Readable(items[b]))
  }

  /** No item before `b` makes the run lose a due block or give up. */
  ghost predicate Smooth(items: seq<Item>, due: seq<BlockHash>, b: nat) {
    b <= |items| && forall i :: 0 <= i < b ==> Unhurried(items, due, i)
  }

  lemma LoopStep(judge: Judge, cancel: Cancel, first: BlockHash, items: seq<Item>, i: nat, s: State, found: bool,
                 noMatch: nat, r: Round)
    requires i < |items| && !cancel(i) && r == Read(judge, first, items[i], s, found, noMatch) && r.Next?
    ensures SyncLoop(judge, cancel, first, items[i..], s, found, noMatch, i)
         == SyncLoop(judge, cancel, first, items[i + 1..], r.s, r.found, r.noMatch, i + 1)
  {
    assert items[i..][0] == items[i] && items[i..][1..] == items[i + 1..];
  }

  /** Reading on to item `b` or until nothing is missing; `k` is where that is. */
  lemma {:induction false} LoopCollects(judge: Judge, cancel: Cancel, s: State, found: bool, noMatch: nat,
                                        items: seq<Item>, i: nat, b: nat, due: seq<BlockHash>)
    returns (k: nat, s': State, found': bool, noMatch': nat)
    requires AcceptsDue(judge, due) && (forall n :: !cancel(n)) && due != []
    requires i <= b <= |items| && Collects(s, found, noMatch, items, i, due)
    requires ReadableUpTo(items, b) && Smooth(items, due, b)
    ensures i <= k <= b && Collects(s', found', noMatch', items, k, due)
    ensures k == b || s'.missing == []
    ensures SyncLoop(judge, cancel, due[0], items[i..], s, found, noMatch, i)
         == SyncLoop(judge, cancel, due[0], items[k..], s', found', noMatch', k)
    decreases b - i
  {
    if i == b || s.missing == [] {
      k, s', found', noMatch' := i, s, found, noMatch;
    } else {
      ReadCollects(judge, s, found, noMatch, items, i, due);
      var r := Read(judge, due[0], items[i], s, found, noMatch);
      LoopStep(judge, cancel, due[0], items, i, s, found, noMatch, r);
      k, s', found', noMatch' := LoopCollects(judge, cancel, r.s, r.found, r.noMatch, items, i + 1, b, due);
    }
  }

  lemma StartCollects(items: seq<Item>, missing: seq<BlockHash>)
    requires missing != [] && Distinct(missing)
    ensures Collects(Start(missing), false, 0, items, 0, Reverse(missing))
    ensures Reverse(missing) != [] && Reverse(missing)[0] == missing[|missing| - 1]
  {
    StartIsGood(missing);
    HeldPrefixIs(items[..0], Reverse(missing), 0);
  }

  /** Where the first unreadable item is, if any. */
  function FirstBad(items: seq<Item>): (b: nat)
    ensures b <= |items|
    ensures forall i :: 0 <= i < b ==> Readable(items[i])
    ensures b < |items| ==> !Readable(items[b])
  {
    if items == [] || !Readable(items[0]) then 0 else 1 + FirstBad(items[1..])
  }

  /** With nothing missing the run ends well, or at a damaged record. */
  lemma EndsWithNothingMissing(judge: Judge, cancel: Cancel, s: State, noMatch: nat, items: seq<Item>, k: nat,
                               due: seq<BlockHash>)
    requires AcceptsDue(judge, due) && Good(s, due) && s.missing == [] && k <= |items| && due != []
    requires forall n :: !cancel(n)
    ensures var out := SyncLoop(judge, cancel, due[0], items[k..], s, true, noMatch, k);
            && out.s.missing == []
            && (out.result.Ok? || (out.result == Err(ParseFailed) && k < |items| && !Readable(items[k])))
  {
    PendingConnects(judge, s, due);
    if k < |items| {
      assert items[k..][0] == items[k];
    }
  }

  /** With blocks missing, the run ends well at the end of the stream and badly at an unreadable item. */
  lemma EndsWithBlocksMissing(judge: Judge, cancel: Cancel, s: State, found: bool, noMatch: nat, items: seq<Item>,
                              b: nat, due: seq<BlockHash>)
    requires AcceptsDue(judge, due) && Good(s, due) && s.missing != [] && b <= |items| && due != []
    requires forall n :: !cancel(n)
    requires b < |items| ==> !Readable(items[b])
    ensures var out := SyncLoop(judge, cancel, due[0], items[b..], s, found, noMatch, b);
            && out.s.missing == s.missing
            && if b == |items| then out.result.Ok? else out.result == Err(ParseFailed)
  {
    PendingConnects(judge, s, due);
    if b < |items| {
      assert items[b..][0] == items[b];
    }
  }

  /** The end of a run that took `n` blocks. */
  ghost predicate EndsAt(out: Outcome, items: seq<Item>, b: nat, due: seq<BlockHash>, n: nat) {
    && |due| - |out.s.missing| == n
    && (out.result.Ok? || (out.result == Err(ParseFailed) && b < |items|))
    && (n < |due| && b < |items| ==> out.result == Err(ParseFailed))
  }

  lemma EndOfRun(judge: Judge, cancel: Cancel, s: State, found: bool, noMatch: nat, items: seq<Item>, k: nat, b: nat,
                 due: seq<BlockHash>)
    requires AcceptsDue(judge, due) && (forall i :: !cancel(i)) && due != [] && ReadableUpTo(items, b)
    requires k <= b && Collects(s, found, noMatch, items, k, due) && (k == b || s.missing == [])
    ensures EndsAt(SyncLoop(judge, cancel, due[0], items[k..], s, found, noMatch, k), items, b, due,
                   HeldPrefix(items[..b], due))
  {
    if s.missing == [] {
      PrefixIsAll(items, k, b, due);
      EndsWithNothingMissing(judge, cancel, s, noMatch, items, k, due);
    } else {
      EndsWithBlocksMissing(judge, cancel, s, found, noMatch, items, b, due);
    }
  }

  lemma LoopEndsAt(judge: Judge, cancel: Cancel, s: State, items: seq<Item>, b: nat, due: seq<BlockHash>)
    requires AcceptsDue(judge, due) && (forall i :: !cancel(i)) && due != []
    requires ReadableUpTo(items, b) && Smooth(items, due, b) && Collects(s, false, 0, items, 0, due)
    ensures EndsAt(SyncLoop(judge, cancel, due[0], items, s, false, 0, 0), items, b, due, HeldPrefix(items[..b], due))
  {
    var k, s', found, noMatch := LoopCollects(judge, cancel, s, false, 0, items, 0, b, due);
    assert items[0..] == items;
    EndOfRun(judge, cancel, s', found, noMatch, items, k, b, due);
  }

  lemma SyncIsLoop(judge: Judge, cancel: Cancel, items: seq<Item>, missing: seq<BlockHash>, due: seq<BlockHash>)
    requires missing != [] && due == Reverse(missing)
    ensures due != []
    ensures SyncFromDirectory(judge, cancel, items, missing)
         == SyncLoop(judge, cancel, due[0], items, Start(missing), false, 0, 0)
  {
  }

  /** The run up to the first unreadable item takes exactly the due blocks read by then without a gap. */
  lemma RunUpToFirstBad(judge: Judge, cancel: Cancel, items: seq<Item>, missing: seq<BlockHash>, b: nat)
    requires missing != [] && Distinct(missing)
    requires AcceptsDue(judge, Reverse(missing)) && (forall i :: !cancel(i))
    requires ReadableUpTo(items, b) && Smooth(items, Reverse(missing), b)
    ensures EndsAt(SyncFromDirectory(judge, cancel, items, missing), items, b, Reverse(missing),
                   HeldPrefix(items[..b], Reverse(missing)))
  {
    var due := Reverse(missing);
    SyncIsLoop(judge, cancel, items, missing, due);
    StartCollects(items, missing);
    LoopEndsAt(judge, cancel, Start(missing), items, b, due);
  }

  lemma PrefixIsAll(items: seq<Item>, k: nat, b: nat, due: seq<BlockHash>)
    requires k <= b <= |items| && HeldPrefix(items[..k], due) == |due|
    ensures HeldPrefix(items[..b], due) == |due|
  {
    forall j | 0 <= j < |due| ensures Holds(items[..b], due[j]) {
      var i :| 0 <= i < k && HasHash(items[..k][i], due[j]);
      assert HasHash(items[..b][i], due[j]);
    }
    HeldPrefixIs(items[..b], due, |due|);
  }

  // ---------------------------------------------------------------- exactly what a bad item loses

  /** A short stretch is never hurried: neither cache nor counter can run over. */
  lemma ShortIsUnhurried(items: seq<Item>, due: seq<BlockHash>, i: nat)
    requires i < |items| && i < MAX_BLOCK_CACHE_SIZE && i < MAX_ITERATIONS_WITHOUT_MATCH
    ensures Unhurried(items, due, i)
  {
    var n := HeldPrefix(items[..i], due);
    forall j | 0 <= j < |due| && Holds(items[..i], due[j]) ensures Holds(items, due[j]) {
      HeldIsReadBefore(items, i, due[j]);
    }
  }

  lemma ShortIsSmooth(items: seq<Item>, due: seq<BlockHash>, b: nat)
    requires b <= |items| && b <= MAX_BLOCK_CACHE_SIZE && b <= MAX_ITERATIONS_WITHOUT_MATCH
    ensures Smooth(items, due, b)
  {
    forall i | 0 <= i < b ensures Unhurried(items, due, i) {
      ShortIsUnhurried(items, due, i);
    }
  }

  /** A bad item stands behind due blocks that are not all of them and do not fill whole batches. */
  ghost predicate LosesBlocks(items: seq<Item>, due: seq<BlockHash>, b: nat)
    requires b <= |items|
  {
    && b < |items|
    && HeldPrefix(items[..b], due) < |due|
    && HeldPrefix(items[..b], due) % 2000 != 0
  }

  /**
   * Exactly when a file sync keeps the balance, by what the files hold, wherever the first unreadable
   * item is: there is none, or the due blocks before it, as far as they are held without a gap, are all
   * of them or fill whole batches. Any order, duplicates and foreign blocks are allowed, as long as no
   * item before the unreadable one makes the cache lose a due block or the sync give up.
   */
  lemma ConservedExactlyWhenRead(judge: Judge, cancel: Cancel, items: seq<Item>, missing: seq<BlockHash>,
                                 due: seq<BlockHash>, b: nat)
    requires missing != [] && Distinct(missing) && due == Reverse(missing)
    requires AcceptsDue(judge, due) && (forall i :: !cancel(i))
    requires b == FirstBad(items) && Smooth(items, due, b)
    ensures Conserved(missing, SyncFromDirectory(judge, cancel, items, missing).s) <==> !LosesBlocks(items, due, b)
  {
    RunUpToFirstBad(judge, cancel, items, missing, b);
    ConservedExactlyWhen(judge, cancel, items, missing);
  }

  /** With the first unreadable item among the first 5000 nothing more is asked of the stream. */
  lemma ConservedWithinReach(judge: Judge, cancel: Cancel, items: seq<Item>, missing: seq<BlockHash>,
                             due: seq<BlockHash>, b: nat)
    requires missing != [] && Distinct(missing) && due == Reverse(missing)
    requires AcceptsDue(judge, due) && (forall i :: !cancel(i))
    requires b == FirstBad(items) <= 5000
    ensures Conserved(missing, SyncFromDirectory(judge, cancel, items, missing).s) <==> !LosesBlocks(items, due, b)
  {
    ShortIsSmooth(items, due, b);
    ConservedExactlyWhenRead(judge, cancel, items, missing, due, b);
  }

  // ---------------------------------------------------------------- completeness

  /**
   * Every missing block stands in the stream within 5000 items of its turn: it is read no earlier than
   * that before the blocks due before it, and no later than that after them.
   */
  ghost predicate NearItsTurn(items: seq<Item>, due: seq<BlockHash>) {
    && (forall j :: 0 <= j < |due| ==> Holds(items, due[j]))
    && (forall j :: 0 <= j < |due| ==> Turn(items, due, j + 1) - FirstAt(items, due[j]) <= 5000)
    && (forall j :: 0 < j < |due| ==> FirstAt(items, due[j]) - Turn(items, due, j) <= 5000)
  }

  lemma NearIsYoung(items: seq<Item>, due: seq<BlockHash>, i: nat, n: nat, j: nat)
    requires NearItsTurn(items, due) && n <= j < |due| && FirstAt(items, due[n]) > i
    ensures i - FirstAt(items, due[j]) < MAX_BLOCK_CACHE_SIZE
  {
    assert Turn(items, due, j + 1) >= FirstAt(items, due[n]);
  }

  lemma NearIsInTime(items: seq<Item>, due: seq<BlockHash>, i: nat, n: nat)
    requires NearItsTurn(items, due) && 0 < n < |due| && FirstAt(items, due[n]) > i
    ensures i - Turn(items, due, n) < MAX_ITERATIONS_WITHOUT_MATCH
  {
  }

  lemma NotYetRead(items: seq<Item>, i: nat, h: BlockHash)
    requires i < |items| && Holds(items, h) && !Holds(items[..i], h) && !HasHash(items[i], h)
    ensures FirstAt(items, h) > i
  {
    NotHeldIsReadLater(items, i, h);
  }

  lemma NearIsUnhurried(items: seq<Item>, due: seq<BlockHash>, i: nat)
    requires i < |items| && NearItsTurn(items, due)
    ensures Unhurried(items, due, i)
  {
    var n := HeldPrefix(items[..i], due);
    if n < |due| && !HasHash(items[i], due[n]) {
      NotYetRead(items, i, due[n]);
      forall j | n <= j < |due| ensures i - FirstAt(items, due[j]) < MAX_BLOCK_CACHE_SIZE {
        NearIsYoung(items, due, i, n, j);
      }
      if n > 0 {
        NearIsInTime(items, due, i, n);
      }
    }
  }

  lemma NearIsSmooth(items: seq<Item>, due: seq<BlockHash>)
    requires NearItsTurn(items, due)
    ensures Smooth(items, due, |items|)
  {
    forall i | 0 <= i < |items| ensures Unhurried(items, due, i) {
      NearIsUnhurried(items, due, i);
    }
  }

  lemma NearIsHeld(items: seq<Item>, due: seq<BlockHash>)
    requires NearItsTurn(items, due)
    ensures HeldPrefix(items[..|items|], due) == |due|
  {
    assert items[..|items|] == items;
    HeldPrefixIs(items, due, |due|);
  }

  /**
   * Completeness, for streams of any length: when every missing block is read within 5000 items of its
   * turn, in any order and among any others, every missing block is connected.
   */
  lemma SyncCompletes(judge: Judge, cancel: Cancel, items: seq<Item>, missing: seq<BlockHash>)
    requires missing != [] && Distinct(missing)
    requires AcceptsDue(judge, Reverse(missing)) && (forall i :: !cancel(i)) && AllDecode(items)
    requires NearItsTurn(items, Reverse(missing))
    ensures var out := SyncFromDirectory(judge, cancel, items, missing);
            && out.result.Ok?
            && out.s.missing == []
            && Hashes(out.s.connected) == Reverse(missing)
  {
    NearIsSmooth(items, Reverse(missing));
    NearIsHeld(items, Reverse(missing));
    RunUpToFirstBad(judge, cancel, items, missing, |items|);
    AllConnected(judge, cancel, items, missing);
  }

  /** A run that ends well with nothing missing has connected everything. */
  lemma AllConnected(judge: Judge, cancel: Cancel, items: seq<Item>, missing: seq<BlockHash>)
    requires missing != [] && Distinct(missing)
    requires var out := SyncFromDirectory(judge, cancel, items, missing); out.result.Ok? && out.s.missing == []
    ensures Hashes(SyncFromDirectory(judge, cancel, items, missing).s.connected) == Reverse(missing)
  {
    SyncConserves(judge, cancel, items, missing);
    var connected := Hashes(SyncFromDirectory(judge, cancel, items, missing).s.connected);
    assert missing == [] + Reverse(connected);
    ReverseReverse(connected);
  }

  /** A stream of at most 5000 items that holds every missing block needs no more. */
  lemma ShortStreamsAreNear(items: seq<Item>, due: seq<BlockHash>)
    requires |items| <= 5000
    requires forall j :: 0 <= j < |due| ==> Holds(items, due[j])
    ensures NearItsTurn(items, due)
  {
  }
}

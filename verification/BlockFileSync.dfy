/** The functional specification of block-file sync and the properties of its runs. */
module BlockFileSync {
  import opened Common
  import opened BlockCaches

  const MAX_BLOCK_CACHE_SIZE: nat := 5000
  const MAX_ITERATIONS_WITHOUT_MATCH: nat := 5000
  const BLOCKS_DIR_CONNECT_BATCH_SIZE: nat := 2000

  /** What the validator says about one block. */
  datatype Verdict = Connects | Rejects | Fails

  /** The validator: an arbitrary function of the blocks connected so far and the next block. */
  type Judge = (seq<Block>, Block) -> Verdict

  /** Whether cancellation is seen at a given iteration. */
  type Cancel = nat -> bool

  /** What the block-file parser yields; a block's transaction data may fail to decode. */
  datatype Item = Parsed(block: Block, txDataDecodes: bool) | Unreadable

  datatype SyncError = Shutdown | ParseFailed | ConnectFailed

  /** `missing` is a stack: the next expected hash is its last element. */
  datatype State = State(
    missing: seq<BlockHash>,
    pending: seq<Block>,
    connected: seq<Block>,
    total: nat,
    cache: seq<Entry>)

  /** Going: Ok(true). Halted: Ok(false), a block was rejected. Failed: Err. */
  datatype Step = Going(s: State) | Halted(s: State) | Failed(s: State)

  datatype Outcome = Outcome(s: State, result: Result<nat, SyncError>)

  function Hashes(blocks: seq<Block>): (h: seq<BlockHash>)
    ensures |h| == |blocks|
    ensures forall i :: 0 <= i < |blocks| ==> h[i] == blocks[i].hash
  {
    seq(|blocks|, i requires 0 <= i < |blocks| => blocks[i].hash)
  }

  // ---------------------------------------------------------------- connecting a batch

  datatype Batch = BatchDone(connected: seq<Block>, rejected: Option<BlockHash>) | BatchFailed

  /** Connect blocks in order up to the first one that is rejected; an error undoes the batch. */
  function HandleBlockBatch(judge: Judge, connected: seq<Block>, blocks: seq<Block>): Batch
    decreases |blocks|
  {
    if blocks == [] then BatchDone(connected, None)
    else
      match judge(connected, blocks[0])
      case Connects => HandleBlockBatch(judge, connected + [blocks[0]], blocks[1..])
      case Rejects => BatchDone(connected, Some(blocks[0].hash))
      case Fails => BatchFailed
  }

  lemma {:induction false} BatchConnectsAPrefix(judge: Judge, connected: seq<Block>, blocks: seq<Block>)
    returns (k: nat)
    requires HandleBlockBatch(judge, connected, blocks).BatchDone?
    ensures k <= |blocks|
    ensures HandleBlockBatch(judge, connected, blocks).connected == connected + blocks[..k]
    ensures HandleBlockBatch(judge, connected, blocks).rejected
            == if k == |blocks| then None else Some(blocks[k].hash)
    ensures forall j :: 0 <= j < k ==> judge(connected + blocks[..j], blocks[j]) == Connects
    ensures k < |blocks| ==> judge(connected + blocks[..k], blocks[k]) == Rejects
    decreases |blocks|
  {
    if blocks == [] || judge(connected, blocks[0]) == Rejects {
      k := 0;
      assert connected + blocks[..0] == connected;
    } else {
      var rest := BatchConnectsAPrefix(judge, connected + [blocks[0]], blocks[1..]);
      k := rest + 1;
      assert connected + [blocks[0]] + blocks[1..][..rest] == connected + blocks[..k];
      forall j | 0 <= j < k ensures judge(connected + blocks[..j], blocks[j]) == Connects {
        if j == 0 {
          assert connected + blocks[..0] == connected;
        } else {
          assert connected + [blocks[0]] + blocks[1..][..j - 1] == connected + blocks[..j];
        }
      }
    }
  }

  /** Index of the first block with the given hash. */
  function PositionOf(blocks: seq<Block>, h: BlockHash): (i: nat)
    requires h in Hashes(blocks)
    ensures i < |blocks| && blocks[i].hash == h
    ensures forall j :: 0 <= j < i ==> blocks[j].hash != h
  {
    if blocks[0].hash == h then 0
    else
      assert h in Hashes(blocks[1..]) by {
        var i :| 0 <= i < |blocks| && blocks[i].hash == h;
        assert Hashes(blocks[1..])[i - 1] == h;
      }
      1 + PositionOf(blocks[1..], h)
  }

  lemma RejectedIsInBatch(judge: Judge, connected: seq<Block>, blocks: seq<Block>)
    requires HandleBlockBatch(judge, connected, blocks).BatchDone?
    requires HandleBlockBatch(judge, connected, blocks).rejected.Some?
    ensures HandleBlockBatch(judge, connected, blocks).rejected.value in Hashes(blocks)
  {
    var k := BatchConnectsAPrefix(judge, connected, blocks);
    assert Hashes(blocks)[k] == blocks[k].hash;
  }

  function ConnectPending(judge: Judge, s: State): Step {
    match HandleBlockBatch(judge, s.connected, s.pending)
    case BatchFailed => Failed(s)
    case BatchDone(connected, None) =>
      Going(s.(connected := connected, total := s.total + |s.pending|, pending := []))
    case BatchDone(connected, Some(rejected)) =>
      RejectedIsInBatch(judge, s.connected, s.pending);
      var idx := PositionOf(s.pending, rejected);
      Halted(s.(
        connected := connected,
        missing := s.missing + Reverse(Hashes(s.pending[idx..])),
        total := s.total + idx,
        pending := []))
  }

  predicate BatchDue(s: State) {
    |s.pending| >= BLOCKS_DIR_CONNECT_BATCH_SIZE || s.missing == []
  }

  function ConnectIfDue(judge: Judge, s: State): Step {
    if BatchDue(s) then ConnectPending(judge, s) else Going(s)
  }

  /** Move the next expected block to the pending batch. */
  function Take(s: State, block: Block): State
    requires s.missing != []
  {
    s.(pending := s.pending + [block], missing := s.missing[..|s.missing| - 1])
  }

  /** Take expected blocks from the cache until the next expected one is not there. */
  function ProcessCached(judge: Judge, s: State): Step
    decreases |s.missing|
  {
    if s.missing == [] then Going(s)
    else
      var expected := s.missing[|s.missing| - 1];
      match FifoLookup(s.cache, expected)
      case None => Going(s)
      case Some(block) =>
        match ConnectIfDue(judge, Take(s, block).(cache := FifoRemove(s.cache, expected)))
        case Going(s') => ProcessCached(judge, s')
        case stopped => stopped
  }

  // ---------------------------------------------------------------- the main loop

  function Flush(judge: Judge, s: State): Step {
    if s.pending == [] then Going(s) else ConnectPending(judge, s)
  }

  function Finish(judge: Judge, s: State): Outcome {
    match Flush(judge, s)
    case Failed(s') => Outcome(s', Err(ConnectFailed))
    case step => Outcome(step.s, Ok(step.s.total % 0x1_0000_0000))
  }

  function Store(s: State, block: Block): State {
    s.(cache := FifoInsert(s.cache, MAX_BLOCK_CACHE_SIZE, Entry(block.hash, block)))
  }

  /** The expected block was read: take it, connect if due, then look in the cache. */
  function Expected(judge: Judge, s: State, block: Block): Step
    requires s.missing != []
  {
    match ConnectIfDue(judge, Take(s, block))
    case Going(s') => ProcessCached(judge, s')
    case stopped => stopped
  }

  /** What one round of the loop does after reading an item. */
  datatype Round = Next(s: State, found: bool, noMatch: nat) | Leave(out: Outcome)

  function Read(judge: Judge, first: BlockHash, item: Item, s: State, found: bool, noMatch: nat): Round {
    match item
    case Unreadable => Leave(Outcome(s, Err(ParseFailed)))
    case Parsed(block, txDataDecodes) =>
      if !found && block.hash != first then
        if !txDataDecodes then Leave(Outcome(s, Err(ParseFailed)))
        else Next(Store(s, block), false, noMatch)
      else if s.missing == [] then Leave(Finish(judge, s))
      else if !txDataDecodes then Leave(Outcome(s, Err(ParseFailed)))
      else if block.hash == s.missing[|s.missing| - 1] then
        match Expected(judge, s, block)
        case Failed(s') => Leave(Outcome(s', Err(ConnectFailed)))
        case Halted(s') => Leave(Finish(judge, s'))
        case Going(s') => Next(s', true, 0)
      else if noMatch + 1 >= MAX_ITERATIONS_WITHOUT_MATCH then
        match Flush(judge, Store(s, block))
        case Failed(s') => Leave(Outcome(s', Err(ConnectFailed)))
        case step => Leave(Finish(judge, step.s))
      else Next(Store(s, block), true, noMatch + 1)
  }

  function SyncLoop(judge: Judge, cancel: Cancel, first: BlockHash,
                    items: seq<Item>, s: State, found: bool, noMatch: nat, iter: nat): Outcome
    decreases |items|
  {
    if iter % 100 == 0 && cancel(iter) then
      match Flush(judge, s)
      case Failed(s') => Outcome(s', Err(ConnectFailed))
      case step => Outcome(step.s, Err(Shutdown))
    else if items == [] then Finish(judge, s)
    else
      match Read(judge, first, items[0], s, found, noMatch)
      case Next(s', found', noMatch') =>
        SyncLoop(judge, cancel, first, items[1..], s', found', noMatch', iter + 1)
      case Leave(out) => out
  }

  function Start(missing: seq<BlockHash>): State {
    State(missing, [], [], 0, [])
  }

  /** The whole run over the items the parser yields from the first missing block's position on. */
  function SyncFromDirectory(judge: Judge, cancel: Cancel, items: seq<Item>, missing: seq<BlockHash>): Outcome
    requires missing != []
  {
    SyncLoop(judge, cancel, missing[|missing| - 1], items, Start(missing), false, 0, 0)
  }

  // ---------------------------------------------------------------- when a run is over

  /** A full cache of 5000 blocks makes room by losing its oldest one. */
  lemma OldestIsLostExactlyWhenFull(s: State, block: Block)
    requires |s.cache| <= 5000 && !Has(s.cache, block.hash)
    ensures Store(s, block).cache == s.cache[if |s.cache| == 5000 then 1 else 0..] + [Entry(block.hash, block)]
  {
    assert s.cache[0..] == s.cache;
  }

  /**
   * Before the first block is found a foreign block only fills the cache. After that the run gives up
   * at the 5000th in a row that was not the expected one, and not before.
   */
  lemma GivesUpExactlyWhen(judge: Judge, first: BlockHash, block: Block, s: State, found: bool, noMatch: nat)
    requires s.missing != [] && block.hash != s.missing[|s.missing| - 1] && (!found ==> block.hash != first)
    ensures Read(judge, first, Parsed(block, true), s, found, noMatch).Leave? <==> found && noMatch >= 4999
    ensures !found || noMatch < 4999 ==>
              Read(judge, first, Parsed(block, true), s, found, noMatch)
              == Next(Store(s, block), found, if found then noMatch + 1 else noMatch)
  {
  }

  /** A round ends in a parse failure only for an item that cannot be read before all is taken. */
  lemma ParseFailsExactlyWhen(judge: Judge, first: BlockHash, item: Item, s: State, found: bool, noMatch: nat)
    ensures Read(judge, first, item, s, found, noMatch) == Leave(Outcome(s, Err(ParseFailed)))
       <==> || item.Unreadable?
            || (!item.txDataDecodes && !(s.missing == [] && (found || item.block.hash == first)))
  {
  }

  /** Cancellation is looked at before every 100th item only: between them it makes no difference. */
  lemma {:induction false} CancelIsPolled(judge: Judge, cancel: Cancel, cancel': Cancel, first: BlockHash,
                                          items: seq<Item>, s: State, found: bool, noMatch: nat, iter: nat)
    requires forall k: nat :: cancel(k * 100) <==> cancel'(k * 100)
    ensures SyncLoop(judge, cancel, first, items, s, found, noMatch, iter)
         == SyncLoop(judge, cancel', first, items, s, found, noMatch, iter)
    decreases |items|
  {
    assert iter % 100 == 0 ==> iter == iter / 100 * 100;
    if items != [] {
      match Read(judge, first, items[0], s, found, noMatch)
      case Next(s', found', noMatch') =>
        CancelIsPolled(judge, cancel, cancel', first, items[1..], s', found', noMatch', iter + 1);
      case Leave(_) =>
    }
  }

  /** Seen there, it ends the run before another item is read; what was pending is connected first. */
  lemma CancelEndsTheRun(judge: Judge, cancel: Cancel, first: BlockHash, items: seq<Item>, s: State, found: bool,
                         noMatch: nat, k: nat)
    requires cancel(k * 100)
    ensures var out := SyncLoop(judge, cancel, first, items, s, found, noMatch, k * 100);
            && out.s == Finish(judge, s).s
            && out.result == if Finish(judge, s).result.Ok? then Err(Shutdown) else Err(ConnectFailed)
  {
    assert k * 100 % 100 == 0;
  }

  // ---------------------------------------------------------------- conservation

  /** Connected, then pending, then still missing, in the order the blocks are due. */
  function Due(s: State): seq<BlockHash> {
    Hashes(s.connected) + Hashes(s.pending) + Reverse(s.missing)
  }

  /** The invariant of the run: nothing lost, reordered or counted twice. */
  ghost predicate Good(s: State, due: seq<BlockHash>) {
    && Due(s) == due
    && Distinct(due)
    && s.total == |s.connected|
    && DistinctHashes(s.cache)
    && forall i :: 0 <= i < |s.cache| ==> s.cache[i].block.hash == s.cache[i].hash
  }

  lemma HashesConcat(a: seq<Block>, b: seq<Block>)
    ensures Hashes(a + b) == Hashes(a) + Hashes(b)
  {
  }

  lemma TakeIsGood(s: State, block: Block, due: seq<BlockHash>)
    requires Good(s, due) && s.missing != [] && block.hash == s.missing[|s.missing| - 1]
    ensures Good(Take(s, block), due)
  {
  }

  /** In a duplicate-free batch the reported block is found at the place where connecting stopped. */
  lemma RejectedPosition(s: State, due: seq<BlockHash>, k: nat)
    requires Good(s, due) && k < |s.pending|
    ensures s.pending[k].hash in Hashes(s.pending)
    ensures PositionOf(s.pending, s.pending[k].hash) == k
  {
    var n := |s.connected|;
    assert Hashes(s.pending)[k] == s.pending[k].hash;
    var i := PositionOf(s.pending, s.pending[k].hash);
    assert due[n + i] == s.pending[i].hash && due[n + k] == s.pending[k].hash;
  }

  lemma Regrouped(a: seq<BlockHash>, b: seq<BlockHash>, c: seq<BlockHash>, d: seq<BlockHash>)
    ensures (a + b) + [] + (c + d) == a + (b + c) + d
  {
  }

  /** Connecting the first `k` pending blocks and giving the others back changes no order. */
  lemma GivingBackKeepsDue(s: State, k: nat)
    requires k <= |s.pending|
    ensures Due(s.(connected := s.connected + s.pending[..k],
                   missing := s.missing + Reverse(Hashes(s.pending[k..])),
                   pending := []))
            == Due(s)
  {
    var front, tail := s.pending[..k], Hashes(s.pending[k..]);
    assert s.pending == front + s.pending[k..];
    HashesConcat(s.connected, front);
    HashesConcat(front, s.pending[k..]);
    ReverseConcat(s.missing, Reverse(tail));
    ReverseReverse(tail);
    Regrouped(Hashes(s.connected), Hashes(front), tail, Reverse(s.missing));
  }

  lemma ConnectPendingIsGood(judge: Judge, s: State, due: seq<BlockHash>)
    requires Good(s, due)
    ensures Good(ConnectPending(judge, s).s, due)
    ensures ConnectPending(judge, s).Failed? ==> ConnectPending(judge, s).s == s
    ensures !ConnectPending(judge, s).Failed? ==> ConnectPending(judge, s).s.pending == []
    ensures ConnectPending(judge, s).Going? ==> ConnectPending(judge, s).s.missing == s.missing
    ensures ConnectPending(judge, s).s.cache == s.cache
  {
    if HandleBlockBatch(judge, s.connected, s.pending).BatchDone? {
      var k := BatchConnectsAPrefix(judge, s.connected, s.pending);
      GivingBackKeepsDue(s, k);
      if k < |s.pending| {
        RejectedPosition(s, due, k);
      } else {
        assert s.pending[..k] == s.pending && s.pending[k..] == [];
        assert s.missing + Reverse(Hashes([])) == s.missing;
      }
    }
  }

  lemma FlushIsGood(judge: Judge, s: State, due: seq<BlockHash>)
    requires Good(s, due)
    ensures Good(Flush(judge, s).s, due)
    ensures !Flush(judge, s).Failed? ==> Flush(judge, s).s.pending == []
    ensures Flush(judge, s).Failed? ==> Flush(judge, s).s == s
  {
    ConnectPendingIsGood(judge, s, due);
  }

  lemma StoreIsGood(s: State, block: Block, due: seq<BlockHash>)
    requires Good(s, due)
    ensures Good(Store(s, block), due)
  {
  }

  lemma CachedBlockHasItsHash(s: State, due: seq<BlockHash>, h: BlockHash)
    requires Good(s, due) && FifoLookup(s.cache, h).Some?
    ensures FifoLookup(s.cache, h).value.hash == h
    ensures Good(s.(cache := FifoRemove(s.cache, h)), due)
  {
  }

  /** The next expected block is not sitting in the cache. */
  ghost predicate NextIsNotCached(s: State) {
    s.missing == [] || !Has(s.cache, s.missing[|s.missing| - 1])
  }

  lemma {:induction false} ProcessCachedIsGood(judge: Judge, s: State, due: seq<BlockHash>)
    requires Good(s, due)
    ensures Good(ProcessCached(judge, s).s, due)
    ensures ProcessCached(judge, s).Halted? ==> ProcessCached(judge, s).s.pending == []
    ensures ProcessCached(judge, s).Going? ==> NextIsNotCached(ProcessCached(judge, s).s)
    decreases |s.missing|
  {
    if s.missing != [] {
      var expected := s.missing[|s.missing| - 1];
      if FifoLookup(s.cache, expected).Some? {
        var block := FifoLookup(s.cache, expected).value;
        CachedBlockHasItsHash(s, due, expected);
        var s0 := s.(cache := FifoRemove(s.cache, expected));
        TakeIsGood(s0, block, due);
        var s1 := Take(s0, block);
        ConnectPendingIsGood(judge, s1, due);
        assert s1 == Take(s, block).(cache := FifoRemove(s.cache, expected));
        if ConnectIfDue(judge, s1).Going? {
          ProcessCachedIsGood(judge, ConnectIfDue(judge, s1).s, due);
        }
      }
    }
  }

  lemma FinishIsGood(judge: Judge, s: State, due: seq<BlockHash>)
    requires Good(s, due)
    ensures Good(Finish(judge, s).s, due)
    ensures Finish(judge, s).result.Ok? ==>
              && Finish(judge, s).s.pending == []
              && Finish(judge, s).result.value == |Finish(judge, s).s.connected| % 0x1_0000_0000
    ensures Finish(judge, s).result.Err? ==> Finish(judge, s).result.error == ConnectFailed
  {
    FlushIsGood(judge, s, due);
  }

  /** A finished run: the invariant holds and, unless it failed, nothing is left pending. */
  ghost predicate GoodEnd(out: Outcome, due: seq<BlockHash>) {
    && Good(out.s, due)
    && (out.result.Ok? || out.result == Err(Shutdown) ==> out.s.pending == [])
    && (out.result.Ok? ==> out.result.value == |out.s.connected| % 0x1_0000_0000)
  }

  lemma ExpectedIsGood(judge: Judge, s: State, block: Block, due: seq<BlockHash>)
    requires Good(s, due) && s.missing != [] && block.hash == s.missing[|s.missing| - 1]
    ensures Good(Expected(judge, s, block).s, due)
    ensures Expected(judge, s, block).Halted? ==> Expected(judge, s, block).s.pending == []
    ensures Expected(judge, s, block).Going? ==> NextIsNotCached(Expected(judge, s, block).s)
  {
    TakeIsGood(s, block, due);
    ConnectPendingIsGood(judge, Take(s, block), due);
    ProcessCachedIsGood(judge, ConnectIfDue(judge, Take(s, block)).s, due);
  }

  lemma StopIsGood(judge: Judge, s: State, due: seq<BlockHash>)
    requires Good(s, due)
    ensures match Flush(judge, s)
            case Failed(s') => GoodEnd(Outcome(s', Err(ConnectFailed)), due)
            case step => GoodEnd(Finish(judge, step.s), due)
  {
    FlushIsGood(judge, s, due);
    FinishIsGood(judge, Flush(judge, s).s, due);
  }

  lemma ReadIsGood(judge: Judge, first: BlockHash, item: Item, s: State, found: bool, noMatch: nat,
                   due: seq<BlockHash>)
    requires Good(s, due)
    ensures match Read(judge, first, item, s, found, noMatch)
            case Next(s', _, _) => Good(s', due)
            case Leave(out) => GoodEnd(out, due)
  {
    FinishIsGood(judge, s, due);
    if item.Parsed? {
      var block := item.block;
      StoreIsGood(s, block, due);
      StopIsGood(judge, Store(s, block), due);
      if s.missing != [] && block.hash == s.missing[|s.missing| - 1] {
        ExpectedIsGood(judge, s, block, due);
        FinishIsGood(judge, Expected(judge, s, block).s, due);
      }
    }
  }

  lemma {:induction false} LoopIsGood(judge: Judge, cancel: Cancel, first: BlockHash, items: seq<Item>,
                                      s: State, found: bool, noMatch: nat, iter: nat, due: seq<BlockHash>)
    requires Good(s, due)
    ensures GoodEnd(SyncLoop(judge, cancel, first, items, s, found, noMatch, iter), due)
    decreases |items|
  {
    FlushIsGood(judge, s, due);
    FinishIsGood(judge, s, due);
    if items != [] {
      ReadIsGood(judge, first, items[0], s, found, noMatch, due);
      match Read(judge, first, items[0], s, found, noMatch)
      case Next(s', found', noMatch') =>
        LoopIsGood(judge, cancel, first, items[1..], s', found', noMatch', iter + 1, due);
      case Leave(_) =>
    }
  }

  lemma StartIsGood(missing: seq<BlockHash>)
    requires Distinct(missing)
    ensures Good(Start(missing), Reverse(missing))
  {
  }

  /** The missing stack is what is left of it plus the connected blocks, latest first. */
  predicate Conserved(missing: seq<BlockHash>, s: State) {
    missing == s.missing + Reverse(Hashes(s.connected))
  }

  lemma ConservedIffNothingPending(missing: seq<BlockHash>, s: State)
    requires Due(s) == Reverse(missing)
    ensures Conserved(missing, s) <==> s.pending == []
  {
    ReverseReverse(missing);
    ReverseConcat(Hashes(s.connected) + Hashes(s.pending), Reverse(s.missing));
    ReverseReverse(s.missing);
    assert missing == s.missing + Reverse(Hashes(s.connected) + Hashes(s.pending));
    assert |missing| == |s.missing| + |s.connected| + |s.pending|;
    if s.pending == [] {
      assert Hashes(s.connected) + Hashes(s.pending) == Hashes(s.connected);
    }
  }

  /**
   * Conservation: whatever the files contain and whatever the validator answers, on an Ok return
   * and on shutdown the stack has lost exactly the connected blocks, these were connected in the
   * order they were due, and the returned count is their number.
   */
  lemma SyncConserves(judge: Judge, cancel: Cancel, items: seq<Item>, missing: seq<BlockHash>)
    requires missing != [] && Distinct(missing)
    ensures var out := SyncFromDirectory(judge, cancel, items, missing);
            && (out.result.Ok? || out.result == Err(Shutdown) ==> Conserved(missing, out.s))
            && Hashes(out.s.connected) <= Reverse(missing)
            && (out.result.Ok? ==> out.result.value == |out.s.connected| % 0x1_0000_0000)
  {
    StartIsGood(missing);
    LoopIsGood(judge, cancel, missing[|missing| - 1], items, Start(missing), false, 0, 0, Reverse(missing));
    var out := SyncFromDirectory(judge, cancel, items, missing);
    ConservedIffNothingPending(missing, out.s);
    var due := Reverse(missing);
    assert due[..|out.s.connected|] == Hashes(out.s.connected);
  }

  // ---------------------------------------------------------------- the validator decides

  /** Every connected block was accepted by the validator right after the blocks before it. */
  ghost predicate Accepted(judge: Judge, connected: seq<Block>) {
    forall k :: 0 <= k < |connected| ==> judge(connected[..k], connected[k]) == Connects
  }

  lemma ConnectPendingAccepts(judge: Judge, s: State)
    requires Accepted(judge, s.connected)
    ensures Accepted(judge, ConnectPending(judge, s).s.connected)
  {
    if HandleBlockBatch(judge, s.connected, s.pending).BatchDone? {
      var k := BatchConnectsAPrefix(judge, s.connected, s.pending);
      var n, c := |s.connected|, s.connected + s.pending[..k];
      forall j | 0 <= j < |c| ensures judge(c[..j], c[j]) == Connects {
        if j < n {
          assert c[..j] == s.connected[..j];
        } else {
          assert c[..j] == s.connected + s.pending[..j - n];
        }
      }
    }
  }

  lemma {:induction false} ProcessCachedAccepts(judge: Judge, s: State)
    requires Accepted(judge, s.connected)
    ensures Accepted(judge, ProcessCached(judge, s).s.connected)
    decreases |s.missing|
  {
    if s.missing != [] {
      var expected := s.missing[|s.missing| - 1];
      if FifoLookup(s.cache, expected).Some? {
        var s1 := Take(s, FifoLookup(s.cache, expected).value).(cache := FifoRemove(s.cache, expected));
        ConnectPendingAccepts(judge, s1);
        if ConnectIfDue(judge, s1).Going? {
          ProcessCachedAccepts(judge, ConnectIfDue(judge, s1).s);
        }
      }
    }
  }

  lemma FinishAccepts(judge: Judge, s: State)
    requires Accepted(judge, s.connected)
    ensures Accepted(judge, Flush(judge, s).s.connected)
    ensures Accepted(judge, Finish(judge, s).s.connected)
  {
    ConnectPendingAccepts(judge, s);
  }

  lemma ReadAccepts(judge: Judge, first: BlockHash, item: Item, s: State, found: bool, noMatch: nat)
    requires Accepted(judge, s.connected)
    ensures match Read(judge, first, item, s, found, noMatch)
            case Next(s', _, _) => Accepted(judge, s'.connected)
            case Leave(out) => Accepted(judge, out.s.connected)
  {
    FinishAccepts(judge, s);
    if item.Parsed? {
      var block := item.block;
      FinishAccepts(judge, Store(s, block));
      FinishAccepts(judge, Flush(judge, Store(s, block)).s);
      if s.missing != [] && block.hash == s.missing[|s.missing| - 1] {
        ConnectPendingAccepts(judge, Take(s, block));
        ProcessCachedAccepts(judge, ConnectIfDue(judge, Take(s, block)).s);
        FinishAccepts(judge, Expected(judge, s, block).s);
      }
    }
  }

  lemma {:induction false} LoopAccepts(judge: Judge, cancel: Cancel, first: BlockHash, items: seq<Item>,
                                       s: State, found: bool, noMatch: nat, iter: nat)
    requires Accepted(judge, s.connected)
    ensures Accepted(judge, SyncLoop(judge, cancel, first, items, s, found, noMatch, iter).s.connected)
    decreases |items|
  {
    FinishAccepts(judge, s);
    if items != [] {
      ReadAccepts(judge, first, items[0], s, found, noMatch);
      match Read(judge, first, items[0], s, found, noMatch)
      case Next(s', found', noMatch') =>
        LoopAccepts(judge, cancel, first, items[1..], s', found', noMatch', iter + 1);
      case Leave(_) =>
    }
  }

  /** A run connects nothing the validator did not accept in that very place. */
  lemma SyncConnectsOnlyAccepted(judge: Judge, cancel: Cancel, items: seq<Item>, missing: seq<BlockHash>)
    requires missing != []
    ensures Accepted(judge, SyncFromDirectory(judge, cancel, items, missing).s.connected)
  {
    LoopAccepts(judge, cancel, missing[|missing| - 1], items, Start(missing), false, 0, 0);
  }

  /** After a rejection the rejected block itself is the next expected one. */
  lemma RejectedBlockIsNext(judge: Judge, s: State, due: seq<BlockHash>) returns (rejected: Block)
    requires Good(s, due) && ConnectPending(judge, s).Halted?
    ensures var s' := ConnectPending(judge, s).s;
            && s'.missing != []
            && rejected in s.pending
            && s'.missing[|s'.missing| - 1] == rejected.hash
            && judge(s'.connected, rejected) == Rejects
  {
    var k := BatchConnectsAPrefix(judge, s.connected, s.pending);
    RejectedPosition(s, due, k);
    rejected := s.pending[k];
    assert Hashes(s.pending[k..])[0] == rejected.hash;
  }

  // ---------------------------------------------------------------- what an error return loses

  /** Between items: whole batches have been connected, and a batch waits only for missing blocks. */
  ghost predicate Aligned(s: State) {
    if s.missing == [] then s.pending == []
    else |s.connected| % BLOCKS_DIR_CONNECT_BATCH_SIZE == 0 && |s.pending| < BLOCKS_DIR_CONNECT_BATCH_SIZE
  }

  lemma ConnectIfDueAligns(judge: Judge, s: State)
    requires |s.connected| % BLOCKS_DIR_CONNECT_BATCH_SIZE == 0
    requires |s.pending| <= BLOCKS_DIR_CONNECT_BATCH_SIZE
    ensures ConnectIfDue(judge, s).Going? ==>
              && Aligned(ConnectIfDue(judge, s).s)
              && ConnectIfDue(judge, s).s.missing == s.missing
    ensures ConnectIfDue(judge, s).Failed? && s.pending != [] ==> ConnectIfDue(judge, s).s.pending != []
  {
    if HandleBlockBatch(judge, s.connected, s.pending).BatchDone? {
      var k := BatchConnectsAPrefix(judge, s.connected, s.pending);
    }
  }

  lemma {:induction false} ProcessCachedAligns(judge: Judge, s: State)
    requires Aligned(s)
    ensures ProcessCached(judge, s).Going? ==> Aligned(ProcessCached(judge, s).s)
    ensures ProcessCached(judge, s).Failed? ==> ProcessCached(judge, s).s.pending != []
    decreases |s.missing|
  {
    if s.missing != [] {
      var expected := s.missing[|s.missing| - 1];
      if FifoLookup(s.cache, expected).Some? {
        var s1 := Take(s, FifoLookup(s.cache, expected).value).(cache := FifoRemove(s.cache, expected));
        ConnectIfDueAligns(judge, s1);
        if ConnectIfDue(judge, s1).Going? {
          ProcessCachedAligns(judge, ConnectIfDue(judge, s1).s);
        }
      }
    }
  }

  lemma FlushFailsWithPending(judge: Judge, s: State)
    ensures Flush(judge, s).Failed? ==> Flush(judge, s).s.pending != []
    ensures Finish(judge, s).result == Err(ConnectFailed) ==> Finish(judge, s).s.pending != []
    ensures Finish(judge, s).result != Err(ParseFailed)
  {
  }

  /** An error return: a parse failure strikes between items, a connect failure inside a batch. */
  ghost predicate ErrorEnd(out: Outcome) {
    && (out.result == Err(ParseFailed) ==> Aligned(out.s))
    && (out.result == Err(ConnectFailed) ==> out.s.pending != [])
  }

  lemma ReadAligns(judge: Judge, first: BlockHash, item: Item, s: State, found: bool, noMatch: nat)
    requires Aligned(s)
    ensures match Read(judge, first, item, s, found, noMatch)
            case Next(s', _, _) => Aligned(s')
            case Leave(out) => ErrorEnd(out)
  {
    FlushFailsWithPending(judge, s);
    if item.Parsed? {
      var block := item.block;
      FlushFailsWithPending(judge, Store(s, block));
      FlushFailsWithPending(judge, Flush(judge, Store(s, block)).s);
      if s.missing != [] && block.hash == s.missing[|s.missing| - 1] {
        var step := ConnectIfDue(judge, Take(s, block));
        ConnectIfDueAligns(judge, Take(s, block));
        FlushFailsWithPending(judge, step.s);
        if step.Going? {
          ProcessCachedAligns(judge, step.s);
          FlushFailsWithPending(judge, ProcessCached(judge, step.s).s);
        }
      }
    }
  }

  lemma {:induction false} LoopAligns(judge: Judge, cancel: Cancel, first: BlockHash, items: seq<Item>,
                                      s: State, found: bool, noMatch: nat, iter: nat)
    requires Aligned(s)
    ensures ErrorEnd(SyncLoop(judge, cancel, first, items, s, found, noMatch, iter))
    decreases |items|
  {
    FlushFailsWithPending(judge, s);
    if items != [] {
      ReadAligns(judge, first, items[0], s, found, noMatch);
      match Read(judge, first, items[0], s, found, noMatch)
      case Next(s', found', noMatch') =>
        LoopAligns(judge, cancel, first, items[1..], s', found', noMatch', iter + 1);
      case Leave(_) =>
    }
  }

  /**
   * Exactly when a run conserves the stack. Blocks taken off it since the last connected batch are
   * dropped by a parse failure, so there conservation holds only at a batch boundary; a validator
   * error always drops the batch it struck.
   */
  lemma ConservedExactlyWhen(judge: Judge, cancel: Cancel, items: seq<Item>, missing: seq<BlockHash>)
    requires missing != [] && Distinct(missing)
    ensures var out := SyncFromDirectory(judge, cancel, items, missing);
            var taken := |missing| - |out.s.missing|;
            Conserved(missing, out.s) <==>
            match out.result
            case Ok(_) => true
            case Err(Shutdown) => true
            case Err(ParseFailed) => out.s.missing == [] || taken % 2000 == 0
            case Err(ConnectFailed) => false
  {
    StartIsGood(missing);
    var first := missing[|missing| - 1];
    LoopIsGood(judge, cancel, first, items, Start(missing), false, 0, 0, Reverse(missing));
    LoopAligns(judge, cancel, first, items, Start(missing), false, 0, 0);
    var out := SyncFromDirectory(judge, cancel, items, missing);
    ConservedIffNothingPending(missing, out.s);
    assert |Due(out.s)| == |missing|;
    if out.result == Err(ParseFailed) && out.s.missing != [] {
      TakenModBatch(|out.s.connected|, |out.s.pending|);
    }
  }

  lemma TakenModBatch(connected: nat, pending: nat)
    requires connected % BLOCKS_DIR_CONNECT_BATCH_SIZE == 0 && pending < BLOCKS_DIR_CONNECT_BATCH_SIZE
    ensures (connected + pending) % BLOCKS_DIR_CONNECT_BATCH_SIZE == pending
  {
  }

  /** A block read and then a damaged record: the block is off the stack but was never connected. */
  lemma ParseFailureDropsABlock(block: Block, h: BlockHash)
    requires block.hash != h
    ensures var out := SyncFromDirectory((_, _) => Connects, _ => false,
                                         [Parsed(block, true), Unreadable], [h, block.hash]);
            && out.result == Err(ParseFailed)
            && out.s.missing == [h]
            && out.s.connected == []
            && !Conserved([h, block.hash], out.s)
  {
    var judge: Judge := (_, _) => Connects;
    var missing := [h, block.hash];
    var s1 := Take(Start(missing), block);
    assert s1.missing == [h];
    assert Read(judge, block.hash, Parsed(block, true), Start(missing), false, 0) == Next(s1, true, 0);
    var items := [Parsed(block, true), Unreadable];
    assert items[1..] == [Unreadable];
    assert SyncLoop(judge, _ => false, block.hash, items[1..], s1, true, 0, 1)
        == Outcome(s1, Err(ParseFailed));
  }
}

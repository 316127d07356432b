/** Syncing with the node: roll-back, missing blocks, block files and the rest over RPC, taken together. */
module NodeSync {
  import opened Common
  import opened Utxos
  import opened BlockDiffs
  import opened BlockHashes
  import opened HeaderTree
  import opened Chainstate
  import Cache = BlockCaches
  import Files = BlockFileSync
  import Reading = SyncCompleteness

  const BLOCK_FETCH_BATCH_SIZE: nat := 50

  /** The block behind every hash, from whichever source, and what connecting it is given. */
  datatype Source = Source(blockOf: BlockHash -> Block, inp: Inputs)

  function BlocksOf(src: Source, hashes: seq<BlockHash>): (b: seq<Block>)
    ensures |b| == |hashes|
    ensures forall i :: 0 <= i < |b| ==> b[i] == src.blockOf(hashes[i])
  {
    seq(|hashes|, i requires 0 <= i < |hashes| => src.blockOf(hashes[i]))
  }

  /** The database after connecting these blocks in order, if all of them are accepted. */
  function After(src: Source, db: Db, hashes: seq<BlockHash>): Option<Db>
    decreases |hashes|
  {
    if hashes == [] then Some(db)
    else
      match After(src, db, hashes[..|hashes| - 1])
      case None => None
      case Some(before) =>
        match ConnectBlock(before, src.blockOf(hashes[|hashes| - 1]), src.inp)
        case Accept(after) => Some(after)
        case _ => None
  }

  /** The validator as the file sync sees it. */
  function JudgeOf(src: Source, db: Db): Files.Judge {
    (connected: seq<Cache.Block>, block: Cache.Block) => Judgement(src, db, Files.Hashes(connected), block.hash)
  }

  /** On top of blocks that were not all accepted nothing connects. */
  function Judgement(src: Source, db: Db, connected: seq<BlockHash>, hash: BlockHash): Files.Verdict {
    match After(src, db, connected)
    case None => Files.Rejects
    case Some(before) =>
      match ConnectBlock(before, src.blockOf(hash), src.inp)
      case Accept(_) => Files.Connects
      case Reject(_) => Files.Rejects
      case Error => Files.Fails
  }

  // ---------------------------------------------------------------- fetching what is left

  /** How a sync ends. Interrupted: cancelled, or the node did not answer. */
  datatype Ending = Synced | RejectedBlock(hash: BlockHash, reason: RejectReason) | Interrupted | ConnectError

  datatype Sync = Sync(db: Db, ending: Ending)

  function FetchSize(due: seq<BlockHash>): (n: nat)
    ensures n <= |due| && (due != [] ==> n > 0)
  {
    if |due| < BLOCK_FETCH_BATCH_SIZE then |due| else BLOCK_FETCH_BATCH_SIZE
  }

  /** Fetch and connect the blocks in chunks; each chunk is committed up to its first rejected block. */
  function FetchRemaining(src: Source, db: Db, due: seq<BlockHash>, stop: nat -> bool, round: nat): Sync
    decreases |due|
  {
    if due == [] then Sync(db, Synced)
    else if stop(round) then Sync(db, Interrupted)
    else
      var n := FetchSize(due);
      match HandleBatch(db, BlocksOf(src, due[..n]), src.inp)
      case BatchError => Sync(db, ConnectError)
      case Batched(db', k, Some(reason)) => Sync(db', RejectedBlock(src.blockOf(due[k]).header.hash, reason))
      case Batched(db', _, None) => FetchRemaining(src, db', due[n..], stop, round + 1)
  }

  /** The blocks directory, if there is one, and when the file sync sees the cancellation. */
  datatype Directory = Directory(items: seq<Files.Item>, cancel: Files.Cancel)

  function SyncFiles(src: Source, db: Db, missing: seq<BlockHash>, dir: Directory): Files.Outcome
    requires missing != []
  {
    Files.SyncFromDirectory(JudgeOf(src, db), dir.cancel, dir.items, missing)
  }

  /** First from the files; whatever comes of that, the hashes still on the stack are fetched. */
  function SyncBlocks(src: Source, db: Db, missing: seq<BlockHash>, dir: Option<Directory>, stop: nat -> bool): Sync {
    if missing == [] then Sync(db, Synced)
    else
      match dir
      case None => FetchRemaining(src, db, Reverse(missing), stop, 0)
      case Some(d) =>
        var out := SyncFiles(src, db, missing, d);
        match After(src, db, Files.Hashes(out.s.connected))
        case None => Sync(db, ConnectError)
        case Some(db') => FetchRemaining(src, db', Reverse(out.s.missing), stop, 0)
  }

  // ---------------------------------------------------------------- the missing blocks as a path

  /** Stored headers, each the child of the one before, the first a child of the tip. */
  ghost predicate Path(t: Tables, tip: BlockHash, due: seq<BlockHash>) {
    && Distinct(due) && tip !in due && ALL_ZEROS !in due
    && forall i :: 0 <= i < |due| ==> LinkAt(t, tip, due, i)
  }

  ghost predicate LinkAt(t: Tables, tip: BlockHash, due: seq<BlockHash>, i: nat)
    requires i < |due|
  {
    due[i] in t.header && t.header[due[i]].prev == End(tip, due, i)
  }

  /** The last of the first `n` blocks, or the tip. */
  function End(tip: BlockHash, due: seq<BlockHash>, n: nat): BlockHash
    requires n <= |due|
  {
    if n == 0 then tip else due[n - 1]
  }

  /** The same, newest first. */
  ghost predicate DescendsAt(t: Tables, tip: BlockHash, missing: seq<BlockHash>, j: nat)
    requires j < |missing|
  {
    && missing[j] in t.header
    && t.header[missing[j]].prev == if j + 1 < |missing| then missing[j + 1] else tip
  }

  lemma DescendsIsPath(t: Tables, tip: BlockHash, missing: seq<BlockHash>)
    requires forall j :: 0 <= j < |missing| ==> DescendsAt(t, tip, missing, j)
    requires Distinct(missing) && tip !in missing && ALL_ZEROS !in t.header
    ensures Path(t, tip, Reverse(missing))
  {
    var due := Reverse(missing);
    forall i | 0 <= i < |due| ensures LinkAt(t, tip, due, i) && due[i] != ALL_ZEROS && due[i] != tip {
      var j := |missing| - 1 - i;
      assert DescendsAt(t, tip, missing, j);
    }
  }

  /** After the roll-back the missing blocks, oldest first, are a path from our tip to the node's. */
  lemma MissingIsPath(t: Tables, oldTip: BlockHash, mainTip: BlockHash, tip: BlockHash, missing: seq<BlockHash>)
    requires HeightsConsistent(t) && Missing(t, mainTip, tip, missing)
    requires LastCommon(t, oldTip, mainTip, CommonAncestor(tip))
    requires oldTip == ALL_ZEROS ==> Complete(t, mainTip)
    requires missing != []
    ensures Path(t, tip, Reverse(missing))
    ensures End(tip, Reverse(missing), |missing|) == mainTip
  {
    MissingLeadsToTip(t, oldTip, mainTip, tip, missing);
    forall j | 0 <= j < |missing| ensures DescendsAt(t, tip, missing, j) {
    }
    DescendsIsPath(t, tip, missing);
  }

  /** The P2MR outputs after the chain and the first `n` blocks of the path. */
  function ReplayTo(src: Source, chain: seq<Block>, due: seq<BlockHash>, n: nat): UtxoMap
    requires n <= |due|
  {
    Replay(chain + BlocksOf(src, due[..n]))
  }

  /** The block behind a hash of the path has the stored header and, where it stands, honest transactions. */
  ghost predicate AdmissibleAt(src: Source, t: Tables, chain: seq<Block>, due: seq<BlockHash>, n: nat)
    requires n < |due|
  {
    var block := src.blockOf(due[n]);
    && due[n] in t.header && block.header == t.header[due[n]] && block.header.work > 0
    && TxsAdmissible(ReplayTo(src, chain, due, n), block, src.inp)
  }

  /** The rules at its height accept the block on top of the ones before it. */
  ghost predicate ValidAt(src: Source, chain: seq<Block>, due: seq<BlockHash>, n: nat)
    requires n < |due|
  {
    var txs, active := src.blockOf(due[n]).txs, |chain| + n >= src.inp.activationHeight;
    txs != [] && ValidateAndDiff(active, src.inp.verdict, txs, ReplayTo(src, chain, due, n), src.inp.extra).Some?
  }

  /** What the theorems start from: an agreeing database and a path of admissible blocks on its tip. */
  ghost predicate Ready(src: Source, db: Db, chain: seq<Block>, due: seq<BlockHash>) {
    && Agrees(db, chain) && Path(db.tables, TipHash(db), due)
    && Admissible(src, db.tables, chain, due)
  }

  ghost predicate Admissible(src: Source, t: Tables, chain: seq<Block>, due: seq<BlockHash>) {
    forall n :: 0 <= n < |due| ==> AdmissibleAt(src, t, chain, due, n)
  }

  // ---------------------------------------------------------------- along the path

  /** The state after the first `n` blocks of the path, all of them valid. */
  ghost predicate Reached(src: Source, db: Db, chain: seq<Block>, due: seq<BlockHash>, n: nat, db': Db) {
    && n <= |due|
    && Agrees(db', chain + BlocksOf(src, due[..n]))
    && TipHash(db') == End(TipHash(db), due, n)
    && db'.tables.header == db.tables.header
    && forall i :: 0 <= i < n ==> ValidAt(src, chain, due, i)
  }

  lemma AfterNothing(src: Source, db: Db, chain: seq<Block>, due: seq<BlockHash>)
    requires Ready(src, db, chain, due)
    ensures Reached(src, db, chain, due, 0, db)
  {
    assert chain + BlocksOf(src, due[..0]) == chain;
  }

  lemma AfterOneMore(src: Source, chain: seq<Block>, due: seq<BlockHash>, n: nat)
    requires n < |due|
    ensures chain + BlocksOf(src, due[..n + 1]) == chain + BlocksOf(src, due[..n]) + [src.blockOf(due[n])]
  {
  }

  /** Only the next block of the path extends the tip. */
  lemma OnlyNextExtendsTip(src: Source, db: Db, chain: seq<Block>, due: seq<BlockHash>, n: nat, m: nat, db': Db)
    requires Ready(src, db, chain, due) && Reached(src, db, chain, due, n, db') && n <= m < |due|
    ensures src.blockOf(due[m]).header.hash == due[m] && StoredAdmissible(db', src.blockOf(due[m]), src.inp)
    ensures ExtendsTip(db', src.blockOf(due[m])) <==> m == n
  {
    assert AdmissibleAt(src, db.tables, chain, due, m);
    assert LinkAt(db.tables, TipHash(db), due, m);
    assert HeightConsistent(db.tables, due[m]);
    TipHasHeight(db', chain + BlocksOf(src, due[..n]));
  }

  /** The block after a lost one does not fit. */
  lemma LaterIsRejected(src: Source, db: Db, chain: seq<Block>, due: seq<BlockHash>, n: nat, m: nat, db': Db)
    requires Ready(src, db, chain, due) && Reached(src, db, chain, due, n, db') && n < m < |due|
    ensures ConnectBlock(db', src.blockOf(due[m]), src.inp) == Reject(BlockParent)
  {
    OnlyNextExtendsTip(src, db, chain, due, n, m, db');
  }

  lemma AcceptedIsReached(src: Source, db: Db, chain: seq<Block>, due: seq<BlockHash>, n: nat, db': Db, db'': Db)
    requires Reached(src, db, chain, due, n, db') && n < |due| && src.blockOf(due[n]).header.hash == due[n]
    requires ConnectBlock(db', src.blockOf(due[n]), src.inp) == Accept(db'')
    requires Agrees(db'', chain + BlocksOf(src, due[..n]) + [src.blockOf(due[n])]) && db''.tip == Some(due[n])
    requires ValidAt(src, chain, due, n)
    ensures Reached(src, db, chain, due, n + 1, db'')
  {
    AfterOneMore(src, chain, due, n);
    ConnectKeepsHeaders(db', src.blockOf(due[n]), src.inp);
  }

  /** A block on the tip is accepted or rejected by the rules at its height alone. */
  lemma RulesDecide(db: Db, chain: seq<Block>, block: Block, inp: Inputs)
    requires Agrees(db, chain) && StoredAdmissible(db, block, inp) && ExtendsTip(db, block)
    ensures var c, active := ConnectBlock(db, block, inp), |chain| >= inp.activationHeight;
            && c != Reject(BlockParent)
            && (block.txs != [] && ValidateAndDiff(active, inp.verdict, block.txs, Replay(chain), inp.extra).Some?
                <==> !c.Reject?)
  {
    HeightIsLength(db, chain, block);
  }

  /** The next block is accepted, and is the new tip, exactly if it is valid; no other reason stops it. */
  lemma NextIsDecided(src: Source, db: Db, chain: seq<Block>, due: seq<BlockHash>, n: nat, db': Db)
    requires Ready(src, db, chain, due) && Reached(src, db, chain, due, n, db') && n < |due|
    ensures match ConnectBlock(db', src.blockOf(due[n]), src.inp)
            case Accept(db'') => ValidAt(src, chain, due, n) && Reached(src, db, chain, due, n + 1, db'')
            case Reject(reason) => !ValidAt(src, chain, due, n) && reason != BlockParent
            case Error => false
  {
    var block, chain' := src.blockOf(due[n]), chain + BlocksOf(src, due[..n]);
    OnlyNextExtendsTip(src, db, chain, due, n, n, db');
    RulesDecide(db', chain', block, src.inp);
    ConnectStoredAgrees(db', chain', block, src.inp);
    var c := ConnectBlock(db', block, src.inp);
    if c.Accept? {
      AcceptedIsReached(src, db, chain, due, n, db', c.db);
    }
  }

  // ---------------------------------------------------------------- the blocks fetched in order

  /** The sync is cancelled, or the node does not answer, at some time. */
  ghost predicate Stops(stop: nat -> bool) {
    exists round: nat :: stop(round)
  }

  /** The next block of the path is rejected for what it contains. */
  ghost predicate Refused(src: Source, chain: seq<Block>, due: seq<BlockHash>, n: nat, reason: RejectReason) {
    n < |due| && reason != BlockParent && !ValidAt(src, chain, due, n)
  }

  /** How far a sync got on the path: `n` blocks are connected, and what ended it. */
  ghost predicate EndedAt(src: Source, db: Db, chain: seq<Block>, due: seq<BlockHash>, sync: Sync, n: nat,
                          stop: nat -> bool) {
    && Reached(src, db, chain, due, n, sync.db)
    && match sync.ending
       case Synced => n == |due|
       case RejectedBlock(hash, reason) => Refused(src, chain, due, n, reason) && hash == due[n]
       case Interrupted => n < |due| && Stops(stop)
       case ConnectError => false
  }

  /** A batch of the blocks `n` to `e` of the path ended before block `m`. */
  ghost predicate BatchEndedAt(src: Source, db: Db, chain: seq<Block>, due: seq<BlockHash>, n: nat, e: nat, b: Batch,
                               m: nat) {
    && b.Batched? && b.connected == m - n && m <= e
    && Reached(src, db, chain, due, m, b.db)
    && (b.rejected == None <==> m == e)
    && (b.rejected.Some? ==> Refused(src, chain, due, m, b.rejected.value))
  }

  lemma FirstOfBatch(src: Source, due: seq<BlockHash>, n: nat, e: nat, blocks: seq<Block>)
    requires n < e <= |due| && blocks == BlocksOf(src, due[n..e])
    ensures blocks != [] && blocks[0] == src.blockOf(due[n])
    ensures blocks[1..] == BlocksOf(src, due[n + 1..e])
  {
  }

  lemma BatchAcceptsNext(src: Source, db: Db, chain: seq<Block>, due: seq<BlockHash>, n: nat, e: nat, db': Db, db'': Db,
                     blocks: seq<Block>, m: nat)
    requires blocks != [] && ConnectBlock(db', blocks[0], src.inp) == Accept(db'')
    requires BatchEndedAt(src, db, chain, due, n + 1, e, HandleBatch(db'', blocks[1..], src.inp), m)
    ensures BatchEndedAt(src, db, chain, due, n, e, HandleBatch(db', blocks, src.inp), m)
  {
    var rest := HandleBatch(db'', blocks[1..], src.inp);
    assert HandleBatch(db', blocks, src.inp) == Batched(rest.db, rest.connected + 1, rest.rejected);
  }

  lemma BatchRejects(src: Source, db: Db, chain: seq<Block>, due: seq<BlockHash>, n: nat, e: nat, db': Db,
                     blocks: seq<Block>)
    requires Reached(src, db, chain, due, n, db') && n < e && blocks != []
    requires n < |due| && !ValidAt(src, chain, due, n)
    requires var c := ConnectBlock(db', blocks[0], src.inp); c.Reject? && c.reason != BlockParent
    ensures BatchEndedAt(src, db, chain, due, n, e, HandleBatch(db', blocks, src.inp), n)
  {
    var c := ConnectBlock(db', blocks[0], src.inp);
    assert HandleBatch(db', blocks, src.inp) == Batched(db', 0, Some(c.reason));
  }

  lemma {:induction false} BatchOnPath(src: Source, db: Db, chain: seq<Block>, due: seq<BlockHash>, n: nat, e: nat,
                                       db': Db, blocks: seq<Block>)
    returns (m: nat)
    requires Ready(src, db, chain, due) && Reached(src, db, chain, due, n, db')
    requires n <= e <= |due| && blocks == BlocksOf(src, due[n..e])
    ensures n <= m <= e && BatchEndedAt(src, db, chain, due, n, e, HandleBatch(db', blocks, src.inp), m)
    decreases e - n
  {
    m := n;
    if n == e {
      assert HandleBatch(db', blocks, src.inp) == Batched(db', 0, None);
    } else {
      NextIsDecided(src, db, chain, due, n, db');
      FirstOfBatch(src, due, n, e, blocks);
      match ConnectBlock(db', blocks[0], src.inp) {
        case Accept(db'') =>
          m := BatchOnPath(src, db, chain, due, n + 1, e, db'', blocks[1..]);
          BatchAcceptsNext(src, db, chain, due, n, e, db', db'', blocks, m);
        case Reject(_) => BatchRejects(src, db, chain, due, n, e, db', blocks);
      }
    }
  }

  /** A chunk without a rejected block: the sync goes on behind it. */
  lemma FetchGoesOn(src: Source, db: Db, due: seq<BlockHash>, n: nat, e: nat, stop: nat -> bool, round: nat, b: Batch)
    requires n < |due| && !stop(round) && e == n + FetchSize(due[n..])
    requires b == HandleBatch(db, BlocksOf(src, due[n..e]), src.inp) && b.Batched? && b.rejected == None
    ensures FetchRemaining(src, db, due[n..], stop, round) == FetchRemaining(src, b.db, due[e..], stop, round + 1)
  {
    var rest := due[n..];
    assert rest[..e - n] == due[n..e] && rest[e - n..] == due[e..];
  }

  /** A chunk with one: the sync ends. */
  lemma FetchEnds(src: Source, db: Db, due: seq<BlockHash>, n: nat, e: nat, stop: nat -> bool, round: nat, b: Batch,
                  m: nat)
    requires n < |due| && !stop(round) && e == n + FetchSize(due[n..])
    requires b == HandleBatch(db, BlocksOf(src, due[n..e]), src.inp) && b.Batched? && b.rejected.Some?
    requires n <= m < e && b.connected == m - n
    ensures FetchRemaining(src, db, due[n..], stop, round)
         == Sync(b.db, RejectedBlock(src.blockOf(due[m]).header.hash, b.rejected.value))
  {
    var rest := due[n..];
    assert rest[..e - n] == due[n..e] && rest[m - n] == due[m];
  }

  lemma ChunkEndsSync(src: Source, db: Db, chain: seq<Block>, due: seq<BlockHash>, n: nat, e: nat, stop: nat -> bool,
                      b: Batch, m: nat)
    requires n <= m && BatchEndedAt(src, db, chain, due, n, e, b, m) && b.rejected.Some?
    ensures m < |due|
    ensures EndedAt(src, db, chain, due, Sync(b.db, RejectedBlock(due[m], b.rejected.value)), m, stop)
  {
  }

  lemma FetchStops(src: Source, db: Db, chain: seq<Block>, due: seq<BlockHash>, n: nat, db': Db, stop: nat -> bool,
                   round: nat)
    requires Reached(src, db, chain, due, n, db') && (n == |due| || stop(round))
    ensures EndedAt(src, db, chain, due, FetchRemaining(src, db', due[n..], stop, round), n, stop)
  {
  }

  /** Fetching the rest of the path from its next block on. */
  lemma {:induction false} FetchOnPath(src: Source, db: Db, chain: seq<Block>, due: seq<BlockHash>, n: nat, db': Db,
                                       stop: nat -> bool, round: nat)
    returns (m: nat)
    requires Ready(src, db, chain, due) && Reached(src, db, chain, due, n, db')
    ensures n <= m <= |due|
    ensures EndedAt(src, db, chain, due, FetchRemaining(src, db', due[n..], stop, round), m, stop)
    decreases |due| - n
  {
    m := n;
    if n == |due| || stop(round) {
      FetchStops(src, db, chain, due, n, db', stop, round);
    } else {
      var e := n + FetchSize(due[n..]);
      var blocks := BlocksOf(src, due[n..e]);
      m := BatchOnPath(src, db, chain, due, n, e, db', blocks);
      var b := HandleBatch(db', blocks, src.inp);
      if b.rejected == None {
        FetchGoesOn(src, db', due, n, e, stop, round, b);
        m := FetchOnPath(src, db, chain, due, e, b.db, stop, round + 1);
      } else {
        FetchEnds(src, db', due, n, e, stop, round, b, m);
        OnlyNextExtendsTip(src, db, chain, due, m, m, b.db);
        ChunkEndsSync(src, db, chain, due, n, e, stop, b, m);
      }
    }
  }

  /** An error in a chunk drops the chunk and ends the sync as an error. */
  lemma ErrorEndsFetching(src: Source, db: Db, due: seq<BlockHash>, stop: nat -> bool, round: nat, n: nat)
    requires n == (if |due| < 50 then |due| else 50) && n > 0 && !stop(round)
    requires HandleBatch(db, BlocksOf(src, due[..n]), src.inp) == BatchError
    ensures FetchRemaining(src, db, due, stop, round) == Sync(db, ConnectError)
  {
  }

  /** A stop is seen before one of the chunks of 50 that the blocks left make. */
  ghost predicate StopsWithin(stop: nat -> bool, round: nat, left: nat) {
    exists q: nat :: StopsAt(stop, round, left, q)
  }

  ghost predicate StopsAt(stop: nat -> bool, round: nat, left: nat, q: nat) {
    50 * q < left && stop(round + q)
  }

  lemma StopsLater(stop: nat -> bool, round: nat, left: nat)
    requires left > 0 && !stop(round)
    ensures StopsWithin(stop, round, left) <==> left > 50 && StopsWithin(stop, round + 1, left - 50)
  {
    if StopsWithin(stop, round, left) {
      var q: nat :| StopsAt(stop, round, left, q);
      assert q > 0;
      assert StopsAt(stop, round + 1, left - 50, q - 1);
    }
    if left > 50 && StopsWithin(stop, round + 1, left - 50) {
      var q: nat :| StopsAt(stop, round + 1, left - 50, q);
      assert StopsAt(stop, round, left, q + 1);
    }
  }

  ghost predicate ValidFrom(src: Source, chain: seq<Block>, due: seq<BlockHash>, n: nat) {
    forall i :: n <= i < |due| ==> ValidAt(src, chain, due, i)
  }

  lemma ValidChunkIsWhole(src: Source, db: Db, chain: seq<Block>, due: seq<BlockHash>, n: nat, e: nat, b: Batch,
                          m: nat)
    requires n <= m && BatchEndedAt(src, db, chain, due, n, e, b, m) && ValidFrom(src, chain, due, n)
    ensures b.rejected == None && Reached(src, db, chain, due, e, b.db)
  {
  }

  /** A chunk of valid blocks connects as a whole, and the fetching goes on behind it. */
  lemma ValidChunkConnects(src: Source, db: Db, chain: seq<Block>, due: seq<BlockHash>, n: nat, db': Db,
                           stop: nat -> bool, round: nat, e: nat)
    returns (db'': Db)
    requires Ready(src, db, chain, due) && Reached(src, db, chain, due, n, db') && ValidFrom(src, chain, due, n)
    requires n < |due| && !stop(round) && e == n + FetchSize(due[n..])
    ensures Reached(src, db, chain, due, e, db'')
    ensures FetchRemaining(src, db', due[n..], stop, round) == FetchRemaining(src, db'', due[e..], stop, round + 1)
  {
    var blocks := BlocksOf(src, due[n..e]);
    var m := BatchOnPath(src, db, chain, due, n, e, db', blocks);
    var b := HandleBatch(db', blocks, src.inp);
    ValidChunkIsWhole(src, db, chain, due, n, e, b, m);
    FetchGoesOn(src, db', due, n, e, stop, round, b);
    db'' := b.db;
  }

  /** Interrupted if a stop is seen before a chunk of the blocks left, and else at the end. */
  ghost predicate EndsAsTold(sync: Sync, stop: nat -> bool, round: nat, left: nat) {
    sync.ending == if StopsWithin(stop, round, left) then Interrupted else Synced
  }

  lemma FetchEndsBefore(src: Source, db: Db, due: seq<BlockHash>, n: nat, stop: nat -> bool, round: nat)
    requires n <= |due| && (n == |due| || stop(round))
    ensures EndsAsTold(FetchRemaining(src, db, due[n..], stop, round), stop, round, |due| - n)
  {
    assert n < |due| ==> StopsAt(stop, round, |due| - n, 0);
  }

  lemma ToldOneLater(sync: Sync, stop: nat -> bool, round: nat, due: seq<BlockHash>, n: nat, e: nat)
    requires n < |due| && !stop(round) && e == n + FetchSize(due[n..])
    requires EndsAsTold(sync, stop, round + 1, |due| - e)
    ensures EndsAsTold(sync, stop, round, |due| - n)
  {
    StopsLater(stop, round, |due| - n);
  }

  /** Valid blocks are fetched to the end exactly unless a stop is seen before a chunk of 50 of them. */
  lemma {:induction false} FetchInterruptedExactlyWhen(src: Source, db: Db, chain: seq<Block>, due: seq<BlockHash>,
                                                       n: nat, db': Db, stop: nat -> bool, round: nat)
    requires n <= |due| && Ready(src, db, chain, due) && Reached(src, db, chain, due, n, db')
    requires ValidFrom(src, chain, due, n)
    ensures EndsAsTold(FetchRemaining(src, db', due[n..], stop, round), stop, round, |due| - n)
    decreases |due| - n
  {
    if n == |due| || stop(round) {
      FetchEndsBefore(src, db', due, n, stop, round);
    } else {
      var e := n + FetchSize(due[n..]);
      var db'' := ValidChunkConnects(src, db, chain, due, n, db', stop, round, e);
      FetchInterruptedExactlyWhen(src, db, chain, due, e, db'', stop, round + 1);
      ToldOneLater(FetchRemaining(src, db'', due[e..], stop, round + 1), stop, round, due, n, e);
    }
  }

  /** Fetching on from a later block than the next one: it is rejected for its parent, and nothing connects. */
  lemma FetchBeyondGap(src: Source, db: Db, chain: seq<Block>, due: seq<BlockHash>, n: nat, m: nat, db': Db,
                       stop: nat -> bool)
    requires Ready(src, db, chain, due) && Reached(src, db, chain, due, n, db') && n < m < |due|
    ensures FetchRemaining(src, db', due[m..], stop, 0)
         == Sync(db', if stop(0) then Interrupted else RejectedBlock(due[m], BlockParent))
  {
    if !stop(0) {
      var e := m + FetchSize(due[m..]);
      LaterIsRejected(src, db, chain, due, n, m, db');
      OnlyNextExtendsTip(src, db, chain, due, n, m, db');
      FirstOfBatch(src, due, m, e, BlocksOf(src, due[m..e]));
      FetchEnds(src, db', due, m, e, stop, 0, Batched(db', 0, Some(BlockParent)), m);
    }
  }

  // ---------------------------------------------------------------- the files as a source

  /** Connecting one block more. */
  lemma AfterOne(src: Source, db: Db, due: seq<BlockHash>, n: nat, c: ConnectResult)
    requires n < |due| && After(src, db, due[..n]).Some?
    requires c == ConnectBlock(After(src, db, due[..n]).value, src.blockOf(due[n]), src.inp)
    ensures After(src, db, due[..n + 1]) == if c.Accept? then Some(c.db) else None
  {
    var more := due[..n + 1];
    assert more[..|more| - 1] == due[..n] && more[|more| - 1] == due[n];
  }

  lemma AfterFewer(src: Source, db: Db, due: seq<BlockHash>, n: nat)
    requires n < |due| && After(src, db, due[..n + 1]).Some?
    ensures After(src, db, due[..n]).Some?
  {
    var more := due[..n + 1];
    assert more[..|more| - 1] == due[..n];
  }

  /** What connecting the first `n` blocks of the path gives is in agreement. */
  lemma {:induction false} AfterIsReached(src: Source, db: Db, chain: seq<Block>, due: seq<BlockHash>, n: nat)
    requires Ready(src, db, chain, due) && n <= |due| && After(src, db, due[..n]).Some?
    ensures Reached(src, db, chain, due, n, After(src, db, due[..n]).value)
    decreases n
  {
    if n == 0 {
      AfterNothing(src, db, chain, due);
    } else {
      AfterFewer(src, db, due, n - 1);
      var before := After(src, db, due[..n - 1]).value;
      AfterIsReached(src, db, chain, due, n - 1);
      NextIsDecided(src, db, chain, due, n - 1, before);
      AfterOne(src, db, due, n - 1, ConnectBlock(before, src.blockOf(due[n - 1]), src.inp));
    }
  }

  /** The file sync is never told of an error. */
  lemma JudgeNeverFails(src: Source, db: Db, chain: seq<Block>, due: seq<BlockHash>)
    requires Ready(src, db, chain, due)
    ensures Reading.NeverFails(JudgeOf(src, db), due)
  {
    forall connected: seq<Cache.Block>, block: Cache.Block | Files.Hashes(connected) + [block.hash] <= due
      ensures JudgeOf(src, db)(connected, block) != Files.Fails
    {
      NextIsJudged(src, db, chain, due, Files.Hashes(connected), block.hash);
    }
  }

  lemma PrefixOfPath(connected: seq<BlockHash>, hash: BlockHash, due: seq<BlockHash>)
    requires connected + [hash] <= due
    ensures |connected| < |due| && connected == due[..|connected|] && hash == due[|connected|]
  {
    var n := |connected|;
    assert (connected + [hash])[..n] == connected && (connected + [hash])[n] == hash;
  }

  lemma NextIsJudged(src: Source, db: Db, chain: seq<Block>, due: seq<BlockHash>, connected: seq<BlockHash>,
                     hash: BlockHash)
    requires Ready(src, db, chain, due) && connected + [hash] <= due
    ensures Judgement(src, db, connected, hash) != Files.Fails
  {
    var n := |connected|;
    PrefixOfPath(connected, hash, due);
    if After(src, db, due[..n]).Some? {
      AfterIsReached(src, db, chain, due, n);
      NextIsDecided(src, db, chain, due, n, After(src, db, due[..n]).value);
    }
  }

  lemma HashesBefore(connected: seq<Cache.Block>)
    requires connected != []
    ensures Files.Hashes(connected)[..|connected| - 1] == Files.Hashes(connected[..|connected| - 1])
  {
  }

  /** As far as the file sync got, the database has followed. */
  lemma {:induction false} AcceptedIsAfter(src: Source, db: Db, connected: seq<Cache.Block>)
    requires Files.Accepted(JudgeOf(src, db), connected)
    ensures After(src, db, Files.Hashes(connected)).Some?
    decreases |connected|
  {
    if connected != [] {
      var n := |connected| - 1;
      HashesBefore(connected);
      assert Files.Accepted(JudgeOf(src, db), connected[..n]) by {
        forall k | 0 <= k < n ensures JudgeOf(src, db)(connected[..n][..k], connected[..n][k]) == Files.Connects {
          assert connected[..n][..k] == connected[..k];
        }
      }
      AcceptedIsAfter(src, db, connected[..n]);
      assert JudgeOf(src, db)(connected[..n], connected[n]) == Files.Connects;
    }
  }

  // ---------------------------------------------------------------- whole syncs

  /** The file sync ended with `m` blocks off the stack, `n` of them connected. */
  ghost predicate FilesEndedAt(src: Source, db: Db, chain: seq<Block>, due: seq<BlockHash>, out: Files.Outcome,
                               n: nat, m: nat) {
    && n <= m <= |due|
    && Files.Hashes(out.s.connected) == due[..n]
    && After(src, db, due[..n]).Some? && Reached(src, db, chain, due, n, After(src, db, due[..n]).value)
    && Reverse(out.s.missing) == due[m..]
    && (n < m ==> m < |due|)
  }

  lemma GoodSplits(s: Files.State, due: seq<BlockHash>)
    requires Files.Good(s, due)
    ensures var n, m := |s.connected|, |s.connected| + |s.pending|;
            n <= m <= |due| && Files.Hashes(s.connected) == due[..n] && Reverse(s.missing) == due[m..]
  {
    assert due == Files.Hashes(s.connected) + Files.Hashes(s.pending) + Reverse(s.missing);
  }

  /** Off the stack but not connected are exactly the blocks a failed file sync dropped. */
  lemma FilesOnPath(src: Source, db: Db, chain: seq<Block>, missing: seq<BlockHash>, dir: Directory)
    returns (n: nat, m: nat)
    requires missing != [] && Ready(src, db, chain, Reverse(missing))
    ensures FilesEndedAt(src, db, chain, Reverse(missing), SyncFiles(src, db, missing, dir), n, m)
    ensures n == m <==> Files.Conserved(missing, SyncFiles(src, db, missing, dir).s)
  {
    var due, judge := Reverse(missing), JudgeOf(src, db);
    var out := SyncFiles(src, db, missing, dir);
    n, m := |out.s.connected|, |out.s.connected| + |out.s.pending|;
    MissingIsDistinct(missing);
    JudgeNeverFails(src, db, chain, due);
    Reading.SyncNeverFails(judge, dir.cancel, dir.items, missing);
    Files.SyncConserves(judge, dir.cancel, dir.items, missing);
    Files.SyncConnectsOnlyAccepted(judge, dir.cancel, dir.items, missing);
    SyncIsGood(judge, missing, dir);
    GoodSplits(out.s, due);
    Files.ConservedIffNothingPending(missing, out.s);
    AcceptedIsAfter(src, db, out.s.connected);
    AfterIsReached(src, db, chain, due, n);
  }

  lemma MissingIsDistinct(missing: seq<BlockHash>)
    requires Distinct(Reverse(missing))
    ensures Distinct(missing)
  {
    forall i, j | 0 <= i < j < |missing| ensures missing[i] != missing[j] {
      assert missing[i] == Reverse(missing)[|missing| - 1 - i] && missing[j] == Reverse(missing)[|missing| - 1 - j];
    }
  }

  lemma SyncIsGood(judge: Files.Judge, missing: seq<BlockHash>, dir: Directory)
    requires missing != [] && Distinct(missing)
    ensures Files.GoodEnd(Files.SyncFromDirectory(judge, dir.cancel, dir.items, missing), Reverse(missing))
  {
    Files.StartIsGood(missing);
    Files.LoopIsGood(judge, dir.cancel, missing[|missing| - 1], dir.items, Files.Start(missing), false, 0, 0,
                     Reverse(missing));
  }

  /** The file sync dropped blocks: off the stack and not connected. */
  ghost predicate DropsBlocks(src: Source, db: Db, missing: seq<BlockHash>, dir: Option<Directory>) {
    missing != [] && dir.Some? && !Files.Conserved(missing, SyncFiles(src, db, missing, dir.value).s)
  }

  /** Blocks were dropped after the `n`-th: nothing more connects, a later block is refused for its parent. */
  ghost predicate StuckAt(src: Source, db: Db, chain: seq<Block>, due: seq<BlockHash>, sync: Sync, n: nat,
                          stopped: bool) {
    && n < |due| && Reached(src, db, chain, due, n, sync.db)
    && if stopped then sync.ending == Interrupted
       else exists m :: n < m < |due| && sync.ending == RejectedBlock(due[m], BlockParent)
  }

  /**
   * Whatever files and node deliver in whatever order, and wherever the sync is interrupted: the database
   * agrees with the chain extended by a prefix of the missing blocks. Unless the file sync dropped blocks,
   * the sync ends with all of them, or at one that is rejected for its contents. If it did, the next block
   * is rejected for its parent.
   */
  lemma SyncOnPath(src: Source, db: Db, chain: seq<Block>, missing: seq<BlockHash>, dir: Option<Directory>,
                   stop: nat -> bool)
    returns (n: nat)
    requires Ready(src, db, chain, Reverse(missing))
    ensures var sync, due := SyncBlocks(src, db, missing, dir, stop), Reverse(missing);
            if DropsBlocks(src, db, missing, dir) then StuckAt(src, db, chain, due, sync, n, stop(0))
            else EndedAt(src, db, chain, due, sync, n, stop)
  {
    var due := Reverse(missing);
    n := 0;
    AfterNothing(src, db, chain, due);
    if missing != [] {
      if dir.None? {
        assert due[0..] == due;
        n := FetchOnPath(src, db, chain, due, 0, db, stop, 0);
      } else {
        var m;
        n, m := FilesOnPath(src, db, chain, missing, dir.value);
        var db' := After(src, db, due[..n]).value;
        if n == m {
          n := FetchOnPath(src, db, chain, due, n, db', stop, 0);
        } else {
          FetchBeyondGap(src, db, chain, due, n, m, db', stop);
        }
      }
    }
  }

  // ---------------------------------------------------------------- from the roll-back to the node's tip

  /** What the roll-back and the search for missing blocks leave behind, with the node's tip on record. */
  ghost predicate RolledBack(db: Db, chain: seq<Block>, oldTip: BlockHash, mainTip: BlockHash,
                             missing: seq<BlockHash>) {
    && Agrees(db, chain)
    && LastCommon(db.tables, oldTip, mainTip, CommonAncestor(TipHash(db)))
    && Missing(db.tables, mainTip, TipHash(db), missing)
    && (mainTip == ALL_ZEROS || mainTip in db.tables.header)
    && (oldTip == ALL_ZEROS && mainTip != ALL_ZEROS ==> Complete(db.tables, mainTip))
  }

  lemma NothingMissing(db: Db, chain: seq<Block>, oldTip: BlockHash, mainTip: BlockHash)
    requires RolledBack(db, chain, oldTip, mainTip, [])
    ensures TipHash(db) == mainTip
  {
    if mainTip != ALL_ZEROS {
      assert HeightConsistent(db.tables, mainTip);
      ChainLinks(db.tables, mainTip);
    }
  }

  lemma SomethingMissing(db: Db, chain: seq<Block>, oldTip: BlockHash, mainTip: BlockHash, missing: seq<BlockHash>)
    requires RolledBack(db, chain, oldTip, mainTip, missing) && missing != []
    ensures Path(db.tables, TipHash(db), Reverse(missing))
    ensures End(TipHash(db), Reverse(missing), |missing|) == mainTip
  {
    assert mainTip != ALL_ZEROS;
    MissingIsPath(db.tables, oldTip, mainTip, TipHash(db), missing);
  }

  /**
   * Roll-back, missing blocks, files and fetching together: the database agrees with the chain of the
   * fork point extended by `n` missing blocks; a sync that reports success has the node's tip as its own;
   * and a block is refused for its parent exactly when the file sync dropped blocks before it.
   */
  lemma SyncReachesNodeTip(src: Source, db: Db, chain: seq<Block>, oldTip: BlockHash, mainTip: BlockHash,
                           missing: seq<BlockHash>, dir: Option<Directory>, stop: nat -> bool)
    returns (n: nat)
    requires RolledBack(db, chain, oldTip, mainTip, missing) && Admissible(src, db.tables, chain, Reverse(missing))
    ensures n <= |missing|
    ensures var sync := SyncBlocks(src, db, missing, dir, stop);
            && Agrees(sync.db, chain + BlocksOf(src, Reverse(missing)[..n]))
            && sync.ending != ConnectError
            && (sync.ending == Synced ==> TipHash(sync.db) == mainTip)
            && (sync.ending.RejectedBlock? ==>
                  (sync.ending.reason == BlockParent <==> DropsBlocks(src, db, missing, dir)))
  {
    var due := Reverse(missing);
    if missing == [] {
      NothingMissing(db, chain, oldTip, mainTip);
      assert Path(db.tables, TipHash(db), due);
    } else {
      SomethingMissing(db, chain, oldTip, mainTip, missing);
    }
    n := SyncOnPath(src, db, chain, missing, dir, stop);
  }

  // ---------------------------------------------------------------- when a healthy block is refused

  ghost predicate AllValid(src: Source, chain: seq<Block>, due: seq<BlockHash>) {
    forall n :: 0 <= n < |due| ==> ValidAt(src, chain, due, n)
  }

  lemma ValidIsAccepted(src: Source, db: Db, chain: seq<Block>, due: seq<BlockHash>, n: nat, db': Db)
    requires Ready(src, db, chain, due) && AllValid(src, chain, due) && n < |due|
    requires Reached(src, db, chain, due, n, db')
    ensures ConnectBlock(db', src.blockOf(due[n]), src.inp).Accept?
  {
    NextIsDecided(src, db, chain, due, n, db');
  }

  /** Valid blocks all connect, one after another. */
  lemma {:induction false} ValidBlocksConnect(src: Source, db: Db, chain: seq<Block>, due: seq<BlockHash>, n: nat)
    requires Ready(src, db, chain, due) && AllValid(src, chain, due) && n <= |due|
    ensures After(src, db, due[..n]).Some?
    decreases n
  {
    if n > 0 {
      ValidBlocksConnect(src, db, chain, due, n - 1);
      var before := After(src, db, due[..n - 1]).value;
      AfterIsReached(src, db, chain, due, n - 1);
      ValidIsAccepted(src, db, chain, due, n - 1, before);
      AfterOne(src, db, due, n - 1, ConnectBlock(before, src.blockOf(due[n - 1]), src.inp));
    }
  }

  /** When all missing blocks are valid the file sync is told so. */
  lemma JudgeAcceptsDue(src: Source, db: Db, chain: seq<Block>, due: seq<BlockHash>)
    requires Ready(src, db, chain, due) && AllValid(src, chain, due)
    ensures Reading.AcceptsDue(JudgeOf(src, db), due)
  {
    forall connected: seq<Cache.Block>, block: Cache.Block | Files.Hashes(connected) + [block.hash] <= due
      ensures JudgeOf(src, db)(connected, block) == Files.Connects
    {
      NextIsAccepted(src, db, chain, due, Files.Hashes(connected), block.hash);
    }
  }

  lemma NextIsAccepted(src: Source, db: Db, chain: seq<Block>, due: seq<BlockHash>, connected: seq<BlockHash>,
                       hash: BlockHash)
    requires Ready(src, db, chain, due) && AllValid(src, chain, due) && connected + [hash] <= due
    ensures Judgement(src, db, connected, hash) == Files.Connects
  {
    var n := |connected|;
    PrefixOfPath(connected, hash, due);
    ValidBlocksConnect(src, db, chain, due, n);
    AfterIsReached(src, db, chain, due, n);
    ValidIsAccepted(src, db, chain, due, n, After(src, db, due[..n]).value);
  }

  /** All missing blocks valid: whether the file sync loses some of them can be read off the files. */
  lemma DropsExactlyWhen(src: Source, db: Db, chain: seq<Block>, missing: seq<BlockHash>, due: seq<BlockHash>,
                         dir: Directory, b: nat)
    requires missing != [] && due == Reverse(missing) && Ready(src, db, chain, due) && AllValid(src, chain, due)
    requires (forall i :: !dir.cancel(i)) && b == Reading.FirstBad(dir.items) && Reading.Smooth(dir.items, due, b)
    ensures DropsBlocks(src, db, missing, Some(dir)) <==> Reading.LosesBlocks(dir.items, due, b)
  {
    MissingIsDistinct(missing);
    JudgeAcceptsDue(src, db, chain, due);
    Reading.ConservedExactlyWhenRead(JudgeOf(src, db), dir.cancel, dir.items, missing, due, b);
  }

  /**
   * Every missing block is valid and nothing is interrupted. The sync connects all of them unless the files
   * lose blocks; if they do, it stops and reports a valid block as rejected, for its parent.
   */
  lemma ValidBlockIsRefusedExactlyWhen(src: Source, db: Db, chain: seq<Block>, missing: seq<BlockHash>,
                                       due: seq<BlockHash>, dir: Directory, stop: nat -> bool, b: nat)
    requires missing != [] && due == Reverse(missing) && Ready(src, db, chain, due) && AllValid(src, chain, due)
    requires (forall i :: !dir.cancel(i)) && b == Reading.FirstBad(dir.items) && Reading.Smooth(dir.items, due, b)
    requires !Stops(stop)
    ensures var sync := SyncBlocks(src, db, missing, Some(dir), stop);
            if Reading.LosesBlocks(dir.items, due, b)
            then sync.ending.RejectedBlock? && sync.ending.hash in due && sync.ending.reason == BlockParent
            else sync.ending == Synced && Agrees(sync.db, chain + BlocksOf(src, due))
  {
    DropsExactlyWhen(src, db, chain, missing, due, dir, b);
    var n := SyncOnPath(src, db, chain, missing, Some(dir), stop);
    if !Reading.LosesBlocks(dir.items, due, b) {
      assert due[..|due|] == due;
    }
  }
}

/** Connecting and disconnecting blocks on the whole database, and what every run of them keeps. */
module Chainstate {
  import opened Common
  import opened Utxos
  import opened BlockDiffs
  import opened BlockHashes
  import opened HeaderTree

  datatype Block = Block(header: Header, txs: seq<Transaction>)

  datatype Db = Db(tables: Tables, tip: Option<BlockHash>, utxos: UtxoMap)

  const EMPTY_DB := Db(EMPTY_TABLES, None, map[])

  /** What a connect call is given besides the block. */
  datatype Inputs = Inputs(activationHeight: nat, verdict: Verdict, extra: UtxoMap)

  datatype RejectReason = BlockParent | NoCoinbase | Bip360 | MissingParentHeight

  /** Accept and Reject are committed; an Error drops the transaction. */
  datatype ConnectResult = Accept(db: Db) | Reject(reason: RejectReason) | Error

  // ---------------------------------------------------------------- connecting

  function TipHash(db: Db): BlockHash {
    match db.tip
    case None => ALL_ZEROS
    case Some(tip) => tip
  }

  /** The block's parent is the tip; without a tip only a block without parent fits. */
  predicate ExtendsTip(db: Db, block: Block) {
    match db.tip
    case None => block.header.prev == ALL_ZEROS
    case Some(tip) => block.header.prev == tip
  }

  function ApplyChecked(utxos: UtxoMap, d: Diff): Option<UtxoMap> {
    if d.spent.Keys <= utxos.Keys then Some(Applied(utxos, d)) else None
  }

  /** Store the block and move the tip if the block has more work behind it. */
  function StoreBlock(db: Db, block: Block, d: Diff): ConnectResult
    requires block.txs != []
  {
    var hash := block.header.hash;
    match ApplyChecked(db.utxos, d)
    case None => Error
    case Some(utxos) =>
      match PutBlockInfo(db.tables, hash, block.txs[0].txid, d)
      case Err(_) => Error
      case Ok(tables) =>
        if db.tip.Some? && db.tip.value !in tables.cumulativeWork then Error
        else if db.tip.Some? && tables.cumulativeWork[hash] <= tables.cumulativeWork[db.tip.value] then
          Accept(Db(tables, db.tip, utxos))
        else Accept(Db(tables, Some(hash), utxos))
  }

  /** The header must have been stored before. */
  function ConnectBlock(db: Db, block: Block, inp: Inputs): ConnectResult {
    if !ExtendsTip(db, block) then Reject(BlockParent)
    else if block.header.hash !in db.tables.height then Error
    else if block.txs == [] then Reject(NoCoinbase)
    else
      var active := db.tables.height[block.header.hash] >= inp.activationHeight;
      match ValidateAndDiff(active, inp.verdict, block.txs, db.utxos, inp.extra)
      case None => Reject(Bip360)
      case Some(d) => StoreBlock(db, block, d)
  }

  /** The height of a block that is not stored yet: one above its parent. */
  function NextHeight(t: Tables, header: Header): Option<nat> {
    if header.prev == ALL_ZEROS then Some(0)
    else if header.prev in t.height then Some(t.height[header.prev] + 1)
    else None
  }

  /** Store the header unless it is known; None when its parent has no height. */
  function StoreHeader(db: Db, header: Header): Option<Db> {
    if header.hash in db.tables.header then Some(db)
    else
      match NextHeight(db.tables, header)
      case None => None
      case Some(height) => Some(db.(tables := PutHeader(db.tables, header, height)))
  }

  /** The committed database, and whether the block was accepted (None: an error, nothing committed). */
  datatype Committed = Committed(db: Db, accepted: Option<bool>)

  /** The header write is kept even if the block is rejected; the rest only if it is accepted. */
  function ConnectAndCommit(db: Db, block: Block, inp: Inputs): Committed {
    match StoreHeader(db, block.header)
    case None => Committed(db, Some(false))
    case Some(parent) =>
      match ConnectBlock(parent, block, inp)
      case Accept(child) => Committed(child, Some(true))
      case Reject(_) => Committed(parent, Some(false))
      case Error => Committed(db, None)
  }

  // ---------------------------------------------------------------- disconnecting

  /** False: an error, nothing committed. A block without a stored diff was never accepted. */
  function Disconnect(db: Db, hash: BlockHash): (Db, bool) {
    if hash !in db.tables.diff then (db, true)
    else if db.tip.Some? && db.tip.value != hash then (db, false)
    else if hash !in db.tables.header || hash !in db.tables.height then (db, false)
    else
      var prev := db.tables.header[hash].prev;
      (db.(utxos := Undone(db.utxos, db.tables.diff[hash]),
           tip := if prev == ALL_ZEROS then None else Some(prev)), true)
  }

  // ---------------------------------------------------------------- the active chain and its replay

  /** Tx-by-tx replay of a chain of blocks from nothing. */
  function Replay(chain: seq<Block>): UtxoMap
    decreases |chain|
  {
    if chain == [] then map[]
    else ReplayTxs(Replay(chain[..|chain| - 1]), chain[|chain| - 1].txs)
  }

  function LastHash(chain: seq<Block>): BlockHash {
    if chain == [] then ALL_ZEROS else chain[|chain| - 1].header.hash
  }

  /** Every block's parent is the block before it. */
  ghost predicate Linked(chain: seq<Block>) {
    forall i :: 0 <= i < |chain| ==> LinkedAt(chain, i)
  }

  ghost predicate LinkedAt(chain: seq<Block>, i: nat)
    requires i < |chain|
  {
    chain[i].header.prev == if i == 0 then ALL_ZEROS else chain[i - 1].header.hash
  }

  lemma LinkedExtends(chain: seq<Block>, block: Block)
    ensures Linked(chain + [block]) <==> Linked(chain) && block.header.prev == LastHash(chain)
  {
    var chain' := chain + [block];
    assert LinkedAt(chain', |chain|) <==> block.header.prev == LastHash(chain);
    forall i | 0 <= i < |chain| ensures LinkedAt(chain', i) <==> LinkedAt(chain, i) {
    }
  }

  /** The id on record for a block is the one of its first transaction. */
  ghost predicate CoinbaseRecorded(t: Tables, block: Block) {
    var h := block.header.hash;
    block.txs != [] && h in t.coinbaseTxid && t.coinbaseTxid[h] == block.txs[0].txid
  }

  /** The stored header, id and diff of block `i` of the chain: the diff leads to its replay and back. */
  ghost predicate RecordedAt(t: Tables, chain: seq<Block>, i: nat)
    requires i < |chain|
  {
    var h := chain[i].header.hash;
    && h in t.header && t.header[h] == chain[i].header
    && CoinbaseRecorded(t, chain[i])
    && h in t.diff && t.diff[h] == Difference(Replay(chain[..i]), Replay(chain[..i + 1]))
    && Undone(Replay(chain[..i + 1]), t.diff[h]) == Replay(chain[..i])
  }

  /** A stored diff of a block without parent spends nothing. */
  ghost predicate RootDiffsSpendNothing(t: Tables) {
    forall h :: h in t.diff && h in t.header && t.header[h].prev == ALL_ZEROS ==> t.diff[h].spent == map[]
  }

  /** The database agrees with the replay of the active chain. */
  ghost predicate Agrees(db: Db, chain: seq<Block>) {
    && StoreInvariant(db.tables)
    && RootDiffsSpendNothing(db.tables)
    && Linked(chain)
    && (forall i :: 0 <= i < |chain| ==> RecordedAt(db.tables, chain, i))
    && db.tip == (if chain == [] then None else Some(chain[|chain| - 1].header.hash))
    && db.utxos == Replay(chain)
  }

  lemma {:induction false} ReplayIsP2mr(chain: seq<Block>)
    ensures AllP2mr(Replay(chain))
    decreases |chain|
  {
    if chain != [] {
      ReplayIsP2mr(chain[..|chain| - 1]);
      ReplayStaysP2mr(Replay(chain[..|chain| - 1]), chain[|chain| - 1].txs);
    }
  }

  /** Block `i` of the active chain has height `i`; so the hashes of the chain are distinct. */
  lemma {:induction false} ActiveHeights(t: Tables, chain: seq<Block>, i: nat)
    requires HeightsConsistent(t) && Linked(chain) && i < |chain|
    requires forall j :: 0 <= j < |chain| ==> RecordedAt(t, chain, j)
    ensures chain[i].header.hash in t.height && t.height[chain[i].header.hash] == i
    decreases i
  {
    assert RecordedAt(t, chain, i) && LinkedAt(chain, i);
    assert HeightConsistent(t, chain[i].header.hash);
    if i > 0 {
      ActiveHeights(t, chain, i - 1);
      assert RecordedAt(t, chain, i - 1);
    }
  }

  // ---------------------------------------------------------------- assumptions on a step

  /** Hashes commit to headers, a header proves some work, and heights on record are true ones. */
  ghost predicate HeaderAdmissible(t: Tables, header: Header) {
    && header.hash != ALL_ZEROS
    && header.hash != header.prev
    && header.work > 0
    && (header.hash in t.header ==> t.header[header.hash] == header)
    && (header.hash in t.height && NextHeight(t, header).Some? ==>
          t.height[header.hash] == NextHeight(t, header).value)
  }

  /** Fetched headers have true heights and do not contradict what is stored. */
  ghost predicate HeadersAdmissible(t: Tables, headers: seq<(Header, nat)>) {
    (forall i :: 0 <= i < |headers| ==> headers[i].0.prev != ALL_ZEROS ==> headers[i].1 > 0) && AllFit(t, headers)
  }

  /** Transactions of a block that extends the tip: fresh ids, a coinbase that spends nothing tracked. */
  ghost predicate TxsAdmissible(utxos: UtxoMap, block: Block, inp: Inputs) {
    && FreshTxids(utxos, block.txs)
    && TxidsCommit(block.txs)
    && CoinbaseSpendsNothing(utxos, block.txs)
    && NoneP2mr(inp.extra)
  }

  ghost predicate ConnectAdmissible(db: Db, block: Block, inp: Inputs) {
    && HeaderAdmissible(db.tables, block.header)
    && (ExtendsTip(db, block) ==> TxsAdmissible(db.utxos, block, inp))
  }

  /** A block whose header was stored before. */
  ghost predicate StoredAdmissible(db: Db, block: Block, inp: Inputs) {
    && block.header.hash in db.tables.header && db.tables.header[block.header.hash] == block.header
    && block.header.work > 0
    && (ExtendsTip(db, block) ==> TxsAdmissible(db.utxos, block, inp))
  }

  // ---------------------------------------------------------------- one connect

  lemma ConnectKeepsHeaders(db: Db, block: Block, inp: Inputs)
    requires ConnectBlock(db, block, inp).Accept?
    ensures var t := ConnectBlock(db, block, inp).db.tables;
            t.header == db.tables.header && t.height == db.tables.height
  {
  }

  /** A rejected block changes at most the header and height tables; an error changes nothing. */
  lemma RejectionKeepsState(db: Db, block: Block, inp: Inputs)
    requires ConnectAndCommit(db, block, inp).accepted != Some(true)
    ensures var db' := ConnectAndCommit(db, block, inp).db;
            && db' == db.(tables := db.tables.(header := db'.tables.header, height := db'.tables.height))
            && (ConnectAndCommit(db, block, inp).accepted == None ==> db' == db)
  {
  }

  /** Whether accepted or rejected, the header stays on record exactly when it was, or its parent's height is. */
  lemma HeaderIsKeptExactlyWhen(db: Db, block: Block, inp: Inputs)
    requires ConnectAndCommit(db, block, inp).accepted.Some?
    ensures var t, t', h := db.tables, ConnectAndCommit(db, block, inp).db.tables, block.header;
            && (h.hash in t'.header <==> h.hash in t.header || h.prev == ALL_ZEROS || h.prev in t.height)
            && (h.hash in t'.header && h.hash !in t.header ==>
                  && t'.header[h.hash] == h && h.hash in t'.height
                  && (h.hash != h.prev ==>
                        t'.height[h.hash] == if h.prev == ALL_ZEROS then 0 else t.height[h.prev] + 1))
  {
    if StoreHeader(db, block.header).Some? && ConnectBlock(StoreHeader(db, block.header).value, block, inp).Accept? {
      ConnectKeepsHeaders(StoreHeader(db, block.header).value, block, inp);
    }
  }

  /** A block whose parent is not the tip is rejected for that; on the tip one without coinbase for that. */
  lemma RejectedForItsPlaceExactlyWhen(db: Db, block: Block, inp: Inputs)
    ensures ConnectBlock(db, block, inp) == Reject(BlockParent) <==> block.header.prev != TipHash(db)
    ensures ConnectBlock(db, block, inp) == Reject(NoCoinbase)
       <==> block.header.prev == TipHash(db) && block.header.hash in db.tables.height && block.txs == []
  {
  }

  /** One more header on record, not contradicting anything, changes nothing about the active chain. */
  lemma PutHeaderAgrees(db: Db, chain: seq<Block>, header: Header, height: nat)
    requires Agrees(db, chain) && Fits(db.tables, header, height)
    ensures Agrees(db.(tables := PutHeader(db.tables, header, height)), chain)
  {
    PutHeaderKeepsInvariant(db.tables, header, height);
    PutHeaderGrows(db.tables, header, height);
    var t := PutHeader(db.tables, header, height);
    forall i | 0 <= i < |chain| ensures RecordedAt(t, chain, i) {
      assert RecordedAt(db.tables, chain, i);
    }
    assert RootDiffsSpendNothing(t) by {
      assert BlocksAncestorClosed(db.tables);
    }
  }

  lemma StoreHeaderAgrees(db: Db, chain: seq<Block>, header: Header)
    requires Agrees(db, chain) && HeaderAdmissible(db.tables, header) && StoreHeader(db, header).Some?
    ensures Agrees(StoreHeader(db, header).value, chain)
    ensures var t := StoreHeader(db, header).value.tables;
            && header.hash in t.header && t.header[header.hash] == header
  {
    if header.hash !in db.tables.header {
      PutHeaderAgrees(db, chain, header, NextHeight(db.tables, header).value);
    }
  }

  /** A batch of fetched headers changes nothing about the active chain. */
  lemma {:induction false} PutHeadersAgree(db: Db, chain: seq<Block>, headers: seq<(Header, nat)>)
    requires Agrees(db, chain) && HeadersAdmissible(db.tables, headers)
    ensures Agrees(db.(tables := PutHeaders(db.tables, headers)), chain)
    decreases |headers|
  {
    if headers != [] {
      var (header, height) := headers[0];
      PutHeaderAgrees(db, chain, header, height);
      PutHeadersAgree(db.(tables := PutHeader(db.tables, header, height)), chain, headers[1..]);
    }
  }

  lemma NewBlockIsNotInChain(t: Tables, chain: seq<Block>, block: Block, i: nat)
    requires HeightsConsistent(t) && Linked(chain) && block.header.prev == LastHash(chain) && i < |chain|
    requires forall j :: 0 <= j < |chain| ==> RecordedAt(t, chain, j)
    requires block.header.hash in t.header && t.header[block.header.hash] == block.header
    ensures chain[i].header.hash != block.header.hash
  {
    ActiveHeights(t, chain, i);
    ActiveHeights(t, chain, |chain| - 1);
    assert RecordedAt(t, chain, |chain| - 1);
    assert HeightConsistent(t, block.header.hash);
  }

  lemma RecordStays(t: Tables, t': Tables, chain: seq<Block>, block: Block, i: nat)
    requires i < |chain| && RecordedAt(t, chain, i)
    requires t'.header == t.header
    requires chain[i].header.hash in t'.diff && t'.diff[chain[i].header.hash] == t.diff[chain[i].header.hash]
    requires CoinbaseRecorded(t', chain[i])
    ensures RecordedAt(t', chain + [block], i)
  {
    assert (chain + [block])[..i] == chain[..i] && (chain + [block])[..i + 1] == chain[..i + 1];
  }

  lemma PrefixesOf(chain: seq<Block>, block: Block, n: nat)
    requires n == |chain|
    ensures (chain + [block])[..n] == chain && (chain + [block])[..n + 1] == chain + [block]
  {
  }

  lemma NewBlockIsRecorded(t: Tables, chain: seq<Block>, block: Block, before: UtxoMap, after: UtxoMap)
    requires block.header.hash in t.header && t.header[block.header.hash] == block.header
    requires before == Replay(chain) && after == Replay(chain + [block])
    requires block.header.hash in t.diff && t.diff[block.header.hash] == Difference(before, after)
    requires Undone(after, t.diff[block.header.hash]) == before && CoinbaseRecorded(t, block)
    ensures RecordedAt(t, chain + [block], |chain|)
  {
    PrefixesOf(chain, block, |chain|);
  }

  /** The tables after storing a block on top of the chain. */
  lemma StoredBlockIsRecorded(t: Tables, chain: seq<Block>, block: Block, d: Diff)
    requires HeightsConsistent(t) && Linked(chain) && block.header.prev == LastHash(chain)
    requires forall i :: 0 <= i < |chain| ==> RecordedAt(t, chain, i)
    requires block.header.hash in t.header && t.header[block.header.hash] == block.header
    requires d == Difference(Replay(chain), Replay(chain + [block]))
    requires Undone(Replay(chain + [block]), d) == Replay(chain)
    requires block.txs != [] && PutBlockInfo(t, block.header.hash, block.txs[0].txid, d).Ok?
    ensures var t' := PutBlockInfo(t, block.header.hash, block.txs[0].txid, d).value;
            forall i :: 0 <= i < |chain| + 1 ==> RecordedAt(t', chain + [block], i)
  {
    var t' := PutBlockInfo(t, block.header.hash, block.txs[0].txid, d).value;
    forall i | 0 <= i < |chain| + 1 ensures RecordedAt(t', chain + [block], i) {
      if i < |chain| {
        NewBlockIsNotInChain(t, chain, block, i);
        assert RecordedAt(t, chain, i);
        RecordStays(t, t', chain, block, i);
      } else {
        NewBlockIsRecorded(t', chain, block, Replay(chain), Replay(chain + [block]));
      }
    }
  }

  lemma ReplayExtends(chain: seq<Block>, block: Block)
    ensures Replay(chain + [block]) == ReplayTxs(Replay(chain), block.txs)
  {
  }

  lemma ExtendsTipExtendsChain(db: Db, chain: seq<Block>, block: Block)
    requires Agrees(db, chain)
    ensures ExtendsTip(db, block) <==> block.header.prev == LastHash(chain)
  {
  }

  lemma NoParentIffNoChain(db: Db, chain: seq<Block>)
    requires Agrees(db, chain)
    ensures LastHash(chain) == ALL_ZEROS <==> chain == []
    ensures chain != [] ==> LastHash(chain) in db.tables.header && LastHash(chain) in db.tables.cumulativeWork
  {
    if chain != [] {
      assert RecordedAt(db.tables, chain, |chain| - 1);
    }
  }

  lemma TipIsLastHash(db: Db, chain: seq<Block>)
    requires Agrees(db, chain)
    ensures TipHash(db) == LastHash(chain)
  {
  }

  /** More work behind the new block than behind the tip: storing it succeeds and the tip moves. */
  lemma StoreBlockMovesTip(db: Db, block: Block, d: Diff)
    requires block.txs != []
    requires block.header.hash in db.tables.header && db.tables.header[block.header.hash] == block.header
    requires block.header.work > 0 && d.spent.Keys <= db.utxos.Keys
    requires match db.tip
             case None => block.header.prev == ALL_ZEROS
             case Some(tip) => block.header.prev == tip && tip != block.header.hash
                               && tip != ALL_ZEROS && tip in db.tables.cumulativeWork
    ensures var put := PutBlockInfo(db.tables, block.header.hash, block.txs[0].txid, d);
            && put.Ok?
            && StoreBlock(db, block, d) == Accept(Db(put.value, Some(block.header.hash), Applied(db.utxos, d)))
  {
  }

  lemma TipIsStored(db: Db, chain: seq<Block>, block: Block)
    requires Agrees(db, chain) && block.header.prev == LastHash(chain)
    requires block.header.hash in db.tables.header && db.tables.header[block.header.hash] == block.header
    ensures match db.tip
            case None => block.header.prev == ALL_ZEROS
            case Some(tip) => block.header.prev == tip && tip != block.header.hash
                              && tip != ALL_ZEROS && tip in db.tables.cumulativeWork
  {
    NoParentIffNoChain(db, chain);
    if chain != [] {
      NewBlockIsNotInChain(db.tables, chain, block, |chain| - 1);
    }
  }

  lemma StoredDiffsStayRootless(t: Tables, block: Block, txid: nat, d: Diff)
    requires RootDiffsSpendNothing(t) && PutBlockInfo(t, block.header.hash, txid, d).Ok?
    requires block.header.hash in t.header && t.header[block.header.hash] == block.header
    requires block.header.prev == ALL_ZEROS ==> d.spent == map[]
    ensures RootDiffsSpendNothing(PutBlockInfo(t, block.header.hash, txid, d).value)
  {
  }

  /** A block stored on the tip is the new tip exactly if it adds work; equal work leaves the tip alone. */
  lemma TipMovesExactlyWhen(db: Db, block: Block, d: Diff)
    requires block.txs != [] && ExtendsTip(db, block) && StoreBlock(db, block, d).Accept?
    requires db.tip.Some? ==> db.tip.value != ALL_ZEROS && db.tip.value != block.header.hash
    requires db.tables.header[block.header.hash] == block.header
    ensures StoreBlock(db, block, d).db.tip
         == if db.tip == None || block.header.work > 0 then Some(block.header.hash) else db.tip
  {
  }

  /** What is missing in the tables when storing a block fails: a spent output, a header, or some work. */
  lemma StoringFailsExactlyWhen(db: Db, block: Block, d: Diff)
    requires block.txs != []
    ensures var t, h := db.tables, block.header.hash;
            StoreBlock(db, block, d) == Error
            <==> || (exists o :: o in d.spent && o !in db.utxos)
                 || h !in t.header
                 || (t.header[h].prev != ALL_ZEROS && t.header[h].prev !in t.cumulativeWork)
                 || (db.tip.Some? && db.tip.value != h && db.tip.value !in t.cumulativeWork)
  {
  }

  lemma StoreBlockAgrees(db: Db, chain: seq<Block>, block: Block, d: Diff)
    requires Agrees(db, chain) && block.txs != [] && block.header.prev == LastHash(chain)
    requires block.header.hash in db.tables.header && db.tables.header[block.header.hash] == block.header
    requires block.header.work > 0
    requires d == Difference(db.utxos, ReplayTxs(db.utxos, block.txs))
    requires d.spent.Keys <= db.utxos.Keys && Applied(db.utxos, d) == ReplayTxs(db.utxos, block.txs)
    requires Undone(ReplayTxs(db.utxos, block.txs), d) == db.utxos
    ensures StoreBlock(db, block, d).Accept?
    ensures Agrees(StoreBlock(db, block, d).db, chain + [block])
  {
    TipIsStored(db, chain, block);
    StoreBlockMovesTip(db, block, d);
    ReplayExtends(chain, block);
    LinkedExtends(chain, block);
    NoParentIffNoChain(db, chain);
    PutBlockInfoKeepsInvariant(db.tables, block.header.hash, block.txs[0].txid, d);
    StoredBlockIsRecorded(db.tables, chain, block, d);
    assert chain == [] ==> d.spent == map[];
    StoredDiffsStayRootless(db.tables, block, block.txs[0].txid, d);
  }

  /** A block on the tip is as high as the chain is long. */
  lemma HeightIsLength(db: Db, chain: seq<Block>, block: Block)
    requires Agrees(db, chain) && ExtendsTip(db, block)
    requires block.header.hash in db.tables.header && db.tables.header[block.header.hash] == block.header
    ensures block.header.hash in db.tables.height && db.tables.height[block.header.hash] == |chain|
  {
    ExtendsTipExtendsChain(db, chain, block);
    assert HeightConsistent(db.tables, block.header.hash);
    NoParentIffNoChain(db, chain);
    if chain != [] {
      ActiveHeights(db.tables, chain, |chain| - 1);
    }
  }

  /** Connecting a block whose header is stored: accepted, it extends the chain; an error cannot occur. */
  lemma ConnectStoredAgrees(db: Db, chain: seq<Block>, block: Block, inp: Inputs)
    requires Agrees(db, chain) && StoredAdmissible(db, block, inp)
    ensures match ConnectBlock(db, block, inp)
            case Accept(db') => Agrees(db', chain + [block]) && db'.tip == Some(block.header.hash)
            case Reject(_) => true
            case Error => false
  {
    ExtendsTipExtendsChain(db, chain, block);
    ReplayIsP2mr(chain);
    assert HeightConsistent(db.tables, block.header.hash);
    if ExtendsTip(db, block) && block.txs != [] {
      var active := db.tables.height[block.header.hash] >= inp.activationHeight;
      if ValidateAndDiff(active, inp.verdict, block.txs, db.utxos, inp.extra).Some? {
        AcceptedDiffRefinesReplay(active, inp.verdict, block.txs, db.utxos, inp.extra);
        StoreBlockAgrees(db, chain, block,
                         ValidateAndDiff(active, inp.verdict, block.txs, db.utxos, inp.extra).value);
      }
    }
  }

  /** Connecting: an accepted block extends the chain the database agrees with; a rejected one does not. */
  lemma ConnectAgrees(db: Db, chain: seq<Block>, block: Block, inp: Inputs)
    requires Agrees(db, chain) && ConnectAdmissible(db, block, inp)
    ensures var c := ConnectAndCommit(db, block, inp);
            && c.accepted.Some?
            && Agrees(c.db, if c.accepted.value then chain + [block] else chain)
  {
    if StoreHeader(db, block.header).Some? {
      var parent := StoreHeader(db, block.header).value;
      StoreHeaderAgrees(db, chain, block.header);
      ConnectStoredAgrees(parent, chain, block, inp);
    }
  }

  // ---------------------------------------------------------------- a batch of connects

  /** The blocks connected, and the first rejected one if any; an error drops the whole batch. */
  datatype Batch = Batched(db: Db, connected: nat, rejected: Option<RejectReason>) | BatchError

  /** Blocks in order, in one transaction, up to the first one that is rejected. No header is stored. */
  function HandleBatch(db: Db, blocks: seq<Block>, inp: Inputs): (b: Batch)
    ensures b.Batched? ==> b.connected <= |blocks| && (b.rejected.Some? ==> b.connected < |blocks|)
    decreases |blocks|
  {
    if blocks == [] then Batched(db, 0, None)
    else
      match ConnectBlock(db, blocks[0], inp)
      case Reject(reason) => Batched(db, 0, Some(reason))
      case Error => BatchError
      case Accept(db') =>
        match HandleBatch(db', blocks[1..], inp)
        case BatchError => BatchError
        case Batched(db'', n, rejected) => Batched(db'', n + 1, rejected)
  }

  /** Every block met by the batch has its header stored and admissible transactions. */
  ghost predicate BatchAdmissible(db: Db, blocks: seq<Block>, inp: Inputs)
    decreases |blocks|
  {
    blocks != [] ==>
      && StoredAdmissible(db, blocks[0], inp)
      && match ConnectBlock(db, blocks[0], inp)
         case Accept(db') => BatchAdmissible(db', blocks[1..], inp)
         case _ => true
  }

  lemma OneMoreBlock(chain: seq<Block>, blocks: seq<Block>, n: nat)
    requires n < |blocks|
    ensures chain + [blocks[0]] + blocks[1..][..n] == chain + blocks[..n + 1]
  {
  }

  /** The database agrees with the chain and the blocks the batch connected. */
  ghost predicate BatchExtends(b: Batch, chain: seq<Block>, blocks: seq<Block>) {
    && b.Batched? && b.connected <= |blocks|
    && Agrees(b.db, chain + blocks[..b.connected])
    && (b.rejected == None <==> b.connected == |blocks|)
  }

  lemma BatchStops(db: Db, chain: seq<Block>, blocks: seq<Block>, rejected: Option<RejectReason>)
    requires Agrees(db, chain) && (rejected == None <==> blocks == [])
    ensures BatchExtends(Batched(db, 0, rejected), chain, blocks)
  {
    assert chain + blocks[..0] == chain;
  }

  function OneMore(b: Batch): Batch {
    match b
    case BatchError => BatchError
    case Batched(db, n, rejected) => Batched(db, n + 1, rejected)
  }

  /** An accepted first block: the batch goes on behind it. */
  lemma BatchAccepts(db: Db, blocks: seq<Block>, inp: Inputs, db': Db)
    requires blocks != [] && ConnectBlock(db, blocks[0], inp) == Accept(db')
    ensures HandleBatch(db, blocks, inp) == OneMore(HandleBatch(db', blocks[1..], inp))
  {
  }

  lemma BatchGoesOn(b: Batch, chain: seq<Block>, blocks: seq<Block>)
    requires blocks != [] && BatchExtends(b, chain + [blocks[0]], blocks[1..])
    ensures BatchExtends(Batched(b.db, b.connected + 1, b.rejected), chain, blocks)
  {
    OneMoreBlock(chain, blocks, b.connected);
  }

  lemma BatchExtendsBehind(db: Db, chain: seq<Block>, blocks: seq<Block>, inp: Inputs, db': Db)
    requires blocks != [] && ConnectBlock(db, blocks[0], inp) == Accept(db')
    requires BatchExtends(HandleBatch(db', blocks[1..], inp), chain + [blocks[0]], blocks[1..])
    ensures BatchExtends(HandleBatch(db, blocks, inp), chain, blocks)
  {
    BatchAccepts(db, blocks, inp, db');
    OneMoreExtends(HandleBatch(db', blocks[1..], inp), HandleBatch(db, blocks, inp), chain, blocks);
  }

  lemma OneMoreExtends(rest: Batch, b: Batch, chain: seq<Block>, blocks: seq<Block>)
    requires blocks != [] && BatchExtends(rest, chain + [blocks[0]], blocks[1..]) && b == OneMore(rest)
    ensures BatchExtends(b, chain, blocks)
  {
    BatchGoesOn(rest, chain, blocks);
  }

  lemma BatchExtendsNothing(db: Db, chain: seq<Block>, blocks: seq<Block>, inp: Inputs)
    requires Agrees(db, chain) && (blocks != [] ==> ConnectBlock(db, blocks[0], inp).Reject?)
    ensures BatchExtends(HandleBatch(db, blocks, inp), chain, blocks)
  {
    BatchStops(db, chain, blocks, if blocks == [] then None else Some(ConnectBlock(db, blocks[0], inp).reason));
  }

  /** A batch extends the chain by exactly the blocks before the first rejected one. */
  lemma {:induction false} BatchAgrees(db: Db, chain: seq<Block>, blocks: seq<Block>, inp: Inputs)
    requires Agrees(db, chain) && BatchAdmissible(db, blocks, inp)
    ensures BatchExtends(HandleBatch(db, blocks, inp), chain, blocks)
    decreases |blocks|
  {
    if blocks != [] {
      ConnectStoredAgrees(db, chain, blocks[0], inp);
    }
    if blocks != [] && ConnectBlock(db, blocks[0], inp).Accept? {
      var db' := ConnectBlock(db, blocks[0], inp).db;
      BatchAgrees(db', chain + [blocks[0]], blocks[1..], inp);
      BatchExtendsBehind(db, chain, blocks, inp, db');
    } else {
      BatchExtendsNothing(db, chain, blocks, inp);
    }
  }

  // ---------------------------------------------------------------- one disconnect

  /** The active chain after a disconnect call: its last block goes when there was one to undo. */
  function ChainAfterDisconnect(db: Db, chain: seq<Block>, hash: BlockHash): seq<Block> {
    if hash in db.tables.diff && Disconnect(db, hash).1 && chain != [] then chain[..|chain| - 1] else chain
  }

  lemma LastRecord(t: Tables, chain: seq<Block>)
    requires chain != [] && RecordedAt(t, chain, |chain| - 1)
    ensures LastHash(chain) in t.diff && LastHash(chain) in t.header
    ensures t.header[LastHash(chain)] == chain[|chain| - 1].header
    ensures Undone(Replay(chain), t.diff[LastHash(chain)]) == Replay(chain[..|chain| - 1])
  {
    assert chain[..|chain| - 1 + 1] == chain;
  }

  /** What is on record about the tip: its parent, and the way back to the replay without it. */
  lemma TipRecord(db: Db, chain: seq<Block>)
    requires Agrees(db, chain) && chain != []
    ensures var rest, hash := chain[..|chain| - 1], LastHash(chain);
            && hash in db.tables.diff && hash in db.tables.header && hash in db.tables.height
            && db.tip == Some(hash)
            && db.tables.header[hash].prev == LastHash(rest)
            && Undone(db.utxos, db.tables.diff[hash]) == Replay(rest)
  {
    LastRecord(db.tables, chain);
    DiffKeyHasHeader(db.tables, LastHash(chain));
    assert LinkedAt(chain, |chain| - 1);
  }

  lemma PrefixHasNoZeroHash(db: Db, chain: seq<Block>, n: nat)
    requires Agrees(db, chain) && n <= |chain|
    ensures LastHash(chain[..n]) == ALL_ZEROS <==> chain[..n] == []
  {
    if n > 0 {
      assert RecordedAt(db.tables, chain, n - 1);
    }
  }

  /** Undoing the tip: the table and the tip of the chain without its last block. */
  lemma UndoTip(db: Db, chain: seq<Block>)
    requires Agrees(db, chain) && chain != []
    ensures var rest := chain[..|chain| - 1];
            && LastHash(chain) in db.tables.diff
            && Disconnect(db, LastHash(chain))
               == (Db(db.tables, if rest == [] then None else Some(LastHash(rest)), Replay(rest)), true)
  {
    TipRecord(db, chain);
    PrefixHasNoZeroHash(db, chain, |chain| - 1);
  }

  lemma PrefixIsRecorded(t: Tables, chain: seq<Block>, n: nat)
    requires n <= |chain| && Linked(chain)
    requires forall i :: 0 <= i < |chain| ==> RecordedAt(t, chain, i)
    ensures Linked(chain[..n]) && forall i :: 0 <= i < n ==> RecordedAt(t, chain[..n], i)
  {
    forall i | 0 <= i < n ensures LinkedAt(chain[..n], i) && RecordedAt(t, chain[..n], i) {
      assert LinkedAt(chain, i) && RecordedAt(t, chain, i);
      assert chain[..n][..i] == chain[..i] && chain[..n][..i + 1] == chain[..i + 1];
    }
  }

  lemma UndoTipAgrees(db: Db, chain: seq<Block>)
    requires Agrees(db, chain) && chain != []
    ensures Disconnect(db, LastHash(chain)).1
    ensures LastHash(chain) in db.tables.diff
    ensures Agrees(Disconnect(db, LastHash(chain)).0, chain[..|chain| - 1])
  {
    UndoTip(db, chain);
    PrefixIsRecorded(db.tables, chain, |chain| - 1);
  }

  lemma UndoOnNothing(d: Diff)
    ensures Undone(map[], d) == d.spent
  {
  }

  lemma DiffKeyHasHeader(t: Tables, hash: BlockHash)
    requires StoreInvariant(t) && hash in t.diff
    ensures hash in t.header && hash in t.height
  {
  }

  /** Without a tip the stored diff is undone on an empty table whatever block it belongs to. */
  lemma DisconnectWithoutTip(db: Db, hash: BlockHash)
    requires Agrees(db, []) && hash in db.tables.diff
    ensures hash in db.tables.header
    ensures var prev := db.tables.header[hash].prev;
            Disconnect(db, hash)
            == (Db(db.tables, if prev == ALL_ZEROS then None else Some(prev), db.tables.diff[hash].spent), true)
  {
    DiffKeyHasHeader(db.tables, hash);
    UndoOnNothing(db.tables.diff[hash]);
  }

  lemma DisconnectOther(db: Db, hash: BlockHash)
    requires hash in db.tables.diff ==> db.tip != None && db.tip.value != hash
    ensures Disconnect(db, hash).0 == db
    ensures hash in db.tables.diff ==> !Disconnect(db, hash).1
  {
  }

  /**
   * Exactly when a disconnect keeps the database in agreement with the active chain. Without a tip
   * the tip check is skipped, so the stale diff of an earlier block with a parent is undone again.
   */
  lemma DisconnectAgreesExactlyWhen(db: Db, chain: seq<Block>, hash: BlockHash)
    requires Agrees(db, chain)
    ensures Agrees(Disconnect(db, hash).0, ChainAfterDisconnect(db, chain, hash))
       <==> !(db.tip == None && hash in db.tables.diff && db.tables.header[hash].prev != ALL_ZEROS)
  {
    if hash !in db.tables.diff || (db.tip != None && db.tip.value != hash) {
      DisconnectOther(db, hash);
    } else if db.tip != None {
      UndoTipAgrees(db, chain);
    } else {
      DisconnectWithoutTip(db, hash);
    }
  }

  lemma UndoTwo(db: Db, block: Block, child: Block)
    requires Agrees(db, [block, child])
    ensures Agrees(Disconnect(Disconnect(db, child.header.hash).0, block.header.hash).0, [])
    ensures Disconnect(Disconnect(db, child.header.hash).0, block.header.hash).0.tables == db.tables
  {
    assert [block, child][..1] == [block] && [block][..0] == [];
    UndoTip(db, [block, child]);
    UndoTipAgrees(db, [block, child]);
    UndoTip(Disconnect(db, child.header.hash).0, [block]);
    UndoTipAgrees(Disconnect(db, child.header.hash).0, [block]);
  }

  lemma ChildRecord(db: Db, block: Block, child: Block)
    requires Agrees(db, [block, child])
    ensures child.header.hash in db.tables.diff && child.header.hash in db.tables.header
    ensures db.tables.header[child.header.hash].prev == block.header.hash != ALL_ZEROS
  {
    TipRecord(db, [block, child]);
    assert [block, child][..1] == [block];
    PrefixHasNoZeroHash(db, [block, child], 1);
  }

  /**
   * The failure made concrete: undo a chain of two blocks, then disconnect the second one again. The
   * tip comes back although no block is connected, with outputs the second block had spent.
   */
  lemma StaleDiffIsUndoneAgain(db: Db, block: Block, child: Block)
    requires Agrees(db, [block, child])
    ensures var db2 := Disconnect(Disconnect(db, child.header.hash).0, block.header.hash).0;
            && Agrees(db2, [])
            && child.header.hash in db2.tables.diff
            && Disconnect(db2, child.header.hash)
               == (Db(db2.tables, Some(block.header.hash), db2.tables.diff[child.header.hash].spent), true)
  {
    UndoTwo(db, block, child);
    ChildRecord(db, block, child);
    DisconnectWithoutTip(Disconnect(Disconnect(db, child.header.hash).0, block.header.hash).0, child.header.hash);
  }

  // ---------------------------------------------------------------- a stale tip from an empty database

  /** Below activation a block that extends the tip and has a coinbase is always accepted. */
  lemma InactiveIsAccepted(db: Db, chain: seq<Block>, block: Block, inp: Inputs)
    requires Agrees(db, chain) && ConnectAdmissible(db, block, inp) && ExtendsTip(db, block)
    requires block.txs != [] && |chain| < inp.activationHeight
    ensures ConnectAndCommit(db, block, inp).accepted == Some(true)
    ensures Agrees(ConnectAndCommit(db, block, inp).db, chain + [block])
  {
    ConnectAgrees(db, chain, block, inp);
    TipHasHeight(db, chain);
    StoreHeaderAgrees(db, chain, block.header);
    HeightIsLength(StoreHeader(db, block.header).value, chain, block);
  }

  /** A first block that creates a P2MR output, and a second one that spends it. */
  function CreatingBlock(): Block {
    Block(Header(1, ALL_ZEROS, 1), [Transaction(10, [], [SampleP2mr()], NO_REST)])
  }

  function SpendingBlock(): Block {
    Block(Header(2, 1, 1), [Transaction(11, [], [], NO_REST), Transaction(12, [OutPoint(10, 0)], [], NO_REST)])
  }

  lemma OneOutput(tx: Transaction)
    requires |tx.outputs| == 1 && IsP2mr(tx.outputs[0])
    ensures P2mrPart(Outputs(tx)) == map[OutPoint(tx.txid, 0) := tx.outputs[0]]
  {
    assert OutPoint(tx.txid, 0) in Outputs(tx) && Outputs(tx)[OutPoint(tx.txid, 0)] == tx.outputs[0];
  }

  lemma NoOutputs(tx: Transaction)
    requires tx.outputs == []
    ensures P2mrPart(Outputs(tx)) == map[]
  {
  }

  lemma ReplayFirst()
    ensures Replay([CreatingBlock()]) == map[OutPoint(10, 0) := SampleP2mr()]
  {
    var first := CreatingBlock();
    var tx := first.txs[0];
    OneOutput(tx);
    assert ReplayTx(map[], tx) == map[OutPoint(10, 0) := SampleP2mr()];
    assert first.txs[1..] == [] && [first][..0] == [];
    assert ReplayTxs(map[], first.txs) == ReplayTx(map[], tx);
    assert Replay([]) == map[];
  }

  lemma ReplaySecond()
    ensures ReplayTxs(map[OutPoint(10, 0) := SampleP2mr()], SpendingBlock().txs) == map[]
  {
    var created := map[OutPoint(10, 0) := SampleP2mr()];
    var txs := SpendingBlock().txs;
    NoOutputs(txs[0]);
    NoOutputs(txs[1]);
    assert ReplayTx(created, txs[0]) == created;
    assert OutPoint(10, 0) in Utxos.Inputs(txs[1]);
    assert ReplayTx(created, txs[1]) == map[];
    assert txs[1..] == [txs[1]] && [txs[1]][1..] == [];
    assert ReplayTxs(created, [txs[1]]) == map[];
  }

  lemma SampleReplay()
    ensures Replay([CreatingBlock(), SpendingBlock()]) == map[]
  {
    assert [CreatingBlock(), SpendingBlock()][..1] == [CreatingBlock()];
    ReplayFirst();
    ReplaySecond();
  }

  lemma StoreAddsHeader(db: Db, header: Header)
    requires StoreHeader(db, header).Some?
    ensures var t := StoreHeader(db, header).value.tables;
            && t.header.Keys <= db.tables.header.Keys + {header.hash}
            && t.height.Keys <= db.tables.height.Keys + {header.hash, header.prev}
  {
  }

  lemma ConnectAddsHeader(db: Db, block: Block, inp: Inputs)
    ensures var t := ConnectAndCommit(db, block, inp).db.tables;
            && t.header.Keys <= db.tables.header.Keys + {block.header.hash}
            && t.height.Keys <= db.tables.height.Keys + {block.header.hash, block.header.prev}
  {
    if StoreHeader(db, block.header).Some? {
      var parent := StoreHeader(db, block.header).value;
      StoreAddsHeader(db, block.header);
      if ConnectBlock(parent, block, inp).Accept? {
        ConnectKeepsHeaders(parent, block, inp);
      }
    }
  }

  lemma SpendingIsAdmissible(db: Db, inp: Inputs)
    requires Agrees(db, [CreatingBlock()]) && 2 !in db.tables.header && 2 !in db.tables.height && inp.extra == map[]
    ensures ConnectAdmissible(db, SpendingBlock(), inp)
  {
    ReplayFirst();
  }

  lemma CreatingIsAdmissible(inp: Inputs)
    requires inp.extra == map[]
    ensures ConnectAdmissible(EMPTY_DB, CreatingBlock(), inp) && ExtendsTip(EMPTY_DB, CreatingBlock())
  {
  }

  lemma FirstConnects(inp: Inputs) returns (db: Db)
    requires inp.activationHeight > 1 && inp.extra == map[]
    ensures db == ConnectAndCommit(EMPTY_DB, CreatingBlock(), inp).db
    ensures Agrees(db, [CreatingBlock()]) && 2 !in db.tables.header && 2 !in db.tables.height
  {
    EmptyAgrees();
    CreatingIsAdmissible(inp);
    InactiveIsAccepted(EMPTY_DB, [], CreatingBlock(), inp);
    ConnectAddsHeader(EMPTY_DB, CreatingBlock(), inp);
    assert [] + [CreatingBlock()] == [CreatingBlock()];
    db := ConnectAndCommit(EMPTY_DB, CreatingBlock(), inp).db;
  }

  lemma SampleConnects(inp: Inputs) returns (db: Db)
    requires inp.activationHeight > 1 && inp.extra == map[]
    ensures db == ConnectAndCommit(ConnectAndCommit(EMPTY_DB, CreatingBlock(), inp).db, SpendingBlock(), inp).db
    ensures Agrees(db, [CreatingBlock(), SpendingBlock()])
  {
    var db1 := FirstConnects(inp);
    SpendingIsAdmissible(db1, inp);
    SpendingExtends(db1);
    InactiveIsAccepted(db1, [CreatingBlock()], SpendingBlock(), inp);
    assert [CreatingBlock()] + [SpendingBlock()] == [CreatingBlock(), SpendingBlock()];
    db := ConnectAndCommit(db1, SpendingBlock(), inp).db;
  }

  lemma SpendingExtends(db: Db)
    requires Agrees(db, [CreatingBlock()])
    ensures ExtendsTip(db, SpendingBlock())
  {
  }

  /**
   * A run that starts from nothing: connect the two blocks, undo both, disconnect the second again. The
   * first block is the tip and its spent output is back, although no block is connected.
   */
  lemma StaleTipFromEmpty(inp: Inputs)
    requires inp.activationHeight > 1 && inp.extra == map[]
    ensures var db := ConnectAndCommit(ConnectAndCommit(EMPTY_DB, CreatingBlock(), inp).db, SpendingBlock(), inp).db;
            var undone := Disconnect(Disconnect(db, 2).0, 1).0;
            && undone == Db(db.tables, None, map[])
            && Disconnect(undone, 2) == (Db(db.tables, Some(1), map[OutPoint(10, 0) := SampleP2mr()]), true)
  {
    var first, second := CreatingBlock(), SpendingBlock();
    var db := SampleConnects(inp);
    UndoTwo(db, first, second);
    StaleDiffIsUndoneAgain(db, first, second);
    ReplayFirst();
    SampleReplay();
    var chain := [first, second];
    assert RecordedAt(db.tables, chain, 1);
    assert chain[..1] == [first] && chain[..1 + 1] == chain;
  }

  // ---------------------------------------------------------------- whole runs

  datatype Step =
    | Connect(block: Block, inp: Inputs)
    | ConnectBatch(blocks: seq<Block>, batchInp: Inputs)
    | StoreHeaders(headers: seq<(Header, nat)>)
    | DisconnectBlock(hash: BlockHash)

  /** The database, and the active chain as the history of accepted and undone blocks gives it. */
  datatype World = World(db: Db, chain: seq<Block>)

  function Apply(w: World, step: Step): World
    requires step.StoreHeaders? ==>
               forall i :: 0 <= i < |step.headers| ==> step.headers[i].0.prev != ALL_ZEROS ==> step.headers[i].1 > 0
  {
    match step
    case Connect(block, inp) =>
      var c := ConnectAndCommit(w.db, block, inp);
      World(c.db, if c.accepted == Some(true) then w.chain + [block] else w.chain)
    case ConnectBatch(blocks, inp) =>
      (match HandleBatch(w.db, blocks, inp)
       case BatchError => w
       case Batched(db, n, _) => World(db, w.chain + blocks[..n]))
    case StoreHeaders(headers) => World(w.db.(tables := PutHeaders(w.db.tables, headers)), w.chain)
    case DisconnectBlock(hash) => World(Disconnect(w.db, hash).0, ChainAfterDisconnect(w.db, w.chain, hash))
  }

  ghost predicate StepAdmissible(w: World, step: Step) {
    match step
    case Connect(block, inp) => ConnectAdmissible(w.db, block, inp)
    case ConnectBatch(blocks, inp) => BatchAdmissible(w.db, blocks, inp)
    case StoreHeaders(headers) => HeadersAdmissible(w.db.tables, headers)
    case DisconnectBlock(hash) =>
      !(w.db.tip == None && hash in w.db.tables.diff && hash in w.db.tables.header
        && w.db.tables.header[hash].prev != ALL_ZEROS)
  }

  ghost predicate RunAdmissible(w: World, steps: seq<Step>)
    decreases |steps|
  {
    steps == [] || (StepAdmissible(w, steps[0]) && RunAdmissible(Apply(w, steps[0]), steps[1..]))
  }

  ghost function Run(w: World, steps: seq<Step>): World
    requires RunAdmissible(w, steps)
    decreases |steps|
  {
    if steps == [] then w else Run(Apply(w, steps[0]), steps[1..])
  }

  lemma EmptyAgrees()
    ensures Agrees(EMPTY_DB, [])
  {
  }

  /** The whole-run invariant: after any run the P2MR table is the replay of the active chain. */
  lemma {:induction false} RunAgrees(w: World, steps: seq<Step>)
    requires Agrees(w.db, w.chain) && RunAdmissible(w, steps)
    ensures Agrees(Run(w, steps).db, Run(w, steps).chain)
    decreases |steps|
  {
    if steps != [] {
      match steps[0] {
        case Connect(block, inp) => ConnectAgrees(w.db, w.chain, block, inp);
        case ConnectBatch(blocks, inp) => BatchAgrees(w.db, w.chain, blocks, inp);
        case StoreHeaders(headers) => PutHeadersAgree(w.db, w.chain, headers);
        case DisconnectBlock(hash) => DisconnectAgreesExactlyWhen(w.db, w.chain, hash);
      }
      RunAgrees(Apply(w, steps[0]), steps[1..]);
    }
  }

  /** From an empty database, for every run of connects, batches, header batches and disconnects. */
  lemma IndexIsReplayOfActiveChain(steps: seq<Step>)
    requires RunAdmissible(World(EMPTY_DB, []), steps)
    ensures var w := Run(World(EMPTY_DB, []), steps);
            && w.db.utxos == Replay(w.chain)
            && TipHash(w.db) == LastHash(w.chain)
            && StoreInvariant(w.db.tables)
            && forall i :: 0 <= i < |w.chain| ==> CoinbaseRecorded(w.db.tables, w.chain[i])
  {
    EmptyAgrees();
    RunAgrees(World(EMPTY_DB, []), steps);
    var w := Run(World(EMPTY_DB, []), steps);
    forall i | 0 <= i < |w.chain| ensures CoinbaseRecorded(w.db.tables, w.chain[i]) {
      assert RecordedAt(w.db.tables, w.chain, i);
    }
  }

  /** A reorg that comes back: any run that returns to the same active chain restores table and tip. */
  lemma ReturningRestoresTheTable(w: World, steps: seq<Step>)
    requires Agrees(w.db, w.chain) && RunAdmissible(w, steps)
    requires Run(w, steps).chain == w.chain
    ensures Run(w, steps).db.utxos == w.db.utxos && Run(w, steps).db.tip == w.db.tip
  {
    RunAgrees(w, steps);
  }

  // ---------------------------------------------------------------- the dry run of a proposed block

  /** The verdict on a proposed block at one above the tip's height; without a tip nothing is enforced. */
  predicate DryRun(db: Db, block: Block, inp: Inputs)
    requires db.tip.Some? ==> db.tip.value in db.tables.height
  {
    db.tip.Some? ==>
      ValidateOnly(db.tables.height[db.tip.value] + 1 >= inp.activationHeight, inp.verdict, block.txs, db.utxos)
  }

  lemma TipHasHeight(db: Db, chain: seq<Block>)
    requires Agrees(db, chain)
    ensures db.tip.Some? ==> db.tip.value in db.tables.height && db.tip.value != ALL_ZEROS
  {
    if chain != [] {
      TipRecord(db, chain);
      PrefixHasNoZeroHash(db, chain, |chain|);
      assert chain[..|chain|] == chain;
    }
  }

  /** The dry run of a block on the tip says exactly whether connecting it will accept it. */
  lemma DryRunPredictsConnect(db: Db, chain: seq<Block>, block: Block, inp: Inputs)
    requires Agrees(db, chain) && ConnectAdmissible(db, block, inp)
    requires db.tip.Some? && ExtendsTip(db, block) && block.txs != [] && inp.extra == map[]
    ensures db.tip.value in db.tables.height
    ensures ConnectAndCommit(db, block, inp).accepted == Some(DryRun(db, block, inp))
  {
    TipHasHeight(db, chain);
    ConnectAgrees(db, chain, block, inp);
    StoreHeaderAgrees(db, chain, block.header);
    var parent := StoreHeader(db, block.header).value;
    assert HeightConsistent(parent.tables, block.header.hash);
    if block.header.hash !in db.tables.header {
      PutHeaderGrows(db.tables, block.header, NextHeight(db.tables, block.header).value);
    }
    assert parent.tables.height[block.header.hash] == db.tables.height[db.tip.value] + 1;
    DryRunAgrees(parent.tables.height[block.header.hash] >= inp.activationHeight, inp.verdict, block.txs, db.utxos);
  }

  // ---------------------------------------------------------------- rolling back to a fork point

  /** The hashes of the active chain are the stored ancestry of its tip. */
  lemma {:induction false} ActiveIsAncestry(t: Tables, chain: seq<Block>)
    requires HeightsConsistent(t) && Linked(chain)
    requires forall i :: 0 <= i < |chain| ==> RecordedAt(t, chain, i)
    ensures BlockHashes.Chain(t, LastHash(chain)) == AncestryOf(chain)
    decreases |chain|
  {
    if chain != [] {
      var n := |chain| - 1;
      assert RecordedAt(t, chain, n) && LinkedAt(chain, n);
      assert HeightConsistent(t, LastHash(chain));
      PrefixIsRecorded(t, chain, n);
      ActiveIsAncestry(t, chain[..n]);
      ActiveHeights(t, chain, n);
    }
  }

  /** The hashes of a chain, newest first. */
  function AncestryOf(chain: seq<Block>): (a: seq<BlockHash>)
    ensures |a| == |chain|
    ensures forall i :: 0 <= i < |a| ==> a[i] == chain[|chain| - 1 - i].header.hash
  {
    if chain == [] then [] else [LastHash(chain)] + AncestryOf(chain[..|chain| - 1])
  }

  /** A common ancestor of the tip and another block is the end of a prefix of the active chain. */
  lemma CommonAncestorIsOnChain(db: Db, chain: seq<Block>, other: BlockHash, a: BlockHash) returns (k: nat)
    requires Agrees(db, chain) && LastCommon(db.tables, TipHash(db), other, CommonAncestor(a))
    ensures k <= |chain| && LastHash(chain[..k]) == a
  {
    if TipHash(db) == other {
      k := |chain|;
      assert chain[..k] == chain;
    } else if a == ALL_ZEROS {
      k := 0;
    } else {
      ActiveIsAncestry(db.tables, chain);
      var i :| 0 <= i < |AncestryOf(chain)| && AncestryOf(chain)[i] == a;
      k := |chain| - i;
    }
  }

  /** The stored ancestry of the node's tip down to, and without, our tip. */
  ghost predicate Missing(t: Tables, mainTip: BlockHash, tip: BlockHash, missing: seq<BlockHash>) {
    var c := BlockHashes.Chain(t, mainTip);
    && |missing| <= |c| && missing == c[..|missing|]
    && tip !in missing
    && (|missing| < |c| ==> c[|missing|] == tip)
  }

  /**
   * After rolling back to the fork point, the missing blocks are distinct and lead link by link
   * from the node's tip to a child of our tip.
   */
  lemma MissingLeadsToTip(t: Tables, oldTip: BlockHash, mainTip: BlockHash, tip: BlockHash, missing: seq<BlockHash>)
    requires HeightsConsistent(t) && Missing(t, mainTip, tip, missing)
    requires LastCommon(t, oldTip, mainTip, CommonAncestor(tip))
    requires oldTip == ALL_ZEROS ==> Complete(t, mainTip)
    requires missing != []
    ensures Distinct(missing) && missing[0] == mainTip
    ensures forall i :: 0 <= i < |missing| ==> missing[i] in t.header
    ensures forall i :: 0 <= i < |missing| ==>
              t.header[missing[i]].prev == if i + 1 < |missing| then missing[i + 1] else tip
  {
    var c := BlockHashes.Chain(t, mainTip);
    ChainLinks(t, mainTip);
    forall i, j | 0 <= i < j < |missing| ensures missing[i] != missing[j] {
      assert t.height[c[i]] != t.height[c[j]];
    }
    if |missing| == |c| {
      assert c[0] == mainTip;
      assert tip !in c;
      if oldTip != mainTip && tip == ALL_ZEROS && oldTip != ALL_ZEROS {
        assert oldTip in t.height && Complete(t, mainTip);
      }
      assert HeightConsistent(t, c[|c| - 1]);
    }
  }
}

/** The validator's database and its transactions as the program runs them. */
module Validators {
  import opened Common
  import opened Utxos
  import opened BlockDiffs
  import BlockLoops
  import opened BlockHashes
  import opened BlockHashStores
  import opened HeaderTree
  import opened Chainstate
  import opened NodeSync

  /** All tables of the validator; a write transaction works on its own copy of them. */
  class Dbs {
    const blockHashes: BlockHashDbs
    const p2mrUtxos: P2mrUtxoDbs
    var currentChainTip: Option<BlockHash>

    function View(): Db
      reads this, blockHashes, p2mrUtxos
    {
      Db(blockHashes.View(), currentChainTip, p2mrUtxos.utxos)
    }

    constructor ()
      ensures View() == EMPTY_DB
      ensures fresh(blockHashes) && fresh(p2mrUtxos)
    {
      blockHashes := new BlockHashDbs();
      p2mrUtxos := new P2mrUtxoDbs();
      currentChainTip := None;
    }

    /** Begin a write transaction, top-level or nested: a private copy of the parent's tables. */
    constructor Begin(parent: Dbs)
      ensures View() == parent.View()
      ensures fresh(blockHashes) && fresh(p2mrUtxos)
    {
      var tables := new BlockHashDbs();
      var utxos := new P2mrUtxoDbs();
      blockHashes, p2mrUtxos := tables, utxos;
      currentChainTip := parent.currentChainTip;
      new;
      blockHashes.header, blockHashes.height := parent.blockHashes.header, parent.blockHashes.height;
      blockHashes.coinbaseTxid := parent.blockHashes.coinbaseTxid;
      blockHashes.cumulativeWork := parent.blockHashes.cumulativeWork;
      blockHashes.diff := parent.blockHashes.diff;
      p2mrUtxos.utxos := parent.p2mrUtxos.utxos;
    }

    /** Make the parent's tables those of this transaction. Aborting is dropping the copy. */
    method CommitTo(parent: Dbs)
      modifies parent, parent.blockHashes, parent.p2mrUtxos
      ensures parent.View() == old(View())
    {
      parent.blockHashes.header, parent.blockHashes.height := blockHashes.header, blockHashes.height;
      parent.blockHashes.coinbaseTxid := blockHashes.coinbaseTxid;
      parent.blockHashes.cumulativeWork := blockHashes.cumulativeWork;
      parent.blockHashes.diff := blockHashes.diff;
      parent.p2mrUtxos.utxos := p2mrUtxos.utxos;
      parent.currentChainTip := currentChainTip;
    }
  }

  datatype Connection = Connected | Rejected(reason: RejectReason) | Fatal

  class Validator {
    const dbs: Dbs

    constructor ()
      ensures dbs.View() == EMPTY_DB
      ensures fresh(dbs) && fresh(dbs.blockHashes) && fresh(dbs.p2mrUtxos)
    {
      dbs := new Dbs();
    }

    /** Connect a block whose header is stored, inside a write transaction. */
    method ConnectBlock(rwtxn: Dbs, block: Block, inp: Inputs) returns (r: Connection)
      modifies rwtxn, rwtxn.blockHashes, rwtxn.p2mrUtxos
      ensures match Chainstate.ConnectBlock(old(rwtxn.View()), block, inp)
              case Accept(db) => r == Connected && rwtxn.View() == db
              case Reject(reason) => r == Rejected(reason) && rwtxn.View() == old(rwtxn.View())
              case Error => r == Fatal
    {
      var parent := block.header.prev;
      match rwtxn.currentChainTip {
        case Some(tip) =>
          if parent != tip {
            return Rejected(BlockParent);
          }
        case None =>
          if parent != ALL_ZEROS {
            return Rejected(BlockParent);
          }
      }
      if block.header.hash !in rwtxn.blockHashes.height {
        return Fatal;
      }
      var height := rwtxn.blockHashes.height[block.header.hash];
      if block.txs == [] {
        return Rejected(NoCoinbase);
      }
      var chainUtxos := rwtxn.p2mrUtxos.utxos;
      var diff := BlockLoops.ValidateAndDiffBlockTransactions(
        height >= inp.activationHeight, inp.verdict, block.txs, chainUtxos, inp.extra);
      if diff.None? {
        return Rejected(Bip360);
      }
      r := PassThrough(rwtxn, block, diff.value);
    }

    /** Apply the diff, store the block, move the tip if there is more work behind the block. */
    method PassThrough(rwtxn: Dbs, block: Block, diff: Diff) returns (r: Connection)
      requires block.txs != []
      modifies rwtxn, rwtxn.blockHashes, rwtxn.p2mrUtxos
      ensures match StoreBlock(old(rwtxn.View()), block, diff)
              case Accept(db) => r == Connected && rwtxn.View() == db
              case Reject(_) => false
              case Error => r == Fatal
    {
      var hash := block.header.hash;
      var applied := rwtxn.p2mrUtxos.ApplyDiff(diff);
      if !applied {
        return Fatal;
      }
      var put := rwtxn.blockHashes.PutBlockInfo(hash, block.txs[0].txid, diff);
      if put.Err? {
        return Fatal;
      }
      var work := rwtxn.blockHashes.cumulativeWork;
      match rwtxn.currentChainTip {
        case None => rwtxn.currentChainTip := Some(hash);
        case Some(tip) =>
          if tip !in work {
            return Fatal;
          }
          if work[hash] > work[tip] {
            rwtxn.currentChainTip := Some(hash);
          }
      }
      return Connected;
    }

    /** The header write is always committed; the block only if it connects (Fatal commits nothing). */
    method ConnectAndCommit(block: Block, inp: Inputs) returns (r: Connection)
      modifies dbs, dbs.blockHashes, dbs.p2mrUtxos
      ensures var c := Chainstate.ConnectAndCommit(old(dbs.View()), block, inp);
              && dbs.View() == c.db
              && (r == Connected <==> c.accepted == Some(true))
              && (r == Fatal <==> c.accepted == None)
    {
      var parentTxn := new Dbs.Begin(dbs);
      if block.header.hash !in parentTxn.blockHashes.header {
        var height := 0;
        if block.header.prev != ALL_ZEROS {
          if block.header.prev !in parentTxn.blockHashes.height {
            parentTxn.CommitTo(dbs);
            return Rejected(MissingParentHeight);
          }
          height := parentTxn.blockHashes.height[block.header.prev] + 1;
        }
        var headers := [(block.header, height)];
        assert headers[1..] == [];
        parentTxn.blockHashes.PutHeaders(headers);
      }
      assert Some(parentTxn.View()) == StoreHeader(old(dbs.View()), block.header);
      var childTxn := new Dbs.Begin(parentTxn);
      r := ConnectBlock(childTxn, block, inp);
      match r {
        case Connected =>
          childTxn.CommitTo(parentTxn);
          parentTxn.CommitTo(dbs);
        case Rejected(_) => parentTxn.CommitTo(dbs);
        case Fatal =>
      }
    }

    /**
     * Connect blocks in order inside a write transaction, up to the first one that is rejected; on an
     * error the caller drops the transaction. Headers are stored before.
     */
    method HandleBlockBatch(rwtxn: Dbs, blocks: seq<Block>, inp: Inputs)
      returns (ok: bool, rejected: Option<(BlockHash, RejectReason)>)
      modifies rwtxn, rwtxn.blockHashes, rwtxn.p2mrUtxos
      ensures match HandleBatch(old(rwtxn.View()), blocks, inp)
              case BatchError => !ok
              case Batched(db, n, reason) =>
                && ok && rwtxn.View() == db
                && rejected == if reason == None then None else Some((blocks[n].header.hash, reason.value))
    {
      var i := 0;
      assert blocks[0..] == blocks;
      while i < |blocks|
        invariant i <= |blocks|
        invariant HandleBatch(old(rwtxn.View()), blocks, inp) == Later(HandleBatch(rwtxn.View(), blocks[i..], inp), i)
      {
        StepOfBatch(rwtxn.View(), blocks, inp, i);
        var connected := ConnectBlock(rwtxn, blocks[i], inp);
        match connected {
          case Connected => i := i + 1;
          case Rejected(reason) => return true, Some((blocks[i].header.hash, reason));
          case Fatal => return false, None;
        }
      }
      return true, None;
    }

    /** The stored headers of a fetched batch, in a transaction of their own. */
    method StoreHeaders(headers: seq<(Header, nat)>)
      requires forall i :: 0 <= i < |headers| ==> headers[i].0.prev != ALL_ZEROS ==> headers[i].1 > 0
      modifies dbs, dbs.blockHashes, dbs.p2mrUtxos
      ensures dbs.View() == old(dbs.View()).(tables := PutHeaders(old(dbs.View()).tables, headers))
    {
      var rwtxn := new Dbs.Begin(dbs);
      rwtxn.blockHashes.PutHeaders(headers);
      rwtxn.CommitTo(dbs);
    }

    /** Fetch and connect the blocks that are left, a chunk and a write transaction at a time. */
    method FetchRemaining(src: Source, due: seq<BlockHash>, stop: nat -> bool) returns (ending: Ending)
      modifies dbs, dbs.blockHashes, dbs.p2mrUtxos
      ensures NodeSync.Sync(dbs.View(), ending) == NodeSync.FetchRemaining(src, old(dbs.View()), due, stop, 0)
    {
      var rest, round := due, 0;
      while rest != []
        invariant NodeSync.FetchRemaining(src, old(dbs.View()), due, stop, 0)
               == NodeSync.FetchRemaining(src, dbs.View(), rest, stop, round)
        decreases |rest|
      {
        if stop(round) {
          return Interrupted;
        }
        var n := FetchSize(rest);
        var rwtxn := new Dbs.Begin(dbs);
        var ok, rejected := HandleBlockBatch(rwtxn, BlocksOf(src, rest[..n]), src.inp);
        if !ok {
          return ConnectError;
        }
        rwtxn.CommitTo(dbs);
        if rejected.Some? {
          return RejectedBlock(rejected.value.0, rejected.value.1);
        }
        rest, round := rest[n..], round + 1;
      }
      return Synced;
    }

    /** Inside a write transaction; false is an error, on which the caller drops the transaction. */
    method DisconnectBlock(rwtxn: Dbs, hash: BlockHash) returns (ok: bool)
      modifies rwtxn, rwtxn.blockHashes, rwtxn.p2mrUtxos
      ensures (rwtxn.View(), ok) == Disconnect(old(rwtxn.View()), hash)
    {
      if hash !in rwtxn.blockHashes.diff {
        return true;
      }
      if rwtxn.currentChainTip.Some? && rwtxn.currentChainTip.value != hash {
        return false;
      }
      if hash !in rwtxn.blockHashes.header || hash !in rwtxn.blockHashes.height {
        return false;
      }
      var prev := rwtxn.blockHashes.header[hash].prev;
      rwtxn.p2mrUtxos.UndoDiff(rwtxn.blockHashes.diff[hash]);
      if prev != ALL_ZEROS {
        rwtxn.currentChainTip := Some(prev);
      } else {
        rwtxn.currentChainTip := None;
      }
      return true;
    }

    method DisconnectAndCommit(hash: BlockHash) returns (ok: bool)
      modifies dbs, dbs.blockHashes, dbs.p2mrUtxos
      ensures (dbs.View(), ok) == Disconnect(old(dbs.View()), hash)
    {
      var rwtxn := new Dbs.Begin(dbs);
      ok := DisconnectBlock(rwtxn, hash);
      if ok {
        rwtxn.CommitTo(dbs);
      }
    }

    /** Dry run of a proposed block; nothing is written. */
    method ValidateBlock(block: Block, inp: Inputs) returns (ok: bool)
      requires dbs.currentChainTip.Some? ==> dbs.currentChainTip.value in dbs.blockHashes.height
      ensures ok <==> DryRun(dbs.View(), block, inp)
    {
      if dbs.currentChainTip.None? {
        return true;
      }
      var height := dbs.blockHashes.height[dbs.currentChainTip.value] + 1;
      ok := BlockLoops.ValidateBlockTransactions(
        height >= inp.activationHeight, inp.verdict, block.txs, dbs.p2mrUtxos.utxos);
    }

    /** One step of the roll-back: undoes the tip and returns the new one. */
    method DisconnectTip(rwtxn: Dbs, tip: BlockHash, ghost chain: seq<Block>) returns (tip': BlockHash)
      requires chain != [] && Agrees(rwtxn.View(), chain) && tip == LastHash(chain)
      modifies rwtxn, rwtxn.blockHashes, rwtxn.p2mrUtxos
      ensures Agrees(rwtxn.View(), chain[..|chain| - 1]) && tip' == LastHash(chain[..|chain| - 1])
      ensures rwtxn.View().tables == old(rwtxn.View().tables)
    {
      UndoTip(rwtxn.View(), chain);
      UndoTipAgrees(rwtxn.View(), chain);
      var ok := DisconnectBlock(rwtxn, tip);
      assert ok;
      TipIsLastHash(rwtxn.View(), chain[..|chain| - 1]);
      tip' := if rwtxn.currentChainTip.None? then ALL_ZEROS else rwtxn.currentChainTip.value;
    }

    /** Undoes blocks until the tip is the end of the first `k` blocks of the chain. */
    method DisconnectTo(rwtxn: Dbs, tip: BlockHash, target: BlockHash, ghost chain: seq<Block>, ghost k: nat)
      requires Agrees(rwtxn.View(), chain) && tip == LastHash(chain)
      requires k <= |chain| && LastHash(chain[..k]) == target
      modifies rwtxn, rwtxn.blockHashes, rwtxn.p2mrUtxos
      ensures Agrees(rwtxn.View(), chain[..k])
      ensures rwtxn.View().tables == old(rwtxn.View().tables)
    {
      ghost var n := |chain|;
      ghost var db := rwtxn.View();
      assert chain[..n] == chain;
      var current := tip;
      PrefixesDiffer(db, chain, k, n);
      while current != target
        invariant k <= n <= |chain| && current == LastHash(chain[..n])
        invariant Agrees(rwtxn.View(), chain[..n])
        invariant rwtxn.View().tables == old(rwtxn.View().tables)
        invariant current == target <==> n == k
        decreases n
      {
        assert chain[..n][..n - 1] == chain[..n - 1];
        current := DisconnectTip(rwtxn, current, chain[..n]);
        n := n - 1;
        PrefixesDiffer(db, chain, k, n);
      }
    }

    /**
     * The start of a sync: undo blocks until the tip is the last common ancestor with the node's
     * tip. Whatever the active chain was, what is left is a prefix of it, with its own replay.
     */
    method RollBackToForkPoint(mainTip: BlockHash, ghost chain: seq<Block>)
      returns (r: Result<BlockHash, Ancestor>, ghost k: nat)
      requires Agrees(dbs.View(), chain)
      modifies dbs, dbs.blockHashes, dbs.p2mrUtxos
      ensures k <= |chain| && Agrees(dbs.View(), chain[..k])
      ensures dbs.View().tables == old(dbs.View().tables)
      ensures r.Ok? ==>
                && r.value == TipHash(dbs.View()) == LastHash(chain[..k])
                && LastCommon(old(dbs.View().tables), old(TipHash(dbs.View())), mainTip, CommonAncestor(r.value))
      ensures r.Err? ==> k == |chain| && dbs.View() == old(dbs.View())
    {
      assert chain[..|chain|] == chain;
      var tip := if dbs.currentChainTip.None? then ALL_ZEROS else dbs.currentChainTip.value;
      var lca := dbs.blockHashes.LastCommonAncestor(tip, mainTip);
      if !lca.CommonAncestor? {
        return Err(lca), |chain|;
      }
      k := CommonAncestorIsOnChain(dbs.View(), chain, mainTip, lca.hash);
      var rwtxn := new Dbs.Begin(dbs);
      DisconnectTo(rwtxn, tip, lca.hash, chain, k);
      TipIsLastHash(rwtxn.View(), chain[..k]);
      rwtxn.CommitTo(dbs);
      return Ok(lca.hash), k;
    }

    /** The stack of blocks to sync: the node's tip first, down to the block on top of ours. */
    method MissingBlocks(mainTip: BlockHash, tip: BlockHash) returns (missing: seq<BlockHash>)
      requires HeightsConsistent(dbs.View().tables)
      ensures Missing(dbs.View().tables, mainTip, tip, missing)
    {
      var ancestors := new AncestorHeaders(dbs.blockHashes.View(), mainTip);
      missing := [];
      while true
        invariant ancestors.At(mainTip, |missing|)
        invariant missing == Chain(ancestors.tables, mainTip)[..|missing|] && tip !in missing
        decreases |Chain(ancestors.tables, mainTip)| - |missing|
      {
        var item := ancestors.Next(mainTip, |missing|);
        if item.None? || item.value == tip {
          return;
        }
        missing := missing + [item.value];
      }
    }

    /**
     * The whole start of a sync: what is left of the active chain, and the missing blocks on top of it.
     * The header sync before it has stored the node's tip and, for a first sync, all headers below.
     */
    method StartSync(mainTip: BlockHash, ghost chain: seq<Block>)
      returns (missing: Result<seq<BlockHash>, Ancestor>, ghost k: nat)
      requires Agrees(dbs.View(), chain)
      requires mainTip == ALL_ZEROS || mainTip in dbs.View().tables.header
      requires TipHash(dbs.View()) == ALL_ZEROS && mainTip != ALL_ZEROS ==> Complete(dbs.View().tables, mainTip)
      modifies dbs, dbs.blockHashes, dbs.p2mrUtxos
      ensures k <= |chain|
      ensures missing.Ok? ==> RolledBack(dbs.View(), chain[..k], old(TipHash(dbs.View())), mainTip, missing.value)
      ensures missing.Err? ==> dbs.View() == old(dbs.View())
    {
      var tip;
      tip, k := RollBackToForkPoint(mainTip, chain);
      if tip.Err? {
        return Err(tip.error), k;
      }
      var blocks := MissingBlocks(mainTip, tip.value);
      return Ok(blocks), k;
    }
  }

  /** The batch from block `i` on, by what becomes of that block. */
  lemma StepOfBatch(db: Db, blocks: seq<Block>, inp: Inputs, i: nat)
    requires i < |blocks|
    ensures Later(HandleBatch(db, blocks[i..], inp), i)
         == match Chainstate.ConnectBlock(db, blocks[i], inp)
            case Reject(reason) => Batched(db, i, Some(reason))
            case Error => BatchError
            case Accept(db') => Later(HandleBatch(db', blocks[i + 1..], inp), i + 1)
  {
    assert blocks[i..][0] == blocks[i] && blocks[i..][1..] == blocks[i + 1..];
  }

  /** A batch result, counted from `i` blocks earlier. */
  function Later(b: Batch, i: nat): Batch {
    match b
    case BatchError => BatchError
    case Batched(db, n, rejected) => Batched(db, n + i, rejected)
  }

  /** Two prefixes of the active chain end in the same hash only if they are the same. */
  lemma PrefixesDiffer(db: Db, chain: seq<Block>, k: nat, n: nat)
    requires Agrees(db, chain) && k <= n <= |chain|
    ensures LastHash(chain[..n]) == LastHash(chain[..k]) <==> n == k
  {
    PrefixHasNoZeroHash(db, chain, k);
    PrefixHasNoZeroHash(db, chain, n);
    if k > 0 {
      ActiveHeights(db.tables, chain, k - 1);
      ActiveHeights(db.tables, chain, n - 1);
    }
  }
}

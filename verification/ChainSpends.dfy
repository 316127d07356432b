/** Over whole runs: no P2MR output leaves the table of an active chain against its owner's will. */
module ChainSpends {
  import opened Common
  import opened Utxos
  import opened BlockDiffs
  import opened BlockHashes
  import opened Chainstate
  import opened Spends
  import opened BlockSpends

  /** The prevouts fetched for each block of a chain. */
  type Fetches = seq<UtxoMap>

  /** From activation on, every output a block of the chain takes out was spent by its owner. */
  ghost predicate ChainAuthorised(c: Crypto, activation: nat, chain: seq<Block>, fetched: Fetches) {
    && |fetched| == |chain|
    && forall k :: activation <= k < |chain| ==> AuthorisedAt(c, chain, fetched, k)
  }

  ghost predicate AuthorisedAt(c: Crypto, chain: seq<Block>, fetched: Fetches, k: nat)
    requires k < |chain| == |fetched|
  {
    BlockAuthorised(c, Replay(chain[..k]), chain[k].txs, fetched[k])
  }

  /** What was fetched for the blocks of the active chain after a step: each brings its own, undone ones go. */
  ghost function FetchedAfter(w: World, fetched: Fetches, step: Step): (r: Fetches)
    requires StepAdmissible(w, step) && |fetched| == |w.chain|
    ensures |r| == |Apply(w, step).chain|
  {
    var n := |Apply(w, step).chain|;
    match step
    case Connect(_, inp) => if n == |fetched| then fetched else fetched + [inp.extra]
    case ConnectBatch(_, inp) => fetched + seq(n - |fetched|, _ => inp.extra)
    case StoreHeaders(_) => fetched
    case DisconnectBlock(_) => fetched[..n]
  }

  ghost function RunFetched(w: World, fetched: Fetches, steps: seq<Step>): (r: Fetches)
    requires RunAdmissible(w, steps) && |fetched| == |w.chain|
    ensures |r| == |Run(w, steps).chain|
    decreases |steps|
  {
    if steps == [] then fetched
    else RunFetched(Apply(w, steps[0]), FetchedAfter(w, fetched, steps[0]), steps[1..])
  }

  /** The validator is configured with this activation height at most and enforces the P2MR rules. */
  ghost predicate Enforcing(inp: Inputs, activation: nat, c: Crypto) {
    inp.activationHeight <= activation && Enforces(inp.verdict, c)
  }

  ghost predicate StepEnforces(step: Step, activation: nat, c: Crypto) {
    match step
    case Connect(_, inp) => Enforcing(inp, activation, c)
    case ConnectBatch(_, inp) => Enforcing(inp, activation, c)
    case StoreHeaders(_) => true
    case DisconnectBlock(_) => true
  }

  lemma AuthorisedPrefix(c: Crypto, activation: nat, chain: seq<Block>, fetched: Fetches, n: nat)
    requires n <= |chain| && ChainAuthorised(c, activation, chain, fetched)
    ensures ChainAuthorised(c, activation, chain[..n], fetched[..n])
  {
    forall k | activation <= k < n ensures AuthorisedAt(c, chain[..n], fetched[..n], k) {
      assert AuthorisedAt(c, chain, fetched, k);
      assert chain[..n][..k] == chain[..k];
    }
  }

  lemma AuthorisedExtends(c: Crypto, activation: nat, chain: seq<Block>, fetched: Fetches, block: Block,
                          extra: UtxoMap)
    requires ChainAuthorised(c, activation, chain, fetched)
    requires |chain| >= activation ==> BlockAuthorised(c, Replay(chain), block.txs, extra)
    ensures ChainAuthorised(c, activation, chain + [block], fetched + [extra])
  {
    var chain', fetched' := chain + [block], fetched + [extra];
    forall k | activation <= k < |chain'| ensures AuthorisedAt(c, chain', fetched', k) {
      if k < |chain| {
        assert AuthorisedAt(c, chain, fetched, k);
        assert chain'[..k] == chain[..k];
      } else {
        assert chain'[..k] == chain;
      }
    }
  }

  lemma AcceptedIsAuthorised(db: Db, chain: seq<Block>, block: Block, inp: Inputs, c: Crypto, activation: nat)
    requires Agrees(db, chain) && StoredAdmissible(db, block, inp) && ConnectBlock(db, block, inp).Accept?
    requires Enforcing(inp, activation, c) && |chain| >= activation
    ensures BlockAuthorised(c, Replay(chain), block.txs, inp.extra)
  {
    HeightIsLength(db, chain, block);
    ReplayIsP2mr(chain);
    AcceptedBlockIsAuthorised(inp.verdict, c, block.txs, Replay(chain), inp.extra);
  }

  lemma ConnectAuthorises(db: Db, chain: seq<Block>, block: Block, inp: Inputs, c: Crypto, activation: nat,
                          fetched: Fetches)
    requires Agrees(db, chain) && StoredAdmissible(db, block, inp) && ConnectBlock(db, block, inp).Accept?
    requires Enforcing(inp, activation, c) && ChainAuthorised(c, activation, chain, fetched)
    ensures ChainAuthorised(c, activation, chain + [block], fetched + [inp.extra])
  {
    if |chain| >= activation {
      AcceptedIsAuthorised(db, chain, block, inp, c, activation);
    }
    AuthorisedExtends(c, activation, chain, fetched, block, inp.extra);
  }

  ghost predicate BatchIsAuthorised(b: Batch, c: Crypto, activation: nat, chain: seq<Block>, fetched: Fetches,
                                    blocks: seq<Block>, extra: UtxoMap) {
    && b.Batched? && b.connected <= |blocks|
    && ChainAuthorised(c, activation, chain + blocks[..b.connected], fetched + seq(b.connected, _ => extra))
  }

  lemma BatchStopsAuthorised(db: Db, c: Crypto, activation: nat, chain: seq<Block>, fetched: Fetches,
                             blocks: seq<Block>, extra: UtxoMap, rejected: Option<RejectReason>)
    requires ChainAuthorised(c, activation, chain, fetched)
    ensures BatchIsAuthorised(Batched(db, 0, rejected), c, activation, chain, fetched, blocks, extra)
  {
    assert chain + blocks[..0] == chain && fetched + seq(0, _ => extra) == fetched;
  }

  lemma BatchGoesOnAuthorised(b: Batch, c: Crypto, activation: nat, chain: seq<Block>, fetched: Fetches,
                              blocks: seq<Block>, extra: UtxoMap)
    requires blocks != []
    requires BatchIsAuthorised(b, c, activation, chain + [blocks[0]], fetched + [extra], blocks[1..], extra)
    ensures BatchIsAuthorised(Batched(b.db, b.connected + 1, b.rejected), c, activation, chain, fetched, blocks, extra)
  {
    OneMoreBlock(chain, blocks, b.connected);
    assert fetched + [extra] + seq(b.connected, _ => extra) == fetched + seq(b.connected + 1, _ => extra);
  }

  lemma {:induction false} BatchAuthorises(db: Db, chain: seq<Block>, blocks: seq<Block>, inp: Inputs, c: Crypto,
                                           activation: nat, fetched: Fetches)
    requires Agrees(db, chain) && BatchAdmissible(db, blocks, inp)
    requires Enforcing(inp, activation, c) && ChainAuthorised(c, activation, chain, fetched)
    ensures BatchIsAuthorised(HandleBatch(db, blocks, inp), c, activation, chain, fetched, blocks, inp.extra)
    decreases |blocks|
  {
    if blocks == [] {
      BatchStopsAuthorised(db, c, activation, chain, fetched, blocks, inp.extra, None);
    } else {
      ConnectStoredAgrees(db, chain, blocks[0], inp);
      match ConnectBlock(db, blocks[0], inp)
      case Accept(db') =>
        ConnectAuthorises(db, chain, blocks[0], inp, c, activation, fetched);
        BatchAccepts(db, blocks, inp, db');
        BatchAuthorises(db', chain + [blocks[0]], blocks[1..], inp, c, activation, fetched + [inp.extra]);
        BatchGoesOnAuthorised(HandleBatch(db', blocks[1..], inp), c, activation, chain, fetched, blocks, inp.extra);
      case Reject(reason) =>
        BatchStopsAuthorised(db, c, activation, chain, fetched, blocks, inp.extra, Some(reason));
    }
  }

  lemma CommittedAuthorises(db: Db, chain: seq<Block>, block: Block, inp: Inputs, c: Crypto, activation: nat,
                            fetched: Fetches)
    requires Agrees(db, chain) && ConnectAdmissible(db, block, inp)
    requires ConnectAndCommit(db, block, inp).accepted == Some(true)
    requires Enforcing(inp, activation, c) && ChainAuthorised(c, activation, chain, fetched)
    ensures ChainAuthorised(c, activation, chain + [block], fetched + [inp.extra])
  {
    StoreHeaderAgrees(db, chain, block.header);
    ConnectAuthorises(StoreHeader(db, block.header).value, chain, block, inp, c, activation, fetched);
  }

  lemma DisconnectAuthorises(db: Db, chain: seq<Block>, hash: BlockHash, c: Crypto, activation: nat,
                             fetched: Fetches)
    requires ChainAuthorised(c, activation, chain, fetched)
    ensures var chain' := ChainAfterDisconnect(db, chain, hash);
            |chain'| <= |fetched| && ChainAuthorised(c, activation, chain', fetched[..|chain'|])
  {
    var n := |ChainAfterDisconnect(db, chain, hash)|;
    assert ChainAfterDisconnect(db, chain, hash) == chain[..n];
    AuthorisedPrefix(c, activation, chain, fetched, n);
  }

  lemma ConnectStepAuthorises(w: World, block: Block, inp: Inputs, c: Crypto, activation: nat, fetched: Fetches)
    requires Agrees(w.db, w.chain) && StepAdmissible(w, Connect(block, inp)) && Enforcing(inp, activation, c)
    requires ChainAuthorised(c, activation, w.chain, fetched)
    ensures ChainAuthorised(c, activation, Apply(w, Connect(block, inp)).chain,
                            FetchedAfter(w, fetched, Connect(block, inp)))
  {
    if ConnectAndCommit(w.db, block, inp).accepted == Some(true) {
      CommittedAuthorises(w.db, w.chain, block, inp, c, activation, fetched);
    }
  }

  lemma BatchStepAuthorises(w: World, blocks: seq<Block>, inp: Inputs, c: Crypto, activation: nat, fetched: Fetches)
    requires Agrees(w.db, w.chain) && StepAdmissible(w, ConnectBatch(blocks, inp)) && Enforcing(inp, activation, c)
    requires ChainAuthorised(c, activation, w.chain, fetched)
    ensures ChainAuthorised(c, activation, Apply(w, ConnectBatch(blocks, inp)).chain,
                            FetchedAfter(w, fetched, ConnectBatch(blocks, inp)))
  {
    BatchAuthorises(w.db, w.chain, blocks, inp, c, activation, fetched);
  }

  lemma StepAuthorises(w: World, step: Step, c: Crypto, activation: nat, fetched: Fetches)
    requires Agrees(w.db, w.chain) && StepAdmissible(w, step) && StepEnforces(step, activation, c)
    requires ChainAuthorised(c, activation, w.chain, fetched)
    ensures ChainAuthorised(c, activation, Apply(w, step).chain, FetchedAfter(w, fetched, step))
  {
    match step {
      case Connect(block, inp) => ConnectStepAuthorises(w, block, inp, c, activation, fetched);
      case ConnectBatch(blocks, inp) => BatchStepAuthorises(w, blocks, inp, c, activation, fetched);
      case StoreHeaders(_) =>
      case DisconnectBlock(hash) => DisconnectAuthorises(w.db, w.chain, hash, c, activation, fetched);
    }
  }

  lemma {:induction false} RunAuthorises(w: World, steps: seq<Step>, c: Crypto, activation: nat, fetched: Fetches)
    requires Agrees(w.db, w.chain) && RunAdmissible(w, steps)
    requires forall i :: 0 <= i < |steps| ==> StepEnforces(steps[i], activation, c)
    requires ChainAuthorised(c, activation, w.chain, fetched)
    ensures ChainAuthorised(c, activation, Run(w, steps).chain, RunFetched(w, fetched, steps))
    decreases |steps|
  {
    if steps != [] {
      StepAuthorises(w, steps[0], c, activation, fetched);
      RunAgrees(w, [steps[0]]);
      OneStep(w, steps[0]);
      RunAuthorises(Apply(w, steps[0]), steps[1..], c, activation, FetchedAfter(w, fetched, steps[0]));
    }
  }

  lemma OneStep(w: World, step: Step)
    requires RunAdmissible(w, [step])
    ensures Run(w, [step]) == Apply(w, step)
  {
    assert [step][1..] == [];
  }

  /**
   * From an empty database, after every run of connects, batches, header batches and disconnects by a
   * validator that enforces the P2MR rules: whatever any block of the active chain at or above
   * activation took out of the table was spent with the signatures of a leaf of the output, over the
   * outputs the block found there and the ones fetched for it in the very step that connected it.
   */
  lemma EverySpendIsAuthorised(steps: seq<Step>, c: Crypto, activation: nat)
    requires RunAdmissible(World(EMPTY_DB, []), steps)
    requires forall i :: 0 <= i < |steps| ==> StepEnforces(steps[i], activation, c)
    ensures ChainAuthorised(c, activation, Run(World(EMPTY_DB, []), steps).chain,
                            RunFetched(World(EMPTY_DB, []), [], steps))
  {
    EmptyAgrees();
    RunAuthorises(World(EMPTY_DB, []), steps, c, activation, []);
  }
}

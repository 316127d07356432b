/** A block that arrives live and the same block in a sync: the sync fetches no prevouts. */
module LiveAndSync {
  import opened Common
  import opened Utxos
  import opened BlockDiffs
  import opened Prefetches
  import opened Schemes
  import opened Spends
  import opened BlockSpends
  import BlockHashes
  import Chainstate
  import LeafScripts
  import Merkle
  import NodeSync
  import Signers

  /** A P2MR spend that commits to all of several inputs, one of them from neither the set nor the block. */
  ghost predicate NeedsForeign(txs: seq<Transaction>, chain: UtxoMap, i: nat, index: nat)
    requires 1 <= i < |txs| && index < |txs[i].inputs|
  {
    && txs[i].inputs[index] in ReplayTxs(chain, txs[..i])
    && CommitsToAll(txs[i], index)
    && HasForeignInput(txs, chain, txs[i])
  }

  predicate CommitsToAll(tx: Transaction, index: nat) {
    |tx.inputs| != 1 && WitnessOf(tx, index) != [] && !AnyoneCanPay(ParseSighashType(WitnessOf(tx, index)[0]))
  }

  predicate HasForeignInput(txs: seq<Transaction>, chain: UtxoMap, tx: Transaction) {
    exists o :: o in tx.inputs && !Local(txs, chain, o)
  }

  ghost predicate SomeNeedsForeign(txs: seq<Transaction>, chain: UtxoMap) {
    exists i, index :: 1 <= i < |txs| && 0 <= index < |txs[i].inputs| && NeedsForeign(txs, chain, i, index)
  }

  // ---------------------------------------------------------------- the sync refuses such a block

  lemma ForeignIsAbsent(txs: seq<Transaction>, chain: UtxoMap, i: nat, o: OutPoint)
    requires 1 <= i <= |txs| && !Local(txs, chain, o)
    ensures o !in StateAt(txs, chain, map[], i).available
  {
    StartKeys(txs, chain, map[], o);
    KeysAfter(StartOf(txs, chain, map[]), txs[1..i], o);
    assert !IsOutput(txs[0], 0, o);
    forall j | 0 <= j < |txs[1..i]| ensures !IsOutput(txs[1..i][j], 0, o) {
      assert txs[1..i][j] == txs[j + 1];
    }
  }

  lemma ReplayedIsAvailable(txs: seq<Transaction>, chain: UtxoMap, extra: UtxoMap, i: nat, o: OutPoint)
    requires Admissible(chain, txs) && NoneP2mr(extra) && 1 <= i <= |txs| && o in ReplayTxs(chain, txs[..i])
    ensures o in StateAt(txs, chain, extra, i).available && IsP2mr(StateAt(txs, chain, extra, i).available[o])
  {
    StateIsInStep(txs, chain, extra, i);
    assert P2mrAt(StateAt(txs, chain, extra, i).available, o) == At(ReplayTxs(chain, txs[..i]), o) != None;
  }

  lemma ForeignIsUnverifiable(c: Crypto, txs: seq<Transaction>, chain: UtxoMap, i: nat, index: nat, k: Knowledge)
    requires Admissible(chain, txs) && 1 <= i < |txs| && index < |txs[i].inputs| && NeedsForeign(txs, chain, i, index)
    requires k.available == StateAt(txs, chain, map[], i).available
    ensures ValidateInput(c, Full(txs[i]), index, k) == Err(UnverifiableSpend(index))
  {
    var s := Full(txs[i]);
    ReplayedIsAvailable(txs, chain, map[], i, txs[i].inputs[index]);
    var o :| o in txs[i].inputs && !Local(txs, chain, o);
    ForeignIsAbsent(txs, chain, i, o);
    var n :| 0 <= n < |txs[i].inputs| && txs[i].inputs[n] == o;
    assert s.body.inputs[n].previousOutput !in k.available;
    UnverifiableExactlyWhen(c, s, index, k);
  }

  /** Without fetched prevouts no verdict that enforces the rules accepts an active block with such a spend. */
  lemma SyncRefusesForeign(verdict: Verdict, c: Crypto, txs: seq<Transaction>, chain: UtxoMap)
    requires Enforces(verdict, c) && Admissible(chain, txs) && SomeNeedsForeign(txs, chain)
    ensures ValidateAndDiff(true, verdict, txs, chain, map[]) == None
  {
    var i, index :| 1 <= i < |txs| && 0 <= index < |txs[i].inputs| && NeedsForeign(txs, chain, i, index);
    var w := StateAt(txs, chain, map[], i);
    ForeignIsUnverifiable(c, txs, chain, i, index, Knowledge(w.available, chain.Keys, w.spentP2mr));
    UnverifiableBlockIsRejected(verdict, c, txs, chain, map[], i, index);
  }

  // ---------------------------------------------------------------- the two loops side by side

  /** Fetched outputs are ordinary ones from outside, as they are asked for. */
  ghost predicate Fetchable(txs: seq<Transaction>, chain: UtxoMap, extra: UtxoMap) {
    NoneP2mr(extra) && forall o :: o in extra ==> !Local(txs, chain, o)
  }

  /** The live loop has what the sync's has, and some of the fetched outputs besides. */
  ghost predicate Beside(live: Working, sync: Working, extra: UtxoMap) {
    && (forall o :: o !in extra ==> At(live.available, o) == At(sync.available, o))
    && (forall o :: o in extra ==> o !in sync.available && o !in sync.spentP2mr)
    && (forall o :: o in extra && o in live.available ==> live.available[o] == extra[o])
    && live.spentP2mr == sync.spentP2mr
  }

  lemma SpendInputAt(w: Working, o: OutPoint, k: OutPoint)
    ensures At(SpendInput(Validation(true), w, o).available, k) == if k == o then None else At(w.available, k)
    ensures SpendInput(Validation(true), w, o).spentP2mr
         == if P2mrAt(w.available, o) == None then w.spentP2mr else w.spentP2mr + {o}
  {
  }

  lemma SpendBeside(live: Working, sync: Working, extra: UtxoMap, o: OutPoint)
    requires Beside(live, sync, extra) && NoneP2mr(extra)
    ensures Beside(SpendInput(Validation(true), live, o), SpendInput(Validation(true), sync, o), extra)
  {
    var live', sync' := SpendInput(Validation(true), live, o), SpendInput(Validation(true), sync, o);
    forall k
      ensures At(live'.available, k) == if k == o then None else At(live.available, k)
      ensures At(sync'.available, k) == if k == o then None else At(sync.available, k)
    {
      SpendInputAt(live, o, k);
      SpendInputAt(sync, o, k);
    }
    SpendInputAt(live, o, o);
    SpendInputAt(sync, o, o);
    SpentAlike(live, sync, extra, o);
    SpentBeside(live, sync, extra, o, live', sync');
  }

  /** Both ways the same P2MR outputs are spent: a fetched one is none. */
  lemma SpentAlike(live: Working, sync: Working, extra: UtxoMap, o: OutPoint)
    requires Beside(live, sync, extra) && NoneP2mr(extra)
    ensures P2mrAt(live.available, o) == P2mrAt(sync.available, o)
    ensures o in extra ==> P2mrAt(sync.available, o) == None
  {
    if o !in extra {
      assert At(live.available, o) == At(sync.available, o);
    }
  }

  lemma SpentBeside(live: Working, sync: Working, extra: UtxoMap, o: OutPoint, live': Working, sync': Working)
    requires Beside(live, sync, extra)
    requires forall k :: At(live'.available, k) == if k == o then None else At(live.available, k)
    requires forall k :: At(sync'.available, k) == if k == o then None else At(sync.available, k)
    requires live'.spentP2mr == sync'.spentP2mr
    requires sync'.spentP2mr == sync.spentP2mr || (sync'.spentP2mr == sync.spentP2mr + {o} && o !in extra)
    ensures Beside(live', sync', extra)
  {
    forall k | k in extra ensures k !in sync'.available && k !in sync'.spentP2mr {
      assert At(sync.available, k) == None && At(sync'.available, k) == None;
    }
    forall k | k in extra && k in live'.available ensures live'.available[k] == extra[k] {
      assert At(live'.available, k) == At(live.available, k);
    }
  }

  lemma {:induction false} InputsBeside(live: Working, sync: Working, extra: UtxoMap, inputs: seq<OutPoint>)
    requires Beside(live, sync, extra) && NoneP2mr(extra)
    ensures Beside(SpendInputs(Validation(true), live, inputs), SpendInputs(Validation(true), sync, inputs), extra)
    decreases |inputs|
  {
    if inputs != [] {
      SpendBeside(live, sync, extra, inputs[0]);
      InputsBeside(SpendInput(Validation(true), live, inputs[0]), SpendInput(Validation(true), sync, inputs[0]),
                   extra, inputs[1..]);
    }
  }

  lemma OutputsBeside(live: Working, sync: Working, extra: UtxoMap, tx: Transaction)
    requires Beside(live, sync, extra) && forall o :: o in extra ==> !IsOutput(tx, 0, o)
    ensures Beside(AddOutputs(Validation(true), live, tx, 0), AddOutputs(Validation(true), sync, tx, 0), extra)
  {
    forall o
      ensures At(AddOutputs(Validation(true), live, tx, 0).available, o)
           == if IsOutput(tx, 0, o) then Some(tx.outputs[o.vout]) else At(live.available, o)
      ensures At(AddOutputs(Validation(true), sync, tx, 0).available, o)
           == if IsOutput(tx, 0, o) then Some(tx.outputs[o.vout]) else At(sync.available, o)
      ensures AddOutputs(Validation(true), live, tx, 0).spentP2mr == live.spentP2mr
      ensures AddOutputs(Validation(true), sync, tx, 0).spentP2mr == sync.spentP2mr
    {
      AddOutputsAt(Validation(true), live, tx, 0, o);
      AddOutputsAt(Validation(true), sync, tx, 0, o);
    }
    AddedBeside(live, sync, extra, tx, AddOutputs(Validation(true), live, tx, 0),
                AddOutputs(Validation(true), sync, tx, 0));
  }

  lemma AddedBeside(live: Working, sync: Working, extra: UtxoMap, tx: Transaction, live': Working, sync': Working)
    requires Beside(live, sync, extra) && forall o :: o in extra ==> !IsOutput(tx, 0, o)
    requires forall o :: At(live'.available, o)
                      == if IsOutput(tx, 0, o) then Some(tx.outputs[o.vout]) else At(live.available, o)
    requires forall o :: At(sync'.available, o)
                      == if IsOutput(tx, 0, o) then Some(tx.outputs[o.vout]) else At(sync.available, o)
    requires live'.spentP2mr == live.spentP2mr && sync'.spentP2mr == sync.spentP2mr
    ensures Beside(live', sync', extra)
  {
    forall o | o in extra ensures o !in sync'.available {
      assert At(sync'.available, o) == At(sync.available, o) == None;
    }
    forall o | o in extra && o in live'.available ensures live'.available[o] == extra[o] {
      assert At(live'.available, o) == At(live.available, o);
    }
  }

  lemma StartBeside(txs: seq<Transaction>, chain: UtxoMap, extra: UtxoMap)
    requires txs != [] && Fetchable(txs, chain, extra)
    ensures Beside(StartOf(txs, chain, extra), StartOf(txs, chain, map[]), extra)
  {
    forall o | o in extra ensures o !in StartOf(txs, chain, map[]).available {
      StartKeys(txs, chain, map[], o);
      assert !Local(txs, chain, o);
      assert IsOutput(txs[0], 0, o) ==> CreatedInBlock(txs, o);
    }
    SeedSpendsNothing(txs, chain);
  }

  lemma SeedSpendsNothing(txs: seq<Transaction>, chain: UtxoMap)
    requires txs != []
    ensures SeedCoinbase(Validation(true), Working(chain, map[], map[], {}), txs).spentP2mr == {}
  {
    AddOutputsAt(Validation(true), Working(chain, map[], map[], {}), txs[0], 0, OutPoint(0, 0));
  }

  lemma {:induction false} StateBeside(txs: seq<Transaction>, chain: UtxoMap, extra: UtxoMap, i: nat)
    requires 1 <= i <= |txs| && Fetchable(txs, chain, extra)
    ensures Beside(StateAt(txs, chain, extra, i), StateAt(txs, chain, map[], i), extra)
    decreases i
  {
    if i == 1 {
      assert txs[1..1] == [];
      StartBeside(txs, chain, extra);
    } else {
      var tx, live, sync := txs[i - 1], StateAt(txs, chain, extra, i - 1), StateAt(txs, chain, map[], i - 1);
      StateBeside(txs, chain, extra, i - 1);
      NextState(txs, chain, extra, i - 1);
      NextState(txs, chain, map[], i - 1);
      InputsBeside(live, sync, extra, tx.inputs);
      forall o | o in extra ensures !IsOutput(tx, 0, o) {
        assert IsOutput(tx, 0, o) ==> CreatedInBlock(txs, o);
      }
      OutputsBeside(SpendInputs(Validation(true), live, tx.inputs), SpendInputs(Validation(true), sync, tx.inputs),
                    extra, tx);
    }
  }

  // ---------------------------------------------------------------- one input both ways

  lemma {:induction false} SameSpent(inputs: seq<TxIn>, a: UtxoMap, b: UtxoMap)
    requires forall n :: 0 <= n < |inputs| ==> At(a, inputs[n].previousOutput) == At(b, inputs[n].previousOutput)
    ensures AllSpent(inputs, a) == AllSpent(inputs, b)
    decreases |inputs|
  {
    if inputs != [] {
      assert At(a, inputs[0].previousOutput) == At(b, inputs[0].previousOutput);
      forall n | 0 <= n < |inputs[1..]|
        ensures At(a, inputs[1..][n].previousOutput) == At(b, inputs[1..][n].previousOutput)
      {
        assert inputs[1..][n] == inputs[n + 1];
      }
      SameSpent(inputs[1..], a, b);
    }
  }

  /** What live and sync loop know before transaction `i`. */
  function KnownAt(txs: seq<Transaction>, chain: UtxoMap, extra: UtxoMap, i: nat): Knowledge
    requires 1 <= i <= |txs|
  {
    var w := StateAt(txs, chain, extra, i);
    Knowledge(w.available, chain.Keys, w.spentP2mr)
  }

  /** An input that spends a fetched output is not looked at, live or in a sync. */
  lemma FetchedInputIsFine(c: Crypto, txs: seq<Transaction>, chain: UtxoMap, extra: UtxoMap, i: nat, index: nat)
    requires Fetchable(txs, chain, extra) && 1 <= i < |txs| && index < |txs[i].inputs|
    requires txs[i].inputs[index] in extra
    ensures ValidateInput(c, Full(txs[i]), index, KnownAt(txs, chain, extra, i)).Ok?
    ensures ValidateInput(c, Full(txs[i]), index, KnownAt(txs, chain, map[], i)).Ok?
  {
    StateBeside(txs, chain, extra, i);
    assert !Local(txs, chain, txs[i].inputs[index]);
  }

  lemma SamePrevouts(txs: seq<Transaction>, chain: UtxoMap, extra: UtxoMap, i: nat, index: nat)
    requires Fetchable(txs, chain, extra) && 1 <= i < |txs| && index < |txs[i].inputs|
    requires !HasForeignInput(txs, chain, txs[i])
    requires txs[i].inputs[index] in StateAt(txs, chain, map[], i).available
    ensures txs[i].inputs[index] in StateAt(txs, chain, extra, i).available
    ensures AllSpent(Full(txs[i]).body.inputs, StateAt(txs, chain, extra, i).available)
         == AllSpent(Full(txs[i]).body.inputs, StateAt(txs, chain, map[], i).available)
  {
    var live, sync := StateAt(txs, chain, extra, i).available, StateAt(txs, chain, map[], i).available;
    StateBeside(txs, chain, extra, i);
    forall o | o in txs[i].inputs ensures At(live, o) == At(sync, o) {
      assert Local(txs, chain, o);
    }
    SameSpent(Full(txs[i]).body.inputs, live, sync);
  }

  /** An input of neither kind meets the same prevouts both ways. */
  lemma OtherInputIsSame(c: Crypto, txs: seq<Transaction>, chain: UtxoMap, extra: UtxoMap, i: nat, index: nat)
    requires Fetchable(txs, chain, extra) && Admissible(chain, txs) && 1 <= i < |txs| && index < |txs[i].inputs|
    requires txs[i].inputs[index] !in extra && !NeedsForeign(txs, chain, i, index)
    ensures ValidateInput(c, Full(txs[i]), index, KnownAt(txs, chain, extra, i))
         == ValidateInput(c, Full(txs[i]), index, KnownAt(txs, chain, map[], i))
  {
    var o, live, sync := txs[i].inputs[index], StateAt(txs, chain, extra, i), StateAt(txs, chain, map[], i);
    StateBeside(txs, chain, extra, i);
    assert At(live.available, o) == At(sync.available, o);
    if o in sync.available && IsP2mr(sync.available[o]) {
      StateIsInStep(txs, chain, map[], i);
      assert At(ReplayTxs(chain, txs[..i]), o) == P2mrAt(sync.available, o) != None;
      if CommitsToAll(txs[i], index) {
        SamePrevouts(txs, chain, extra, i, index);
      }
    }
  }

  /** An input passes in a sync exactly when it passes live and needs no foreign prevout. */
  lemma InputBothWays(c: Crypto, txs: seq<Transaction>, chain: UtxoMap, extra: UtxoMap, i: nat, index: nat)
    requires Fetchable(txs, chain, extra) && Admissible(chain, txs) && 1 <= i < |txs| && index < |txs[i].inputs|
    ensures ValidateInput(c, Full(txs[i]), index, KnownAt(txs, chain, map[], i)).Ok?
       <==> && ValidateInput(c, Full(txs[i]), index, KnownAt(txs, chain, extra, i)).Ok?
            && !NeedsForeign(txs, chain, i, index)
  {
    if NeedsForeign(txs, chain, i, index) {
      ForeignIsUnverifiable(c, txs, chain, i, index, KnownAt(txs, chain, map[], i));
    } else if txs[i].inputs[index] in extra {
      FetchedInputIsFine(c, txs, chain, extra, i, index);
    } else {
      OtherInputIsSame(c, txs, chain, extra, i, index);
    }
  }

  // ---------------------------------------------------------------- whole blocks both ways

  /** The verdict is the P2MR rules and nothing else. */
  ghost predicate Exactly(verdict: Verdict, c: Crypto) {
    forall i: nat, tx: Transaction, available: UtxoMap, chain: UtxoMap, spent: OutPoints ::
      verdict(i, tx, available, chain, spent) <==> ObeysP2mrRules(c, tx, available, chain, spent)
  }

  lemma TxBothWays(verdict: Verdict, c: Crypto, txs: seq<Transaction>, chain: UtxoMap, extra: UtxoMap, i: nat)
    requires Exactly(verdict, c)
    requires Fetchable(txs, chain, extra) && Admissible(chain, txs) && 1 <= i < |txs|
    ensures JudgedAt(verdict, txs, chain, map[], i)
       <==> && JudgedAt(verdict, txs, chain, extra, i)
            && forall index :: 0 <= index < |txs[i].inputs| ==> !NeedsForeign(txs, chain, i, index)
  {
    var s := Full(txs[i]);
    AcceptedInputByInput(c, s, KnownAt(txs, chain, map[], i));
    AcceptedInputByInput(c, s, KnownAt(txs, chain, extra, i));
    forall index | 0 <= index < |txs[i].inputs|
      ensures ValidateInput(c, s, index, KnownAt(txs, chain, map[], i)).Ok?
         <==> && ValidateInput(c, s, index, KnownAt(txs, chain, extra, i)).Ok?
              && !NeedsForeign(txs, chain, i, index)
    {
      InputBothWays(c, txs, chain, extra, i, index);
    }
  }

  /**
   * Exactly when the two ways disagree on an active block: a sync accepts what the live way accepts,
   * except for blocks with a P2MR spend that commits to all of several inputs, one of them from outside.
   */
  lemma SyncAcceptsExactlyWhen(verdict: Verdict, c: Crypto, txs: seq<Transaction>, chain: UtxoMap, extra: UtxoMap)
    requires Exactly(verdict, c) && txs != [] && Admissible(chain, txs) && Fetchable(txs, chain, extra)
    ensures ValidateAndDiff(true, verdict, txs, chain, map[]).Some?
       <==> ValidateAndDiff(true, verdict, txs, chain, extra).Some? && !SomeNeedsForeign(txs, chain)
  {
    AcceptedTxByTx(verdict, txs, chain, map[]);
    AcceptedTxByTx(verdict, txs, chain, extra);
    forall i | 1 <= i < |txs|
      ensures JudgedAt(verdict, txs, chain, map[], i)
         <==> && JudgedAt(verdict, txs, chain, extra, i)
              && forall index :: 0 <= index < |txs[i].inputs| ==> !NeedsForeign(txs, chain, i, index)
    {
      TxBothWays(verdict, c, txs, chain, extra, i);
    }
  }

  /** If the live way accepts such a block it had asked for the prevout: the transaction was selected. */
  lemma AcceptedForeignWasSelected(verdict: Verdict, c: Crypto, txs: seq<Transaction>, chain: UtxoMap,
                                   vault: VaultTest, extra: UtxoMap, i: nat, index: nat)
    requires Enforces(verdict, c) && Admissible(chain, txs) && NoneP2mr(extra)
    requires SpentOnce(txs) && CreatedFirst(txs) && FetchedAll(txs, chain, vault, extra)
    requires ValidateAndDiff(true, verdict, txs, chain, extra).Some?
    requires 1 <= i < |txs| && index < |txs[i].inputs| && NeedsForeign(txs, chain, i, index)
    ensures Selected(txs[i], chain, vault)
  {
    var k := KnownAt(txs, chain, extra, i);
    ReplayedIsAvailable(txs, chain, extra, i, txs[i].inputs[index]);
    AcceptedTxObeys(verdict, c, txs, chain, extra, i);
    EveryInputIsValidated(c, Full(txs[i]), 0, index, k);
    UnfetchedExactlyWhen(c, txs, chain, vault, extra, i, index, k);
  }

  // ---------------------------------------------------------------- a block that gets different answers

  /** A permissive cryptography: every digest is defined, every signature verifies, one node for all hashes. */
  function AnyCrypto(root: Merkle.Node): Crypto {
    Crypto((_, _, _, _, _) => Some([]), (_, _, _, _) => true, leaf => leaf, Merkle.Hashes(_ => root, _ => root))
  }

  lemma OneKeyAuthorises(root: Merkle.Node, body: Unsigned, index: nat, available: UtxoMap, key: Bytes, sig: Bytes,
                         stack: seq<Bytes>)
    requires |key| == 32 && |sig| == 64 && index < |body.inputs|
    requires forall n :: 0 <= n < |body.inputs| ==> body.inputs[n].previousOutput in available
    requires available[body.inputs[index].previousOutput].scriptPubkey == P2mrScriptPubkey(root)
    requires Signers.BuildChecksigLeaf(key).Ok?
    requires stack == [sig, Signers.BuildChecksigLeaf(key).value, Signers.SINGLE_LEAF_CONTROL_BLOCK]
    ensures TrulyAuthorised(AnyCrypto(root), body, index, stack, available) && FirstTypeFits(stack)
  {
    var c, leaf := AnyCrypto(root), stack[1];
    Signers.ChecksigLeafParses(key);
    Signers.RootDecides(c, leaf, P2mrScriptPubkey(root));
    AllSpentInOrder(body.inputs, available);
    assert stack[..1] == [sig] && [sig][1..] == [] && TotalSize([sig]) == 64;
    assert InClass(|StripSighashByte(sig)|, Schnorr);
    assert Signatures(stack) == [sig];
  }

  const KEY: Bytes := Repeated(32, 1)
  const SIG: Bytes := Repeated(64, 2)
  const ROOT: Merkle.Node := Repeated(32, 9)

  /** The spend of an indexed output together with an ordinary one of an earlier block. */
  function ForeignBlock(leaf: Bytes): seq<Transaction> {
    [Transaction(0, [], [], NO_REST),
     Transaction(2, [OutPoint(1, 0), OutPoint(9, 0)], [],
                 TxRest(2, 0, [], [[SIG, leaf, Signers.SINGLE_LEAF_CONTROL_BLOCK]]))]
  }

  function ForeignChain(): (chain: UtxoMap)
    ensures AllP2mr(chain)
  {
    map[OutPoint(1, 0) := TxOut(50, P2mrScriptPubkey(ROOT))]
  }

  function ForeignFetched(): (extra: UtxoMap)
    ensures NoneP2mr(extra)
  {
    map[OutPoint(9, 0) := TxOut(1, [])]
  }

  lemma ForeignState(leaf: Bytes, extra: UtxoMap)
    requires OutPoint(1, 0) !in extra
    ensures StateAt(ForeignBlock(leaf), ForeignChain(), extra, 1).available == ForeignChain() + extra
  {
    var txs, start := ForeignBlock(leaf), Working(ForeignChain(), map[], map[], {});
    assert txs[1..1] == [];
    assert AddOutputs(Validation(true), start, txs[0], 0) == start;
  }

  lemma ForeignIsFetchable(leaf: Bytes)
    ensures Admissible(ForeignChain(), ForeignBlock(leaf))
    ensures Fetchable(ForeignBlock(leaf), ForeignChain(), ForeignFetched())
    ensures NeedsForeign(ForeignBlock(leaf), ForeignChain(), 1, 0)
  {
    var txs := ForeignBlock(leaf);
    assert !Local(txs, ForeignChain(), OutPoint(9, 0));
    assert OutPoint(9, 0) in txs[1].inputs;
    assert txs[..1] == [txs[0]] && [txs[0]][1..] == [];
    assert ReplayTx(ForeignChain(), txs[0]) == ForeignChain() by {
      assert P2mrPart(Outputs(txs[0])) == map[];
    }
    assert WitnessOf(txs[1], 0)[0] == SIG && ParseSighashType(SIG) == SighashDefault;
  }

  lemma ForeignPassesLive(leaf: Bytes)
    requires Signers.BuildChecksigLeaf(KEY).Ok? && leaf == Signers.BuildChecksigLeaf(KEY).value
    ensures ObeysP2mrRules(AnyCrypto(ROOT), ForeignBlock(leaf)[1], ForeignChain() + ForeignFetched(), ForeignChain(),
                           {})
  {
    var c, tx, available := AnyCrypto(ROOT), ForeignBlock(leaf)[1], ForeignChain() + ForeignFetched();
    var s, k := Full(tx), Knowledge(available, ForeignChain().Keys, {});
    assert s.body.inputs[0].previousOutput == OutPoint(1, 0) && s.body.inputs[1].previousOutput == OutPoint(9, 0);
    OneKeyAuthorises(ROOT, s.body, 0, available, KEY, SIG, s.witnesses[0]);
    AcceptedExactlyWhen(c, s, 0, k);
    AcceptedInputByInput(c, s, k);
  }

  /** One such block: the live way accepts it with its fetched prevout, a sync refuses it. */
  lemma ForeignBlockGetsBothAnswers() returns (verdict: Verdict, txs: seq<Transaction>)
    ensures Exactly(verdict, AnyCrypto(ROOT))
    ensures Admissible(ForeignChain(), txs) && Fetchable(txs, ForeignChain(), ForeignFetched())
    ensures ValidateAndDiff(true, verdict, txs, ForeignChain(), ForeignFetched()).Some?
    ensures ValidateAndDiff(true, verdict, txs, ForeignChain(), map[]) == None
  {
    Signers.ChecksigLeafParses(KEY);
    var c, leaf := AnyCrypto(ROOT), Signers.BuildChecksigLeaf(KEY).value;
    verdict := (i, tx, available, chain, spent) => ObeysP2mrRules(c, tx, available, chain, spent);
    txs := ForeignBlock(leaf);
    ForeignIsFetchable(leaf);
    ForeignState(leaf, ForeignFetched());
    ForeignPassesLive(leaf);
    StateBeside(txs, ForeignChain(), ForeignFetched(), 1);
    SeedSpendsNothing(txs, ForeignChain());
    assert txs[1..1] == [];
    assert StateAt(txs, ForeignChain(), ForeignFetched(), 1).spentP2mr == {};
    assert JudgedAt(verdict, txs, ForeignChain(), ForeignFetched(), 1);
    AcceptedTxByTx(verdict, txs, ForeignChain(), ForeignFetched());
    SyncRefusesForeign(verdict, c, txs, ForeignChain());
  }

  // ---------------------------------------------------------------- in the database and on the way to the tip

  lemma BlockIsAdmissible(chain: seq<Chainstate.Block>, block: Chainstate.Block, inp: Chainstate.Inputs)
    requires Chainstate.TxsAdmissible(Chainstate.Replay(chain), block, inp)
    ensures Admissible(Chainstate.Replay(chain), block.txs)
  {
    Chainstate.ReplayIsP2mr(chain);
  }

  /**
   * The same for connecting a block on the tip: exactly when what the live way accepts is refused by a
   * handler without fetched prevouts, as the sync has it.
   */
  lemma ConnectWithoutFetchedExactlyWhen(db: Chainstate.Db, chain: seq<Chainstate.Block>, block: Chainstate.Block,
                                         inp: Chainstate.Inputs, extra: UtxoMap, c: Crypto)
    requires Chainstate.Agrees(db, chain) && Chainstate.StoredAdmissible(db, block, inp)
    requires Chainstate.ExtendsTip(db, block) && block.txs != []
    requires Exactly(inp.verdict, c) && inp.extra == map[] && inp.activationHeight <= |chain|
    requires Fetchable(block.txs, Chainstate.Replay(chain), extra)
    ensures Chainstate.ConnectBlock(db, block, inp).Accept?
       <==> && Chainstate.ConnectBlock(db, block, inp.(extra := extra)).Accept?
            && !SomeNeedsForeign(block.txs, Chainstate.Replay(chain))
  {
    var live := inp.(extra := extra);
    BlockIsAdmissible(chain, block, inp);
    Chainstate.ConnectStoredAgrees(db, chain, block, inp);
    Chainstate.ConnectStoredAgrees(db, chain, block, live);
    NodeSync.RulesDecide(db, chain, block, inp);
    NodeSync.RulesDecide(db, chain, block, live);
    SyncAcceptsExactlyWhen(inp.verdict, c, block.txs, Chainstate.Replay(chain), extra);
  }

  lemma ForeignIsInvalidInSync(src: NodeSync.Source, chain: seq<Chainstate.Block>, due: seq<BlockHash>, n: nat,
                               t: BlockHashes.Tables, c: Crypto)
    requires n < |due| && NodeSync.AdmissibleAt(src, t, chain, due, n)
    requires src.inp.extra == map[] && Enforces(src.inp.verdict, c) && src.inp.activationHeight <= |chain| + n
    requires SomeNeedsForeign(src.blockOf(due[n]).txs, NodeSync.ReplayTo(src, chain, due, n))
    ensures !NodeSync.ValidAt(src, chain, due, n)
  {
    var before := chain + NodeSync.BlocksOf(src, due[..n]);
    BlockIsAdmissible(before, src.blockOf(due[n]), src.inp);
    SyncRefusesForeign(src.inp.verdict, c, src.blockOf(due[n]).txs, Chainstate.Replay(before));
  }

  /**
   * A sync never gets past such a block, whatever the node and the files deliver: it ends before it, and
   * it does not report success.
   */
  lemma SyncStopsBeforeForeign(src: NodeSync.Source, db: Chainstate.Db, chain: seq<Chainstate.Block>,
                               missing: seq<BlockHash>, dir: Option<NodeSync.Directory>, stop: nat -> bool, n: nat,
                               c: Crypto)
    returns (m: nat)
    requires NodeSync.Ready(src, db, chain, Reverse(missing)) && n < |missing|
    requires src.inp.extra == map[] && Enforces(src.inp.verdict, c) && src.inp.activationHeight <= |chain| + n
    requires SomeNeedsForeign(src.blockOf(Reverse(missing)[n]).txs,
                              NodeSync.ReplayTo(src, chain, Reverse(missing), n))
    ensures m <= n
    ensures var sync := NodeSync.SyncBlocks(src, db, missing, dir, stop);
            NodeSync.Reached(src, db, chain, Reverse(missing), m, sync.db) && sync.ending != NodeSync.Synced
  {
    var due := Reverse(missing);
    assert NodeSync.AdmissibleAt(src, db.tables, chain, due, n);
    ForeignIsInvalidInSync(src, chain, due, n, db.tables, c);
    m := NodeSync.SyncOnPath(src, db, chain, missing, dir, stop);
  }
}

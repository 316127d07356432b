/** The P2MR rules inside the block loop: whose spends a block may carry, and what they need fetched. */
module BlockSpends {
  import opened Common
  import opened Utxos
  import opened BlockDiffs
  import opened Prefetches
  import opened Schemes
  import opened Spends

  /** The witness of an input; one that is not there is empty. */
  function WitnessOf(tx: Transaction, index: nat): seq<Bytes> {
    if index < |tx.rest.witnesses| then tx.rest.witnesses[index] else []
  }

  /** The transaction as the signature rules look at it. */
  function Full(tx: Transaction): (s: SpendTx)
    ensures WellFormed(s) && |s.body.inputs| == |tx.inputs| && s.body.outputs == tx.outputs
    ensures forall i :: 0 <= i < |tx.inputs| ==>
              s.body.inputs[i].previousOutput == tx.inputs[i] && s.witnesses[i] == WitnessOf(tx, i)
  {
    var r, n := tx.rest, |tx.inputs|;
    var inputs := seq(n, i requires 0 <= i < n => TxIn(tx.inputs[i], if i < |r.sequences| then r.sequences[i] else 0));
    SpendTx(Unsigned(r.version, r.lockTime, inputs, tx.outputs), seq(n, i requires 0 <= i < n => WitnessOf(tx, i)))
  }

  /** Nothing that a digest covers is lost on the way. */
  lemma FullKeepsEverything(tx: Transaction, i: nat)
    requires i < |tx.inputs| == |tx.rest.sequences|
    ensures Full(tx).body.version == tx.rest.version && Full(tx).body.lockTime == tx.rest.lockTime
    ensures Full(tx).body.inputs[i] == TxIn(tx.inputs[i], tx.rest.sequences[i])
  {
  }

  /** The P2MR part of the check of one transaction. */
  ghost predicate ObeysP2mrRules(c: Crypto, tx: Transaction, available: UtxoMap, chain: UtxoMap,
                                 spent: OutPoints) {
    ValidateTransactionSpends(c, Full(tx), Knowledge(available, chain.Keys, spent)).Ok?
  }

  /** The verdict on a transaction is at least as strict as the P2MR rules. */
  ghost predicate Enforces(verdict: Verdict, c: Crypto) {
    forall i: nat, tx: Transaction, available: UtxoMap, chain: UtxoMap, spent: OutPoints ::
      verdict(i, tx, available, chain, spent) ==> ObeysP2mrRules(c, tx, available, chain, spent)
  }

  // ---------------------------------------------------------------- the working set before a transaction

  function StartOf(txs: seq<Transaction>, chain: UtxoMap, extra: UtxoMap): Working {
    FillIn(SeedCoinbase(Validation(true), Working(chain, map[], map[], {}), txs), extra)
  }

  /** What the loop of an active block has made of the chain's outputs before transaction `i`. */
  function StateAt(txs: seq<Transaction>, chain: UtxoMap, extra: UtxoMap, i: nat): Working
    requires 1 <= i <= |txs|
  {
    ApplyTxs(Validation(true), StartOf(txs, chain, extra), txs[1..i])
  }

  lemma {:induction false} ApplyTxsConcat(mode: Mode, w: Working, a: seq<Transaction>, b: seq<Transaction>)
    ensures ApplyTxs(mode, w, a + b) == ApplyTxs(mode, ApplyTxs(mode, w, a), b)
    decreases |a|
  {
    if a == [] {
      assert a + b == b;
    } else {
      assert (a + b)[1..] == a[1..] + b;
      ApplyTxsConcat(mode, ApplyTx(mode, w, a[0]), a[1..], b);
    }
  }

  lemma NextState(txs: seq<Transaction>, chain: UtxoMap, extra: UtxoMap, i: nat)
    requires 1 <= i < |txs|
    ensures StateAt(txs, chain, extra, i + 1) == ApplyTx(Validation(true), StateAt(txs, chain, extra, i), txs[i])
  {
    assert txs[1..i + 1] == txs[1..i] + [txs[i]];
    ApplyTxsConcat(Validation(true), StartOf(txs, chain, extra), txs[1..i], [txs[i]]);
    assert [txs[i]][1..] == [];
  }

  /** An accepted block passed the verdict at every transaction, in the state the loop had reached. */
  lemma {:induction false} EveryTxIsJudged(verdict: Verdict, txs: seq<Transaction>, chain: UtxoMap, extra: UtxoMap,
                                           from: nat, i: nat)
    requires 1 <= from <= i < |txs|
    requires ValidateTxs(Validation(true), verdict, chain, StateAt(txs, chain, extra, from), txs, from).Some?
    ensures verdict(i, txs[i], StateAt(txs, chain, extra, i).available, chain, StateAt(txs, chain, extra, i).spentP2mr)
    decreases i - from
  {
    if from < i {
      NextState(txs, chain, extra, from);
      EveryTxIsJudged(verdict, txs, chain, extra, from + 1, i);
    }
  }

  lemma {:induction false} JudgedIsAccepted(verdict: Verdict, txs: seq<Transaction>, chain: UtxoMap, extra: UtxoMap,
                                           from: nat)
    requires 1 <= from <= |txs|
    requires forall i :: from <= i < |txs| ==> JudgedAt(verdict, txs, chain, extra, i)
    ensures ValidateTxs(Validation(true), verdict, chain, StateAt(txs, chain, extra, from), txs, from).Some?
    decreases |txs| - from
  {
    if from < |txs| {
      assert JudgedAt(verdict, txs, chain, extra, from);
      NextState(txs, chain, extra, from);
      JudgedIsAccepted(verdict, txs, chain, extra, from + 1);
    }
  }

  /** The verdict on a transaction in the state the loop reaches it with. */
  ghost predicate JudgedAt(verdict: Verdict, txs: seq<Transaction>, chain: UtxoMap, extra: UtxoMap, i: nat)
    requires 1 <= i < |txs|
  {
    var w := StateAt(txs, chain, extra, i);
    verdict(i, txs[i], w.available, chain, w.spentP2mr)
  }

  /** An active block is accepted exactly when every transaction passes where the loop reaches it. */
  lemma AcceptedTxByTx(verdict: Verdict, txs: seq<Transaction>, chain: UtxoMap, extra: UtxoMap)
    requires txs != []
    ensures ValidateAndDiff(true, verdict, txs, chain, extra).Some?
       <==> forall i :: 1 <= i < |txs| ==> JudgedAt(verdict, txs, chain, extra, i)
  {
    assert txs[1..1] == [];
    assert StateAt(txs, chain, extra, 1) == StartOf(txs, chain, extra);
    if ValidateAndDiff(true, verdict, txs, chain, extra).Some? {
      forall i | 1 <= i < |txs| ensures JudgedAt(verdict, txs, chain, extra, i) {
        EveryTxIsJudged(verdict, txs, chain, extra, 1, i);
      }
    } else if forall i :: 1 <= i < |txs| ==> JudgedAt(verdict, txs, chain, extra, i) {
      JudgedIsAccepted(verdict, txs, chain, extra, 1);
    }
  }

  lemma AcceptedTxObeys(verdict: Verdict, c: Crypto, txs: seq<Transaction>, chain: UtxoMap, extra: UtxoMap,
                        i: nat)
    requires Enforces(verdict, c) && 1 <= i < |txs|
    requires ValidateAndDiff(true, verdict, txs, chain, extra).Some?
    ensures var w := StateAt(txs, chain, extra, i);
            ObeysP2mrRules(c, txs[i], w.available, chain, w.spentP2mr)
  {
    assert txs[1..1] == [];
    assert StateAt(txs, chain, extra, 1) == StartOf(txs, chain, extra);
    EveryTxIsJudged(verdict, txs, chain, extra, 1, i);
  }

  // ---------------------------------------------------------------- every spend is authorised

  /** The state before a transaction holds exactly the P2MR outputs of the replay up to there. */
  lemma StateIsInStep(txs: seq<Transaction>, chain: UtxoMap, extra: UtxoMap, i: nat)
    requires Admissible(chain, txs) && NoneP2mr(extra) && 1 <= i <= |txs|
    ensures forall o :: P2mrAt(StateAt(txs, chain, extra, i).available, o) == At(ReplayTxs(chain, txs[..i]), o)
  {
    var prefix := txs[..i];
    SeededInStep(chain, extra, prefix);
    assert prefix[1..] == txs[1..i];
    ApplyTxsInStep(Validation(true), chain, prefix, 1, StartOf(prefix, chain, extra), ReplayTx(chain, prefix[0]));
  }

  predicate SpendsIt(tx: Transaction, o: OutPoint) {
    o in tx.inputs
  }

  /** An output of the chain stays in the replay as long as nobody spends it. */
  lemma {:induction false} UnspentStays(u: UtxoMap, txs: seq<Transaction>, o: OutPoint)
    requires o in u && forall i :: 0 <= i < |txs| ==> !SpendsIt(txs[i], o) && txs[i].txid != o.txid
    ensures At(ReplayTxs(u, txs), o) == At(u, o)
    decreases |txs|
  {
    if txs != [] {
      assert !SpendsIt(txs[0], o);
      ReplayTxAt(u, txs[0], o);
      forall i | 0 <= i < |txs[1..]| ensures !SpendsIt(txs[1..][i], o) && txs[1..][i].txid != o.txid {
        assert !SpendsIt(txs[i + 1], o);
      }
      UnspentStays(ReplayTx(u, txs[0]), txs[1..], o);
    }
  }

  /** An output that is gone was spent; the first transaction to do so. */
  lemma {:induction false} GoneWasSpent(u: UtxoMap, txs: seq<Transaction>, o: OutPoint) returns (i: nat)
    requires o in u && o !in ReplayTxs(u, txs) && forall j :: 0 <= j < |txs| ==> txs[j].txid != o.txid
    ensures i < |txs| && SpendsIt(txs[i], o) && forall j :: 0 <= j < i ==> !SpendsIt(txs[j], o)
    decreases |txs|
  {
    if SpendsIt(txs[0], o) {
      i := 0;
    } else {
      ReplayTxAt(u, txs[0], o);
      assert At(ReplayTx(u, txs[0]), o) == At(u, o);
      var k := GoneWasSpent(ReplayTx(u, txs[0]), txs[1..], o);
      i := k + 1;
      forall j | 0 <= j < i ensures !SpendsIt(txs[j], o) {
        if j > 0 { assert txs[1..][j - 1] == txs[j]; }
      }
    }
  }

  /** An input of the block spends the output with the signatures of a leaf of it, in the state it met. */
  ghost predicate SpentByOwner(c: Crypto, txs: seq<Transaction>, chain: UtxoMap, extra: UtxoMap,
                               i: nat, index: nat, o: OutPoint)
    requires 1 <= i < |txs|
  {
    var s, available := Full(txs[i]), StateAt(txs, chain, extra, i).available;
    && index < |s.body.inputs| && s.body.inputs[index].previousOutput == o
    && At(available, o) == At(chain, o) && o in available
    && TrulyAuthorised(c, s.body, index, WitnessOf(txs[i], index), available)
  }

  /** Every output of the chain that the block takes out was spent by its owner. */
  ghost predicate BlockAuthorised(c: Crypto, chain: UtxoMap, txs: seq<Transaction>, extra: UtxoMap) {
    forall o {:trigger o in chain} :: o in chain && o !in ReplayTxs(chain, txs) ==>
      exists i, index {:trigger SpentByOwner(c, txs, chain, extra, i, index, o)} ::
        1 <= i < |txs| && SpentByOwner(c, txs, chain, extra, i, index, o)
  }

  /** What the block has not spent yet is available as the chain has it. */
  lemma UnspentIsAvailable(txs: seq<Transaction>, chain: UtxoMap, extra: UtxoMap, i: nat, o: OutPoint)
    requires Admissible(chain, txs) && NoneP2mr(extra) && 1 <= i <= |txs| && o in chain
    requires forall j :: 0 <= j < i ==> !SpendsIt(txs[j], o)
    ensures At(StateAt(txs, chain, extra, i).available, o) == Some(chain[o]) && IsP2mr(chain[o])
  {
    StateIsInStep(txs, chain, extra, i);
    UnspentStays(chain, txs[..i], o);
    assert P2mrAt(StateAt(txs, chain, extra, i).available, o) == At(chain, o) == Some(chain[o]);
  }

  lemma GoneWasAuthorised(verdict: Verdict, c: Crypto, txs: seq<Transaction>, chain: UtxoMap,
                          extra: UtxoMap, o: OutPoint) returns (i: nat, index: nat)
    requires Enforces(verdict, c) && Admissible(chain, txs) && NoneP2mr(extra)
    requires ValidateAndDiff(true, verdict, txs, chain, extra).Some?
    requires o in chain && o !in ReplayTxs(chain, txs)
    ensures 1 <= i < |txs| && SpentByOwner(c, txs, chain, extra, i, index, o)
  {
    i := GoneWasSpent(chain, txs, o);
    assert SpendsIt(txs[i], o);
    index :| 0 <= index < |txs[i].inputs| && txs[i].inputs[index] == o;
    UnspentIsAvailable(txs, chain, extra, i, o);
    AcceptedTxObeys(verdict, c, txs, chain, extra, i);
    var w := StateAt(txs, chain, extra, i);
    NoSpendGoesUnchecked(c, Full(txs[i]), index, Knowledge(w.available, chain.Keys, w.spentP2mr));
  }

  /** No block at or above activation takes an output out of the set against its owner's will. */
  lemma AcceptedBlockIsAuthorised(verdict: Verdict, c: Crypto, txs: seq<Transaction>, chain: UtxoMap,
                                  extra: UtxoMap)
    requires Enforces(verdict, c) && Admissible(chain, txs) && NoneP2mr(extra)
    requires ValidateAndDiff(true, verdict, txs, chain, extra).Some?
    ensures BlockAuthorised(c, chain, txs, extra)
  {
    forall o | o in chain && o !in ReplayTxs(chain, txs)
      ensures exists i, index {:trigger SpentByOwner(c, txs, chain, extra, i, index, o)} ::
                1 <= i < |txs| && SpentByOwner(c, txs, chain, extra, i, index, o)
    {
      var i, index := GoneWasAuthorised(verdict, c, txs, chain, extra, o);
    }
  }

  // ---------------------------------------------------------------- what has to be fetched

  lemma {:induction false} KeysAfter(w: Working, txs: seq<Transaction>, o: OutPoint)
    ensures o in ApplyTxs(Validation(true), w, txs).available ==>
              o in w.available || exists j :: 0 <= j < |txs| && IsOutput(txs[j], 0, o)
    ensures o in w.available && (forall j :: 0 <= j < |txs| ==> !SpendsIt(txs[j], o)) ==>
              o in ApplyTxs(Validation(true), w, txs).available
    decreases |txs|
  {
    if txs != [] {
      var w1 := ApplyTx(Validation(true), w, txs[0]);
      KeysAfterOne(w, txs[0], o);
      KeysAfter(w1, txs[1..], o);
      if exists j :: 0 <= j < |txs[1..]| && IsOutput(txs[1..][j], 0, o) {
        var j :| 0 <= j < |txs[1..]| && IsOutput(txs[1..][j], 0, o);
        assert IsOutput(txs[j + 1], 0, o);
      }
      if forall j :: 0 <= j < |txs| ==> !SpendsIt(txs[j], o) {
        assert !SpendsIt(txs[0], o);
        forall j | 0 <= j < |txs[1..]| ensures !SpendsIt(txs[1..][j], o) {
          assert !SpendsIt(txs[j + 1], o);
        }
      }
    }
  }

  lemma KeysAfterOne(w: Working, tx: Transaction, o: OutPoint)
    ensures o in ApplyTx(Validation(true), w, tx).available <==>
              IsOutput(tx, 0, o) || (o in w.available && !SpendsIt(tx, o))
  {
    KeysAfterInputs(w, tx.inputs, o);
    AddOutputsAt(Validation(true), SpendInputs(Validation(true), w, tx.inputs), tx, 0, o);
  }

  lemma {:induction false} KeysAfterInputs(w: Working, inputs: seq<OutPoint>, o: OutPoint)
    ensures o in SpendInputs(Validation(true), w, inputs).available <==> o in w.available && o !in inputs
    decreases |inputs|
  {
    if inputs != [] {
      KeysAfterInputs(SpendInput(Validation(true), w, inputs[0]), inputs[1..], o);
      assert o in inputs <==> o == inputs[0] || o in inputs[1..];
    }
  }

  lemma StartKeys(txs: seq<Transaction>, chain: UtxoMap, extra: UtxoMap, o: OutPoint)
    requires txs != []
    ensures o in StartOf(txs, chain, extra).available <==> o in chain || IsOutput(txs[0], 0, o) || o in extra
  {
    AddOutputsAt(Validation(true), Working(chain, map[], map[], {}), txs[0], 0, o);
  }

  /** Outputs of the block are created before they are spent. */
  ghost predicate CreatedFirst(txs: seq<Transaction>) {
    forall i, o :: 0 <= i < |txs| && o in txs[i].inputs && CreatedInBlock(txs, o) ==> CreatedInBlock(txs[..i], o)
  }

  /** Everything asked for was fetched, and nothing else. */
  ghost predicate FetchedAll(txs: seq<Transaction>, chain: UtxoMap, vault: VaultTest, extra: UtxoMap) {
    forall o :: o in extra <==> Wanted(txs, chain, vault, o)
  }

  /** An input's prevout is there when its transaction is reached exactly when it is local or was fetched. */
  lemma PresentExactlyWhen(txs: seq<Transaction>, chain: UtxoMap, extra: UtxoMap, i: nat, o: OutPoint)
    requires 1 <= i < |txs| && SpentOnce(txs) && CreatedFirst(txs)
    requires o in txs[i].inputs
    ensures o in StateAt(txs, chain, extra, i).available <==> Local(txs, chain, o) || o in extra
  {
    var w, start := StateAt(txs, chain, extra, i), StartOf(txs, chain, extra);
    StartKeys(txs, chain, extra, o);
    KeysAfter(start, txs[1..i], o);
    if o in w.available && o !in start.available {
      var j :| 0 <= j < |txs[1..i]| && IsOutput(txs[1..i][j], 0, o);
      assert IsOutput(txs[j + 1], 0, o);
    }
    if IsOutput(txs[0], 0, o) {
      assert CreatedInBlock(txs, o);
    }
    forall j | 0 <= j < |txs[1..i]| ensures !SpendsIt(txs[1..i][j], o) {
      assert txs[1..i][j] == txs[j + 1];
    }
    if CreatedInBlock(txs, o) {
      assert CreatedInBlock(txs[..i], o);
      var j :| 0 <= j < |txs[..i]| && IsOutput(txs[..i][j], 0, o);
      if j > 0 {
        CreatedStays(txs, chain, extra, j, i, o);
      }
    }
  }

  /** When everything asked for was fetched: exactly when it is local or was asked for. */
  lemma AvailableExactlyWhen(txs: seq<Transaction>, chain: UtxoMap, vault: VaultTest, extra: UtxoMap, i: nat,
                             o: OutPoint)
    requires 1 <= i < |txs| && SpentOnce(txs) && CreatedFirst(txs) && FetchedAll(txs, chain, vault, extra)
    requires o in txs[i].inputs
    ensures o in StateAt(txs, chain, extra, i).available <==> Local(txs, chain, o) || Wanted(txs, chain, vault, o)
  {
    PresentExactlyWhen(txs, chain, extra, i, o);
  }

  lemma CreatedStays(txs: seq<Transaction>, chain: UtxoMap, extra: UtxoMap, j: nat, i: nat, o: OutPoint)
    requires 1 <= j < i <= |txs| && IsOutput(txs[j], 0, o)
    requires forall k :: j < k < i ==> !SpendsIt(txs[k], o)
    ensures o in StateAt(txs, chain, extra, i).available
  {
    NextState(txs, chain, extra, j);
    KeysAfterOne(StateAt(txs, chain, extra, j), txs[j], o);
    assert txs[1..i] == txs[1..j + 1] + txs[j + 1..i];
    ApplyTxsConcat(Validation(true), StartOf(txs, chain, extra), txs[1..j + 1], txs[j + 1..i]);
    var rest := txs[j + 1..i];
    forall k | 0 <= k < |rest| ensures !SpendsIt(rest[k], o) {
      assert rest[k] == txs[j + 1 + k];
    }
    KeysAfter(StateAt(txs, chain, extra, j + 1), rest, o);
  }

  /**
   * Exactly which P2MR spends cannot be checked although everything asked for was fetched: those that
   * commit to all inputs, of a transaction that was not selected and has an input that is not local.
   */
  lemma UnfetchedExactlyWhen(c: Crypto, txs: seq<Transaction>, chain: UtxoMap, vault: VaultTest,
                             extra: UtxoMap, i: nat, index: nat, k: Knowledge)
    requires 1 <= i < |txs| && SpentOnce(txs) && CreatedFirst(txs)
    requires FetchedAll(txs, chain, vault, extra)
    requires k.available == StateAt(txs, chain, extra, i).available
    requires index < |txs[i].inputs| && WitnessOf(txs[i], index) != []
    requires txs[i].inputs[index] in k.available && IsP2mr(k.available[txs[i].inputs[index]])
    ensures ValidateInput(c, Full(txs[i]), index, k) == Err(UnverifiableSpend(index))
       <==> && !AnyoneCanPay(ParseSighashType(WitnessOf(txs[i], index)[0]))
            && |txs[i].inputs| != 1
            && !Selected(txs[i], chain, vault)
            && exists o :: o in txs[i].inputs && !Local(txs, chain, o)
  {
    var tx, s := txs[i], Full(txs[i]);
    UnverifiableExactlyWhen(c, s, index, k);
    ResolvableExactlyWhen(txs, chain, vault, i);
    forall o | o in tx.inputs
      ensures o in k.available <==> Local(txs, chain, o) || Wanted(txs, chain, vault, o)
    {
      AvailableExactlyWhen(txs, chain, vault, extra, i, o);
    }
    assert (exists n :: 0 <= n < |s.body.inputs| && s.body.inputs[n].previousOutput !in k.available)
      <==> exists o :: o in tx.inputs && o !in k.available by {
      if o :| o in tx.inputs && o !in k.available {
        var n :| 0 <= n < |tx.inputs| && tx.inputs[n] == o;
        assert s.body.inputs[n].previousOutput !in k.available;
      }
      if n :| 0 <= n < |s.body.inputs| && s.body.inputs[n].previousOutput !in k.available {
        assert tx.inputs[n] in tx.inputs;
      }
    }
  }

  /** A block with such a spend is rejected by every verdict that enforces the P2MR rules. */
  lemma UnverifiableBlockIsRejected(verdict: Verdict, c: Crypto, txs: seq<Transaction>, chain: UtxoMap,
                                    extra: UtxoMap, i: nat, index: nat)
    requires Enforces(verdict, c) && 1 <= i < |txs|
    requires index < |txs[i].inputs|
    requires var w := StateAt(txs, chain, extra, i);
             ValidateInput(c, Full(txs[i]), index, Knowledge(w.available, chain.Keys, w.spentP2mr)).Err?
    ensures ValidateAndDiff(true, verdict, txs, chain, extra) == None
  {
    if ValidateAndDiff(true, verdict, txs, chain, extra).Some? {
      var w := StateAt(txs, chain, extra, i);
      AcceptedTxObeys(verdict, c, txs, chain, extra, i);
      EveryInputIsValidated(c, Full(txs[i]), 0, index, Knowledge(w.available, chain.Keys, w.spentP2mr));
    }
  }

  /** A block that creates a P2MR output and spends it together with an output of an earlier block. */
  function SameBlockSpend(stack: seq<Bytes>): seq<Transaction> {
    [Transaction(0, [], [], NO_REST),
     Transaction(1, [], [SampleP2mr()], NO_REST),
     Transaction(2, [OutPoint(1, 0), OutPoint(9, 0)], [], TxRest(2, 0, [], [stack]))]
  }

  lemma SameBlockState(stack: seq<Bytes>)
    ensures StateAt(SameBlockSpend(stack), map[], map[], 2).available == map[OutPoint(1, 0) := SampleP2mr()]
  {
    var txs, mode, none := SameBlockSpend(stack), Validation(true), Working(map[], map[], map[], {});
    assert AddOutputs(mode, none, txs[0], 0) == none;
    assert StartOf(txs, map[], map[]) == none;
    assert txs[1..1] == [];
    NextState(txs, map[], map[], 1);
    var w := AddOutput(mode, none, OutPoint(1, 0), SampleP2mr());
    assert AddOutputs(mode, w, txs[1], 1) == w;
  }

  /**
   * The gap made concrete: nothing is asked for, so under every cryptography and every verdict that
   * enforces the rules the block is rejected if the first element of the P2MR input commits to all
   * inputs. If it commits to its own input alone, the input can be checked.
   */
  lemma SameBlockCoInputIsNotFetched(verdict: Verdict, c: Crypto, vault: VaultTest, stack: seq<Bytes>)
    requires Enforces(verdict, c) && stack != [] && forall tx :: !vault(tx)
    ensures forall o :: !Wanted(SameBlockSpend(stack), map[], vault, o)
    ensures if AnyoneCanPay(ParseSighashType(stack[0])) then
              forall k: Knowledge :: k.available == StateAt(SameBlockSpend(stack), map[], map[], 2).available ==>
                ValidateInput(c, Full(SameBlockSpend(stack)[2]), 0, k) != Err(UnverifiableSpend(0))
            else ValidateAndDiff(true, verdict, SameBlockSpend(stack), map[], map[]) == None
  {
    var txs := SameBlockSpend(stack);
    var s, w := Full(txs[2]), StateAt(txs, map[], map[], 2);
    SameBlockState(stack);
    assert s.witnesses[0] == stack;
    assert s.body.inputs[0].previousOutput == OutPoint(1, 0) && s.body.inputs[1].previousOutput == OutPoint(9, 0);
    forall k: Knowledge | k.available == w.available
      ensures ValidateInput(c, s, 0, k) == Err(UnverifiableSpend(0))
         <==> !AnyoneCanPay(ParseSighashType(stack[0]))
    {
      UnverifiableExactlyWhen(c, s, 0, k);
    }
    if !AnyoneCanPay(ParseSighashType(stack[0])) {
      UnverifiableBlockIsRejected(verdict, c, txs, map[], map[], 2, 0);
    }
  }
}

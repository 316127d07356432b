/** Spending the same tracked output twice in one block. */
module DoubleSpends {
  import opened Common
  import opened Utxos
  import opened BlockDiffs
  import opened Spends
  import opened BlockSpends

  /** Transaction `j` spends an output that is tracked when its turn comes. */
  ghost predicate SpendsTracked(txs: seq<Transaction>, chain: UtxoMap, j: nat, o: OutPoint)
    requires j <= |txs|
  {
    j < |txs| && o in txs[j].inputs && o in ReplayTxs(chain, txs[..j])
  }

  lemma {:induction false} InputsSpent(w: Working, inputs: seq<OutPoint>, o: OutPoint)
    ensures o in SpendInputs(Validation(true), w, inputs).spentP2mr
       <==> o in w.spentP2mr || (o in inputs && P2mrAt(w.available, o) != None)
    decreases |inputs|
  {
    if inputs != [] {
      InputsSpent(SpendInput(Validation(true), w, inputs[0]), inputs[1..], o);
      assert o in inputs <==> o == inputs[0] || o in inputs[1..];
    }
  }

  lemma TxSpent(w: Working, tx: Transaction, o: OutPoint)
    ensures o in ApplyTx(Validation(true), w, tx).spentP2mr
       <==> o in w.spentP2mr || (o in tx.inputs && P2mrAt(w.available, o) != None)
  {
    InputsSpent(w, tx.inputs, o);
    AddOutputsAt(Validation(true), SpendInputs(Validation(true), w, tx.inputs), tx, 0, o);
  }

  lemma NothingSpentAtStart(txs: seq<Transaction>, chain: UtxoMap, extra: UtxoMap, o: OutPoint)
    requires txs != []
    ensures StateAt(txs, chain, extra, 1).spentP2mr == {}
  {
    AddOutputsAt(Validation(true), Working(chain, map[], map[], {}), txs[0], 0, o);
    assert txs[1..1] == [];
  }

  /** Some transaction before `i`, other than the coinbase, spends it while it is tracked. */
  ghost predicate SpentBefore(txs: seq<Transaction>, chain: UtxoMap, i: nat, o: OutPoint)
    requires i <= |txs|
  {
    exists j :: 1 <= j < i && SpendsTracked(txs, chain, j, o)
  }

  lemma SpentBeforeNext(txs: seq<Transaction>, chain: UtxoMap, i: nat, o: OutPoint)
    requires 1 <= i < |txs|
    ensures SpentBefore(txs, chain, i + 1, o) <==> SpentBefore(txs, chain, i, o) || SpendsTracked(txs, chain, i, o)
  {
  }

  lemma StateSpentNext(txs: seq<Transaction>, chain: UtxoMap, extra: UtxoMap, i: nat, o: OutPoint)
    requires Admissible(chain, txs) && NoneP2mr(extra) && 1 <= i < |txs|
    ensures o in StateAt(txs, chain, extra, i + 1).spentP2mr
       <==> o in StateAt(txs, chain, extra, i).spentP2mr || SpendsTracked(txs, chain, i, o)
  {
    NextState(txs, chain, extra, i);
    TxSpent(StateAt(txs, chain, extra, i), txs[i], o);
    StateIsInStep(txs, chain, extra, i);
  }

  /** The loop's record of spent outputs is exact: those that an earlier transaction found tracked and spent. */
  lemma {:induction false} SpentSoFarExactlyWhen(txs: seq<Transaction>, chain: UtxoMap, extra: UtxoMap, i: nat,
                                                 o: OutPoint)
    requires Admissible(chain, txs) && NoneP2mr(extra) && 1 <= i <= |txs|
    ensures o in StateAt(txs, chain, extra, i).spentP2mr <==> SpentBefore(txs, chain, i, o)
    decreases i
  {
    if i == 1 {
      NothingSpentAtStart(txs, chain, extra, o);
    } else {
      SpentSoFarExactlyWhen(txs, chain, extra, i - 1, o);
      StateSpentNext(txs, chain, extra, i - 1, o);
      SpentBeforeNext(txs, chain, i - 1, o);
    }
  }

  /** Once spent an output is not available again, unless its id comes back. */
  lemma {:induction false} SpentStaysGone(txs: seq<Transaction>, chain: UtxoMap, extra: UtxoMap, j: nat, i: nat,
                                          o: OutPoint)
    requires 1 <= j < i <= |txs| && o in txs[j].inputs
    requires forall k :: j <= k < i ==> txs[k].txid != o.txid
    ensures o !in StateAt(txs, chain, extra, i).available
    decreases i
  {
    if j < i - 1 {
      SpentStaysGone(txs, chain, extra, j, i - 1, o);
    }
    NextState(txs, chain, extra, i - 1);
    KeysAfterOne(StateAt(txs, chain, extra, i - 1), txs[i - 1], o);
  }

  /** A second spend of a tracked output fails the P2MR rules exactly if it comes with a witness. */
  lemma SecondSpendIsRefusedExactlyWhen(c: Crypto, txs: seq<Transaction>, chain: UtxoMap, extra: UtxoMap, j: nat,
                                        i: nat, index: nat, o: OutPoint, k: Knowledge)
    requires Admissible(chain, txs) && NoneP2mr(extra) && 1 <= j < i < |txs| && SpendsTracked(txs, chain, j, o)
    requires forall n :: j <= n < i ==> txs[n].txid != o.txid
    requires index < |txs[i].inputs| && txs[i].inputs[index] == o
    requires var w := StateAt(txs, chain, extra, i); k == Knowledge(w.available, chain.Keys, w.spentP2mr)
    ensures ValidateInput(c, Full(txs[i]), index, k)
         == if WitnessOf(txs[i], index) == [] then Ok(()) else Err(MissingPrevout(index))
  {
    SpentSoFarExactlyWhen(txs, chain, extra, i, o);
    SpentStaysGone(txs, chain, extra, j, i, o);
  }

  /** No enforcing verdict accepts an active block that spends a tracked output twice with witnesses. */
  lemma DoubleSpendIsRejected(verdict: Verdict, c: Crypto, txs: seq<Transaction>, chain: UtxoMap, extra: UtxoMap,
                              j: nat, i: nat, index: nat, o: OutPoint)
    requires Enforces(verdict, c) && Admissible(chain, txs) && NoneP2mr(extra)
    requires 1 <= j < i < |txs| && SpendsTracked(txs, chain, j, o)
    requires forall n :: j <= n < i ==> txs[n].txid != o.txid
    requires index < |txs[i].inputs| && txs[i].inputs[index] == o && WitnessOf(txs[i], index) != []
    ensures ValidateAndDiff(true, verdict, txs, chain, extra) == None
  {
    var w := StateAt(txs, chain, extra, i);
    SecondSpendIsRefusedExactlyWhen(c, txs, chain, extra, j, i, index, o,
                                    Knowledge(w.available, chain.Keys, w.spentP2mr));
    UnverifiableBlockIsRejected(verdict, c, txs, chain, extra, i, index);
  }
}

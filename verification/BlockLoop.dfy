/** The block loops as the program runs them: hash maps updated input by input, output by output. */
module BlockLoops {
  import opened Common
  import opened Utxos
  import opened BlockDiffs

  class WorkingSet {
    var available: UtxoMap
    var spent: UtxoMap
    var created: UtxoMap
    var spentP2mr: OutPoints

    ghost function View(): Working
      reads this
    {
      Working(available, spent, created, spentP2mr)
    }

    constructor (chain: UtxoMap)
      ensures View() == Working(chain, map[], map[], {})
    {
      available, spent, created, spentP2mr := chain, map[], map[], {};
    }

    /** Validation: all outputs become available; with `diff`, P2MR spends and creates are recorded. */
    method ApplyTxToValidationAvailable(tx: Transaction, diff: bool)
      modifies this
      ensures View() == ApplyTx(Validation(diff), old(View()), tx)
    {
      var i := 0;
      assert tx.inputs[0..] == tx.inputs;
      while i < |tx.inputs|
        invariant 0 <= i <= |tx.inputs|
        invariant SpendInputs(Validation(diff), View(), tx.inputs[i..])
               == SpendInputs(Validation(diff), old(View()), tx.inputs)
      {
        var outpoint := tx.inputs[i];
        assert tx.inputs[i..][0] == outpoint && tx.inputs[i..][1..] == tx.inputs[i + 1..];
        if outpoint in available {
          var prevout := available[outpoint];
          available := available - {outpoint};
          if IsP2mr(prevout) {
            spentP2mr := spentP2mr + {outpoint};
            if diff {
              if outpoint in created {
                created := created - {outpoint};
              } else {
                spent := spent[outpoint := prevout];
              }
            }
          }
        }
        i := i + 1;
      }
      ghost var spentView := View();
      var vout := 0;
      while vout < |tx.outputs|
        invariant 0 <= vout <= |tx.outputs|
        invariant AddOutputs(Validation(diff), View(), tx, vout) == AddOutputs(Validation(diff), spentView, tx, 0)
      {
        var outpoint := OutPoint(tx.txid, vout);
        available := available[outpoint := tx.outputs[vout]];
        if diff && IsP2mr(tx.outputs[vout]) {
          created := created[outpoint := tx.outputs[vout]];
        }
        vout := vout + 1;
      }
    }

    /** Diff only: just the P2MR outputs become available. */
    method ApplyTxToAvailable(tx: Transaction)
      modifies this
      ensures View() == ApplyTx(DiffOnly, old(View()), tx)
    {
      var i := 0;
      assert tx.inputs[0..] == tx.inputs;
      while i < |tx.inputs|
        invariant 0 <= i <= |tx.inputs|
        invariant SpendInputs(DiffOnly, View(), tx.inputs[i..]) == SpendInputs(DiffOnly, old(View()), tx.inputs)
      {
        var outpoint := tx.inputs[i];
        assert tx.inputs[i..][0] == outpoint && tx.inputs[i..][1..] == tx.inputs[i + 1..];
        if outpoint in available {
          var prevout := available[outpoint];
          available := available - {outpoint};
          if IsP2mr(prevout) {
            if outpoint in created {
              created := created - {outpoint};
            } else {
              spent := spent[outpoint := prevout];
            }
          }
        }
        i := i + 1;
      }
      ghost var spentView := View();
      var vout := 0;
      while vout < |tx.outputs|
        invariant 0 <= vout <= |tx.outputs|
        invariant AddOutputs(DiffOnly, View(), tx, vout) == AddOutputs(DiffOnly, spentView, tx, 0)
      {
        if IsP2mr(tx.outputs[vout]) {
          var outpoint := OutPoint(tx.txid, vout);
          created := created[outpoint := tx.outputs[vout]];
          available := available[outpoint := tx.outputs[vout]];
        }
        vout := vout + 1;
      }
    }

    /** The coinbase's outputs; with `diff`, the P2MR ones also count as created. */
    method SeedCoinbaseOutputs(txs: seq<Transaction>, diff: bool)
      modifies this
      ensures View() == SeedCoinbase(Validation(diff), old(View()), txs)
    {
      if txs == [] {
        return;
      }
      var coinbase := txs[0];
      var vout := 0;
      while vout < |coinbase.outputs|
        invariant 0 <= vout <= |coinbase.outputs|
        invariant AddOutputs(Validation(diff), View(), coinbase, vout)
               == AddOutputs(Validation(diff), old(View()), coinbase, 0)
      {
        var outpoint := OutPoint(coinbase.txid, vout);
        available := available[outpoint := coinbase.outputs[vout]];
        if diff && IsP2mr(coinbase.outputs[vout]) {
          created := created[outpoint := coinbase.outputs[vout]];
        }
        vout := vout + 1;
      }
    }

    /** Fill-only: an entry the local view already has is never overridden. */
    method FillInExtra(extra: UtxoMap)
      modifies this
      ensures View() == FillIn(old(View()), extra)
    {
      var todo := extra.Keys;
      while todo != {}
        invariant todo <= extra.Keys
        invariant forall k :: k in available <==> k in old(available) || (k in extra && k !in todo)
        invariant forall k :: k in available ==>
                    available[k] == if k in old(available) then old(available)[k] else extra[k]
        invariant spent == old(spent) && created == old(created) && spentP2mr == old(spentP2mr)
        decreases |todo|
      {
        var o :| o in todo;
        if o !in available {
          available := available[o := extra[o]];
        }
        todo := todo - {o};
      }
      FilledPointwise(old(available), extra, available);
    }
  }

  lemma FilledPointwise(before: UtxoMap, extra: UtxoMap, after: UtxoMap)
    requires forall k :: k in after <==> k in before || k in extra
    requires forall k :: k in after ==> after[k] == if k in before then before[k] else extra[k]
    ensures after == before + (extra - before.Keys)
  {
  }

  method ComputeBlockDiff(txs: seq<Transaction>, chain: UtxoMap) returns (d: Diff)
    ensures d == BlockDiffs.ComputeBlockDiff(txs, chain)
  {
    var w := new WorkingSet(chain);
    ghost var start := w.View();
    var i := 0;
    assert txs[0..] == txs;
    while i < |txs|
      invariant 0 <= i <= |txs|
      invariant ApplyTxs(DiffOnly, w.View(), txs[i..]) == ApplyTxs(DiffOnly, start, txs)
    {
      assert txs[i..][0] == txs[i] && txs[i..][1..] == txs[i + 1..];
      w.ApplyTxToAvailable(txs[i]);
      i := i + 1;
    }
    d := Diff(w.spent, w.created);
  }

  /** Validate a block and return the diff to persist; below activation only the diff is computed. */
  method ValidateAndDiffBlockTransactions(active: bool, verdict: Verdict, txs: seq<Transaction>,
                                          chain: UtxoMap, extra: UtxoMap) returns (r: Option<Diff>)
    ensures r == ValidateAndDiff(active, verdict, txs, chain, extra)
  {
    if !active {
      var d := ComputeBlockDiff(txs, chain);
      return Some(d);
    }
    var w := new WorkingSet(chain);
    w.SeedCoinbaseOutputs(txs, true);
    w.FillInExtra(extra);
    ghost var start := w.View();
    var i := 1;
    while i < |txs|
      invariant 1 <= i
      invariant ValidateTxs(Validation(true), verdict, chain, w.View(), txs, i)
             == ValidateTxs(Validation(true), verdict, chain, start, txs, 1)
    {
      if !verdict(i, txs[i], w.available, chain, w.spentP2mr) {
        return None;
      }
      w.ApplyTxToValidationAvailable(txs[i], true);
      i := i + 1;
    }
    return Some(Diff(w.spent, w.created));
  }

  /** The dry run of a proposed block. */
  method ValidateBlockTransactions(active: bool, verdict: Verdict, txs: seq<Transaction>, chain: UtxoMap)
    returns (ok: bool)
    ensures ok <==> ValidateOnly(active, verdict, txs, chain)
  {
    if !active {
      return true;
    }
    var w := new WorkingSet(chain);
    w.SeedCoinbaseOutputs(txs, false);
    ghost var start := w.View();
    var i := 1;
    while i < |txs|
      invariant 1 <= i
      invariant ValidateTxs(Validation(false), verdict, chain, w.View(), txs, i)
             == ValidateTxs(Validation(false), verdict, chain, start, txs, 1)
    {
      if !verdict(i, txs[i], w.available, chain, w.spentP2mr) {
        return false;
      }
      w.ApplyTxToValidationAvailable(txs[i], false);
      i := i + 1;
    }
    return true;
  }
}

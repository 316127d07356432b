/** The two algorithms that turn a block into a net diff of the P2MR output set. */
module BlockDiffs {
  import opened Common
  import opened Utxos

  /** The maps a block loop updates; `spentP2mr` is the set of P2MR outputs spent in the block. */
  datatype Working = Working(available: UtxoMap, spent: UtxoMap, created: UtxoMap, spentP2mr: OutPoints)

  /** Which of the two algorithms runs: validation, with or without recording a diff, or diff only. */
  datatype Mode = Validation(diff: bool) | DiffOnly

  predicate RecordsDiff(mode: Mode) {
    mode.DiffOnly? || mode.diff
  }

  /** The verdict on the transaction at an index, given everything the validator looks at. */
  type Verdict = (nat, Transaction, UtxoMap, UtxoMap, OutPoints) -> bool

  // ---------------------------------------------------------------- one transaction

  function SpendInput(mode: Mode, w: Working, o: OutPoint): Working {
    if o !in w.available then w
    else
      var prevout := w.available[o];
      var w' := w.(available := w.available - {o});
      if !IsP2mr(prevout) then w'
      else
        var w'' := if mode.Validation? then w'.(spentP2mr := w.spentP2mr + {o}) else w';
        if !RecordsDiff(mode) then w''
        else if o in w.created then w''.(created := w.created - {o})
        else w''.(spent := w.spent[o := prevout])
  }

  function SpendInputs(mode: Mode, w: Working, inputs: seq<OutPoint>): Working
    decreases |inputs|
  {
    if inputs == [] then w else SpendInputs(mode, SpendInput(mode, w, inputs[0]), inputs[1..])
  }

  /** Validation makes every output available, diff computation only the P2MR ones. */
  function AddOutput(mode: Mode, w: Working, o: OutPoint, out: TxOut): Working {
    var w' := if mode.Validation? || IsP2mr(out) then w.(available := w.available[o := out]) else w;
    if RecordsDiff(mode) && IsP2mr(out) then w'.(created := w.created[o := out]) else w'
  }

  function AddOutputs(mode: Mode, w: Working, tx: Transaction, vout: nat): Working
    decreases |tx.outputs| - vout
  {
    if vout >= |tx.outputs| then w
    else AddOutputs(mode, AddOutput(mode, w, OutPoint(tx.txid, vout), tx.outputs[vout]), tx, vout + 1)
  }

  function ApplyTx(mode: Mode, w: Working, tx: Transaction): Working {
    AddOutputs(mode, SpendInputs(mode, w, tx.inputs), tx, 0)
  }

  // ---------------------------------------------------------------- whole blocks

  function ApplyTxs(mode: Mode, w: Working, txs: seq<Transaction>): Working
    decreases |txs|
  {
    if txs == [] then w else ApplyTxs(mode, ApplyTx(mode, w, txs[0]), txs[1..])
  }

  function ComputeBlockDiff(txs: seq<Transaction>, chain: UtxoMap): Diff {
    var w := ApplyTxs(DiffOnly, Working(chain, map[], map[], {}), txs);
    Diff(w.spent, w.created)
  }

  /** Validate and apply the transactions from index `i` on; None when one is invalid. */
  function ValidateTxs(mode: Mode, verdict: Verdict, chain: UtxoMap, w: Working,
                       txs: seq<Transaction>, i: nat): Option<Working>
    decreases |txs| - i
  {
    if i >= |txs| then Some(w)
    else if !verdict(i, txs[i], w.available, chain, w.spentP2mr) then None
    else ValidateTxs(mode, verdict, chain, ApplyTx(mode, w, txs[i]), txs, i + 1)
  }

  /** The coinbase's outputs are available, its inputs are not looked at. */
  function SeedCoinbase(mode: Mode, w: Working, txs: seq<Transaction>): Working {
    if txs == [] then w else AddOutputs(mode, w, txs[0], 0)
  }

  /** Extra prevouts fill gaps only. */
  function FillIn(w: Working, extra: UtxoMap): Working {
    w.(available := w.available + (extra - w.available.Keys))
  }

  function ValidateAndDiff(active: bool, verdict: Verdict, txs: seq<Transaction>,
                           chain: UtxoMap, extra: UtxoMap): Option<Diff>
  {
    if !active then Some(ComputeBlockDiff(txs, chain))
    else
      var mode := Validation(true);
      var w := FillIn(SeedCoinbase(mode, Working(chain, map[], map[], {}), txs), extra);
      match ValidateTxs(mode, verdict, chain, w, txs, 1)
      case None => None
      case Some(w') => Some(Diff(w'.spent, w'.created))
  }

  predicate ValidateOnly(active: bool, verdict: Verdict, txs: seq<Transaction>, chain: UtxoMap) {
    if !active then true
    else
      var mode := Validation(false);
      ValidateTxs(mode, verdict, chain, SeedCoinbase(mode, Working(chain, map[], map[], {}), txs), txs, 1).Some?
  }

  // ---------------------------------------------------------------- assumptions on blocks

  ghost predicate AllP2mr(m: UtxoMap) {
    forall o :: o in m ==> IsP2mr(m[o])
  }

  ghost predicate NoneP2mr(m: UtxoMap) {
    forall o :: o in m ==> !IsP2mr(m[o])
  }

  /** BIP 30: no transaction of the block has the id of one with unspent outputs. */
  ghost predicate FreshTxids(chain: UtxoMap, txs: seq<Transaction>) {
    forall o, i :: o in chain && 0 <= i < |txs| ==> o.txid != txs[i].txid
  }

  /** A transaction id commits to the outputs. */
  ghost predicate TxidsCommit(txs: seq<Transaction>) {
    forall i, j :: 0 <= i < |txs| && 0 <= j < |txs| && txs[i].txid == txs[j].txid ==>
                     txs[i].outputs == txs[j].outputs
  }

  /** The coinbase spends nothing that is tracked; its input is the null outpoint. */
  ghost predicate CoinbaseSpendsNothing(chain: UtxoMap, txs: seq<Transaction>) {
    txs != [] ==> forall o :: o in txs[0].inputs ==> o !in chain
  }

  ghost predicate Admissible(chain: UtxoMap, txs: seq<Transaction>) {
    AllP2mr(chain) && FreshTxids(chain, txs) && TxidsCommit(txs) && CoinbaseSpendsNothing(chain, txs)
  }

  // ---------------------------------------------------------------- the invariant of the block loop

  /** Everything created in the block is an output of a transaction of the block. */
  ghost predicate CreatedByBlock(created: UtxoMap, txs: seq<Transaction>) {
    forall o, i :: o in created && 0 <= i < |txs| && txs[i].txid == o.txid ==>
                     o.vout < |txs[i].outputs| && created[o] == txs[i].outputs[o.vout]
  }

  function At(m: UtxoMap, o: OutPoint): Option<TxOut> {
    if o in m then Some(m[o]) else None
  }

  function P2mrAt(m: UtxoMap, o: OutPoint): Option<TxOut> {
    if o in m && IsP2mr(m[o]) then Some(m[o]) else None
  }

  /**
   * At every outpoint, the P2MR part of what is available is the chain less what was spent plus
   * what was created; only chain outputs count as spent and only new ones as created.
   */
  ghost predicate RefinesAt(chain: UtxoMap, w: Working, o: OutPoint) {
    && P2mrAt(w.available, o)
       == (if o in w.created then Some(w.created[o]) else if o in w.spent then None else At(chain, o))
    && (o in w.spent ==> At(chain, o) == Some(w.spent[o]))
    && (o in w.created ==> o !in chain && IsP2mr(w.created[o]))
  }

  ghost predicate Refines(chain: UtxoMap, w: Working) {
    forall o :: RefinesAt(chain, w, o)
  }

  lemma SpendInputRefines(mode: Mode, chain: UtxoMap, w: Working, o: OutPoint, k: OutPoint)
    requires RecordsDiff(mode) && AllP2mr(chain) && RefinesAt(chain, w, o) && RefinesAt(chain, w, k)
    ensures var w' := SpendInput(mode, w, o);
            && RefinesAt(chain, w', k)
            && P2mrAt(w'.available, k) == (if k == o then None else P2mrAt(w.available, k))
            && At(w'.created, k) == (if k == o then None else At(w.created, k))
  {
  }

  lemma {:induction false} SpendInputsRefines(mode: Mode, chain: UtxoMap, w: Working, inputs: seq<OutPoint>)
    requires RecordsDiff(mode) && AllP2mr(chain) && Refines(chain, w)
    ensures var w' := SpendInputs(mode, w, inputs);
            && Refines(chain, w')
            && (forall k :: P2mrAt(w'.available, k) == if k in inputs then None else P2mrAt(w.available, k))
            && (forall k :: At(w'.created, k) == if k in inputs then None else At(w.created, k))
    decreases |inputs|
  {
    if inputs != [] {
      var o := inputs[0];
      var w1 := SpendInput(mode, w, o);
      forall k
        ensures RefinesAt(chain, w1, k)
        ensures P2mrAt(w1.available, k) == if k == o then None else P2mrAt(w.available, k)
        ensures At(w1.created, k) == if k == o then None else At(w.created, k)
      {
        SpendInputRefines(mode, chain, w, o, k);
      }
      SpendInputsRefines(mode, chain, w1, inputs[1..]);
      assert forall k :: k in inputs <==> k == o || k in inputs[1..];
    }
  }

  /** The outputs of a transaction from an index on, by outpoint. */
  predicate IsOutput(tx: Transaction, vout: nat, k: OutPoint) {
    k.txid == tx.txid && vout <= k.vout < |tx.outputs|
  }

  lemma {:induction false} AddOutputsAt(mode: Mode, w: Working, tx: Transaction, vout: nat, k: OutPoint)
    ensures var w' := AddOutputs(mode, w, tx, vout);
            && w'.spent == w.spent && w'.spentP2mr == w.spentP2mr
            && At(w'.available, k)
               == (if IsOutput(tx, vout, k) && (mode.Validation? || IsP2mr(tx.outputs[k.vout]))
                   then Some(tx.outputs[k.vout]) else At(w.available, k))
            && At(w'.created, k)
               == (if RecordsDiff(mode) && IsOutput(tx, vout, k) && IsP2mr(tx.outputs[k.vout])
                   then Some(tx.outputs[k.vout]) else At(w.created, k))
    decreases |tx.outputs| - vout
  {
    if vout < |tx.outputs| {
      AddOutputsAt(mode, AddOutput(mode, w, OutPoint(tx.txid, vout), tx.outputs[vout]), tx, vout + 1, k);
    }
  }

  lemma ReplayTxAt(u: UtxoMap, tx: Transaction, k: OutPoint)
    ensures At(ReplayTx(u, tx), k)
            == if IsOutput(tx, 0, k) && IsP2mr(tx.outputs[k.vout]) then Some(tx.outputs[k.vout])
               else if k in tx.inputs then None else At(u, k)
  {
  }

  /** The loop invariant: the working set refines the net diff and agrees with plain replay. */
  ghost predicate InStep(chain: UtxoMap, txs: seq<Transaction>, w: Working, replayed: UtxoMap) {
    && Refines(chain, w)
    && CreatedByBlock(w.created, txs)
    && forall k :: P2mrAt(w.available, k) == At(replayed, k)
  }

  lemma AddOutputsRefines(mode: Mode, chain: UtxoMap, txs: seq<Transaction>, i: nat, w: Working)
    requires RecordsDiff(mode) && FreshTxids(chain, txs) && TxidsCommit(txs) && i < |txs|
    requires Refines(chain, w) && CreatedByBlock(w.created, txs)
    ensures var w' := AddOutputs(mode, w, txs[i], 0);
            && Refines(chain, w')
            && CreatedByBlock(w'.created, txs)
            && forall k :: P2mrAt(w'.available, k)
                           == if IsOutput(txs[i], 0, k) && IsP2mr(txs[i].outputs[k.vout])
                              then Some(txs[i].outputs[k.vout]) else P2mrAt(w.available, k)
  {
    var tx := txs[i];
    var w' := AddOutputs(mode, w, tx, 0);
    forall k
      ensures RefinesAt(chain, w', k)
      ensures P2mrAt(w'.available, k)
              == if IsOutput(tx, 0, k) && IsP2mr(tx.outputs[k.vout]) then Some(tx.outputs[k.vout])
                 else P2mrAt(w.available, k)
    {
      AddOutputsAt(mode, w, tx, 0, k);
      AddedOutputRefines(mode, chain, txs, i, w, w', k);
    }
    forall o, j | o in w'.created && 0 <= j < |txs| && txs[j].txid == o.txid
      ensures o.vout < |txs[j].outputs| && w'.created[o] == txs[j].outputs[o.vout]
    {
      AddOutputsAt(mode, w, tx, 0, o);
    }
  }

  /** One transaction keeps the working set, in either mode, in step with plain replay. */
  lemma ApplyTxInStep(mode: Mode, chain: UtxoMap, txs: seq<Transaction>, i: nat, w: Working, replayed: UtxoMap)
    requires RecordsDiff(mode) && AllP2mr(chain) && FreshTxids(chain, txs) && TxidsCommit(txs) && i < |txs|
    requires InStep(chain, txs, w, replayed)
    ensures InStep(chain, txs, ApplyTx(mode, w, txs[i]), ReplayTx(replayed, txs[i]))
  {
    var w1 := SpendInputs(mode, w, txs[i].inputs);
    SpendInputsRefines(mode, chain, w, txs[i].inputs);
    CreatedShrinks(w.created, w1.created, txs[i].inputs, txs);
    AddOutputsRefines(mode, chain, txs, i, w1);
    forall k { ReplayTxAt(replayed, txs[i], k); }
  }

  lemma {:induction false} ApplyTxsInStep(mode: Mode, chain: UtxoMap, txs: seq<Transaction>, i: nat,
                                          w: Working, replayed: UtxoMap)
    requires RecordsDiff(mode) && AllP2mr(chain) && FreshTxids(chain, txs) && TxidsCommit(txs) && i <= |txs|
    requires InStep(chain, txs, w, replayed)
    ensures InStep(chain, txs, ApplyTxs(mode, w, txs[i..]), ReplayTxs(replayed, txs[i..]))
    decreases |txs| - i
  {
    if i < |txs| {
      ApplyTxInStep(mode, chain, txs, i, w, replayed);
      assert txs[i..][0] == txs[i] && txs[i..][1..] == txs[i + 1..];
      ApplyTxsInStep(mode, chain, txs, i + 1, ApplyTx(mode, w, txs[i]), ReplayTx(replayed, txs[i]));
    }
  }

  // ---------------------------------------------------------------- the net diff is the difference

  /** What is gone from the chain and what is new. */
  function Difference(chain: UtxoMap, after: UtxoMap): Diff {
    Diff(chain - after.Keys, after - chain.Keys)
  }

  lemma InStepDiffIsDifference(chain: UtxoMap, txs: seq<Transaction>, w: Working, replayed: UtxoMap)
    requires InStep(chain, txs, w, replayed)
    ensures Diff(w.spent, w.created) == Difference(chain, replayed)
    ensures forall o :: o in chain && o in replayed ==> chain[o] == replayed[o]
  {
    forall o
      ensures At(w.spent, o) == At(chain - replayed.Keys, o)
      ensures At(w.created, o) == At(replayed - chain.Keys, o)
      ensures o in chain && o in replayed ==> chain[o] == replayed[o]
    {
      assert RefinesAt(chain, w, o) && P2mrAt(w.available, o) == At(replayed, o);
    }
    SamePointwise(w.spent, chain - replayed.Keys);
    SamePointwise(w.created, replayed - chain.Keys);
  }

  lemma SamePointwise(m: UtxoMap, m': UtxoMap)
    requires forall o :: At(m, o) == At(m', o)
    ensures m == m'
  {
    assert forall o :: o in m <==> At(m, o).Some?;
    assert forall o :: o in m' <==> At(m', o).Some?;
    assert forall o :: o in m ==> At(m, o) == Some(m[o]);
    assert forall o :: o in m' ==> At(m', o) == Some(m'[o]);
  }

  lemma DifferenceApplies(chain: UtxoMap, after: UtxoMap)
    requires forall o :: o in chain && o in after ==> chain[o] == after[o]
    ensures var d := Difference(chain, after);
            && NetDiff(chain, d)
            && d.spent.Keys <= chain.Keys
            && Applied(chain, d) == after
            && Undone(after, d) == chain
  {
    var d := Difference(chain, after);
    forall o ensures At(Applied(chain, d), o) == At(after, o) && At(Undone(after, d), o) == At(chain, o) {
    }
    SamePointwise(Applied(chain, d), after);
    SamePointwise(Undone(after, d), chain);
  }

  /** The diff-only algorithm computes the difference that plain replay makes. */
  lemma ComputedDiffIsDifference(chain: UtxoMap, txs: seq<Transaction>)
    requires AllP2mr(chain) && FreshTxids(chain, txs) && TxidsCommit(txs)
    ensures ComputeBlockDiff(txs, chain) == Difference(chain, ReplayTxs(chain, txs))
    ensures forall o :: o in chain && o in ReplayTxs(chain, txs) ==> chain[o] == ReplayTxs(chain, txs)[o]
  {
    var w := Working(chain, map[], map[], {});
    assert InStep(chain, txs, w, chain);
    assert txs[0..] == txs;
    ApplyTxsInStep(DiffOnly, chain, txs, 0, w, chain);
    InStepDiffIsDifference(chain, txs, ApplyTxs(DiffOnly, w, txs), ReplayTxs(chain, txs));
  }

  lemma {:induction false} ValidatedIsApplied(mode: Mode, verdict: Verdict, chain: UtxoMap, w: Working,
                                              txs: seq<Transaction>, i: nat)
    requires i <= |txs| && ValidateTxs(mode, verdict, chain, w, txs, i).Some?
    ensures ValidateTxs(mode, verdict, chain, w, txs, i).value == ApplyTxs(mode, w, txs[i..])
    decreases |txs| - i
  {
    if i < |txs| {
      assert txs[i..][0] == txs[i] && txs[i..][1..] == txs[i + 1..];
      ValidatedIsApplied(mode, verdict, chain, ApplyTx(mode, w, txs[i]), txs, i + 1);
    }
  }

  lemma SeededInStep(chain: UtxoMap, extra: UtxoMap, txs: seq<Transaction>)
    requires Admissible(chain, txs) && NoneP2mr(extra) && txs != []
    ensures InStep(chain, txs,
                   FillIn(SeedCoinbase(Validation(true), Working(chain, map[], map[], {}), txs), extra),
                   ReplayTx(chain, txs[0]))
  {
    var w := Working(chain, map[], map[], {});
    AddOutputsRefines(Validation(true), chain, txs, 0, w);
    var seeded := SeedCoinbase(Validation(true), w, txs);
    var filled := FillIn(seeded, extra);
    forall k
      ensures RefinesAt(chain, filled, k)
      ensures P2mrAt(filled.available, k) == At(ReplayTx(chain, txs[0]), k)
    {
      assert RefinesAt(chain, seeded, k);
      assert P2mrAt(filled.available, k) == P2mrAt(seeded.available, k);
      ReplayTxAt(chain, txs[0], k);
    }
  }

  /**
   * The two algorithms agree: the diff of an accepted block is the difference plain replay makes,
   * before and after activation and whatever non-P2MR prevouts were fetched. So applying it to the
   * chain's set gives the replayed set, and undoing it gives the chain's set back.
   */
  lemma AcceptedDiffRefinesReplay(active: bool, verdict: Verdict, txs: seq<Transaction>,
                                  chain: UtxoMap, extra: UtxoMap)
    requires Admissible(chain, txs) && NoneP2mr(extra)
    requires ValidateAndDiff(active, verdict, txs, chain, extra).Some?
    ensures var d := ValidateAndDiff(active, verdict, txs, chain, extra).value;
            var after := ReplayTxs(chain, txs);
            && d == ComputeBlockDiff(txs, chain)
            && d == Difference(chain, after)
            && NetDiff(chain, d)
            && d.spent.Keys <= chain.Keys
            && Applied(chain, d) == after
            && Undone(after, d) == chain
  {
    ComputedDiffIsDifference(chain, txs);
    DifferenceApplies(chain, ReplayTxs(chain, txs));
    if active {
      var mode := Validation(true);
      var w := FillIn(SeedCoinbase(mode, Working(chain, map[], map[], {}), txs), extra);
      if txs == [] {
        assert ReplayTxs(chain, txs) == chain;
        assert Difference(chain, chain) == Diff(map[], map[]);
      } else {
        SeededInStep(chain, extra, txs);
        ValidatedIsApplied(mode, verdict, chain, w, txs, 1);
        ApplyTxsInStep(mode, chain, txs, 1, w, ReplayTx(chain, txs[0]));
        InStepDiffIsDifference(chain, txs, ApplyTxs(mode, w, txs[1..]), ReplayTxs(chain, txs));
      }
    }
  }

  /** Replay keeps the table P2MR-only, and a new key is an output of the block. */
  lemma {:induction false} ReplayStaysP2mr(u: UtxoMap, txs: seq<Transaction>)
    requires AllP2mr(u)
    ensures AllP2mr(ReplayTxs(u, txs))
    decreases |txs|
  {
    if txs != [] {
      forall o | o in ReplayTx(u, txs[0]) ensures IsP2mr(ReplayTx(u, txs[0])[o]) {
        ReplayTxAt(u, txs[0], o);
      }
      ReplayStaysP2mr(ReplayTx(u, txs[0]), txs[1..]);
    }
  }

  /** An output created and spent in the same block leaves no trace in the diff. */
  lemma CreatedAndSpentLeavesNoTrace(txs: seq<Transaction>, chain: UtxoMap, o: OutPoint)
    requires AllP2mr(chain) && FreshTxids(chain, txs) && TxidsCommit(txs)
    requires o !in chain && o !in ReplayTxs(chain, txs)
    ensures o !in ComputeBlockDiff(txs, chain).spent && o !in ComputeBlockDiff(txs, chain).created
  {
    ComputedDiffIsDifference(chain, txs);
  }

  // ---------------------------------------------------------------- the dry run

  /** The dry run sees the same outputs although it records no diff. */
  ghost predicate SameView(w: Working, w': Working) {
    w.available == w'.available && w.spentP2mr == w'.spentP2mr
  }

  lemma {:induction false} InputsSameView(w: Working, w': Working, inputs: seq<OutPoint>)
    requires SameView(w, w')
    ensures SameView(SpendInputs(Validation(false), w, inputs), SpendInputs(Validation(true), w', inputs))
    decreases |inputs|
  {
    if inputs != [] {
      InputsSameView(SpendInput(Validation(false), w, inputs[0]), SpendInput(Validation(true), w', inputs[0]),
                     inputs[1..]);
    }
  }

  lemma {:induction false} OutputsSameView(w: Working, w': Working, tx: Transaction, vout: nat)
    requires SameView(w, w')
    ensures SameView(AddOutputs(Validation(false), w, tx, vout), AddOutputs(Validation(true), w', tx, vout))
    decreases |tx.outputs| - vout
  {
    if vout < |tx.outputs| {
      var o, out := OutPoint(tx.txid, vout), tx.outputs[vout];
      OutputsSameView(AddOutput(Validation(false), w, o, out), AddOutput(Validation(true), w', o, out), tx, vout + 1);
    }
  }

  lemma {:induction false} TxsSameVerdict(verdict: Verdict, chain: UtxoMap, w: Working, w': Working,
                                          txs: seq<Transaction>, i: nat)
    requires SameView(w, w')
    ensures ValidateTxs(Validation(false), verdict, chain, w, txs, i).Some?
            == ValidateTxs(Validation(true), verdict, chain, w', txs, i).Some?
    decreases |txs| - i
  {
    if i < |txs| {
      InputsSameView(w, w', txs[i].inputs);
      OutputsSameView(SpendInputs(Validation(false), w, txs[i].inputs),
                      SpendInputs(Validation(true), w', txs[i].inputs), txs[i], 0);
      TxsSameVerdict(verdict, chain, ApplyTx(Validation(false), w, txs[i]), ApplyTx(Validation(true), w', txs[i]),
                     txs, i + 1);
    }
  }

  /** The dry run of a proposed block accepts exactly what connecting without fetched prevouts accepts. */
  lemma DryRunAgrees(active: bool, verdict: Verdict, txs: seq<Transaction>, chain: UtxoMap)
    ensures ValidateOnly(active, verdict, txs, chain)
       <==> ValidateAndDiff(active, verdict, txs, chain, map[]).Some?
  {
    if active {
      var start := Working(chain, map[], map[], {});
      var w := SeedCoinbase(Validation(false), start, txs);
      var w' := FillIn(SeedCoinbase(Validation(true), start, txs), map[]);
      if txs != [] {
        OutputsSameView(start, start, txs[0], 0);
      }
      assert w'.available == SeedCoinbase(Validation(true), start, txs).available;
      TxsSameVerdict(verdict, chain, w, w', txs, 1);
    }
  }

  lemma CreatedShrinks(created: UtxoMap, created': UtxoMap, inputs: seq<OutPoint>, txs: seq<Transaction>)
    requires CreatedByBlock(created, txs)
    requires forall k :: At(created', k) == if k in inputs then None else At(created, k)
    ensures CreatedByBlock(created', txs)
  {
    forall o, i | o in created' && 0 <= i < |txs| && txs[i].txid == o.txid
      ensures o.vout < |txs[i].outputs| && created'[o] == txs[i].outputs[o.vout]
    {
      assert At(created', o) == At(created, o);
    }
  }

  lemma AddedOutputRefines(mode: Mode, chain: UtxoMap, txs: seq<Transaction>, i: nat,
                           w1: Working, w2: Working, k: OutPoint)
    requires RecordsDiff(mode) && FreshTxids(chain, txs) && i < |txs|
    requires RefinesAt(chain, w1, k) && CreatedByBlock(w1.created, txs)
    requires w2.spent == w1.spent
    requires At(w2.available, k)
             == (if IsOutput(txs[i], 0, k) && (mode.Validation? || IsP2mr(txs[i].outputs[k.vout]))
                 then Some(txs[i].outputs[k.vout]) else At(w1.available, k))
    requires At(w2.created, k)
             == (if IsOutput(txs[i], 0, k) && IsP2mr(txs[i].outputs[k.vout])
                 then Some(txs[i].outputs[k.vout]) else At(w1.created, k))
    ensures RefinesAt(chain, w2, k)
    ensures P2mrAt(w2.available, k)
            == if IsOutput(txs[i], 0, k) && IsP2mr(txs[i].outputs[k.vout]) then Some(txs[i].outputs[k.vout])
               else P2mrAt(w1.available, k)
  {
  }
}

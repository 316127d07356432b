/** Which prevouts of a block are asked of the node before connecting. */
module Prefetches {
  import opened Common
  import opened Utxos
  import opened BlockDiffs

  /** Whether some input of the transaction reveals a vault leaf in its witness. */
  type VaultTest = Transaction -> bool

  predicate CreatedInBlock(txs: seq<Transaction>, o: OutPoint) {
    exists i :: 0 <= i < |txs| && IsOutput(txs[i], 0, o)
  }

  predicate SpendsChainP2mr(tx: Transaction, chain: UtxoMap) {
    |tx.inputs| >= 2 && exists o :: o in tx.inputs && o in chain
  }

  /** The transactions whose inputs are fetched. */
  predicate Selected(tx: Transaction, chain: UtxoMap, vault: VaultTest) {
    vault(tx) || SpendsChainP2mr(tx, chain)
  }

  predicate Local(txs: seq<Transaction>, chain: UtxoMap, o: OutPoint) {
    o in chain || CreatedInBlock(txs, o)
  }

  predicate Wanted(txs: seq<Transaction>, chain: UtxoMap, vault: VaultTest, o: OutPoint) {
    && !Local(txs, chain, o)
    && exists i :: 1 <= i < |txs| && o in txs[i].inputs && Selected(txs[i], chain, vault)
  }

  method SameBlockOutpoints(txs: seq<Transaction>) returns (same: OutPoints)
    ensures forall o :: o in same <==> CreatedInBlock(txs, o)
  {
    same := {};
    for i := 0 to |txs|
      invariant forall o :: o in same <==> exists j :: 0 <= j < i && IsOutput(txs[j], 0, o)
    {
      var tx := txs[i];
      ghost var before := same;
      for vout := 0 to |tx.outputs|
        invariant forall o :: o in same <==> o in before || (o.txid == tx.txid && o.vout < vout)
      {
        same := same + {OutPoint(tx.txid, vout)};
      }
      forall o ensures o in same <==> exists j :: 0 <= j < i + 1 && IsOutput(txs[j], 0, o) {
        if o in same && o !in before {
          assert IsOutput(txs[i], 0, o);
        }
      }
    }
  }

  method HasChainInput(tx: Transaction, chain: UtxoMap) returns (found: bool)
    ensures found <==> exists o :: o in tx.inputs && o in chain
  {
    found := false;
    for i := 0 to |tx.inputs|
      invariant found <==> exists o :: o in tx.inputs[..i] && o in chain
    {
      ghost var before := tx.inputs[..i];
      if tx.inputs[i] in chain {
        found := true;
      }
      assert tx.inputs[..i + 1] == before + [tx.inputs[i]];
      assert forall o :: o in tx.inputs[..i + 1] <==> o in before || o == tx.inputs[i];
    }
    assert tx.inputs[..|tx.inputs|] == tx.inputs;
  }

  /** The prevouts asked for: inputs of selected transactions that cannot be resolved locally. */
  method PrefetchExternalPrevouts(txs: seq<Transaction>, chain: UtxoMap, vault: VaultTest)
    returns (wanted: OutPoints)
    ensures forall o :: o in wanted <==> Wanted(txs, chain, vault, o)
  {
    var same := SameBlockOutpoints(txs);
    wanted := {};
    var i := 1;
    while i < |txs|
      invariant 1 <= i
      invariant forall o :: o in wanted <==>
                  !Local(txs, chain, o)
                  && exists j :: 1 <= j < i && j < |txs| && o in txs[j].inputs && Selected(txs[j], chain, vault)
    {
      var tx := txs[i];
      ghost var before := wanted;
      var chainInput := HasChainInput(tx, chain);
      if vault(tx) || (|tx.inputs| >= 2 && chainInput) {
        for k := 0 to |tx.inputs|
          invariant forall o :: o in wanted <==> o in before || (o in tx.inputs[..k] && !Local(txs, chain, o))
        {
          var outpoint := tx.inputs[k];
          assert forall o :: o in tx.inputs[..k + 1] <==> o in tx.inputs[..k] || o == outpoint;
          if outpoint in chain || outpoint in same {
            continue;
          }
          wanted := wanted + {outpoint};
        }
        assert tx.inputs[..|tx.inputs|] == tx.inputs;
      }
      forall o ensures o in wanted <==>
                  !Local(txs, chain, o)
                  && exists j :: 1 <= j < i + 1 && j < |txs| && o in txs[j].inputs && Selected(txs[j], chain, vault)
      {
        if o in wanted && o !in before {
          assert o in txs[i].inputs && Selected(txs[i], chain, vault);
        }
      }
      i := i + 1;
    }
  }

  /**
   * An outpoint is asked for exactly when it is in neither the index nor an output of the block, and a
   * transaction behind the first spends it together with an indexed one or reveals a vault leaf.
   */
  lemma WantedExactlyWhen(txs: seq<Transaction>, chain: UtxoMap, vault: VaultTest, o: OutPoint)
    ensures Wanted(txs, chain, vault, o)
       <==> && o !in chain
            && (forall i :: 0 <= i < |txs| ==> o !in Outputs(txs[i]))
            && exists i :: 0 < i < |txs| && o in txs[i].inputs
                 && (vault(txs[i]) || exists k :: 0 <= k < |txs[i].inputs| && txs[i].inputs[k] in chain)
  {
    if o !in chain {
      forall i | 0 < i < |txs| && o in txs[i].inputs
        ensures SpendsChainP2mr(txs[i], chain)
           <==> exists k :: 0 <= k < |txs[i].inputs| && txs[i].inputs[k] in chain
      {
        AnotherInput(txs[i].inputs, chain, o);
      }
    }
  }

  /** An input in the index beside one that is not makes two. */
  lemma AnotherInput(inputs: seq<OutPoint>, chain: UtxoMap, o: OutPoint)
    requires o in inputs && o !in chain
    ensures (exists k :: 0 <= k < |inputs| && inputs[k] in chain)
       <==> |inputs| >= 2 && exists p :: p in inputs && p in chain
  {
    if k :| 0 <= k < |inputs| && inputs[k] in chain {
      var j :| 0 <= j < |inputs| && inputs[j] == o;
      assert inputs[k] in inputs && k != j;
    }
  }

  // ---------------------------------------------------------------- what the fetched prevouts cover

  /** Every prevout of the transaction is local or asked for. */
  predicate Resolvable(txs: seq<Transaction>, chain: UtxoMap, vault: VaultTest, tx: Transaction) {
    forall o :: o in tx.inputs ==> Local(txs, chain, o) || Wanted(txs, chain, vault, o)
  }

  /** No outpoint is spent by two transactions of the block. */
  ghost predicate SpentOnce(txs: seq<Transaction>) {
    forall i, j, o :: 0 <= i < |txs| && 0 <= j < |txs| && o in txs[i].inputs && o in txs[j].inputs ==> i == j
  }

  /**
   * Exactly which transactions get all their prevouts. A transaction with two or more inputs whose
   * only P2MR input was created in the same block is not selected, so a prior-block co-input of it
   * stays unresolved.
   */
  lemma ResolvableExactlyWhen(txs: seq<Transaction>, chain: UtxoMap, vault: VaultTest, i: nat)
    requires 1 <= i < |txs| && SpentOnce(txs)
    ensures Resolvable(txs, chain, vault, txs[i])
       <==> (Selected(txs[i], chain, vault) || forall o :: o in txs[i].inputs ==> Local(txs, chain, o))
  {
  }
}

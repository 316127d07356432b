/** Transactions, the P2MR output set and its plain replay. */
module Utxos {
  import opened Common

  datatype OutPoint = OutPoint(txid: nat, vout: nat)

  datatype TxOut = TxOut(value: nat, scriptPubkey: Bytes)

  type OutPoints = set<OutPoint>
  type UtxoMap = map<OutPoint, TxOut>

  /** What a transaction has besides inputs and outputs; sequence numbers and witnesses go by input. */
  datatype TxRest = TxRest(version: nat, lockTime: nat, sequences: seq<nat>, witnesses: seq<seq<Bytes>>)

  const NO_REST := TxRest(2, 0, [], [])

  /**
   * The transaction id is carried with the transaction: two of them may in principle collide, and one id
   * may come with different witnesses.
   */
  datatype Transaction = Transaction(txid: nat, inputs: seq<OutPoint>, outputs: seq<TxOut>, rest: TxRest)

  /** Witness version 2 with a 32-byte program. */
  predicate IsP2mrScript(script: Bytes) {
    |script| == 34 && script[0] == 0x52 && script[1] == 0x20
  }

  predicate IsP2mr(out: TxOut) {
    IsP2mrScript(out.scriptPubkey)
  }

  function SampleP2mr(): (out: TxOut)
    ensures IsP2mr(out)
  {
    TxOut(50, [0x52, 0x20] + seq(32, i => 7))
  }

  /** The P2MR entries of a set of outputs. */
  function P2mrPart(m: UtxoMap): UtxoMap {
    map o | o in m && IsP2mr(m[o]) :: m[o]
  }

  /** All outputs of a transaction, by outpoint. */
  function Outputs(tx: Transaction): UtxoMap {
    map i: nat {:trigger tx.outputs[i]} | i < |tx.outputs| :: OutPoint(tx.txid, i) := tx.outputs[i]
  }

  function Inputs(tx: Transaction): OutPoints {
    set o | o in tx.inputs
  }

  // ---------------------------------------------------------------- plain replay

  /** A transaction spends its inputs, then creates its P2MR outputs. */
  function ReplayTx(utxos: UtxoMap, tx: Transaction): UtxoMap {
    (utxos - Inputs(tx)) + P2mrPart(Outputs(tx))
  }

  function ReplayTxs(utxos: UtxoMap, txs: seq<Transaction>): UtxoMap
    decreases |txs|
  {
    if txs == [] then utxos else ReplayTxs(ReplayTx(utxos, txs[0]), txs[1..])
  }

  // ---------------------------------------------------------------- applying and undoing a net diff

  /** P2MR outputs spent and created by one block. */
  datatype Diff = Diff(spent: UtxoMap, created: UtxoMap)

  function Applied(utxos: UtxoMap, d: Diff): UtxoMap {
    (utxos - d.spent.Keys) + d.created
  }

  function Undone(utxos: UtxoMap, d: Diff): UtxoMap {
    (utxos - d.created.Keys) + d.spent
  }

  /** The diff takes out only what is there, with its value, and adds only what is not. */
  ghost predicate NetDiff(chain: UtxoMap, d: Diff) {
    && (forall o :: o in d.spent ==> o in chain && chain[o] == d.spent[o])
    && d.created.Keys !! chain.Keys
  }

  /** Undoing an applied diff restores the set exactly when nothing created hides a surviving output. */
  lemma UndoAfterApply(chain: UtxoMap, d: Diff)
    requires forall o :: o in d.spent ==> o in chain && chain[o] == d.spent[o]
    ensures Undone(Applied(chain, d), d) == chain <==> d.created.Keys * chain.Keys <= d.spent.Keys
  {
  }

  lemma DeleteOneMore(m: UtxoMap, keys: OutPoints, todo: OutPoints, o: OutPoint)
    requires o in todo && todo <= keys
    ensures m - (keys - todo) - {o} == m - (keys - (todo - {o}))
  {
  }

  lemma PutOneMore(m: UtxoMap, more: UtxoMap, todo: OutPoints, o: OutPoint)
    requires o in todo && todo <= more.Keys
    ensures (m + (more - todo))[o := more[o]] == m + (more - (todo - {o}))
  {
  }

  /** The table of P2MR outputs in the database. */
  class P2mrUtxoDbs {
    var utxos: UtxoMap

    constructor ()
      ensures utxos == map[]
    {
      utxos := map[];
    }

    /** Delete every key, in any order; with `strict`, a key that is absent stops the work. */
    method DeleteAll(keys: OutPoints, strict: bool) returns (ok: bool)
      modifies this
      ensures ok <==> strict ==> keys <= old(utxos).Keys
      ensures ok ==> utxos == old(utxos) - keys
      ensures !ok ==> exists removed :: removed < keys && utxos == old(utxos) - removed
    {
      var todo := keys;
      assert utxos == old(utxos) - (keys - todo);
      while todo != {}
        invariant todo <= keys
        invariant strict ==> keys - todo <= old(utxos).Keys
        invariant utxos == old(utxos) - (keys - todo)
        decreases |todo|
      {
        var o :| o in todo;
        if strict && o !in utxos {
          assert keys - todo < keys;
          return false;
        }
        DeleteOneMore(old(utxos), keys, todo, o);
        utxos := utxos - {o};
        todo := todo - {o};
      }
      assert keys - todo == keys;
      return true;
    }

    method PutAll(more: UtxoMap)
      modifies this
      ensures utxos == old(utxos) + more
    {
      var todo := more.Keys;
      assert utxos == old(utxos) + (more - todo);
      while todo != {}
        invariant todo <= more.Keys
        invariant utxos == old(utxos) + (more - todo)
        decreases |todo|
      {
        var o :| o in todo;
        PutOneMore(old(utxos), more, todo, o);
        utxos := utxos[o := more[o]];
        todo := todo - {o};
      }
      assert more - todo == more;
    }

    /**
     * Iteration order over the hash maps is arbitrary: any order gives the same table. A spent
     * output that is not in the table stops the work with an error.
     */
    method ApplyDiff(d: Diff) returns (ok: bool)
      modifies this
      ensures ok <==> d.spent.Keys <= old(utxos).Keys
      ensures ok ==> utxos == Applied(old(utxos), d)
      ensures !ok ==> exists removed :: removed < d.spent.Keys && utxos == old(utxos) - removed
    {
      ok := DeleteAll(d.spent.Keys, true);
      if ok {
        PutAll(d.created);
      }
    }

    method UndoDiff(d: Diff)
      modifies this
      ensures utxos == Undone(old(utxos), d)
    {
      var _ := DeleteAll(d.created.Keys, false);
      PutAll(d.spent);
    }
  }
}

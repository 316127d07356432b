/** Validation of P2MR script-path spends. */
module Spends {
  import opened Common
  import opened Limits
  import opened Utxos
  import opened Schemes
  import LeafScripts
  import Merkle

  // ---------------------------------------------------------------- P2MR outputs

  function P2mrScriptPubkey(root: Merkle.Node): Bytes {
    [0x52, 0x20] + root
  }

  function ValidateP2mrOutput(script: Bytes): Option<Merkle.Node> {
    if IsP2mrScript(script) then Some(script[2..34]) else None
  }

  /** The output scripts and the 32-byte roots are in bijection. */
  lemma OutputRoundTrip(script: Bytes, root: Merkle.Node)
    ensures ValidateP2mrOutput(script) == Some(root) <==> script == P2mrScriptPubkey(root)
  {
    assert P2mrScriptPubkey(root)[2..34] == root;
    if IsP2mrScript(script) {
      assert script == [script[0], script[1]] + script[2..34];
    }
  }

  // ---------------------------------------------------------------- transactions and what is signed

  datatype TxIn = TxIn(previousOutput: OutPoint, sequence: nat)

  /** A transaction without its witnesses; these are what the signature digest never covers. */
  datatype Unsigned = Unsigned(version: nat, lockTime: nat, inputs: seq<TxIn>, outputs: seq<TxOut>)

  datatype SpendTx = SpendTx(body: Unsigned, witnesses: seq<seq<Bytes>>)

  ghost predicate WellFormed(tx: SpendTx) {
    |tx.witnesses| == |tx.body.inputs|
  }

  datatype Prevouts = AllPrevouts(outs: seq<TxOut>) | OnePrevout(index: nat, out: TxOut)

  /**
   * The cryptography, arbitrary functions: the digest of a transaction, an input, the outputs it commits
   * to, a leaf and a sighash type (None where it is not defined); signature verification; leaf hashes.
   */
  datatype Crypto = Crypto(
    digest: (Unsigned, nat, seq<TxOut>, Bytes, SighashType) -> Option<Bytes>,
    verify: (Scheme, Bytes, Bytes, Bytes) -> bool,
    leafHash: Bytes -> Bytes,
    merkle: Merkle.Hashes)

  /** The spent outputs a digest commits to: the input's own, or all of them. */
  function Committed(prevouts: Prevouts, inputs: nat, index: nat, t: SighashType): Option<seq<TxOut>> {
    match prevouts
    case AllPrevouts(outs) =>
      if |outs| != inputs || index >= inputs then None
      else if AnyoneCanPay(t) then Some([outs[index]])
      else Some(outs)
    case OnePrevout(i, out) => if AnyoneCanPay(t) && i == index then Some([out]) else None
  }

  function SignatureHash(c: Crypto, body: Unsigned, index: nat, prevouts: Prevouts, leafHash: Bytes, t: SighashType)
    : Option<Bytes>
  {
    match Committed(prevouts, |body.inputs|, index, t)
    case None => None
    case Some(outs) => c.digest(body, index, outs, leafHash, t)
  }

  // ---------------------------------------------------------------- one signature check

  /** What the checks of one input have in common. */
  datatype Context = Context(body: Unsigned, index: nat, prevouts: Prevouts, leafHash: Bytes)

  function VerifyTapscriptSignature(c: Crypto, ctx: Context, scheme: Scheme, element: Bytes, pubkey: Bytes)
    : Result<(), SchemeError>
  {
    match SignatureHash(c, ctx.body, ctx.index, ctx.prevouts, ctx.leafHash, ParseSighashType(element))
    case None => Err(SighashFailed)
    case Some(message) =>
      if c.verify(scheme, pubkey, message, StripSighashByte(element)) then Ok(()) else Err(InvalidSignature(scheme))
  }

  function VerifyOverloadedChecksig(c: Crypto, ctx: Context, pubkey: Bytes, element: Bytes): Result<(), SchemeError> {
    var scheme :- ClassifySignature(element);
    var _ :- ValidatePubkeyForScheme(pubkey, scheme);
    VerifyTapscriptSignature(c, ctx, scheme, element, pubkey)
  }

  /** Site by site with its element; the first failure is the result. */
  function VerifySites(c: Crypto, ctx: Context, sites: seq<LeafScripts.Site>, elements: seq<Bytes>)
    : Result<(), SchemeError>
    requires |sites| == |elements|
    decreases |sites|
  {
    if sites == [] then Ok(())
    else
      var _ :- VerifyOverloadedChecksig(c, ctx, sites[0].pubkey, elements[0]);
      VerifySites(c, ctx, sites[1..], elements[1..])
  }

  // ---------------------------------------------------------------- one input

  datatype SpendError =
    | EmptyWitness
    | WitnessStackTooLarge
    | IncompleteWitness
    | SignatureWeightExceeded(sigWu: nat)
    | LeafScriptTooLarge
    | LeafScript(leafError: LeafScripts.LeafError)
    | MissingPrevout(inputIndex: nat)
    | UnverifiableSpend(index: nat)
    | NotP2mr
    | MerkleFailed(merkleError: Merkle.MerkleError)
    | SchemeFailed(schemeError: SchemeError)

  function TotalSize(elements: seq<Bytes>): nat {
    if elements == [] then 0 else |elements[0]| + TotalSize(elements[1..])
  }

  /** The witness is signatures, leaf script, control block. */
  function ValidateWitness(c: Crypto, body: Unsigned, index: nat, stack: seq<Bytes>, prevout: TxOut,
                           prevouts: Prevouts): Result<(), SpendError>
  {
    var n := |stack|;
    if n == 0 then Err(EmptyWitness)
    else if n > MAX_P2MR_WITNESS_STACK then Err(WitnessStackTooLarge)
    else
      match ValidateP2mrOutput(prevout.scriptPubkey)
      case None => Err(NotP2mr)
      case Some(root) =>
        if n < 2 then Err(IncompleteWitness)
        else
          var control, leaf, signatures := stack[n - 1], stack[n - 2], stack[..n - 2];
          if |leaf| > MAX_P2MR_LEAF_SCRIPT_SIZE then Err(LeafScriptTooLarge)
          else if n == 2 then Err(EmptyWitness)
          else if TotalSize(signatures) > MAX_PQC_SIG_WU_PER_INPUT then
            Err(SignatureWeightExceeded(TotalSize(signatures)))
          else ValidateLeaf(c, Context(body, index, prevouts, c.leafHash(leaf)), leaf, root, control, signatures)
  }

  function ValidateLeaf(c: Crypto, ctx: Context, leaf: Bytes, root: Merkle.Node, control: Bytes,
                        signatures: seq<Bytes>): Result<(), SpendError>
  {
    match LeafScripts.ValidateWitnessSigCount(leaf, |signatures|)
    case Err(e) => Err(LeafScript(e))
    case Ok(sites) =>
      match Merkle.VerifyMerklePath(c.merkle, leaf, root, control)
      case Err(e) => Err(MerkleFailed(e))
      case Ok(_) =>
        match VerifySites(c, ctx, sites, signatures)
        case Err(e) => Err(SchemeFailed(e))
        case Ok(_) => Ok(())
  }

  function ValidateInputSpend(c: Crypto, tx: SpendTx, index: nat, prevout: TxOut, prevouts: Prevouts)
    : Result<(), SpendError>
  {
    if index >= |tx.witnesses| then Err(MissingPrevout(index))
    else ValidateWitness(c, tx.body, index, tx.witnesses[index], prevout, prevouts)
  }

  // ---------------------------------------------------------------- a whole transaction

  /** The outputs spent by all inputs, if all are known. */
  function AllSpent(inputs: seq<TxIn>, available: UtxoMap): Option<seq<TxOut>> {
    if inputs == [] then Some([])
    else if inputs[0].previousOutput !in available then None
    else
      match AllSpent(inputs[1..], available)
      case None => None
      case Some(rest) => Some([available[inputs[0].previousOutput]] + rest)
  }

  lemma {:induction false} AllSpentInOrder(inputs: seq<TxIn>, available: UtxoMap)
    ensures AllSpent(inputs, available).Some? <==>
              forall i :: 0 <= i < |inputs| ==> inputs[i].previousOutput in available
    ensures AllSpent(inputs, available).Some? ==>
              && |AllSpent(inputs, available).value| == |inputs|
              && forall i :: 0 <= i < |inputs| ==>
                   AllSpent(inputs, available).value[i] == available[inputs[i].previousOutput]
    decreases |inputs|
  {
    if inputs != [] {
      AllSpentInOrder(inputs[1..], available);
      assert forall i :: 0 < i < |inputs| ==> inputs[i] == inputs[1..][i - 1];
      if forall i :: 0 <= i < |inputs| ==> inputs[i].previousOutput in available {
        assert inputs[0].previousOutput in available;
        forall i | 0 <= i < |inputs[1..]| ensures inputs[1..][i].previousOutput in available {
          assert inputs[1..][i] == inputs[i + 1];
        }
      }
    }
  }

  /** For a type that commits to all inputs every spent output must be known. */
  function PrevoutsForInput(body: Unsigned, index: nat, available: UtxoMap, t: SighashType): Option<Prevouts>
    requires index < |body.inputs| && body.inputs[index].previousOutput in available
  {
    var prevout := available[body.inputs[index].previousOutput];
    if AnyoneCanPay(t) then Some(OnePrevout(index, prevout))
    else if |body.inputs| == 1 then Some(AllPrevouts([prevout]))
    else
      match AllSpent(body.inputs, available)
      case None => None
      case Some(outs) => Some(AllPrevouts(outs))
  }

  /** The outputs known to exist: to this transaction, on the chain, and those spent earlier in the block. */
  datatype Knowledge = Knowledge(available: UtxoMap, chain: set<OutPoint>, spentInBlock: set<OutPoint>)

  function ValidateInput(c: Crypto, tx: SpendTx, index: nat, k: Knowledge): Result<(), SpendError>
    requires WellFormed(tx) && index < |tx.body.inputs|
  {
    var outpoint, stack := tx.body.inputs[index].previousOutput, tx.witnesses[index];
    if outpoint !in k.available then
      if stack != [] && (outpoint in k.chain || outpoint in k.spentInBlock) then Err(MissingPrevout(index)) else Ok(())
    else
      var prevout := k.available[outpoint];
      if !IsP2mrScript(prevout.scriptPubkey) then Ok(())
      else if stack == [] then Err(EmptyWitness)
      else
        match PrevoutsForInput(tx.body, index, k.available, ParseSighashType(stack[0]))
        case None => Err(UnverifiableSpend(index))
        case Some(prevouts) => ValidateInputSpend(c, tx, index, prevout, prevouts)
  }

  function ValidateInputsFrom(c: Crypto, tx: SpendTx, index: nat, k: Knowledge): Result<(), SpendError>
    requires WellFormed(tx) && index <= |tx.body.inputs|
    decreases |tx.body.inputs| - index
  {
    if index == |tx.body.inputs| then Ok(())
    else
      var _ :- ValidateInput(c, tx, index, k);
      ValidateInputsFrom(c, tx, index + 1, k)
  }

  /** All P2MR rules for a transaction; inputs that spend nothing known are not looked at. */
  function ValidateTransactionSpends(c: Crypto, tx: SpendTx, k: Knowledge): Result<(), SpendError>
    requires WellFormed(tx)
  {
    ValidateInputsFrom(c, tx, 0, k)
  }

  // ---------------------------------------------------------------- what acceptance means

  /** The element is a signature by the key over the digest that its own sighash type selects. */
  ghost predicate SignedBy(c: Crypto, ctx: Context, pubkey: Bytes, element: Bytes) {
    exists scheme, message ::
      && ClassifySignature(element) == Ok(scheme) && |pubkey| == ExpectedPubkeySize(scheme)
      && SignatureHash(c, ctx.body, ctx.index, ctx.prevouts, ctx.leafHash, ParseSighashType(element)) == Some(message)
      && c.verify(scheme, pubkey, message, StripSighashByte(element))
  }

  lemma ChecksigMeansSigned(c: Crypto, ctx: Context, pubkey: Bytes, element: Bytes)
    ensures VerifyOverloadedChecksig(c, ctx, pubkey, element).Ok? <==> SignedBy(c, ctx, pubkey, element)
  {
  }

  lemma {:induction false} SitesMeanSigned(c: Crypto, ctx: Context, sites: seq<LeafScripts.Site>, elements: seq<Bytes>)
    requires |sites| == |elements|
    ensures VerifySites(c, ctx, sites, elements).Ok?
       <==> forall i :: 0 <= i < |sites| ==> SignedBy(c, ctx, sites[i].pubkey, elements[i])
    decreases |sites|
  {
    if sites != [] {
      ChecksigMeansSigned(c, ctx, sites[0].pubkey, elements[0]);
      SitesMeanSigned(c, ctx, sites[1..], elements[1..]);
      assert forall i :: 0 < i < |sites| ==> sites[i] == sites[1..][i - 1] && elements[i] == elements[1..][i - 1];
      if forall i :: 0 <= i < |sites| ==> SignedBy(c, ctx, sites[i].pubkey, elements[i]) {
        assert SignedBy(c, ctx, sites[0].pubkey, elements[0]);
        forall i | 0 <= i < |sites[1..]| ensures SignedBy(c, ctx, sites[1..][i].pubkey, elements[1..][i]) {
          assert SignedBy(c, ctx, sites[i + 1].pubkey, elements[i + 1]);
        }
      }
    }
  }

  /** The leaf opens the output, and every key it checks has signed, each with its own element in order. */
  ghost predicate Authorised(c: Crypto, body: Unsigned, index: nat, stack: seq<Bytes>, script: Bytes,
                             prevouts: Prevouts)
  {
    && 3 <= |stack| <= 100
    && var n := |stack| - 2;
    var leaf, control := stack[n], stack[n + 1];
    var parsed := LeafScripts.Parse(leaf);
    && TotalSize(stack[..n]) <= 12_288
    && ValidateP2mrOutput(script).Some?
    && Merkle.VerifyMerklePath(c.merkle, leaf, ValidateP2mrOutput(script).value, control).Ok?
    && parsed.Ok? && |parsed.value| == n
    && forall i :: 0 <= i < n ==>
         SignedBy(c, Context(body, index, prevouts, c.leafHash(leaf)), parsed.value[i].pubkey, stack[i])
  }

  /** An input is accepted exactly when its spend is authorised. */
  lemma AcceptedExactlyWhenAuthorised(c: Crypto, body: Unsigned, index: nat, stack: seq<Bytes>, prevout: TxOut,
                                      prevouts: Prevouts)
    ensures ValidateWitness(c, body, index, stack, prevout, prevouts).Ok?
       <==> Authorised(c, body, index, stack, prevout.scriptPubkey, prevouts)
  {
    var n := |stack|;
    if n >= 3 {
      var leaf := stack[n - 2];
      var parsed := LeafScripts.Parse(leaf);
      if parsed.Ok? && |parsed.value| == n - 2 {
        SitesMeanSigned(c, Context(body, index, prevouts, c.leafHash(leaf)), parsed.value, stack[..n - 2]);
      }
    }
  }

  /** The limits on a witness, each with its own error. */
  lemma WitnessLimits(c: Crypto, body: Unsigned, index: nat, stack: seq<Bytes>, prevout: TxOut, prevouts: Prevouts)
    requires IsP2mr(prevout)
    ensures var r, n := ValidateWitness(c, body, index, stack, prevout, prevouts), |stack|;
            && (r == Err(EmptyWitness) <==> n == 0 || (n == 2 && |stack[0]| <= 10_000))
            && (r == Err(WitnessStackTooLarge) <==> n > 100)
            && (r == Err(IncompleteWitness) <==> n == 1)
            && (r == Err(LeafScriptTooLarge) <==> 2 <= n <= 100 && |stack[n - 2]| > 10_000)
            && (r.Err? && r.error.SignatureWeightExceeded? <==>
                3 <= n <= 100 && |stack[n - 2]| <= 10_000 && TotalSize(stack[..n - 2]) > 12_288)
  {
  }

  /** A known P2MR output needs a witness; a witness for another output is an error, and so is none at all. */
  lemma WitnessIsNeeded(c: Crypto, tx: SpendTx, index: nat, k: Knowledge, stack: seq<Bytes>, prevout: TxOut,
                        prevouts: Prevouts)
    requires WellFormed(tx)
    ensures index < |tx.body.inputs| && tx.body.inputs[index].previousOutput in k.available
            && IsP2mr(k.available[tx.body.inputs[index].previousOutput]) && tx.witnesses[index] == [] ==>
              ValidateInput(c, tx, index, k) == Err(EmptyWitness)
    ensures index >= |tx.body.inputs| ==>
              ValidateInputSpend(c, tx, index, prevout, prevouts) == Err(MissingPrevout(index))
    ensures ValidateWitness(c, tx.body, index, stack, prevout, prevouts) == Err(NotP2mr)
       <==> 1 <= |stack| <= 100 && !IsP2mr(prevout)
  {
  }

  lemma {:induction false} EveryInputIsValidated(c: Crypto, tx: SpendTx, from: nat, index: nat, k: Knowledge)
    requires WellFormed(tx) && from <= index < |tx.body.inputs|
    requires ValidateInputsFrom(c, tx, from, k).Ok?
    ensures ValidateInput(c, tx, index, k).Ok?
    decreases |tx.body.inputs| - from
  {
    if from < index {
      EveryInputIsValidated(c, tx, from + 1, index, k);
    }
  }

  lemma {:induction false} AllInputsAreValid(c: Crypto, tx: SpendTx, from: nat, k: Knowledge)
    requires WellFormed(tx) && from <= |tx.body.inputs|
    requires forall index :: from <= index < |tx.body.inputs| ==> ValidateInput(c, tx, index, k).Ok?
    ensures ValidateInputsFrom(c, tx, from, k).Ok?
    decreases |tx.body.inputs| - from
  {
    if from < |tx.body.inputs| {
      AllInputsAreValid(c, tx, from + 1, k);
    }
  }

  /** A transaction is accepted exactly when each of its inputs is. */
  lemma AcceptedInputByInput(c: Crypto, tx: SpendTx, k: Knowledge)
    requires WellFormed(tx)
    ensures ValidateTransactionSpends(c, tx, k).Ok?
       <==> forall index :: 0 <= index < |tx.body.inputs| ==> ValidateInput(c, tx, index, k).Ok?
  {
    if ValidateTransactionSpends(c, tx, k).Ok? {
      forall index | 0 <= index < |tx.body.inputs| ensures ValidateInput(c, tx, index, k).Ok? {
        EveryInputIsValidated(c, tx, 0, index, k);
      }
    } else if forall index :: 0 <= index < |tx.body.inputs| ==> ValidateInput(c, tx, index, k).Ok? {
      AllInputsAreValid(c, tx, 0, k);
    }
  }

  /** The digest's own idea of the spent outputs is the true one: that of this input, or of all inputs. */
  lemma CommittedOutputsAreTrue(body: Unsigned, index: nat, available: UtxoMap, first: SighashType, t: SighashType)
    requires index < |body.inputs| && body.inputs[index].previousOutput in available
    requires PrevoutsForInput(body, index, available, first).Some?
    ensures var committed := Committed(PrevoutsForInput(body, index, available, first).value, |body.inputs|, index, t);
            committed.Some? ==>
              if AnyoneCanPay(t) then committed.value == [available[body.inputs[index].previousOutput]]
              else
                && |committed.value| == |body.inputs|
                && forall i :: 0 <= i < |body.inputs| ==>
                     body.inputs[i].previousOutput in available
                     && committed.value[i] == available[body.inputs[i].previousOutput]
  {
    AllSpentInOrder(body.inputs, available);
  }

  /** An output that was known but is gone cannot be spent by an input that carries a witness. */
  lemma GoneOutputIsRefused(c: Crypto, tx: SpendTx, index: nat, k: Knowledge)
    requires WellFormed(tx) && index < |tx.body.inputs|
    requires tx.witnesses[index] != [] && tx.body.inputs[index].previousOutput !in k.available
    requires tx.body.inputs[index].previousOutput in k.chain + k.spentInBlock
    ensures ValidateTransactionSpends(c, tx, k).Err?
  {
    if ValidateTransactionSpends(c, tx, k).Ok? {
      EveryInputIsValidated(c, tx, 0, index, k);
    }
  }

  // ---------------------------------------------------------------- against the outputs really spent

  /** The spent outputs a sighash type is meant to commit to, whoever asks: the input's own, or all. */
  function TrueOutputs(body: Unsigned, index: nat, available: UtxoMap, t: SighashType): Option<seq<TxOut>>
    requires index < |body.inputs| && body.inputs[index].previousOutput in available
  {
    if AnyoneCanPay(t) then Some([available[body.inputs[index].previousOutput]]) else AllSpent(body.inputs, available)
  }

  /** A signature by the key, under the element's own type, over a digest that commits to the true outputs. */
  ghost predicate TrulySigned(c: Crypto, body: Unsigned, index: nat, available: UtxoMap, leafHash: Bytes,
                              pubkey: Bytes, element: Bytes)
    requires index < |body.inputs| && body.inputs[index].previousOutput in available
  {
    var t := ParseSighashType(element);
    var outs := TrueOutputs(body, index, available, t);
    && outs.Some?
    && var message := c.digest(body, index, outs.value, leafHash, t);
    && message.Some?
    && exists scheme ::
         && InClass(|StripSighashByte(element)|, scheme) && |pubkey| == ExpectedPubkeySize(scheme)
         && c.verify(scheme, pubkey, message.value, StripSighashByte(element))
  }

  /** The rule a P2MR spend is meant to obey; it knows nothing of how the digests are computed. */
  ghost predicate TrulyAuthorised(c: Crypto, body: Unsigned, index: nat, stack: seq<Bytes>, available: UtxoMap)
    requires index < |body.inputs| && body.inputs[index].previousOutput in available
  {
    && 3 <= |stack| <= 100
    && var n := |stack| - 2;
    var leaf, control := stack[n], stack[n + 1];
    var parsed := LeafScripts.Parse(leaf);
    var root := ValidateP2mrOutput(available[body.inputs[index].previousOutput].scriptPubkey);
    && TotalSize(stack[..n]) <= 12_288
    && root.Some? && Merkle.VerifyMerklePath(c.merkle, leaf, root.value, control).Ok?
    && parsed.Ok? && |parsed.value| == n
    && forall i :: 0 <= i < n ==>
         TrulySigned(c, body, index, available, c.leafHash(leaf), parsed.value[i].pubkey, stack[i])
  }

  /** The signature elements of a witness, before leaf script and control block. */
  function Signatures(stack: seq<Bytes>): seq<Bytes> {
    if |stack| < 2 then [] else stack[..|stack| - 2]
  }

  /** If the first element commits to its input alone, all do. */
  ghost predicate FirstTypeFits(stack: seq<Bytes>) {
    forall i :: 0 <= i < |Signatures(stack)| && AnyoneCanPay(ParseSighashType(stack[0])) ==>
                  AnyoneCanPay(ParseSighashType(Signatures(stack)[i]))
  }

  /** Offered what the first type asks for, the digest of another type commits to the true outputs or fails. */
  lemma CommittedIsTrue(body: Unsigned, index: nat, available: UtxoMap, first: SighashType, t: SighashType)
    requires index < |body.inputs| && body.inputs[index].previousOutput in available
    requires PrevoutsForInput(body, index, available, first).Some?
    ensures Committed(PrevoutsForInput(body, index, available, first).value, |body.inputs|, index, t)
         == if AnyoneCanPay(first) && !AnyoneCanPay(t) then None else TrueOutputs(body, index, available, t)
  {
    AllSpentInOrder(body.inputs, available);
    if |body.inputs| == 1 {
      assert AllSpent(body.inputs, available).value == [available[body.inputs[0].previousOutput]];
    }
  }

  lemma SignedIsTrulySigned(c: Crypto, body: Unsigned, index: nat, available: UtxoMap, first: SighashType,
                            prevouts: Prevouts, leafHash: Bytes, pubkey: Bytes, element: Bytes)
    requires index < |body.inputs| && body.inputs[index].previousOutput in available
    requires PrevoutsForInput(body, index, available, first) == Some(prevouts)
    ensures SignedBy(c, Context(body, index, prevouts, leafHash), pubkey, element)
       <==> TrulySigned(c, body, index, available, leafHash, pubkey, element)
            && (AnyoneCanPay(first) ==> AnyoneCanPay(ParseSighashType(element)))
  {
    CommittedIsTrue(body, index, available, first, ParseSighashType(element));
    forall scheme ensures ClassifySignature(element) == Ok(scheme) <==> InClass(|StripSighashByte(element)|, scheme) {
      ClassifiedExactlyWhen(element, scheme);
    }
    if TrulySigned(c, body, index, available, leafHash, pubkey, element)
       && (AnyoneCanPay(first) ==> AnyoneCanPay(ParseSighashType(element))) {
      var message := SignatureHash(c, body, index, prevouts, leafHash, ParseSighashType(element)).value;
      var scheme :| InClass(|StripSighashByte(element)|, scheme) && |pubkey| == ExpectedPubkeySize(scheme)
                    && c.verify(scheme, pubkey, message, StripSighashByte(element));
      assert ClassifySignature(element) == Ok(scheme);
    }
  }

  /** What the code asks for is there whenever the spend is truly authorised. */
  lemma PrevoutsAreOffered(c: Crypto, body: Unsigned, index: nat, stack: seq<Bytes>, available: UtxoMap)
    requires index < |body.inputs| && body.inputs[index].previousOutput in available
    requires TrulyAuthorised(c, body, index, stack, available)
    ensures PrevoutsForInput(body, index, available, ParseSighashType(stack[0])).Some?
  {
    var leaf := stack[|stack| - 2];
    assert TrulySigned(c, body, index, available, c.leafHash(leaf), LeafScripts.Parse(leaf).value[0].pubkey, stack[0]);
  }

  lemma AuthorisedIsTrue(c: Crypto, body: Unsigned, index: nat, stack: seq<Bytes>, available: UtxoMap)
    requires index < |body.inputs| && body.inputs[index].previousOutput in available && stack != []
    requires PrevoutsForInput(body, index, available, ParseSighashType(stack[0])).Some?
    ensures Authorised(c, body, index, stack, available[body.inputs[index].previousOutput].scriptPubkey,
                       PrevoutsForInput(body, index, available, ParseSighashType(stack[0])).value)
       <==> TrulyAuthorised(c, body, index, stack, available) && FirstTypeFits(stack)
  {
    if |stack| >= 3 && LeafScripts.Parse(stack[|stack| - 2]).Ok? {
      var n, leaf := |stack| - 2, stack[|stack| - 2];
      var sites := LeafScripts.Parse(leaf).value;
      if |sites| == n {
        var first := ParseSighashType(stack[0]);
        var prevouts := PrevoutsForInput(body, index, available, first).value;
        var ctx := Context(body, index, prevouts, c.leafHash(leaf));
        forall i | 0 <= i < n
          ensures SignedBy(c, ctx, sites[i].pubkey, stack[i])
             <==> TrulySigned(c, body, index, available, c.leafHash(leaf), sites[i].pubkey, stack[i])
                  && (AnyoneCanPay(first) ==> AnyoneCanPay(ParseSighashType(stack[i])))
        {
          SignedIsTrulySigned(c, body, index, available, first, prevouts, c.leafHash(leaf), sites[i].pubkey, stack[i]);
        }
        assert forall i :: 0 <= i < n ==> Signatures(stack)[i] == stack[i];
      }
    }
  }

  /**
   * Exactly when an input that spends a known P2MR output is accepted: its keys have signed over the
   * outputs really spent, and no element commits to all inputs behind a first one that commits to its
   * own alone. The last part is not in the rule; the code asks only the first element what to offer.
   */
  lemma AcceptedExactlyWhen(c: Crypto, tx: SpendTx, index: nat, k: Knowledge)
    requires WellFormed(tx) && index < |tx.body.inputs|
    requires tx.body.inputs[index].previousOutput in k.available
    requires IsP2mr(k.available[tx.body.inputs[index].previousOutput])
    ensures ValidateInput(c, tx, index, k).Ok?
       <==> TrulyAuthorised(c, tx.body, index, tx.witnesses[index], k.available) && FirstTypeFits(tx.witnesses[index])
  {
    var body, stack, available := tx.body, tx.witnesses[index], k.available;
    if TrulyAuthorised(c, body, index, stack, available) {
      PrevoutsAreOffered(c, body, index, stack, available);
    }
    if stack != [] {
      var prevouts := PrevoutsForInput(body, index, available, ParseSighashType(stack[0]));
      if prevouts.Some? {
        AuthorisedIsTrue(c, body, index, stack, available);
        var prevout := available[body.inputs[index].previousOutput];
        AcceptedExactlyWhenAuthorised(c, body, index, stack, prevout, prevouts.value);
      }
    }
  }

  /**
   * In an accepted transaction every input that spends a known P2MR output is authorised by the keys of
   * a leaf of that output, over the outputs really spent. No such input is skipped, whatever the others.
   */
  lemma NoSpendGoesUnchecked(c: Crypto, tx: SpendTx, index: nat, k: Knowledge)
    requires WellFormed(tx) && index < |tx.body.inputs|
    requires ValidateTransactionSpends(c, tx, k).Ok?
    requires tx.body.inputs[index].previousOutput in k.available
    requires IsP2mr(k.available[tx.body.inputs[index].previousOutput])
    ensures TrulyAuthorised(c, tx.body, index, tx.witnesses[index], k.available)
    ensures FirstTypeFits(tx.witnesses[index])
  {
    EveryInputIsValidated(c, tx, 0, index, k);
    AcceptedExactlyWhen(c, tx, index, k);
  }

  /** Exactly when a P2MR spend cannot be checked for want of another input's prevout. */
  lemma UnverifiableExactlyWhen(c: Crypto, tx: SpendTx, index: nat, k: Knowledge)
    requires WellFormed(tx) && index < |tx.body.inputs| && tx.witnesses[index] != []
    requires tx.body.inputs[index].previousOutput in k.available
    requires IsP2mr(k.available[tx.body.inputs[index].previousOutput])
    ensures ValidateInput(c, tx, index, k) == Err(UnverifiableSpend(index))
       <==> && !AnyoneCanPay(ParseSighashType(tx.witnesses[index][0]))
            && |tx.body.inputs| != 1
            && exists i :: 0 <= i < |tx.body.inputs| && tx.body.inputs[i].previousOutput !in k.available
  {
    AllSpentInOrder(tx.body.inputs, k.available);
  }

  // ---------------------------------------------------------------- a spelled-out default byte

  lemma {:induction false} TotalSizeGrows(elements: seq<Bytes>, j: nat, element: Bytes)
    requires j < |elements| && |element| == |elements[j]| + 1
    ensures TotalSize(elements[j := element]) == TotalSize(elements) + 1
    decreases j
  {
    if j == 0 {
      assert elements[0 := element][1..] == elements[1..];
    } else {
      assert elements[j := element][1..] == elements[1..][j - 1 := element];
      TotalSizeGrows(elements[1..], j - 1, element);
    }
  }

  /** A default byte after a bare signature of canonical size is read as if it were not there. */
  lemma DefaultByteIsRead(sig: Bytes)
    requires IsCanonicalSize(|sig|)
    ensures ParseSighashType(sig + [SighashByte(SighashDefault)]) == ParseSighashType(sig) == SighashDefault
    ensures StripSighashByte(sig + [SighashByte(SighashDefault)]) == StripSighashByte(sig) == sig
  {
    var element := sig + [SighashByte(SighashDefault)];
    assert element[..|sig|] == sig;
    assert FromConsensus(element[|sig|]) == Some(SighashDefault);
  }

  lemma SpelledOutIsRead(stack: seq<Bytes>, j: nat, stack': seq<Bytes>)
    requires j + 2 < |stack| && IsCanonicalSize(|stack[j]|)
    requires stack' == stack[j := stack[j] + [SighashByte(SighashDefault)]]
    ensures forall i :: 0 <= i < |stack| ==>
              && ParseSighashType(stack'[i]) == ParseSighashType(stack[i])
              && StripSighashByte(stack'[i]) == StripSighashByte(stack[i])
    ensures TotalSize(Signatures(stack')) == TotalSize(Signatures(stack)) + 1
  {
    var n := |stack| - 2;
    DefaultByteIsRead(stack[j]);
    assert stack'[..n] == stack[..n][j := stack'[j]];
    TotalSizeGrows(stack[..n], j, stack'[j]);
  }

  lemma SpelledOutIsTrue(c: Crypto, body: Unsigned, index: nat, available: UtxoMap, stack: seq<Bytes>, j: nat,
                         stack': seq<Bytes>)
    requires index < |body.inputs| && body.inputs[index].previousOutput in available
    requires j + 2 < |stack| && IsCanonicalSize(|stack[j]|)
    requires stack' == stack[j := stack[j] + [SighashByte(SighashDefault)]]
    ensures FirstTypeFits(stack') <==> FirstTypeFits(stack)
    ensures TrulyAuthorised(c, body, index, stack', available)
       <==> && TrulyAuthorised(c, body, index, stack, available)
            && TotalSize(Signatures(stack)) + 1 <= MAX_PQC_SIG_WU_PER_INPUT
  {
    SpelledOutIsRead(stack, j, stack');
    SameReadingIsTrue(c, body, index, available, stack, stack');
    AuthorisedFits(c, body, index, stack, available);
    AuthorisedFits(c, body, index, stack', available);
  }

  lemma AuthorisedFits(c: Crypto, body: Unsigned, index: nat, stack: seq<Bytes>, available: UtxoMap)
    requires index < |body.inputs| && body.inputs[index].previousOutput in available
    ensures TrulyAuthorised(c, body, index, stack, available) ==>
              TotalSize(Signatures(stack)) <= MAX_PQC_SIG_WU_PER_INPUT
  {
  }

  lemma SameTypesFit(stack: seq<Bytes>, stack': seq<Bytes>)
    requires |stack'| == |stack| > 2
    requires forall i :: 0 <= i < |stack| - 2 ==> ParseSighashType(stack'[i]) == ParseSighashType(stack[i])
    ensures FirstTypeFits(stack') <==> FirstTypeFits(stack)
  {
    var n := |stack| - 2;
    forall i | 0 <= i < n ensures ParseSighashType(Signatures(stack')[i]) == ParseSighashType(Signatures(stack)[i]) {
      assert Signatures(stack)[i] == stack[i] && Signatures(stack')[i] == stack'[i];
    }
    assert ParseSighashType(stack'[0]) == ParseSighashType(stack[0]);
  }

  /** Only what is read from the elements matters to the signatures. */
  lemma SameReadingIsTrue(c: Crypto, body: Unsigned, index: nat, available: UtxoMap, stack: seq<Bytes>,
                          stack': seq<Bytes>)
    requires index < |body.inputs| && body.inputs[index].previousOutput in available
    requires |stack'| == |stack| > 2 && stack'[|stack| - 2..] == stack[|stack| - 2..]
    requires forall i :: 0 <= i < |stack| - 2 ==>
               && ParseSighashType(stack'[i]) == ParseSighashType(stack[i])
               && StripSighashByte(stack'[i]) == StripSighashByte(stack[i])
    ensures FirstTypeFits(stack') <==> FirstTypeFits(stack)
    ensures TotalSize(Signatures(stack)) <= MAX_PQC_SIG_WU_PER_INPUT
            && TotalSize(Signatures(stack')) <= MAX_PQC_SIG_WU_PER_INPUT ==>
              (TrulyAuthorised(c, body, index, stack', available)
               <==> TrulyAuthorised(c, body, index, stack, available))
  {
    var n := |stack| - 2;
    SameTypesFit(stack, stack');
    assert stack'[n] == stack'[n..][0] == stack[n] && stack'[n + 1] == stack'[n..][1] == stack[n + 1];
    var leafHash, parsed := c.leafHash(stack[n]), LeafScripts.Parse(stack[n]);
    if parsed.Ok? && |parsed.value| == n {
      forall i | 0 <= i < n
        ensures TrulySigned(c, body, index, available, leafHash, parsed.value[i].pubkey, stack'[i])
           <==> TrulySigned(c, body, index, available, leafHash, parsed.value[i].pubkey, stack[i])
      {
        SameReadingIsSigned(c, body, index, available, leafHash, parsed.value[i].pubkey, stack[i], stack'[i]);
      }
    }
  }

  lemma SameReadingIsSigned(c: Crypto, body: Unsigned, index: nat, available: UtxoMap, leafHash: Bytes,
                            pubkey: Bytes, element: Bytes, element': Bytes)
    requires index < |body.inputs| && body.inputs[index].previousOutput in available
    requires ParseSighashType(element') == ParseSighashType(element)
    requires StripSighashByte(element') == StripSighashByte(element)
    ensures TrulySigned(c, body, index, available, leafHash, pubkey, element')
       <==> TrulySigned(c, body, index, available, leafHash, pubkey, element)
  {
  }

  /**
   * Spelling out the default byte behind a bare signature of canonical size changes nothing about the
   * input except its weight: it is accepted exactly when it was without the byte and one byte more fits.
   */
  lemma SpelledOutDefaultIsAccepted(c: Crypto, tx: SpendTx, index: nat, k: Knowledge, j: nat, tx': SpendTx)
    requires WellFormed(tx) && index < |tx.body.inputs|
    requires tx.body.inputs[index].previousOutput in k.available
    requires IsP2mr(k.available[tx.body.inputs[index].previousOutput])
    requires var stack := tx.witnesses[index];
             && j + 2 < |stack| && IsCanonicalSize(|stack[j]|)
             && tx' == SpendTx(tx.body, tx.witnesses[index := stack[j := stack[j] + [SighashByte(SighashDefault)]]])
    ensures ValidateInput(c, tx', index, k).Ok?
       <==> && ValidateInput(c, tx, index, k).Ok?
            && TotalSize(Signatures(tx.witnesses[index])) + 1 <= MAX_PQC_SIG_WU_PER_INPUT
  {
    SpelledOutIsTrue(c, tx.body, index, k.available, tx.witnesses[index], j, tx'.witnesses[index]);
    AcceptedExactlyWhen(c, tx, index, k);
    AcceptedExactlyWhen(c, tx', index, k);
  }

  // ---------------------------------------------------------------- the loops as the program runs them

  method ValidateP2mrInputSpend(c: Crypto, tx: SpendTx, index: nat, prevout: TxOut, prevouts: Prevouts)
    returns (r: Result<(), SpendError>)
    ensures r == ValidateInputSpend(c, tx, index, prevout, prevouts)
  {
    if index >= |tx.witnesses| {
      return Err(MissingPrevout(index));
    }
    var stack := tx.witnesses[index];
    if |stack| == 0 {
      return Err(EmptyWitness);
    }
    if |stack| > MAX_P2MR_WITNESS_STACK {
      return Err(WitnessStackTooLarge);
    }
    var root := ValidateP2mrOutput(prevout.scriptPubkey);
    if root.None? {
      return Err(NotP2mr);
    }
    if |stack| < 2 {
      return Err(IncompleteWitness);
    }
    var control, leaf, signatures := stack[|stack| - 1], stack[|stack| - 2], stack[..|stack| - 2];
    if |leaf| > MAX_P2MR_LEAF_SCRIPT_SIZE {
      return Err(LeafScriptTooLarge);
    }
    if |signatures| == 0 {
      return Err(EmptyWitness);
    }
    var sigWu := TotalSize(signatures);
    if sigWu > MAX_PQC_SIG_WU_PER_INPUT {
      return Err(SignatureWeightExceeded(sigWu));
    }
    var parsed := LeafScripts.ValidateWitnessSigCount(leaf, |signatures|);
    if parsed.Err? {
      return Err(LeafScript(parsed.error));
    }
    var path := Merkle.VerifyMerklePath(c.merkle, leaf, root.value, control);
    if path.Err? {
      return Err(MerkleFailed(path.error));
    }

    var checked := VerifyEachSite(c, Context(tx.body, index, prevouts, c.leafHash(leaf)), parsed.value, signatures);
    r := if checked.Err? then Err(SchemeFailed(checked.error)) else Ok(());
  }

  method VerifyEachSite(c: Crypto, ctx: Context, sites: seq<LeafScripts.Site>, signatures: seq<Bytes>)
    returns (r: Result<(), SchemeError>)
    requires |sites| == |signatures|
    ensures r == VerifySites(c, ctx, sites, signatures)
  {
    assert sites[0..] == sites && signatures[0..] == signatures;
    for i := 0 to |sites|
      invariant VerifySites(c, ctx, sites[i..], signatures[i..]) == VerifySites(c, ctx, sites, signatures)
    {
      var checked := VerifyOverloadedChecksig(c, ctx, sites[i].pubkey, signatures[i]);
      if checked.Err? {
        return Err(checked.error);
      }
    }
    r := Ok(());
  }

  lemma {:induction false} AllSpentOneMore(inputs: seq<TxIn>, last: TxIn, available: UtxoMap)
    requires AllSpent(inputs, available).Some? && last.previousOutput in available
    ensures AllSpent(inputs + [last], available)
         == Some(AllSpent(inputs, available).value + [available[last.previousOutput]])
    decreases |inputs|
  {
    if inputs == [] {
      assert [] + [last] == [last] && [last][1..] == [];
      assert [available[last.previousOutput]] + [] == [] + [available[last.previousOutput]];
    } else {
      var head, rest := [available[inputs[0].previousOutput]], AllSpent(inputs[1..], available).value;
      assert head + (rest + [available[last.previousOutput]]) == head + rest + [available[last.previousOutput]];
      assert (inputs + [last])[1..] == inputs[1..] + [last];
      AllSpentOneMore(inputs[1..], last, available);
    }
  }

  method PrevoutsForP2mrInput(body: Unsigned, index: nat, available: UtxoMap, t: SighashType)
    returns (r: Option<Prevouts>)
    requires index < |body.inputs| && body.inputs[index].previousOutput in available
    ensures r == PrevoutsForInput(body, index, available, t)
  {
    var prevout := available[body.inputs[index].previousOutput];
    if AnyoneCanPay(t) {
      return Some(OnePrevout(index, prevout));
    }
    if |body.inputs| == 1 {
      return Some(AllPrevouts([prevout]));
    }
    var ownedPrevouts := [];
    for i := 0 to |body.inputs|
      invariant AllSpent(body.inputs[..i], available) == Some(ownedPrevouts)
    {
      var outpoint := body.inputs[i].previousOutput;
      if outpoint !in available {
        AllSpentInOrder(body.inputs, available);
        return None;
      }
      AllSpentOneMore(body.inputs[..i], body.inputs[i], available);
      assert body.inputs[..i + 1] == body.inputs[..i] + [body.inputs[i]];
      ownedPrevouts := ownedPrevouts + [available[outpoint]];
    }
    assert body.inputs[..|body.inputs|] == body.inputs;
    r := Some(AllPrevouts(ownedPrevouts));
  }

  method ValidateSpends(c: Crypto, tx: SpendTx, k: Knowledge) returns (r: Result<(), SpendError>)
    requires WellFormed(tx)
    ensures r == ValidateTransactionSpends(c, tx, k)
  {
    for index := 0 to |tx.body.inputs|
      invariant ValidateInputsFrom(c, tx, index, k) == ValidateTransactionSpends(c, tx, k)
    {
      var outpoint, stack := tx.body.inputs[index].previousOutput, tx.witnesses[index];
      if outpoint !in k.available {
        if stack != [] && (outpoint in k.chain || outpoint in k.spentInBlock) {
          return Err(MissingPrevout(index));
        }
        continue;
      }
      var prevout := k.available[outpoint];
      if !IsP2mrScript(prevout.scriptPubkey) {
        continue;
      }
      if stack == [] {
        return Err(EmptyWitness);
      }
      var prevouts := PrevoutsForP2mrInput(tx.body, index, k.available, ParseSighashType(stack[0]));
      if prevouts.None? {
        return Err(UnverifiableSpend(index));
      }
      var checked := ValidateP2mrInputSpend(c, tx, index, prevout, prevouts.value);
      if checked.Err? {
        return checked;
      }
    }
    r := Ok(());
  }
}

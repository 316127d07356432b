/** Building and signing single-leaf P2MR spends, and why the validator accepts them. */
module Signers {
  import opened Common
  import opened Limits
  import opened Utxos
  import opened Schemes
  import opened Spends
  import opened LeafScripts
  import Merkle

  // ---------------------------------------------------------------- leaves

  datatype SignError =
    | BadEntropy
    | KeyGenerationFailed
    | OutputsExceedPrevout
    | BadPubkeySize(size: nat)
    | SighashUndefined
    | SigningFailed

  function BuildChecksigLeaf(pubkey: Bytes): Result<Bytes, SignError> {
    if |pubkey| == ML_DSA_44_PUBLIC_KEY_SIZE then
      Ok([OP_PUSHDATA2] + ToLittleEndian(|pubkey|, 2) + pubkey + [OP_CHECKSIG])
    else if |pubkey| == 32 then Ok([32] + pubkey + [OP_CHECKSIG])
    else Err(BadPubkeySize(|pubkey|))
  }

  function BuildHybridEcSlhLeaf(ec: Bytes, slh: Bytes): Bytes
    requires |ec| == |slh| == 32
  {
    [32] + ec + [OP_CHECKSIG]
    + ([32] + slh + [OP_CHECKSIG] + [OP_BOOLAND, OP_VERIFY])
  }

  /** The bytes of the leaves: pushes of one or two length bytes, and a signature check behind each key. */
  lemma LeafBytes(pubkey: Bytes, ec: Bytes, slh: Bytes, size: nat)
    requires |ec| == |slh| == 32 && size == |pubkey|
    ensures size == 32 ==> BuildChecksigLeaf(pubkey) == Ok([0x20] + pubkey + [0xac])
    ensures size == 1312 ==> BuildChecksigLeaf(pubkey) == Ok([0x4d, 0x20, 0x05] + pubkey + [0xac])
    ensures size != 32 && size != 1312 ==> BuildChecksigLeaf(pubkey) == Err(BadPubkeySize(size))
    ensures BuildHybridEcSlhLeaf(ec, slh) == [0x20] + ec + [0xac, 0x20] + slh + [0xac, 0x9a, 0x69]
  {
    if size == 1312 {
      assert ToLittleEndian(size, 2) == [0x20, 0x05];
      assert [OP_PUSHDATA2] + [0x20, 0x05] == [0x4d, 0x20, 0x05];
    }
  }

  /** One byte: the control byte with no siblings. */
  const SINGLE_LEAF_CONTROL_BLOCK: Bytes := [0xc1]

  // ---------------------------------------------------------------- leaves parse to their keys

  lemma WalkPush32(r: Registers, key: Bytes, rest: Bytes)
    requires |key| == 32
    ensures Walk(r, [32] + key + rest)
         == Walk(r.(pushes := r.pushes + [key], lastPush := Some(key)), rest)
  {
  }

  lemma WalkPushData2(r: Registers, key: Bytes, rest: Bytes)
    requires |key| == ML_DSA_44_PUBLIC_KEY_SIZE
    ensures Walk(r, [OP_PUSHDATA2] + ToLittleEndian(|key|, 2) + key + rest)
         == Walk(r.(pushes := r.pushes + [key], lastPush := Some(key)), rest)
  {
    var size := ToLittleEndian(|key|, 2);
    var script := [OP_PUSHDATA2] + size + key + rest;
    assert Pow256(2) == 0x1_0000;
    LittleEndianInverts(|key|, 2);
    assert script[1..3] == size && script[3..3 + |key|] == key && script[3 + |key|..] == rest;
    assert DecodeOne(script) == Decoded(Push(key), 3 + |key|);
  }

  lemma WalkChecksig(sites: seq<Site>, key: Bytes, rest: Bytes)
    requires IsKeySize(|key|)
    ensures Walk(Registers(sites, Some(key), [key], None), [OP_CHECKSIG] + rest)
         == Walk(Registers(sites + [Site(key, OP_CHECKSIG)], None, [], None),
                             rest)
  {
    assert ([OP_CHECKSIG] + rest)[1..] == rest;
    AddOneSite(sites, key, OP_CHECKSIG);
  }

  /** A single-key leaf parses to exactly its key. */
  lemma ChecksigLeafParses(pubkey: Bytes)
    ensures BuildChecksigLeaf(pubkey).Ok? <==> IsKeySize(|pubkey|)
    ensures BuildChecksigLeaf(pubkey).Ok? ==>
              Parse(BuildChecksigLeaf(pubkey).value)
              == Ok([Site(pubkey, OP_CHECKSIG)])
  {
    if IsKeySize(|pubkey|) {
      var op := [OP_CHECKSIG];
      var site := Site(pubkey, OP_CHECKSIG);
      assert op + [] == op && [] + [pubkey] == [pubkey] && [] + [site] == [site];
      if |pubkey| == 32 {
        WalkPush32(START, pubkey, op);
      } else {
        WalkPushData2(START, pubkey, op);
      }
      WalkChecksig([], pubkey, []);
    }
  }

  /** One half of a hybrid leaf. */
  lemma WalkKeyCheck(sites: seq<Site>, key: Bytes, rest: Bytes)
    requires |key| == 32
    ensures Walk(Registers(sites, None, [], None), [32] + key + [OP_CHECKSIG] + rest)
         == Walk(Registers(sites + [Site(key, OP_CHECKSIG)], None, [], None),
                             rest)
  {
    var op := [OP_CHECKSIG];
    assert [32] + key + op + rest == [32] + key + (op + rest);
    assert [] + [key] == [key];
    WalkPush32(Registers(sites, None, [], None), key, op + rest);
    WalkChecksig(sites, key, rest);
  }

  /** The trailing combinators add no site. */
  lemma WalkCombinators(sites: seq<Site>)
    ensures Walk(Registers(sites, None, [], None), [OP_BOOLAND, OP_VERIFY])
         == Ok(Registers(sites, None, [], None))
  {
    var ops := [OP_BOOLAND, OP_VERIFY];
    var r := Registers(sites, None, [], None);
    assert ops[1..] == [OP_VERIFY] && ops[1..][1..] == [];
    assert Step(r, Op(OP_BOOLAND)) == Ok(r);
    assert Walk(r, [OP_VERIFY]) == Ok(r);
  }

  /** A hybrid leaf parses to its two keys, the elliptic-curve one first. */
  lemma HybridLeafParses(ec: Bytes, slh: Bytes)
    requires |ec| == |slh| == 32
    ensures Parse(BuildHybridEcSlhLeaf(ec, slh))
         == Ok([Site(ec, OP_CHECKSIG), Site(slh, OP_CHECKSIG)])
  {
    var ops := [OP_BOOLAND, OP_VERIFY];
    var first, second := Site(ec, OP_CHECKSIG), Site(slh, OP_CHECKSIG);
    WalkKeyCheck([], ec, [32] + slh + [OP_CHECKSIG] + ops);
    assert [] + [first] == [first] && [first] + [second] == [first, second];
    WalkKeyCheck([first], slh, ops);
    WalkCombinators([first, second]);
  }

  /** The one-byte control block opens the root of the single leaf and no other. */
  lemma SingleLeafOpensOnly(h: Merkle.Hashes, leaf: Bytes, root: Merkle.Node)
    ensures Merkle.VerifyMerklePath(h, leaf, root, SINGLE_LEAF_CONTROL_BLOCK).Ok? <==> root == h.tapLeaf(leaf)
  {
  }

  // ---------------------------------------------------------------- keys

  datatype KeyPair = KeyPair(publicKey: Bytes, secretKey: Bytes)

  /** Key generation and signing, arbitrary functions that may fail; the second pair is the curve library's. */
  datatype Signing = Signing(
    keygen: (Scheme, Bytes) -> Option<KeyPair>,
    sign: (Scheme, Bytes, Bytes) -> Option<Bytes>,
    ecKeygen: Bytes -> Option<KeyPair>,
    ecSign: (Bytes, Bytes) -> Bytes)

  /** The curve library's public keys are 32 bytes, by their type. */
  ghost predicate EcKeysHave32Bytes(s: Signing) {
    forall entropy :: s.ecKeygen(entropy).Some? ==> |s.ecKeygen(entropy).value.publicKey| == 32
  }

  /** A key pair whose signatures have the scheme's size and verify, with a key of the scheme's size. */
  ghost predicate SignsFor(c: Crypto, scheme: Scheme, keys: KeyPair, sign: (Bytes, Bytes) -> Option<Bytes>) {
    && |keys.publicKey| == ExpectedPubkeySize(scheme)
    && forall message :: var sig := sign(keys.secretKey, message);
         sig.Some? ==> |sig.value| == CanonicalSize(scheme) && c.verify(scheme, keys.publicKey, message, sig.value)
  }

  function SignWith(s: Signing, scheme: Scheme): (Bytes, Bytes) -> Option<Bytes> {
    (secret: Bytes, message: Bytes) => s.sign(scheme, secret, message)
  }

  function EcSignWith(s: Signing): (Bytes, Bytes) -> Option<Bytes> {
    (secret: Bytes, message: Bytes) => Some(s.ecSign(secret, message))
  }

  /** Generated keys sign what verification accepts. */
  ghost predicate Correct(c: Crypto, s: Signing) {
    && (forall scheme, entropy {:trigger s.keygen(scheme, entropy)} ::
          s.keygen(scheme, entropy).Some? ==> SignsFor(c, scheme, s.keygen(scheme, entropy).value, SignWith(s, scheme)))
    && (forall entropy {:trigger s.ecKeygen(entropy)} ::
          s.ecKeygen(entropy).Some? ==> SignsFor(c, Schnorr, s.ecKeygen(entropy).value, EcSignWith(s)))
  }

  // ---------------------------------------------------------------- signing

  function TotalValue(outputs: seq<TxOut>): nat {
    if outputs == [] then 0 else outputs[0].value + TotalValue(outputs[1..])
  }

  function UnsignedSpend(spent: OutPoint, outputs: seq<TxOut>): Unsigned {
    Unsigned(2, 0, [TxIn(spent, 0xFFFF_FFFF)], outputs)
  }

  function ValidateEntropy(scheme: Scheme, entropy: Bytes): Result<(), SignError> {
    if (if scheme.Schnorr? then |entropy| != 32 else |entropy| < 128) then Err(BadEntropy) else Ok(())
  }

  /** The digest both sides compute; the signer always offers the spent output as the list of all. */
  function SpendMessage(c: Crypto, body: Unsigned, prevout: TxOut, leaf: Bytes, t: SighashType): Option<Bytes> {
    SignatureHash(c, body, 0, AllPrevouts([prevout]), c.leafHash(leaf), t)
  }

  function SignSpendCore(c: Crypto, sign: (Bytes, Bytes) -> Option<Bytes>, keys: KeyPair, t: SighashType,
                         prevout: TxOut, spent: OutPoint, outputs: seq<TxOut>): Result<SpendTx, SignError>
  {
    if TotalValue(outputs) > prevout.value then Err(OutputsExceedPrevout)
    else
      match BuildChecksigLeaf(keys.publicKey)
      case Err(e) => Err(e)
      case Ok(leaf) =>
        var body := UnsignedSpend(spent, outputs);
        match SpendMessage(c, body, prevout, leaf, t)
        case None => Err(SighashUndefined)
        case Some(message) =>
          match sign(keys.secretKey, message)
          case None => Err(SigningFailed)
          case Some(sig) => Ok(SpendTx(body, [[AppendSighash(sig, t), leaf, SINGLE_LEAF_CONTROL_BLOCK]]))
  }

  function BuildP2mrSpend(c: Crypto, s: Signing, scheme: Scheme, entropy: Bytes, t: SighashType,
                          spent: OutPoint, prevout: TxOut, outputs: seq<TxOut>): Result<SpendTx, SignError>
  {
    var _ :- ValidateEntropy(scheme, entropy);
    match s.keygen(scheme, entropy)
    case None => Err(KeyGenerationFailed)
    case Some(keys) => SignSpendCore(c, SignWith(s, scheme), keys, t, prevout, spent, outputs)
  }

  /** The hybrid spend: the same digest signed with both keys, the curve signature first. */
  function SignHybrid(c: Crypto, s: Signing, ec: KeyPair, slh: KeyPair, t: SighashType, spent: OutPoint,
                      prevout: TxOut, outputs: seq<TxOut>): Result<SpendTx, SignError>
    requires |ec.publicKey| == 32
  {
    if |slh.publicKey| != 32 then Err(BadPubkeySize(|slh.publicKey|))
    else
      var leaf := BuildHybridEcSlhLeaf(ec.publicKey, slh.publicKey);
      var body := UnsignedSpend(spent, outputs);
      match SpendMessage(c, body, prevout, leaf, t)
      case None => Err(SighashUndefined)
      case Some(message) =>
        match s.sign(SlhDsaSha2128s, slh.secretKey, message)
        case None => Err(SigningFailed)
        case Some(slhSig) =>
          var ecSig := s.ecSign(ec.secretKey, message);
          Ok(SpendTx(body, [[AppendSighash(ecSig, t), AppendSighash(slhSig, t), leaf, SINGLE_LEAF_CONTROL_BLOCK]]))
  }

  function BuildHybridSpend(c: Crypto, s: Signing, ecEntropy: Bytes, slhEntropy: Bytes, t: SighashType,
                            spent: OutPoint, prevout: TxOut, outputs: seq<TxOut>): Result<SpendTx, SignError>
    requires EcKeysHave32Bytes(s)
  {
    if |ecEntropy| != 32 || |slhEntropy| < 128 then Err(BadEntropy)
    else if TotalValue(outputs) > prevout.value then Err(OutputsExceedPrevout)
    else
      match s.ecKeygen(ecEntropy)
      case None => Err(KeyGenerationFailed)
      case Some(ec) =>
        match s.keygen(SlhDsaSha2128s, slhEntropy)
        case None => Err(KeyGenerationFailed)
        case Some(slh) => SignHybrid(c, s, ec, slh, t, spent, prevout, outputs)
  }

  // ---------------------------------------------------------------- what a signed spend pays

  /** The total grows by each output's value. */
  lemma {:induction false} TotalValueGrows(outputs: seq<TxOut>, last: TxOut)
    ensures TotalValue([]) == 0
    ensures TotalValue(outputs + [last]) == TotalValue(outputs) + last.value
  {
    if outputs == [] {
      assert outputs + [last] == [last] && [last][1..] == [];
    } else {
      assert (outputs + [last])[1..] == outputs[1..] + [last];
      TotalValueGrows(outputs[1..], last);
    }
  }

  /** A signed spend pays the outputs asked for from the one output named, and no more than it holds. */
  lemma SignedSpendPays(c: Crypto, s: Signing, scheme: Scheme, entropy: Bytes, t: SighashType, spent: OutPoint,
                        prevout: TxOut, outputs: seq<TxOut>, tx: SpendTx)
    requires BuildP2mrSpend(c, s, scheme, entropy, t, spent, prevout, outputs) == Ok(tx)
    ensures tx.body.outputs == outputs && tx.body.inputs == [TxIn(spent, 0xFFFF_FFFF)]
    ensures tx.body.version == 2 && tx.body.lockTime == 0
    ensures TotalValue(tx.body.outputs) <= prevout.value
  {
  }

  /** So does one signed with two keys. */
  lemma SignedHybridPays(c: Crypto, s: Signing, ecEntropy: Bytes, slhEntropy: Bytes, t: SighashType, spent: OutPoint,
                         prevout: TxOut, outputs: seq<TxOut>, tx: SpendTx)
    requires EcKeysHave32Bytes(s)
    requires BuildHybridSpend(c, s, ecEntropy, slhEntropy, t, spent, prevout, outputs) == Ok(tx)
    ensures tx.body.outputs == outputs && tx.body.inputs == [TxIn(spent, 0xFFFF_FFFF)]
    ensures tx.body.version == 2 && tx.body.lockTime == 0
    ensures TotalValue(tx.body.outputs) <= prevout.value
  {
  }

  /** What the library calls for one key may answer: a key pair and its signature, or nothing. */
  ghost predicate CanSign(c: Crypto, s: Signing, scheme: Scheme, entropy: Bytes, leaf: Bytes, body: Unsigned,
                          prevout: TxOut, t: SighashType)
  {
    var keys, message := s.keygen(scheme, entropy), SpendMessage(c, body, prevout, leaf, t);
    keys.Some? && message.Some? && s.sign(scheme, keys.value.secretKey, message.value).Some?
  }

  /**
   * A spend is built exactly with enough entropy, outputs the spent one can pay for, and keys that sign;
   * and each refusal has its own cause.
   */
  lemma SpendIsBuiltExactlyWhen(c: Crypto, s: Signing, scheme: Scheme, entropy: Bytes, t: SighashType,
                                spent: OutPoint, prevout: TxOut, outputs: seq<TxOut>, body: Unsigned)
    requires Correct(c, s) && body == Unsigned(2, 0, [TxIn(spent, 0xFFFF_FFFF)], outputs)
    ensures var r := BuildP2mrSpend(c, s, scheme, entropy, t, spent, prevout, outputs);
            && (r == Err(BadEntropy) <==> if scheme == Schnorr then |entropy| != 32 else |entropy| < 128)
            && (r == Err(OutputsExceedPrevout) <==>
                && r != Err(BadEntropy) && s.keygen(scheme, entropy).Some?
                && TotalValue(outputs) > prevout.value)
            && (r.Ok? <==>
                && r != Err(BadEntropy) && TotalValue(outputs) <= prevout.value && s.keygen(scheme, entropy).Some?
                && var leaf := BuildChecksigLeaf(s.keygen(scheme, entropy).value.publicKey);
                   leaf.Ok? && CanSign(c, s, scheme, entropy, leaf.value, body, prevout, t))
  {
  }

  /** With two keys both kinds of entropy count, and the values are looked at before any key is made. */
  lemma HybridIsBuiltExactlyWhen(c: Crypto, s: Signing, ecEntropy: Bytes, slhEntropy: Bytes, t: SighashType,
                                 spent: OutPoint, prevout: TxOut, outputs: seq<TxOut>, body: Unsigned)
    requires EcKeysHave32Bytes(s) && Correct(c, s)
    requires body == Unsigned(2, 0, [TxIn(spent, 0xFFFF_FFFF)], outputs)
    ensures var r := BuildHybridSpend(c, s, ecEntropy, slhEntropy, t, spent, prevout, outputs);
            var ec, slh := s.ecKeygen(ecEntropy), s.keygen(SlhDsaSha2128s, slhEntropy);
            && (r == Err(BadEntropy) <==> |ecEntropy| != 32 || |slhEntropy| < 128)
            && (r == Err(OutputsExceedPrevout) <==> r != Err(BadEntropy) && TotalValue(outputs) > prevout.value)
            && (r.Ok? <==>
                && |ecEntropy| == 32 && |slhEntropy| >= 128 && TotalValue(outputs) <= prevout.value
                && ec.Some? && slh.Some? && |slh.value.publicKey| == 32
                && var leaf := BuildHybridEcSlhLeaf(ec.value.publicKey, slh.value.publicKey);
                   CanSign(c, s, SlhDsaSha2128s, slhEntropy, leaf, body, prevout, t))
  {
  }

  // ---------------------------------------------------------------- the validator accepts

  /** What the validator knows: the spent output is available. */
  predicate Spendable(k: Knowledge, spent: OutPoint, prevout: TxOut) {
    spent in k.available && k.available[spent] == prevout
  }

  /** For the single input of a spend both ways of offering the spent output give the signer's digest. */
  lemma SameDigest(c: Crypto, body: Unsigned, prevout: TxOut, leaf: Bytes, t: SighashType, available: UtxoMap)
    requires |body.inputs| == 1 && body.inputs[0].previousOutput in available
    requires available[body.inputs[0].previousOutput] == prevout
    ensures var prevouts := PrevoutsForInput(body, 0, available, t);
            && prevouts.Some?
            && SignatureHash(c, body, 0, prevouts.value, c.leafHash(leaf), t) == SpendMessage(c, body, prevout, leaf, t)
  {
  }

  /** The signer's element is a signature by the key, under the type it was made for. */
  lemma SignedElement(c: Crypto, ctx: Context, scheme: Scheme, pubkey: Bytes, sig: Bytes, message: Bytes,
                      t: SighashType)
    requires |sig| == CanonicalSize(scheme) && |pubkey| == ExpectedPubkeySize(scheme)
    requires SignatureHash(c, ctx.body, ctx.index, ctx.prevouts, ctx.leafHash, t) == Some(message)
    requires c.verify(scheme, pubkey, message, sig)
    ensures SignedBy(c, ctx, pubkey, AppendSighash(sig, t))
    ensures ParseSighashType(AppendSighash(sig, t)) == t
  {
    ElementRoundTripExactlyWhen(sig, t);
    AppendKeepsClass(sig, t, scheme);
  }

  /** A spend of the leaf's own output with the right signatures in order is authorised. */
  lemma RootDecides(c: Crypto, leaf: Bytes, script: Bytes)
    ensures ValidateP2mrOutput(script).Some?
         && Merkle.VerifyMerklePath(c.merkle, leaf, ValidateP2mrOutput(script).value, SINGLE_LEAF_CONTROL_BLOCK).Ok?
       <==> script == P2mrScriptPubkey(c.merkle.tapLeaf(leaf))
  {
  }

  /** With one input the transaction is accepted as its input is. */
  lemma OneInput(c: Crypto, tx: SpendTx, k: Knowledge)
    requires WellFormed(tx) && |tx.body.inputs| == 1
    ensures ValidateTransactionSpends(c, tx, k).Ok? <==> ValidateInput(c, tx, 0, k).Ok?
  {
    assert ValidateInputsFrom(c, tx, 1, k).Ok?;
  }

  /** One key: witness of element, leaf and control byte. */
  lemma SingleIsAuthorisedExactlyWhen(c: Crypto, body: Unsigned, prevouts: Prevouts, pubkey: Bytes, leaf: Bytes,
                                      element: Bytes, script: Bytes)
    requires BuildChecksigLeaf(pubkey) == Ok(leaf) && |element| <= MAX_PQC_SIG_WU_PER_INPUT
    requires SignedBy(c, Context(body, 0, prevouts, c.leafHash(leaf)), pubkey, element)
    ensures Authorised(c, body, 0, [element, leaf, SINGLE_LEAF_CONTROL_BLOCK], script, prevouts)
       <==> script == P2mrScriptPubkey(c.merkle.tapLeaf(leaf))
  {
    var stack := [element, leaf, SINGLE_LEAF_CONTROL_BLOCK];
    assert stack[..1] == [element] && [element][1..] == [];
    assert TotalSize(stack[..1]) == |element|;
    ChecksigLeafParses(pubkey);
    RootDecides(c, leaf, script);
  }

  lemma HybridIsAuthorisedExactlyWhen(c: Crypto, body: Unsigned, prevouts: Prevouts, ec: Bytes, slh: Bytes, leaf: Bytes,
                                      first: Bytes, second: Bytes, script: Bytes)
    requires |ec| == |slh| == 32 && leaf == BuildHybridEcSlhLeaf(ec, slh)
    requires |first| + |second| <= MAX_PQC_SIG_WU_PER_INPUT
    requires SignedBy(c, Context(body, 0, prevouts, c.leafHash(leaf)), ec, first)
    requires SignedBy(c, Context(body, 0, prevouts, c.leafHash(leaf)), slh, second)
    ensures Authorised(c, body, 0, [first, second, leaf, SINGLE_LEAF_CONTROL_BLOCK], script, prevouts)
       <==> script == P2mrScriptPubkey(c.merkle.tapLeaf(leaf))
  {
    var stack := [first, second, leaf, SINGLE_LEAF_CONTROL_BLOCK];
    assert stack[..2] == [first, second] && [first, second][1..] == [second] && [second][1..] == [];
    assert TotalSize([second]) == |second|;
    assert TotalSize(stack[..2]) == |first| + |second|;
    HybridLeafParses(ec, slh);
    RootDecides(c, leaf, script);
  }

  /**
   * Every signed single-key spend, for each scheme and sighash type, is accepted exactly when the spent
   * output is the one of the signing key's leaf, or is no P2MR output at all and so not looked at.
   */
  lemma SignedSpendAcceptedExactlyWhen(c: Crypto, s: Signing, scheme: Scheme, entropy: Bytes, t: SighashType,
                                       spent: OutPoint, prevout: TxOut, outputs: seq<TxOut>, k: Knowledge,
                                       tx: SpendTx, leaf: Bytes)
    requires Correct(c, s) && Spendable(k, spent, prevout)
    requires BuildP2mrSpend(c, s, scheme, entropy, t, spent, prevout, outputs) == Ok(tx)
    requires BuildChecksigLeaf(s.keygen(scheme, entropy).value.publicKey) == Ok(leaf)
    ensures WellFormed(tx)
    ensures ValidateTransactionSpends(c, tx, k).Ok?
       <==> !IsP2mr(prevout) || prevout.scriptPubkey == P2mrScriptPubkey(c.merkle.tapLeaf(leaf))
  {
    var keys := s.keygen(scheme, entropy).value;
    var message := SpendMessage(c, tx.body, prevout, leaf, t).value;
    var sig := s.sign(scheme, keys.secretKey, message).value;
    var element := AppendSighash(sig, t);
    var prevouts := PrevoutsForInput(tx.body, 0, k.available, t).value;
    assert SignWith(s, scheme)(keys.secretKey, message) == Some(sig);
    SameDigest(c, tx.body, prevout, leaf, t, k.available);
    SignedElement(c, Context(tx.body, 0, prevouts, c.leafHash(leaf)), scheme, keys.publicKey, sig, message, t);
    SingleIsAuthorisedExactlyWhen(c, tx.body, prevouts, keys.publicKey, leaf, element, prevout.scriptPubkey);
    OneInput(c, tx, k);
    AcceptedExactlyWhenAuthorised(c, tx.body, 0, tx.witnesses[0], prevout, prevouts);
  }

  /** The same for the spend that needs both a curve and a hash-based signature. */
  lemma SignedHybridAcceptedExactlyWhen(c: Crypto, s: Signing, ecEntropy: Bytes, slhEntropy: Bytes, t: SighashType,
                                        spent: OutPoint, prevout: TxOut, outputs: seq<TxOut>, k: Knowledge,
                                        tx: SpendTx, leaf: Bytes)
    requires EcKeysHave32Bytes(s) && Correct(c, s) && Spendable(k, spent, prevout)
    requires BuildHybridSpend(c, s, ecEntropy, slhEntropy, t, spent, prevout, outputs) == Ok(tx)
    requires leaf == BuildHybridEcSlhLeaf(s.ecKeygen(ecEntropy).value.publicKey,
                                          s.keygen(SlhDsaSha2128s, slhEntropy).value.publicKey)
    ensures WellFormed(tx)
    ensures ValidateTransactionSpends(c, tx, k).Ok?
       <==> !IsP2mr(prevout) || prevout.scriptPubkey == P2mrScriptPubkey(c.merkle.tapLeaf(leaf))
  {
    var ec, slh := s.ecKeygen(ecEntropy).value, s.keygen(SlhDsaSha2128s, slhEntropy).value;
    var message := SpendMessage(c, tx.body, prevout, leaf, t).value;
    var ecSig, slhSig := s.ecSign(ec.secretKey, message), s.sign(SlhDsaSha2128s, slh.secretKey, message).value;
    var prevouts := PrevoutsForInput(tx.body, 0, k.available, t).value;
    var ctx := Context(tx.body, 0, prevouts, c.leafHash(leaf));
    assert EcSignWith(s)(ec.secretKey, message) == Some(ecSig);
    assert SignWith(s, SlhDsaSha2128s)(slh.secretKey, message) == Some(slhSig);
    SameDigest(c, tx.body, prevout, leaf, t, k.available);
    SignedElement(c, ctx, Schnorr, ec.publicKey, ecSig, message, t);
    SignedElement(c, ctx, SlhDsaSha2128s, slh.publicKey, slhSig, message, t);
    HybridIsAuthorisedExactlyWhen(c, tx.body, prevouts, ec.publicKey, slh.publicKey, leaf, AppendSighash(ecSig, t),
                                  AppendSighash(slhSig, t), prevout.scriptPubkey);
    OneInput(c, tx, k);
    AcceptedExactlyWhenAuthorised(c, tx.body, 0, tx.witnesses[0], prevout, prevouts);
  }

  // ---------------------------------------------------------------- two signatures of different types

  /** A key's element for the single input of a spend, under a type of its own. */
  ghost predicate SignsSpend(c: Crypto, body: Unsigned, prevout: TxOut, leaf: Bytes, scheme: Scheme, pubkey: Bytes,
                             sig: Bytes, t: SighashType)
  {
    var message := SpendMessage(c, body, prevout, leaf, t);
    && |sig| == CanonicalSize(scheme) && |pubkey| == ExpectedPubkeySize(scheme)
    && message.Some? && c.verify(scheme, pubkey, message.value, sig)
  }

  /** Such an element is truly a signature by the key. */
  lemma SpendSignatureIsTrue(c: Crypto, body: Unsigned, prevout: TxOut, leaf: Bytes, scheme: Scheme, pubkey: Bytes,
                             sig: Bytes, t: SighashType, available: UtxoMap)
    requires |body.inputs| == 1 && body.inputs[0].previousOutput in available
    requires available[body.inputs[0].previousOutput] == prevout
    requires SignsSpend(c, body, prevout, leaf, scheme, pubkey, sig, t)
    ensures TrulySigned(c, body, 0, available, c.leafHash(leaf), pubkey, AppendSighash(sig, t))
    ensures ParseSighashType(AppendSighash(sig, t)) == t
  {
    ElementRoundTripExactlyWhen(sig, t);
    CommittedIsTrue(body, 0, available, t, t);
    assert InClass(|sig|, scheme);
  }

  /**
   * A spend of a hybrid leaf's output signed by both keys, each under its own type, always obeys the
   * rule. It is accepted exactly when the second type commits to its input alone if the first one does.
   */
  lemma MixedTypesAcceptedExactlyWhen(c: Crypto, ec: Bytes, slh: Bytes, ecSig: Bytes, slhSig: Bytes,
                                      first: SighashType, second: SighashType, body: Unsigned, prevout: TxOut,
                                      leaf: Bytes, tx: SpendTx, k: Knowledge)
    requires |ec| == |slh| == 32 && leaf == BuildHybridEcSlhLeaf(ec, slh)
    requires |body.inputs| == 1 && Spendable(k, body.inputs[0].previousOutput, prevout)
    requires prevout.scriptPubkey == P2mrScriptPubkey(c.merkle.tapLeaf(leaf))
    requires SignsSpend(c, body, prevout, leaf, Schnorr, ec, ecSig, first)
    requires SignsSpend(c, body, prevout, leaf, SlhDsaSha2128s, slh, slhSig, second)
    requires tx == SpendTx(body, [[AppendSighash(ecSig, first), AppendSighash(slhSig, second), leaf,
                                   SINGLE_LEAF_CONTROL_BLOCK]])
    ensures TrulyAuthorised(c, body, 0, tx.witnesses[0], k.available)
    ensures ValidateTransactionSpends(c, tx, k).Ok? <==> (AnyoneCanPay(first) ==> AnyoneCanPay(second))
  {
    var stack, one, two := tx.witnesses[0], AppendSighash(ecSig, first), AppendSighash(slhSig, second);
    assert stack[..2] == [one, two] && [one, two][1..] == [two] && [two][1..] == [];
    assert TotalSize([two]) == |two|;
    assert TotalSize(stack[..2]) == |one| + |two|;
    HybridLeafParses(ec, slh);
    RootDecides(c, leaf, prevout.scriptPubkey);
    SpendSignatureIsTrue(c, body, prevout, leaf, Schnorr, ec, ecSig, first, k.available);
    SpendSignatureIsTrue(c, body, prevout, leaf, SlhDsaSha2128s, slh, slhSig, second, k.available);
    OneInput(c, tx, k);
    AcceptedExactlyWhen(c, tx, 0, k);
    assert Signatures(stack) == [one, two];
    assert FirstTypeFits(stack) <==> (AnyoneCanPay(first) ==> AnyoneCanPay(second)) by {
      assert Signatures(stack)[1] == two;
    }
  }

  /** One such spend: the curve signature covers its own input, the hash-based one all inputs. */
  lemma MixedTypesAreRefused() returns (c: Crypto, tx: SpendTx, k: Knowledge)
    ensures WellFormed(tx) && |tx.body.inputs| == 1 && tx.body.inputs[0].previousOutput in k.available
    ensures TrulyAuthorised(c, tx.body, 0, tx.witnesses[0], k.available)
    ensures ValidateTransactionSpends(c, tx, k).Err?
  {
    var root: Merkle.Node := seq(32, _ => 9);
    c := Crypto((_, _, _, _, _) => Some([]), (_, _, _, _) => true, leaf => leaf, Merkle.Hashes(_ => root, _ => root));
    var key: Bytes, ecSig: Bytes, slhSig: Bytes := seq(32, _ => 1), seq(64, _ => 2), seq(7856, _ => 3);
    var leaf, prevout := BuildHybridEcSlhLeaf(key, key), TxOut(50, P2mrScriptPubkey(root));
    var body := UnsignedSpend(OutPoint(1, 0), []);
    tx := SpendTx(body, [[AppendSighash(ecSig, AllPlusAnyoneCanPay), AppendSighash(slhSig, SighashAll), leaf,
                          SINGLE_LEAF_CONTROL_BLOCK]]);
    k := Knowledge(map[OutPoint(1, 0) := prevout], {}, {});
    MixedTypesAcceptedExactlyWhen(c, key, key, ecSig, slhSig, AllPlusAnyoneCanPay, SighashAll, body, prevout, leaf,
                                  tx, k);
  }

  // ---------------------------------------------------------------- the builders as the program runs them

  method SumOutputs(outputs: seq<TxOut>) returns (total: nat)
    ensures total == TotalValue(outputs)
  {
    total := 0;
    assert outputs[0..] == outputs;
    for i := 0 to |outputs|
      invariant total + TotalValue(outputs[i..]) == TotalValue(outputs)
    {
      total := total + outputs[i].value;
    }
  }

  method SignP2mrSpend(c: Crypto, s: Signing, scheme: Scheme, entropy: Bytes, t: SighashType,
                       spent: OutPoint, prevout: TxOut, outputs: seq<TxOut>) returns (r: Result<SpendTx, SignError>)
    ensures r == BuildP2mrSpend(c, s, scheme, entropy, t, spent, prevout, outputs)
  {
    var _ :- ValidateEntropy(scheme, entropy);
    var keys := s.keygen(scheme, entropy);
    if keys.None? {
      return Err(KeyGenerationFailed);
    }
    var total := SumOutputs(outputs);
    if total > prevout.value {
      return Err(OutputsExceedPrevout);
    }
    var leaf :- BuildChecksigLeaf(keys.value.publicKey);
    var body := UnsignedSpend(spent, outputs);
    var message := SignatureHash(c, body, 0, AllPrevouts([prevout]), c.leafHash(leaf), t);
    if message.None? {
      return Err(SighashUndefined);
    }
    var sig := s.sign(scheme, keys.value.secretKey, message.value);
    if sig.None? {
      return Err(SigningFailed);
    }
    var stack: seq<Bytes> := [];
    stack := stack + [AppendSighash(sig.value, t)];
    stack := stack + [leaf];
    stack := stack + [SINGLE_LEAF_CONTROL_BLOCK];
    assert stack == [AppendSighash(sig.value, t), leaf, SINGLE_LEAF_CONTROL_BLOCK];
    r := Ok(SpendTx(body, [stack]));
  }

  method SignHybridSpend(c: Crypto, s: Signing, ecEntropy: Bytes, slhEntropy: Bytes, t: SighashType,
                         spent: OutPoint, prevout: TxOut, outputs: seq<TxOut>) returns (r: Result<SpendTx, SignError>)
    requires EcKeysHave32Bytes(s)
    ensures r == BuildHybridSpend(c, s, ecEntropy, slhEntropy, t, spent, prevout, outputs)
  {
    if |ecEntropy| != 32 || |slhEntropy| < 128 {
      return Err(BadEntropy);
    }
    var total := SumOutputs(outputs);
    if total > prevout.value {
      return Err(OutputsExceedPrevout);
    }
    var ec := s.ecKeygen(ecEntropy);
    if ec.None? {
      return Err(KeyGenerationFailed);
    }
    var slh := s.keygen(SlhDsaSha2128s, slhEntropy);
    if slh.None? {
      return Err(KeyGenerationFailed);
    }
    if |slh.value.publicKey| != 32 {
      return Err(BadPubkeySize(|slh.value.publicKey|));
    }
    var leaf := BuildHybridEcSlhLeaf(ec.value.publicKey, slh.value.publicKey);
    var body := UnsignedSpend(spent, outputs);
    var message := SignatureHash(c, body, 0, AllPrevouts([prevout]), c.leafHash(leaf), t);
    if message.None? {
      return Err(SighashUndefined);
    }
    var ecSig := s.ecSign(ec.value.secretKey, message.value);
    var slhSig := s.sign(SlhDsaSha2128s, slh.value.secretKey, message.value);
    if slhSig.None? {
      return Err(SigningFailed);
    }
    var stack: seq<Bytes> := [];
    stack := stack + [AppendSighash(ecSig, t)];
    stack := stack + [AppendSighash(slhSig.value, t)];
    stack := stack + [leaf];
    stack := stack + [SINGLE_LEAF_CONTROL_BLOCK];
    assert stack == [AppendSighash(ecSig, t), AppendSighash(slhSig.value, t), leaf, SINGLE_LEAF_CONTROL_BLOCK];
    r := Ok(SpendTx(body, [stack]));
  }
}

/** Witness signature elements: a signature, perhaps followed by a sighash byte, sorted by size. */
module Schemes {
  import opened Common
  import opened Limits

  datatype Scheme = Schnorr | MlDsa44 | SlhDsaSha2128s

  datatype SchemeError =
    | UnrecognizedSize(size: nat)
    | InvalidSignature(scheme: Scheme)
    | PubkeySchemeMismatch(pubkeySize: nat, scheme: Scheme)
    | SighashFailed

  // ---------------------------------------------------------------- sighash types

  datatype SighashType =
    | SighashDefault
    | SighashAll
    | SighashNone
    | SighashSingle
    | AllPlusAnyoneCanPay
    | NonePlusAnyoneCanPay
    | SinglePlusAnyoneCanPay

  function SighashByte(t: SighashType): byte {
    match t
    case SighashDefault => 0x00
    case SighashAll => 0x01
    case SighashNone => 0x02
    case SighashSingle => 0x03
    case AllPlusAnyoneCanPay => 0x81
    case NonePlusAnyoneCanPay => 0x82
    case SinglePlusAnyoneCanPay => 0x83
  }

  /** The type a byte stands for: one of seven. */
  function FromConsensus(b: byte): (t: Option<SighashType>)
    ensures forall x: SighashType :: t == Some(x) <==> b == SighashByte(x)
  {
    if b == 0x00 then Some(SighashDefault)
    else if b == 0x01 then Some(SighashAll)
    else if b == 0x02 then Some(SighashNone)
    else if b == 0x03 then Some(SighashSingle)
    else if b == 0x81 then Some(AllPlusAnyoneCanPay)
    else if b == 0x82 then Some(NonePlusAnyoneCanPay)
    else if b == 0x83 then Some(SinglePlusAnyoneCanPay)
    else None
  }

  predicate AnyoneCanPay(t: SighashType) {
    t.AllPlusAnyoneCanPay? || t.NonePlusAnyoneCanPay? || t.SinglePlusAnyoneCanPay?
  }

  /** The types that commit to their own input alone are those with the high bit in their byte. */
  lemma AnyoneCanPayIsTheHighBit(t: SighashType)
    ensures AnyoneCanPay(t) <==> SighashByte(t) >= 0x80
  {
  }

  /** The low digits say which outputs are signed: all, none or one; the default signs all. */
  lemma LowDigitsAreTheOutputs(t: SighashType)
    ensures (t.SighashAll? || t.AllPlusAnyoneCanPay?) <==> SighashByte(t) % 0x80 == 1
    ensures (t.SighashNone? || t.NonePlusAnyoneCanPay?) <==> SighashByte(t) % 0x80 == 2
    ensures (t.SighashSingle? || t.SinglePlusAnyoneCanPay?) <==> SighashByte(t) % 0x80 == 3
    ensures t.SighashDefault? <==> SighashByte(t) == 0
  {
  }

  // ---------------------------------------------------------------- the element

  predicate IsCanonicalSize(size: nat) {
    || size == SCHNORR_SIGNATURE_SIZE
    || size == ML_DSA_44_SIGNATURE_SIZE
    || size == SLH_DSA_128S_SIGNATURE_SIZE
  }

  /** The element without a sighash byte after a signature of canonical size. */
  function StripSighashByte(element: Bytes): Bytes {
    var size := |element|;
    if size <= 1 then element
    else if FromConsensus(element[size - 1]).None? then element
    else if IsCanonicalSize(size - 1) then element[..size - 1]
    else element
  }

  function ParseSighashType(element: Bytes): SighashType {
    var size := |element|;
    if size <= 1 then SighashDefault
    else if IsCanonicalSize(size - 1) && FromConsensus(element[size - 1]).Some? then
      FromConsensus(element[size - 1]).value
    else SighashDefault
  }

  /** The signer's element: every type but the default is spelled out. */
  function AppendSighash(sig: Bytes, t: SighashType): Bytes {
    if t != SighashDefault then sig + [SighashByte(t)] else sig
  }

  function ClassifySignature(element: Bytes): Result<Scheme, SchemeError> {
    var size := |StripSighashByte(element)|;
    if size == SCHNORR_SIGNATURE_SIZE then Ok(Schnorr)
    else if ML_DSA_44_SIGNATURE_SIZE <= size + PQC_SIGNATURE_SIZE_TOLERANCE
         && size <= ML_DSA_44_SIGNATURE_SIZE + PQC_SIGNATURE_SIZE_TOLERANCE then Ok(MlDsa44)
    else if SLH_DSA_128S_SIGNATURE_SIZE <= size + PQC_SIGNATURE_SIZE_TOLERANCE
         && size <= SLH_DSA_128S_SIGNATURE_SIZE + PQC_SIGNATURE_SIZE_TOLERANCE then Ok(SlhDsaSha2128s)
    else Err(UnrecognizedSize(size))
  }

  function ExpectedPubkeySize(scheme: Scheme): nat {
    if scheme.MlDsa44? then ML_DSA_44_PUBLIC_KEY_SIZE else SLH_DSA_PUBLIC_KEY_SIZE
  }

  function ValidatePubkeyForScheme(pubkey: Bytes, scheme: Scheme): Result<(), SchemeError> {
    if |pubkey| == ExpectedPubkeySize(scheme) then Ok(()) else Err(PubkeySchemeMismatch(|pubkey|, scheme))
  }

  // ---------------------------------------------------------------- the codec

  /** The element ends in a byte that reads as a sighash type after a signature of canonical size. */
  predicate HasSighashByte(element: Bytes) {
    |element| > 1 && IsCanonicalSize(|element| - 1) && FromConsensus(element[|element| - 1]).Some?
  }

  /**
   * Whatever the signature bytes: reading gives back signature and type exactly when the signature has
   * a canonical size, or none is appended and nothing at its end could be taken for one.
   */
  lemma ElementRoundTripExactlyWhen(sig: Bytes, t: SighashType)
    ensures StripSighashByte(AppendSighash(sig, t)) == sig && ParseSighashType(AppendSighash(sig, t)) == t
       <==> if t == SighashDefault then !HasSighashByte(sig) else IsCanonicalSize(|sig|)
  {
    var element := AppendSighash(sig, t);
    if t != SighashDefault {
      assert element[..|sig|] == sig;
      assert FromConsensus(SighashByte(t)) == Some(t);
      assert |element| != |sig|;
    } else if HasSighashByte(sig) {
      assert |StripSighashByte(sig)| != |sig|;
    }
  }

  /** Reading and writing again changes nothing except that a spelled-out default byte disappears. */
  lemma ElementIsWrittenExactlyWhen(element: Bytes)
    ensures AppendSighash(StripSighashByte(element), ParseSighashType(element)) == element
       <==> !(HasSighashByte(element) && element[|element| - 1] == SighashByte(SighashDefault))
  {
  }

  /** A signature of canonical size is never cut again, and a type other than the default was cut off. */
  lemma StripIsFinal(element: Bytes)
    ensures StripSighashByte(StripSighashByte(element)) == StripSighashByte(element)
    ensures ParseSighashType(StripSighashByte(element)) == SighashDefault
    ensures ParseSighashType(element) != SighashDefault ==>
              StripSighashByte(element) + [SighashByte(ParseSighashType(element))] == element
  {
  }

  // ---------------------------------------------------------------- the size classes

  function CanonicalSize(scheme: Scheme): nat {
    match scheme
    case Schnorr => SCHNORR_SIGNATURE_SIZE
    case MlDsa44 => ML_DSA_44_SIGNATURE_SIZE
    case SlhDsaSha2128s => SLH_DSA_128S_SIGNATURE_SIZE
  }

  /** Schnorr signatures have one size, the others a few bytes more or less. */
  predicate InClass(size: nat, scheme: Scheme) {
    var tolerance := if scheme.Schnorr? then 0 else PQC_SIGNATURE_SIZE_TOLERANCE;
    CanonicalSize(scheme) - tolerance <= size <= CanonicalSize(scheme) + tolerance
  }

  /** The classes are disjoint, so the order in which they are tried does not matter. */
  lemma ClassifiedExactlyWhen(element: Bytes, scheme: Scheme)
    ensures ClassifySignature(element) == Ok(scheme) <==> InClass(|StripSighashByte(element)|, scheme)
    ensures forall s :: InClass(|StripSighashByte(element)|, scheme) && InClass(|StripSighashByte(element)|, s) ==>
                          s == scheme
  {
  }

  /** The classes by size: 64 bytes, 2420 or 7856 bytes give or take four. */
  lemma SchemesBySize(element: Bytes, size: nat)
    requires size == |StripSighashByte(element)|
    ensures ClassifySignature(element)
         == if size == 64 then Ok(Schnorr)
            else if 2416 <= size <= 2424 then Ok(MlDsa44)
            else if 7852 <= size <= 7860 then Ok(SlhDsaSha2128s)
            else Err(UnrecognizedSize(size))
  {
  }

  /** The sizes of the keys. */
  lemma KeysBySize(pubkey: Bytes)
    ensures ValidatePubkeyForScheme(pubkey, Schnorr).Ok? <==> |pubkey| == 32
    ensures ValidatePubkeyForScheme(pubkey, MlDsa44).Ok? <==> |pubkey| == 1312
    ensures ValidatePubkeyForScheme(pubkey, SlhDsaSha2128s).Ok? <==> |pubkey| == 32
  {
  }

  /** Only behind 64, 2420 or 7856 bytes a last byte is read as a sighash type, and only one of seven. */
  lemma SighashByteIsCutExactlyWhen(element: Bytes)
    ensures StripSighashByte(element) != element
       <==> && (|element| == 65 || |element| == 2421 || |element| == 7857)
            && element[|element| - 1] in {0x00, 0x01, 0x02, 0x03, 0x81, 0x82, 0x83}
    ensures StripSighashByte(element) != element ==> StripSighashByte(element) == element[..|element| - 1]
  {
    if HasSighashByte(element) {
      assert |StripSighashByte(element)| != |element|;
    }
  }

  /** Appending a sighash byte never changes the class of a signature of canonical size. */
  lemma AppendKeepsClass(sig: Bytes, t: SighashType, scheme: Scheme)
    requires |sig| == CanonicalSize(scheme)
    ensures ClassifySignature(AppendSighash(sig, t)) == Ok(scheme)
  {
  }
}

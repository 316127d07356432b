/** The leaf-script parser as the program runs it: one pass over the instructions, four registers. */
module LeafParsers {
  import opened Common
  import opened LeafScripts
  import opened Limits

  class LeafParser {
    var sigSites: seq<Site>
    var lastPush: Option<Bytes>
    var pushBuffer: seq<Bytes>
    var pendingMultisigKeys: Option<nat>

    ghost function View(): Registers
      reads this
    {
      Registers(sigSites, lastPush, pushBuffer, pendingMultisigKeys)
    }

    constructor ()
      ensures View() == START
    {
      sigSites, lastPush, pushBuffer, pendingMultisigKeys := [], None, [], None;
    }

    method PushSingleSigSite(pubkey: Bytes, opcode: byte) returns (r: Result<(), LeafError>)
      modifies this`sigSites
      ensures IsKeySize(|pubkey|) ==> r.Ok? && sigSites == old(sigSites) + [Site(pubkey, opcode)]
      ensures !IsKeySize(|pubkey|) ==> r == Err(InvalidPubkeySize(|pubkey|)) && sigSites == old(sigSites)
    {
      if !IsKeySize(|pubkey|) {
        return Err(InvalidPubkeySize(|pubkey|));
      }
      sigSites := sigSites + [Site(pubkey, opcode)];
      return Ok(());
    }

    /** Drain the last `keyCount` pushes into sites. */
    method PushMultisigSites(keyCount: nat, opcode: byte) returns (r: Result<(), LeafError>)
      modifies this`sigSites, this`pushBuffer
      ensures |old(pushBuffer)| < keyCount ==> r == Err(MultisigPubkeyCountMismatch(keyCount, |old(pushBuffer)|))
      ensures keyCount <= |old(pushBuffer)| ==>
                var start := |old(pushBuffer)| - keyCount;
                match AddSites(old(sigSites), old(pushBuffer)[start..], opcode)
                case Err(e) => r == Err(e)
                case Ok(sites) => r.Ok? && sigSites == sites && pushBuffer == old(pushBuffer)[..start]
    {
      if |pushBuffer| < keyCount {
        return Err(MultisigPubkeyCountMismatch(keyCount, |pushBuffer|));
      }
      var start := |pushBuffer| - keyCount;
      var drained := pushBuffer[start..];
      pushBuffer := pushBuffer[..start];
      var i := 0;
      assert drained[0..] == drained;
      while i < |drained|
        invariant 0 <= i <= |drained|
        invariant AddSites(sigSites, drained[i..], opcode) == AddSites(old(sigSites), drained, opcode)
        invariant pushBuffer == old(pushBuffer)[..start]
      {
        assert drained[i..][0] == drained[i] && drained[i..][1..] == drained[i + 1..];
        r := PushSingleSigSite(drained[i], opcode);
        if r.Err? {
          return;
        }
        i := i + 1;
      }
      return Ok(());
    }

    method OnPush(data: Bytes)
      modifies this
      ensures Step(old(View()), Push(data)) == Ok(View())
    {
      if data == [] {
        lastPush := None;
      } else {
        pushBuffer := pushBuffer + [data];
        lastPush := Some(pushBuffer[|pushBuffer| - 1]);
      }
    }

    method OnOpcode(opcode: byte) returns (r: Result<(), LeafError>)
      modifies this
      ensures match Step(old(View()), Op(opcode))
              case Ok(registers) => r.Ok? && View() == registers
              case Err(e) => r == Err(e)
    {
      if opcode == OP_SUBSTR {
        return Err(OpSubstrForbidden);
      }
      if IsSigCheck(opcode) {
        if IsMultisig(opcode) {
          var keyCount := pendingMultisigKeys;
          pendingMultisigKeys := None;
          if keyCount.None? {
            return Err(MultisigMissingKeyCount);
          }
          r := PushMultisigSites(keyCount.value, opcode);
          if r.Err? {
            return;
          }
          lastPush := None;
          return Ok(());
        }
        var pubkey := lastPush;
        lastPush := None;
        if pubkey.None? {
          return Err(MissingPubkeyPush);
        }
        AddOneSite(sigSites, pubkey.value, opcode);
        r := PushSingleSigSite(pubkey.value, opcode);
        if r.Err? {
          return;
        }
        pushBuffer := [];
        pendingMultisigKeys := None;
        return Ok(());
      }
      if DecodePushNum(opcode).Some? {
        pendingMultisigKeys := DecodePushNum(opcode);
        lastPush := None;
        return Ok(());
      }
      if opcode == OP_BOOLAND || opcode == OP_VERIFY {
        lastPush := None;
        return Ok(());
      }
      return Err(ForbiddenOpcode(opcode));
    }
  }

  method ParseLeafScript(script: Bytes) returns (r: Result<seq<Site>, LeafError>)
    ensures r == Parse(script)
  {
    if script == [] {
      return Err(EmptyScript);
    }
    if |script| > MAX_P2MR_LEAF_SCRIPT_SIZE {
      return Err(LeafScriptTooLarge);
    }
    var p := new LeafParser();
    var rest := script;
    while rest != []
      invariant Walk(p.View(), rest) == Walk(START, script)
      decreases |rest|
    {
      var decoded := DecodeOne(rest);
      if decoded.Truncated? {
        return Err(InvalidOpcode);
      }
      match decoded.instr {
        case Push(data) => p.OnPush(data);
        case Op(opcode) =>
          var ok := p.OnOpcode(opcode);
          if ok.Err? {
            return Err(ok.error);
          }
      }
      rest := rest[decoded.size..];
    }
    if p.pendingMultisigKeys.Some? {
      return Err(DanglingMultisigKeyCount);
    }
    if p.sigSites == [] {
      return Err(NoSigCheckOpcode);
    }
    return Ok(p.sigSites);
  }
}

/** P2MR leaf scripts: instructions, the parser's registers, and what parsing guarantees. */
module LeafScripts {
  import opened Common
  import opened Limits

  const OP_PUSHDATA1: byte := 0x4c
  const OP_PUSHDATA2: byte := 0x4d
  const OP_PUSHDATA4: byte := 0x4e
  const OP_PUSHNUM_1: byte := 0x51
  const OP_PUSHNUM_16: byte := 0x60
  const OP_VERIFY: byte := 0x69
  const OP_SUBSTR: byte := 0x7f
  const OP_BOOLAND: byte := 0x9a
  const OP_CHECKSIG: byte := 0xac
  const OP_CHECKSIGVERIFY: byte := 0xad
  const OP_CHECKMULTISIG: byte := 0xae
  const OP_CHECKMULTISIGVERIFY: byte := 0xaf
  const OP_CHECKSIGADD: byte := 0xba

  // ---------------------------------------------------------------- instructions

  datatype Instruction = Push(data: Bytes) | Op(opcode: byte)

  /** The next instruction of a script and its encoded length; None when a push is cut short. */
  datatype Decoded = Decoded(instr: Instruction, size: nat) | Truncated

  /** A push whose length is given by the `width` bytes after the opcode. */
  function DecodePushData(script: Bytes, width: nat): Decoded {
    if |script| < 1 + width then Truncated
    else
      var len := LittleEndian(script[1..1 + width]);
      if |script| < 1 + width + len then Truncated
      else Decoded(Push(script[1 + width..1 + width + len]), 1 + width + len)
  }

  function DecodeOne(script: Bytes): (d: Decoded)
    requires script != []
    ensures d.Decoded? ==> 1 <= d.size <= |script|
    ensures d.Decoded? && d.instr.Push? ==> |d.instr.data| < d.size
  {
    var op := script[0];
    if op < OP_PUSHDATA1 then
      var len := op as nat;
      if |script| < 1 + len then Truncated else Decoded(Push(script[1..1 + len]), 1 + len)
    else if op == OP_PUSHDATA1 then DecodePushData(script, 1)
    else if op == OP_PUSHDATA2 then DecodePushData(script, 2)
    else if op == OP_PUSHDATA4 then DecodePushData(script, 4)
    else Decoded(Op(op), 1)
  }

  /** Decoding looks no further than the instruction itself. */
  lemma DecodeOneIgnoresRest(a: Bytes, b: Bytes)
    requires a != [] && DecodeOne(a).Decoded?
    ensures DecodeOne(a + b) == DecodeOne(a)
  {
    var s := a + b;
    assert s[0] == a[0];
    assert forall i, j :: 0 <= i <= j <= |a| ==> s[i..j] == a[i..j];
  }

  // ---------------------------------------------------------------- the parser's registers

  datatype Site = Site(pubkey: Bytes, opcode: byte)

  datatype LeafError =
    | OpSubstrForbidden
    | InvalidOpcode
    | ForbiddenOpcode(opcode: byte)
    | NoSigCheckOpcode
    | MissingPubkeyPush
    | InvalidPubkeySize(size: nat)
    | WitnessSigCountMismatch(witnessSigs: nat, scriptSites: nat)
    | MultisigMissingKeyCount
    | MultisigPubkeyCountMismatch(expected: nat, found: nat)
    | DanglingMultisigKeyCount
    | LeafScriptTooLarge
    | EmptyScript

  /** Sites found so far, the last push if a key may still be taken from it, the pushes, a key count. */
  datatype Registers = Registers(
    sites: seq<Site>,
    lastPush: Option<Bytes>,
    pushes: seq<Bytes>,
    pendingKeys: Option<nat>)

  const START := Registers([], None, [], None)

  predicate IsMultisig(op: byte) {
    op == OP_CHECKMULTISIG || op == OP_CHECKMULTISIGVERIFY
  }

  predicate IsSigCheck(op: byte) {
    IsMultisig(op) || op == OP_CHECKSIG || op == OP_CHECKSIGVERIFY || op == OP_CHECKSIGADD
  }

  function DecodePushNum(op: byte): (n: Option<nat>)
    ensures n.Some? ==> 1 <= n.value <= 16
  {
    if OP_PUSHNUM_1 <= op <= OP_PUSHNUM_16 then Some((op - OP_PUSHNUM_1) as nat + 1) else None
  }

  predicate IsKeySize(size: nat) {
    size == SLH_DSA_PUBLIC_KEY_SIZE || size == ML_DSA_44_PUBLIC_KEY_SIZE
  }

  /** One site for each key, in order; the first key of a wrong size is an error. */
  function AddSites(sites: seq<Site>, keys: seq<Bytes>, op: byte): Result<seq<Site>, LeafError>
    decreases |keys|
  {
    if keys == [] then Ok(sites)
    else if !IsKeySize(|keys[0]|) then Err(InvalidPubkeySize(|keys[0]|))
    else AddSites(sites + [Site(keys[0], op)], keys[1..], op)
  }

  lemma AddOneSite(sites: seq<Site>, key: Bytes, op: byte)
    ensures AddSites(sites, [key], op)
         == if IsKeySize(|key|) then Ok(sites + [Site(key, op)]) else Err(InvalidPubkeySize(|key|))
  {
  }

  /** The last `n` pushes become sites; the earlier ones stay. */
  function TakeMultisig(r: Registers, op: byte): Result<Registers, LeafError> {
    match r.pendingKeys
    case None => Err(MultisigMissingKeyCount)
    case Some(n) =>
      if |r.pushes| < n then Err(MultisigPubkeyCountMismatch(n, |r.pushes|))
      else
        match AddSites(r.sites, r.pushes[|r.pushes| - n..], op)
        case Err(e) => Err(e)
        case Ok(sites) => Ok(Registers(sites, None, r.pushes[..|r.pushes| - n], None))
  }

  /** The last push becomes a site; all pushes and a pending count are forgotten. */
  function TakeSingle(r: Registers, op: byte): Result<Registers, LeafError> {
    match r.lastPush
    case None => Err(MissingPubkeyPush)
    case Some(key) =>
      match AddSites(r.sites, [key], op)
      case Err(e) => Err(e)
      case Ok(sites) => Ok(Registers(sites, None, [], None))
  }

  function Step(r: Registers, instr: Instruction): Result<Registers, LeafError> {
    match instr
    case Push(data) =>
      if data == [] then Ok(r.(lastPush := None))
      else Ok(r.(pushes := r.pushes + [data], lastPush := Some(data)))
    case Op(op) =>
      if op == OP_SUBSTR then Err(OpSubstrForbidden)
      else if IsMultisig(op) then TakeMultisig(r, op)
      else if IsSigCheck(op) then TakeSingle(r, op)
      else if DecodePushNum(op).Some? then Ok(r.(pendingKeys := DecodePushNum(op), lastPush := None))
      else if op == OP_BOOLAND || op == OP_VERIFY then Ok(r.(lastPush := None))
      else Err(ForbiddenOpcode(op))
  }

  function Walk(r: Registers, script: Bytes): Result<Registers, LeafError>
    decreases |script|
  {
    if script == [] then Ok(r)
    else
      match DecodeOne(script)
      case Truncated => Err(InvalidOpcode)
      case Decoded(instr, size) =>
        match Step(r, instr)
        case Err(e) => Err(e)
        case Ok(r') => Walk(r', script[size..])
  }

  function Parse(script: Bytes): Result<seq<Site>, LeafError> {
    if script == [] then Err(EmptyScript)
    else if |script| > MAX_P2MR_LEAF_SCRIPT_SIZE then Err(LeafScriptTooLarge)
    else
      match Walk(START, script)
      case Err(e) => Err(e)
      case Ok(r) =>
        if r.pendingKeys.Some? then Err(DanglingMultisigKeyCount)
        else if r.sites == [] then Err(NoSigCheckOpcode)
        else Ok(r.sites)
  }

  /** The number of witness signatures must be the number of sites. */
  function ValidateWitnessSigCount(script: Bytes, witnessSigs: nat): Result<seq<Site>, LeafError> {
    match Parse(script)
    case Err(e) => Err(e)
    case Ok(sites) =>
      if witnessSigs != |sites| then Err(WitnessSigCountMismatch(witnessSigs, |sites|)) else Ok(sites)
  }

  // ---------------------------------------------------------------- composition

  lemma {:induction false} AddSitesAppends(sites: seq<Site>, keys: seq<Bytes>, op: byte)
    ensures AddSites(sites, keys, op).Ok? <==> forall i :: 0 <= i < |keys| ==> IsKeySize(|keys[i]|)
    ensures AddSites(sites, keys, op).Ok? ==>
              AddSites(sites, keys, op).value == sites + seq(|keys|, i requires 0 <= i < |keys| => Site(keys[i], op))
    decreases |keys|
  {
    if keys != [] {
      AddSitesAppends(sites + [Site(keys[0], op)], keys[1..], op);
      if AddSites(sites, keys, op).Ok? {
        forall i | 0 <= i < |keys| ensures IsKeySize(|keys[i]|) {
          if i > 0 { assert keys[1..][i - 1] == keys[i]; }
        }
      }
    }
  }

  /** Registers that did more before: earlier sites, leftover pushes, perhaps a stale last push. */
  ghost predicate Extends(r: Registers, before: seq<Site>, leftover: seq<Bytes>, r': Registers) {
    && r'.sites == before + r.sites
    && r'.pushes == leftover + r.pushes
    && r'.pendingKeys == r.pendingKeys
    && (r.lastPush.Some? ==> r'.lastPush == r.lastPush)
  }

  lemma MultisigExtends(r: Registers, before: seq<Site>, leftover: seq<Bytes>, r': Registers, op: byte)
    requires Extends(r, before, leftover, r') && TakeMultisig(r, op).Ok?
    ensures TakeMultisig(r', op).Ok?
    ensures Extends(TakeMultisig(r, op).value, before, leftover, TakeMultisig(r', op).value)
  {
    var n := r.pendingKeys.value;
    var keys := r.pushes[|r.pushes| - n..];
    assert r'.pushes[|r'.pushes| - n..] == keys;
    assert r'.pushes[..|r'.pushes| - n] == leftover + r.pushes[..|r.pushes| - n];
    AddSitesAppends(r.sites, keys, op);
    AddSitesAppends(r'.sites, keys, op);
  }

  lemma SingleExtends(r: Registers, before: seq<Site>, leftover: seq<Bytes>, r': Registers, op: byte)
    requires Extends(r, before, leftover, r') && TakeSingle(r, op).Ok?
    ensures TakeSingle(r', op).Ok?
    ensures Extends(TakeSingle(r, op).value, before, [], TakeSingle(r', op).value)
  {
    AddOneSite(r.sites, r.lastPush.value, op);
    AddOneSite(r'.sites, r.lastPush.value, op);
  }

  /** Where the fresh parser goes on, the parser with a past goes on alike. */
  lemma StepExtends(r: Registers, before: seq<Site>, leftover: seq<Bytes>, r': Registers, instr: Instruction)
    returns (leftover': seq<Bytes>)
    requires Extends(r, before, leftover, r') && Step(r, instr).Ok?
    ensures Step(r', instr).Ok?
    ensures Extends(Step(r, instr).value, before, leftover', Step(r', instr).value)
  {
    leftover' := leftover;
    if instr.Op? && IsMultisig(instr.opcode) {
      MultisigExtends(r, before, leftover, r', instr.opcode);
    } else if instr.Op? && IsSigCheck(instr.opcode) {
      SingleExtends(r, before, leftover, r', instr.opcode);
      leftover' := [];
    } else if instr.Push? && instr.data != [] {
      assert leftover + r.pushes + [instr.data] == leftover + (r.pushes + [instr.data]);
    }
  }

  lemma {:induction false} WalkExtends(r: Registers, before: seq<Site>, leftover: seq<Bytes>, r': Registers,
                                       script: Bytes)
    requires Extends(r, before, leftover, r') && Walk(r, script).Ok?
    ensures Walk(r', script).Ok?
    ensures Walk(r', script).value.sites == before + Walk(r, script).value.sites
    ensures Walk(r', script).value.pendingKeys == Walk(r, script).value.pendingKeys
    decreases |script|
  {
    if script != [] {
      var d := DecodeOne(script);
      var leftover' := StepExtends(r, before, leftover, r', d.instr);
      WalkExtends(Step(r, d.instr).value, before, leftover', Step(r', d.instr).value, script[d.size..]);
    }
  }

  /** A walked script is instruction-aligned: walking on is walking the concatenation. */
  lemma {:induction false} WalkConcat(r: Registers, a: Bytes, b: Bytes)
    requires Walk(r, a).Ok?
    ensures Walk(r, a + b) == Walk(Walk(r, a).value, b)
    decreases |a|
  {
    if a == [] {
      assert a + b == b;
    } else {
      var d := DecodeOne(a);
      DecodeOneIgnoresRest(a, b);
      assert (a + b)[d.size..] == a[d.size..] + b;
      WalkConcat(Step(r, d.instr).value, a[d.size..], b);
    }
  }

  /**
   * Parsing is compositional: two scripts that parse and together fit the limit parse as one, with
   * the two site lists appended, whatever pushes the first one leaves behind.
   */
  lemma ParseConcat(a: Bytes, b: Bytes)
    requires Parse(a).Ok? && Parse(b).Ok? && |a + b| <= MAX_P2MR_LEAF_SCRIPT_SIZE
    ensures Parse(a + b) == Ok(Parse(a).value + Parse(b).value)
  {
    WalkConcat(START, a, b);
    var after := Walk(START, a).value;
    WalkExtends(START, after.sites, after.pushes, after, b);
  }

  // ---------------------------------------------------------------- what the pushes pay for

  /** The non-empty pushes of a script, in order. */
  function PushesOf(script: Bytes): seq<Bytes>
    decreases |script|
  {
    if script == [] || DecodeOne(script).Truncated? then []
    else
      var d := DecodeOne(script);
      (if d.instr.Push? && d.instr.data != [] then [d.instr.data] else []) + PushesOf(script[d.size..])
  }

  function Keys(sites: seq<Site>): (k: seq<Bytes>)
    ensures |k| == |sites| && forall i :: 0 <= i < |k| ==> k[i] == sites[i].pubkey
  {
    seq(|sites|, i requires 0 <= i < |sites| => sites[i].pubkey)
  }

  /** A last push that may still become a key is the last element of the push buffer. */
  ghost predicate LastPushIsLast(r: Registers) {
    r.lastPush.Some? ==> r.pushes != [] && r.pushes[|r.pushes| - 1] == r.lastPush.value
  }

  /** Bytes needed to push everything in the list. */
  function Weight(pushes: seq<Bytes>): nat {
    if pushes == [] then 0 else |pushes[0]| + 1 + Weight(pushes[1..])
  }

  lemma {:induction false} WeightConcat(a: seq<Bytes>, b: seq<Bytes>)
    ensures Weight(a + b) == Weight(a) + Weight(b)
    decreases |a|
  {
    if a == [] {
      assert a + b == b;
    } else {
      assert (a + b)[1..] == a[1..] + b;
      WeightConcat(a[1..], b);
    }
  }

  /** What is held, in sixteenths of a byte: keys and pushes at full weight, opcodes shared by 16 keys. */
  function Held(r: Registers): nat {
    16 * Weight(Keys(r.sites)) + 2 * |r.sites| + 16 * Weight(r.pushes) + if r.pendingKeys.Some? then 16 else 0
  }

  ghost predicate Accounted(r: Registers) {
    && LastPushIsLast(r)
    && (r.pendingKeys.Some? ==> r.pendingKeys.value <= 16)
    && forall i :: 0 <= i < |r.sites| ==> IsKeySize(|r.sites[i].pubkey|) && IsSigCheck(r.sites[i].opcode)
  }

  /** Moving keys from the pushes to the sites neither copies nor loses any. */
  lemma MovedKeys(sites: seq<Site>, pushes: seq<Bytes>, n: nat, op: byte)
    requires n <= |pushes|
    requires AddSites(sites, pushes[|pushes| - n..], op).Ok?
    ensures var sites' := AddSites(sites, pushes[|pushes| - n..], op).value;
            && |sites'| == |sites| + n
            && Weight(Keys(sites')) + Weight(pushes[..|pushes| - n]) == Weight(Keys(sites)) + Weight(pushes)
            && multiset(Keys(sites')) + multiset(pushes[..|pushes| - n]) == multiset(Keys(sites)) + multiset(pushes)
            && (forall i :: |sites| <= i < |sites'| ==> IsKeySize(|sites'[i].pubkey|) && sites'[i].opcode == op)
            && sites'[..|sites|] == sites
  {
    var keys, rest := pushes[|pushes| - n..], pushes[..|pushes| - n];
    AddSitesAppends(sites, keys, op);
    var sites' := AddSites(sites, keys, op).value;
    assert Keys(sites') == Keys(sites) + keys;
    assert pushes == rest + keys;
    WeightConcat(Keys(sites), keys);
    WeightConcat(rest, keys);
  }

  lemma PushAccounts(r: Registers, data: Bytes)
    requires Accounted(r) && data != []
    ensures var r' := Step(r, Push(data)).value;
            && Accounted(r')
            && Held(r') == Held(r) + 16 * (|data| + 1)
            && multiset(r'.pushes) == multiset(r.pushes) + multiset{data}
  {
    WeightConcat(r.pushes, [data]);
  }

  lemma MultisigAccounts(r: Registers, op: byte)
    requires Accounted(r) && IsMultisig(op) && TakeMultisig(r, op).Ok?
    ensures var r' := TakeMultisig(r, op).value;
            && Accounted(r')
            && Held(r') <= Held(r) + 16
            && multiset(Keys(r'.sites)) + multiset(r'.pushes) == multiset(Keys(r.sites)) + multiset(r.pushes)
  {
    MovedKeys(r.sites, r.pushes, r.pendingKeys.value, op);
  }

  lemma SingleAccounts(r: Registers, op: byte)
    requires Accounted(r) && IsSigCheck(op) && TakeSingle(r, op).Ok?
    ensures var r' := TakeSingle(r, op).value;
            && Accounted(r')
            && Held(r') <= Held(r) + 16
            && multiset(Keys(r'.sites)) + multiset(r'.pushes) <= multiset(Keys(r.sites)) + multiset(r.pushes)
  {
    assert r.pushes[|r.pushes| - 1..] == [r.lastPush.value];
    MovedKeys(r.sites, r.pushes, 1, op);
  }

  /** What an instruction brings in. */
  function Brought(instr: Instruction): multiset<Bytes> {
    if instr.Push? && instr.data != [] then multiset{instr.data} else multiset{}
  }

  /** One instruction: nothing is held that was not read, and each opcode is paid for. */
  lemma StepAccounts(r: Registers, instr: Instruction, size: nat)
    requires Accounted(r) && Step(r, instr).Ok?
    requires size >= 1 && (instr.Push? ==> |instr.data| < size)
    ensures var r' := Step(r, instr).value;
            && Accounted(r')
            && Held(r') <= Held(r) + 16 * size
            && multiset(Keys(r'.sites)) + multiset(r'.pushes)
               <= multiset(Keys(r.sites)) + multiset(r.pushes) + Brought(instr)
  {
    if instr.Push? {
      if instr.data != [] {
        PushAccounts(r, instr.data);
      }
    } else if IsMultisig(instr.opcode) {
      MultisigAccounts(r, instr.opcode);
    } else if IsSigCheck(instr.opcode) {
      SingleAccounts(r, instr.opcode);
    }
  }

  lemma {:induction false} WalkAccounts(r: Registers, script: Bytes)
    requires Accounted(r) && Walk(r, script).Ok?
    ensures var r' := Walk(r, script).value;
            && Accounted(r')
            && Held(r') <= Held(r) + 16 * |script|
            && multiset(Keys(r'.sites)) + multiset(r'.pushes)
               <= multiset(Keys(r.sites)) + multiset(r.pushes) + multiset(PushesOf(script))
    decreases |script|
  {
    if script != [] {
      var d := DecodeOne(script);
      StepAccounts(r, d.instr, d.size);
      WalkAccounts(Step(r, d.instr).value, script[d.size..]);
    }
  }

  lemma {:induction false} WeightOfKeys(sites: seq<Site>)
    requires forall i :: 0 <= i < |sites| ==> IsKeySize(|sites[i].pubkey|)
    ensures Weight(Keys(sites)) >= 33 * |sites|
    decreases |sites|
  {
    if sites != [] {
      assert Keys(sites)[1..] == Keys(sites[1..]);
      WeightOfKeys(sites[1..]);
    }
  }

  /**
   * Push accounting: every site has a key of a known size and a signature-check opcode, no push
   * feeds two sites, and the keys fit in the script with their pushes, so there are at most 301.
   */
  lemma ParsedSitesArePaidFor(script: Bytes)
    requires Parse(script).Ok?
    ensures var sites := Parse(script).value;
            && 0 < |sites| <= 301
            && (forall i :: 0 <= i < |sites| ==> IsKeySize(|sites[i].pubkey|) && IsSigCheck(sites[i].opcode))
            && multiset(Keys(sites)) <= multiset(PushesOf(script))
            && Weight(Keys(sites)) <= |script|
  {
    WalkAccounts(START, script);
    var r, read := Walk(START, script).value, multiset(PushesOf(script));
    assert multiset(Keys(START.sites)) + multiset(START.pushes) + read == read;
    assert multiset(Keys(r.sites)) <= multiset(Keys(r.sites)) + multiset(r.pushes);
    WeightOfKeys(Parse(script).value);
  }

  // ---------------------------------------------------------------- the bound is reached

  function SampleKey(): (k: Bytes)
    ensures |k| == 32
  {
    seq(32, _ => 3)
  }

  function SamplePushes(n: nat): Bytes {
    if n == 0 then [] else [32] + SampleKey() + SamplePushes(n - 1)
  }

  lemma WalkOneSamplePush(r: Registers, rest: Bytes)
    ensures Walk(r, [32] + SampleKey() + rest)
         == Walk(r.(pushes := r.pushes + [SampleKey()], lastPush := Some(SampleKey())), rest)
  {
  }

  lemma {:induction false} WalkSamplePushes(pushes: seq<Bytes>, last: Option<Bytes>, n: nat, rest: Bytes)
    ensures |SamplePushes(n)| == 33 * n
    ensures Walk(Registers([], last, pushes, None), SamplePushes(n) + rest)
         == Walk(Registers([], if n == 0 then last else Some(SampleKey()), pushes + Repeated(n, SampleKey()), None),
                 rest)
    decreases n
  {
    if n == 0 {
      assert SamplePushes(n) + rest == rest && pushes + Repeated(0, SampleKey()) == pushes;
    } else {
      assert SamplePushes(n) + rest == [32] + SampleKey() + (SamplePushes(n - 1) + rest);
      WalkOneSamplePush(Registers([], last, pushes, None), SamplePushes(n - 1) + rest);
      WalkSamplePushes(pushes + [SampleKey()], Some(SampleKey()), n - 1, rest);
      assert pushes + [SampleKey()] + Repeated(n - 1, SampleKey()) == pushes + Repeated(n, SampleKey());
    }
  }

  /** `n` keys, their count and one multisig check. */
  function SampleGroup(n: nat): Bytes
    requires 1 <= n <= 16
  {
    SamplePushes(n) + [0x50 + n as byte, OP_CHECKMULTISIG]
  }

  lemma GroupParses(n: nat)
    requires 1 <= n <= 16
    ensures Parse(SampleGroup(n)).Ok? && |Parse(SampleGroup(n)).value| == n
    ensures |SampleGroup(n)| == 33 * n + 2
  {
    var ops := [0x50 + n as byte, OP_CHECKMULTISIG];
    WalkSamplePushes([], None, n, ops);
    assert [] + Repeated(n, SampleKey()) == Repeated(n, SampleKey());
    var r1 := Registers([], Some(SampleKey()), Repeated(n, SampleKey()), None);
    var r2 := Registers([], None, Repeated(n, SampleKey()), Some(n));
    assert ops[1..] == [OP_CHECKMULTISIG] && ops[1..][1..] == [];
    assert Step(r1, Op(ops[0])) == Ok(r2);
    assert Repeated(n, SampleKey())[0..] == Repeated(n, SampleKey());
    AddSitesAppends([], Repeated(n, SampleKey()), OP_CHECKMULTISIG);
    assert Walk(r2, [OP_CHECKMULTISIG]) == Step(r2, Op(OP_CHECKMULTISIG));
  }

  function SampleGroups(m: nat): Bytes
    requires m >= 1
  {
    if m == 1 then SampleGroup(16) else SampleGroup(16) + SampleGroups(m - 1)
  }

  lemma {:induction false} GroupsParse(m: nat)
    requires 1 <= m <= 18
    ensures Parse(SampleGroups(m)).Ok? && |Parse(SampleGroups(m)).value| == 16 * m
    ensures |SampleGroups(m)| == 530 * m
    decreases m
  {
    GroupParses(16);
    if m > 1 {
      GroupsParse(m - 1);
      ParseConcat(SampleGroup(16), SampleGroups(m - 1));
    }
  }

  /** Eighteen checks of sixteen keys and one of thirteen: a script with 301 sites. */
  lemma BoundIsReached() returns (script: Bytes)
    ensures Parse(script).Ok? && |Parse(script).value| == 301
  {
    GroupsParse(18);
    GroupParses(13);
    script := SampleGroups(18) + SampleGroup(13);
    ParseConcat(SampleGroups(18), SampleGroup(13));
  }
}

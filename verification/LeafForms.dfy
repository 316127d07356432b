/** Leaf scripts byte by byte: what each instruction of the usual forms does to the parsed sites. */
module LeafForms {
  import opened Common
  import opened LeafScripts

  // ---------------------------------------------------------------- pushes

  /** A push with its length in the opcode, or in one, two or four bytes after it. */
  datatype PushForm = Direct | InOneByte | InTwoBytes | InFourBytes

  predicate Fits(form: PushForm, size: nat) {
    match form
    case Direct => size <= 75
    case InOneByte => size < 0x100
    case InTwoBytes => size < 0x1_0000
    case InFourBytes => size < 0x1_0000_0000
  }

  function Pushed(form: PushForm, data: Bytes): Bytes
    requires Fits(form, |data|)
  {
    var n := |data|;
    match form
    case Direct => [n as byte] + data
    case InOneByte => [0x4c, n as byte] + data
    case InTwoBytes => [0x4d, (n % 0x100) as byte, (n / 0x100) as byte] + data
    case InFourBytes =>
      [0x4e, (n % 0x100) as byte, (n / 0x100 % 0x100) as byte, (n / 0x1_0000 % 0x100) as byte,
       (n / 0x100_0000) as byte] + data
  }

  lemma OneByte(b: byte)
    ensures LittleEndian([b]) == b as nat
  {
    assert [b][1..] == [];
  }

  lemma TwoBytes(n: nat)
    requires n < 0x1_0000
    ensures LittleEndian([(n % 0x100) as byte, (n / 0x100) as byte]) == n
  {
    var b: Bytes := [(n % 0x100) as byte, (n / 0x100) as byte];
    assert b[1..] == [b[1]];
    OneByte(b[1]);
  }

  lemma FourBytes(b0: byte, b1: byte, b2: byte, b3: byte)
    ensures LittleEndian([b0, b1, b2, b3])
         == b0 as nat + 0x100 * b1 as nat + 0x1_0000 * b2 as nat + 0x100_0000 * b3 as nat
  {
    var b := [b0, b1, b2, b3];
    assert b[1..] == [b1, b2, b3] && b[1..][1..] == [b2, b3] && b[2..] == [b2, b3];
    assert b[2..][1..] == [b3];
    OneByte(b3);
    assert LittleEndian([b2, b3]) == b2 as nat + 0x100 * b3 as nat;
    assert LittleEndian([b1, b2, b3]) == b1 as nat + 0x100 * LittleEndian([b2, b3]);
  }

  lemma FourDigits(n: nat)
    requires n < 0x1_0000_0000
    ensures n == n % 0x100 + 0x100 * (n / 0x100 % 0x100) + 0x1_0000 * (n / 0x1_0000 % 0x100)
                 + 0x100_0000 * (n / 0x100_0000)
  {
    assert n == n % 0x100 + 0x100 * (n / 0x100);
    assert n / 0x100 == n / 0x100 % 0x100 + 0x100 * (n / 0x1_0000);
    assert n / 0x1_0000 == n / 0x1_0000 % 0x100 + 0x100 * (n / 0x100_0000);
  }

  /** Every form of a push is read as the data pushed, and no further. */
  lemma PushedIsDecoded(form: PushForm, data: Bytes, rest: Bytes)
    requires Fits(form, |data|)
    ensures DecodeOne(Pushed(form, data) + rest) == Decoded(Push(data), |Pushed(form, data)|)
  {
    var s, n := Pushed(form, data) + rest, |data|;
    match form {
      case Direct => assert s[1..1 + n] == data;
      case InOneByte =>
        assert s[1..2] == [n as byte];
        OneByte(n as byte);
        assert s[2..2 + n] == data;
      case InTwoBytes =>
        TwoBytes(n);
        assert s[1..3] == [(n % 0x100) as byte, (n / 0x100) as byte];
        assert s[3..3 + n] == data;
      case InFourBytes =>
        FourDigits(n);
        FourBytes((n % 0x100) as byte, (n / 0x100 % 0x100) as byte, (n / 0x1_0000 % 0x100) as byte,
                  (n / 0x100_0000) as byte);
        assert s[1..5] == [(n % 0x100) as byte, (n / 0x100 % 0x100) as byte, (n / 0x1_0000 % 0x100) as byte,
                           (n / 0x100_0000) as byte];
        assert s[5..5 + n] == data;
    }
  }

  lemma WalkPushed(r: Registers, form: PushForm, data: Bytes, rest: Bytes)
    requires Fits(form, |data|) && data != []
    ensures Walk(r, Pushed(form, data) + rest)
         == Walk(Registers(r.sites, Some(data), r.pushes + [data], r.pendingKeys), rest)
  {
    PushedIsDecoded(form, data, rest);
    assert (Pushed(form, data) + rest)[|Pushed(form, data)|..] == rest;
  }

  function Onward(step: Result<Registers, LeafError>, rest: Bytes): Result<Registers, LeafError> {
    if step.Err? then step else Walk(step.value, rest)
  }

  lemma WalkOp(r: Registers, op: byte, rest: Bytes)
    requires op > 0x4e
    ensures Walk(r, [op] + rest) == Onward(Step(r, Op(op)), rest)
  {
    assert DecodeOne([op] + rest) == Decoded(Op(op), 1);
    assert ([op] + rest)[1..] == rest;
  }

  lemma WalkEmptyPush(r: Registers, rest: Bytes)
    ensures Walk(r, [0x00] + rest) == Walk(r.(lastPush := None), rest)
  {
    assert DecodeOne([0x00] + rest) == Decoded(Push([]), 1);
    assert ([0x00] + rest)[1..] == rest;
  }

  // ---------------------------------------------------------------- one key, one check

  predicate IsSingleCheck(op: byte) {
    op == 0xac || op == 0xad || op == 0xba
  }

  predicate IsMultiCheck(op: byte) {
    op == 0xae || op == 0xaf
  }

  lemma StepSingle(r: Registers, key: Bytes, op: byte)
    requires IsSingleCheck(op) && r.lastPush == Some(key)
    ensures Step(r, Op(op))
         == if |key| == 32 || |key| == 1312 then Ok(Registers(r.sites + [Site(key, op)], None, [], None))
            else Err(InvalidPubkeySize(|key|))
  {
    AddOneSite(r.sites, key, op);
  }

  /** A pushed key and any of the three single checks: exactly one site, with this key and this check. */
  lemma SingleCheckParses(form: PushForm, key: Bytes, op: byte)
    requires Fits(form, |key|) && key != [] && |Pushed(form, key)| < 10_000 && IsSingleCheck(op)
    ensures Parse(Pushed(form, key) + [op])
         == if |key| == 32 || |key| == 1312 then Ok([Site(key, op)]) else Err(InvalidPubkeySize(|key|))
  {
    var r := Registers([], Some(key), [key], None);
    WalkPushed(START, form, key, [op]);
    assert [] + [key] == [key] && [op] + [] == [op] && [] + [Site(key, op)] == [Site(key, op)];
    WalkOp(r, op, []);
    StepSingle(r, key, op);
  }

  // ---------------------------------------------------------------- several keys, one check

  /** A push with its form. */
  type FormedPush = (PushForm, Bytes)

  predicate AllFit(ps: seq<FormedPush>) {
    forall i :: 0 <= i < |ps| ==> Fits(ps[i].0, |ps[i].1|) && ps[i].1 != []
  }

  function PushAll(ps: seq<FormedPush>): Bytes
    requires AllFit(ps)
  {
    if ps == [] then [] else Pushed(ps[0].0, ps[0].1) + PushAll(ps[1..])
  }

  function Data(ps: seq<FormedPush>): (d: seq<Bytes>)
    ensures |d| == |ps| && forall i :: 0 <= i < |d| ==> d[i] == ps[i].1
  {
    if ps == [] then [] else [ps[0].1] + Data(ps[1..])
  }

  lemma {:induction false} WalkAll(r: Registers, ps: seq<FormedPush>, rest: Bytes)
    requires AllFit(ps)
    ensures Walk(r, PushAll(ps) + rest)
         == Walk(Registers(r.sites, if ps == [] then r.lastPush else Some(ps[|ps| - 1].1), r.pushes + Data(ps),
                           r.pendingKeys), rest)
    decreases |ps|
  {
    if ps == [] {
      assert PushAll(ps) + rest == rest && r.pushes + Data(ps) == r.pushes;
    } else {
      var (form, data) := ps[0];
      assert PushAll(ps) + rest == Pushed(form, data) + (PushAll(ps[1..]) + rest);
      WalkPushed(r, form, data, PushAll(ps[1..]) + rest);
      WalkAll(Registers(r.sites, Some(data), r.pushes + [data], r.pendingKeys), ps[1..], rest);
      assert r.pushes + [data] + Data(ps[1..]) == r.pushes + Data(ps);
    }
  }

  function WithSites(sites: Result<seq<Site>, LeafError>, pushes: seq<Bytes>): Result<Registers, LeafError> {
    if sites.Err? then Err(sites.error) else Ok(Registers(sites.value, None, pushes, None))
  }

  /** The number opcode and the check, on pushes that are there. */
  lemma WalkCountAndCheck(r: Registers, n: nat, op: byte)
    requires 1 <= n <= 16 && IsMultiCheck(op)
    ensures Walk(r, [0x50 + n as byte, op])
         == if |r.pushes| < n then Err(MultisigPubkeyCountMismatch(n, |r.pushes|))
            else
              WithSites(AddSites(r.sites, r.pushes[|r.pushes| - n..], op), r.pushes[..|r.pushes| - n])
  {
    var counted := r.(pendingKeys := Some(n), lastPush := None);
    assert [0x50 + n as byte, op] == [0x50 + n as byte] + [op] && [op] + [] == [op];
    WalkOp(r, 0x50 + n as byte, [op]);
    assert Step(r, Op(0x50 + n as byte)) == Ok(counted);
    WalkOp(counted, op, []);
  }

  function MultiScript(ps: seq<FormedPush>, n: nat, op: byte): Bytes
    requires AllFit(ps) && 1 <= n <= 16
  {
    [0x00] + PushAll(ps) + [0x50 + n as byte, op]
  }

  lemma WalkDummyAndPushes(ps: seq<FormedPush>, rest: Bytes)
    requires AllFit(ps)
    ensures Walk(START, [0x00] + PushAll(ps) + rest)
         == Walk(Registers([], if ps == [] then None else Some(ps[|ps| - 1].1), Data(ps), None), rest)
  {
    assert [0x00] + PushAll(ps) + rest == [0x00] + (PushAll(ps) + rest);
    WalkEmptyPush(START, PushAll(ps) + rest);
    WalkAll(START, ps, rest);
    assert [] + Data(ps) == Data(ps);
  }

  lemma CountAndCheckEnd(script: Bytes, last: Option<Bytes>, data: seq<Bytes>, n: nat, op: byte)
    requires 1 <= n <= 16 && IsMultiCheck(op)
    requires Walk(START, script) == Walk(Registers([], last, data, None), [0x50 + n as byte, op])
    ensures Walk(START, script)
         == if |data| < n then Err(MultisigPubkeyCountMismatch(n, |data|))
            else WithSites(AddSites([], data[|data| - n..], op), data[..|data| - n])
  {
    WalkCountAndCheck(Registers([], last, data, None), n, op);
  }

  lemma WalkMultiScript(ps: seq<FormedPush>, n: nat, op: byte)
    requires AllFit(ps) && 1 <= n <= 16 && IsMultiCheck(op)
    ensures Walk(START, MultiScript(ps, n, op))
         == if |ps| < n then Err(MultisigPubkeyCountMismatch(n, |ps|))
            else WithSites(AddSites([], Data(ps)[|ps| - n..], op), Data(ps)[..|ps| - n])
  {
    var last := if ps == [] then None else Some(ps[|ps| - 1].1);
    WalkDummyAndPushes(ps, [0x50 + n as byte, op]);
    CountAndCheckEnd(MultiScript(ps, n, op), last, Data(ps), n, op);
  }

  /**
   * The dummy, any pushes, a count from 1 to 16 and either multisig check: too few pushes are an error
   * with both numbers; otherwise the last keys, in the order they were pushed, each with this check.
   */
  lemma MultiCheckParses(ps: seq<FormedPush>, n: nat, op: byte)
    requires AllFit(ps) && 1 <= n <= 16 && IsMultiCheck(op) && |MultiScript(ps, n, op)| <= 10_000
    ensures |ps| < n ==> Parse(MultiScript(ps, n, op)) == Err(MultisigPubkeyCountMismatch(n, |ps|))
    ensures |ps| >= n ==>
              (Parse(MultiScript(ps, n, op)).Ok?
               <==> forall i :: |ps| - n <= i < |ps| ==> |ps[i].1| == 32 || |ps[i].1| == 1312)
    ensures |ps| >= n && Parse(MultiScript(ps, n, op)).Ok? ==>
              var sites := Parse(MultiScript(ps, n, op)).value;
              |sites| == n && forall i :: 0 <= i < n ==> sites[i] == Site(ps[|ps| - n + i].1, op)
  {
    WalkMultiScript(ps, n, op);
    if |ps| >= n {
      var keys := Data(ps)[|ps| - n..];
      AddSitesAppends([], keys, op);
      forall i | 0 <= i < n ensures keys[i] == ps[|ps| - n + i].1 {
      }
      if forall i :: 0 <= i < n ==> IsKeySize(|keys[i]|) {
        forall i | |ps| - n <= i < |ps| ensures |ps[i].1| == 32 || |ps[i].1| == 1312 {
          assert IsKeySize(|keys[i - (|ps| - n)]|);
        }
      }
    }
  }

  // ---------------------------------------------------------------- what may stand behind a script

  /** The opcodes that stand for no check, behind any script that parses: two do nothing, the others are errors. */
  lemma OpcodeAfterScript(a: Bytes, op: byte)
    requires Parse(a).Ok? && |a| < 10_000 && op > 0x4e && !IsSingleCheck(op) && !IsMultiCheck(op)
    ensures Parse(a + [op])
         == if op == 0x69 || op == 0x9a then Parse(a)
            else if op == 0x7f then Err(OpSubstrForbidden)
            else if 0x51 <= op <= 0x60 then Err(DanglingMultisigKeyCount)
            else Err(ForbiddenOpcode(op))
  {
    var r := Walk(START, a).value;
    WalkConcat(START, a, [op]);
    assert [op] + [] == [op];
    WalkOp(r, op, []);
  }

  /** An empty push does nothing either; a push that is cut short is an error. */
  lemma PushAfterScript(a: Bytes, size: byte, data: Bytes)
    requires Parse(a).Ok? && |a| + 1 + |data| <= 10_000 && size <= 75 && |data| <= size as nat
    ensures Parse(a + ([size] + data)) == if |data| == size as nat then Parse(a) else Err(InvalidOpcode)
  {
    var r, tail := Walk(START, a).value, [size] + data;
    WalkConcat(START, a, tail);
    if |data| == size as nat {
      assert tail == Pushed(Direct, data) + [];
      PushedIsDecoded(Direct, data, []);
      assert tail[|tail|..] == [];
    }
  }

  // ---------------------------------------------------------------- what a check takes and forgets

  /** A single check takes a key only from a push right before it. */
  lemma CheckNeedsItsPush(a: Bytes, between: byte, op: byte)
    requires Parse(a).Ok? && |a| + 2 <= 10_000 && IsSingleCheck(op)
    requires between == 0x00 || between == 0x69 || between == 0x9a || 0x51 <= between <= 0x60
    ensures Parse(a + [between, op]) == Err(MissingPubkeyPush)
    ensures Parse([op]) == Err(MissingPubkeyPush)
  {
    var r := Walk(START, a).value;
    assert [between, op] == [between] + [op] && [op] + [] == [op];
    WalkConcat(START, a, [between, op]);
    WalkOp(START, op, []);
    if between == 0x00 {
      WalkEmptyPush(r, [op]);
      WalkOp(r.(lastPush := None), op, []);
    } else {
      WalkOp(r, between, [op]);
      WalkOp(Step(r, Op(between)).value, op, []);
    }
  }

  /** A multisig check needs a count. */
  lemma MultiCheckNeedsItsCount(a: Bytes, op: byte)
    requires Parse(a).Ok? && |a| < 10_000 && IsMultiCheck(op)
    ensures Parse(a + [op]) == Err(MultisigMissingKeyCount) && Parse([op]) == Err(MultisigMissingKeyCount)
  {
    assert [op] + [] == [op];
    WalkConcat(START, a, [op]);
    WalkOp(START, op, []);
    WalkOp(Walk(START, a).value, op, []);
  }

  /** A leaf with one check takes one signature. */
  lemma SingleCheckTakesOneSignature(form: PushForm, key: Bytes, op: byte, signatures: nat)
    requires Fits(form, |key|) && (|key| == 32 || |key| == 1312) && IsSingleCheck(op)
    ensures ValidateWitnessSigCount(Pushed(form, key) + [op], signatures)
         == if signatures == 1 then Ok([Site(key, op)]) else Err(WitnessSigCountMismatch(signatures, 1))
  {
    SingleCheckParses(form, key, op);
  }

  /** A count before a single check is forgotten. */
  lemma SingleCheckForgetsCount(ps: seq<FormedPush>, n: nat, op: byte)
    requires AllFit(ps) && ps != [] && 1 <= n <= 16 && IsSingleCheck(op) && |PushAll(ps)| + 2 <= 10_000
    requires |ps[|ps| - 1].1| == 32 || |ps[|ps| - 1].1| == 1312
    ensures Parse([0x50 + n as byte] + (PushAll(ps) + [op])) == Ok([Site(ps[|ps| - 1].1, op)])
  {
    var key, count := ps[|ps| - 1].1, 0x50 + n as byte;
    var counted := Registers([], None, [], Some(n));
    var r := Registers([], Some(key), Data(ps), Some(n));
    WalkOp(START, count, PushAll(ps) + [op]);
    assert Step(START, Op(count)) == Ok(counted);
    WalkAll(counted, ps, [op]);
    assert [] + Data(ps) == Data(ps);
    CheckEnds(r, key, op);
  }

  /** A single check at the end, behind the push of its key. */
  lemma CheckEnds(r: Registers, key: Bytes, op: byte)
    requires r.sites == [] && r.lastPush == Some(key) && IsSingleCheck(op) && (|key| == 32 || |key| == 1312)
    ensures Walk(r, [op]) == Ok(Registers([Site(key, op)], None, [], None))
  {
    assert [op] + [] == [op] && [] + [Site(key, op)] == [Site(key, op)];
    WalkOp(r, op, []);
    StepSingle(r, key, op);
  }

  lemma CheckGoesOn(r: Registers, key: Bytes, op: byte, rest: Bytes)
    requires r.sites == [] && r.lastPush == Some(key) && IsSingleCheck(op) && (|key| == 32 || |key| == 1312)
    ensures Walk(r, [op] + rest) == Walk(Registers([Site(key, op)], None, [], None), rest)
  {
    CheckEnds(r, key, op);
    WalkConcat(r, [op], rest);
  }

  /** The pushes before a single check are forgotten: none is left for a multisig check. */
  lemma SingleCheckForgetsPushes(ps: seq<FormedPush>, n: nat, op: byte, multi: byte)
    requires AllFit(ps) && ps != [] && 1 <= n <= 16 && IsSingleCheck(op) && IsMultiCheck(multi)
    requires |ps[|ps| - 1].1| == 32 || |ps[|ps| - 1].1| == 1312
    requires |PushAll(ps)| + 3 <= 10_000
    ensures Parse(PushAll(ps) + ([op] + [0x50 + n as byte, multi])) == Err(MultisigPubkeyCountMismatch(n, 0))
  {
    var key, tail := ps[|ps| - 1].1, [0x50 + n as byte, multi];
    WalkAll(START, ps, [op] + tail);
    assert [] + Data(ps) == Data(ps);
    CheckThenMulti(Registers([], Some(key), Data(ps), None), key, op, n, multi);
    WalkDecides(PushAll(ps) + ([op] + tail), MultisigPubkeyCountMismatch(n, 0));
  }

  lemma CheckThenMulti(r: Registers, key: Bytes, op: byte, n: nat, multi: byte)
    requires r.sites == [] && r.lastPush == Some(key) && IsSingleCheck(op) && (|key| == 32 || |key| == 1312)
    requires 1 <= n <= 16 && IsMultiCheck(multi)
    ensures Walk(r, [op] + [0x50 + n as byte, multi]) == Err(MultisigPubkeyCountMismatch(n, 0))
  {
    CheckGoesOn(r, key, op, [0x50 + n as byte, multi]);
    WalkCountAndCheck(Registers([Site(key, op)], None, [], None), n, multi);
  }

  /** A script whose walk fails does not parse. */
  lemma WalkDecides(script: Bytes, e: LeafError)
    requires 0 < |script| <= 10_000 && Walk(START, script) == Err(e)
    ensures Parse(script) == Err(e)
  {
  }

  lemma WalkTwo(form: PushForm, first: Bytes, second: Bytes, rest: Bytes)
    requires Fits(form, |first|) && Fits(form, |second|) && first != [] && second != []
    ensures Walk(START, Pushed(form, first) + (Pushed(form, second) + rest))
         == Walk(Registers([], Some(second), [first, second], None), rest)
  {
    WalkPushed(START, form, first, Pushed(form, second) + rest);
    assert [] + [first] == [first] && [first] + [second] == [first, second];
    WalkPushed(Registers([], Some(first), [first], None), form, second, rest);
  }

  /** A check of one key out of several pushes takes the last one. */
  lemma TakesLast(r: Registers, earlier: seq<Bytes>, key: Bytes, multi: byte, rest: Bytes)
    requires r.pushes == earlier + [key] && (|key| == 32 || |key| == 1312) && IsMultiCheck(multi)
    ensures Walk(r, [0x51, multi] + rest) == Walk(Registers(r.sites + [Site(key, multi)], None, earlier, None), rest)
  {
    assert [0x51, multi] == [0x50 + 1 as byte, multi];
    WalkCountAndCheck(r, 1, multi);
    assert r.pushes[|r.pushes| - 1..] == [key] && r.pushes[..|r.pushes| - 1] == earlier;
    AddOneSite(r.sites, key, multi);
    WalkConcat(r, [0x51, multi], rest);
  }

  /** A multisig check leaves the earlier pushes to the next multisig check. */
  lemma MultiCheckKeepsEarlierPushes(form: PushForm, first: Bytes, second: Bytes, multi: byte)
    requires |first| == |second| && (|first| == 32 || |first| == 1312) && Fits(form, |first|) && IsMultiCheck(multi)
    ensures Parse(Pushed(form, first) + (Pushed(form, second) + ([0x51, multi] + ([0x51, multi] + []))))
         == Ok([Site(second, multi), Site(first, multi)])
  {
    var tail := [0x51, multi] + ([0x51, multi] + []);
    WalkTwo(form, first, second, tail);
    TwoChecks(first, second, multi, tail);
    ParseOfWalk(Pushed(form, first) + (Pushed(form, second) + tail), [Site(second, multi), Site(first, multi)]);
  }

  lemma TwoChecks(first: Bytes, second: Bytes, multi: byte, tail: Bytes)
    requires |first| == |second| && (|first| == 32 || |first| == 1312) && IsMultiCheck(multi)
    requires tail == [0x51, multi] + ([0x51, multi] + [])
    ensures Walk(Registers([], Some(second), [first, second], None), tail)
         == Ok(Registers([Site(second, multi), Site(first, multi)], None, [], None))
  {
    assert [first, second] == [first] + [second] && [first] == [] + [first];
    TakesLast(Registers([], Some(second), [first, second], None), [first], second, multi, [0x51, multi] + []);
    assert [] + [Site(second, multi)] == [Site(second, multi)];
    TakesLast(Registers([Site(second, multi)], None, [first], None), [], first, multi, []);
    assert [Site(second, multi)] + [Site(first, multi)] == [Site(second, multi), Site(first, multi)];
  }

  lemma ParseOfWalk(script: Bytes, sites: seq<Site>)
    requires 0 < |script| <= 10_000 && sites != [] && Walk(START, script) == Ok(Registers(sites, None, [], None))
    ensures Parse(script) == Ok(sites)
  {
  }

  /** A multisig check leaves no key to a single check. */
  lemma MultiCheckLeavesNoKey(form: PushForm, first: Bytes, second: Bytes, multi: byte, op: byte)
    requires |first| == |second| && (|first| == 32 || |first| == 1312) && Fits(form, |first|)
    requires IsMultiCheck(multi) && IsSingleCheck(op)
    ensures Parse(Pushed(form, first) + (Pushed(form, second) + ([0x51, multi] + [op]))) == Err(MissingPubkeyPush)
  {
    WalkTwo(form, first, second, [0x51, multi] + [op]);
    assert [first, second] == [first] + [second];
    TakesLast(Registers([], Some(second), [first, second], None), [first], second, multi, [op]);
    assert [op] + [] == [op];
    WalkOp(Registers([] + [Site(second, multi)], None, [first], None), op, []);
  }

  /** The limits: no script, one byte too many, and no check at all. */
  lemma LimitsOfScripts(script: Bytes)
    ensures Parse([]) == Err(EmptyScript)
    ensures |script| > 10_000 <==> Parse(script) == Err(LeafScriptTooLarge)
    ensures Parse([0x69]) == Err(NoSigCheckOpcode)
  {
    assert [0x69] + [] == [0x69];
    WalkOp(START, 0x69, []);
    WalkErrs(START, script);
  }

  lemma {:induction false} WalkErrs(r: Registers, script: Bytes)
    ensures Walk(r, script).Err? ==> Walk(r, script).error != LeafScriptTooLarge
    decreases |script|
  {
    if script != [] && DecodeOne(script).Decoded? {
      var d := DecodeOne(script);
      StepErrs(r, d.instr);
      if Step(r, d.instr).Ok? {
        WalkErrs(Step(r, d.instr).value, script[d.size..]);
      }
    }
  }

  lemma StepErrs(r: Registers, instr: Instruction)
    ensures Step(r, instr).Err? ==> Step(r, instr).error != LeafScriptTooLarge
  {
    if instr.Op? && IsMultisig(instr.opcode) && r.pendingKeys.Some? && r.pendingKeys.value <= |r.pushes| {
      AddSitesErrs(r.sites, r.pushes[|r.pushes| - r.pendingKeys.value..], instr.opcode);
    } else if instr.Op? && r.lastPush.Some? {
      AddOneSite(r.sites, r.lastPush.value, instr.opcode);
    }
  }

  lemma {:induction false} AddSitesErrs(sites: seq<Site>, keys: seq<Bytes>, op: byte)
    ensures AddSites(sites, keys, op).Err? ==> AddSites(sites, keys, op).error.InvalidPubkeySize?
    decreases |keys|
  {
    if keys != [] && IsKeySize(|keys[0]|) {
      AddSitesErrs(sites + [Site(keys[0], op)], keys[1..], op);
    }
  }
}

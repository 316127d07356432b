/** The last common ancestor of two blocks: what it is, and the properties that pin it down. */
module HeaderTree {
  import opened Common
  import opened BlockHashes

  datatype Ancestor =
    | CommonAncestor(hash: BlockHash)
    | MissingHeight(of: BlockHash)
    | MissingAncestor(of: BlockHash, depth: nat, height: nat)

  ghost predicate Disjoint(c0: seq<BlockHash>, c1: seq<BlockHash>) {
    forall h :: h in c0 ==> h !in c1
  }

  /** All headers down to height 0 are stored. */
  ghost predicate Complete(t: Tables, h: BlockHash) {
    h in t.height && |Chain(t, h)| == t.height[h] + 1
  }

  /** The answer that is right for two different stored-height blocks. */
  ghost predicate RightAnswer(t: Tables, h0: BlockHash, h1: BlockHash, r: Ancestor)
    requires h0 in t.height && h1 in t.height
  {
    var c0, c1 := Chain(t, h0), Chain(t, h1);
    match r
    case CommonAncestor(a) =>
      if a == ALL_ZEROS then Complete(t, h0) && Complete(t, h1) && Disjoint(c0, c1)
      else a in c0 && a in c1 && forall b :: b in c0 && b in c1 ==> b in Chain(t, a)
    case MissingAncestor(h, depth, height) =>
      // the first absent ancestor of h is `depth` steps back, and nothing stored is common
      && (h == h0 || h == h1)
      && height == t.height[h] && depth == |Chain(t, h)| <= height
      && Disjoint(c0, c1)
    case MissingHeight(_) => false
  }

  ghost predicate LastCommon(t: Tables, h0: BlockHash, h1: BlockHash, r: Ancestor) {
    if h0 == h1 then r == CommonAncestor(h0)
    else if h0 == ALL_ZEROS || h1 == ALL_ZEROS then r == CommonAncestor(ALL_ZEROS)
    else if h0 !in t.height then r == MissingHeight(h0)
    else if h1 !in t.height then r == MissingHeight(h1)
    else RightAnswer(t, h0, h1, r)
  }

  // ---------------------------------------------------------------- headers fetched from the first block on

  /** Each header is the child of the one before, the first one has no parent. */
  ghost predicate FromGenesis(headers: seq<Header>) {
    forall i :: 0 <= i < |headers| ==> FollowsAt(headers, i)
  }

  ghost predicate FollowsAt(headers: seq<Header>, i: nat)
    requires i < |headers|
  {
    headers[i].prev == if i == 0 then ALL_ZEROS else headers[i - 1].hash
  }

  ghost predicate Stored(t: Tables, header: Header) {
    header.hash in t.header && t.header[header.hash] == header
  }

  lemma {:induction false} PutHeadersStores(t: Tables, headers: seq<(Header, nat)>, header: Header)
    requires forall i :: 0 <= i < |headers| ==> headers[i].0.prev != ALL_ZEROS ==> headers[i].1 > 0
    requires AllFit(t, headers)
    requires Stored(t, header) || exists i :: 0 <= i < |headers| && headers[i].0 == header
    ensures Stored(PutHeaders(t, headers), header)
    decreases |headers|
  {
    if headers != [] {
      PutHeaderGrows(t, headers[0].0, headers[0].1);
      if !Stored(t, header) {
        var i :| 0 <= i < |headers| && headers[i].0 == header;
        assert i > 0 ==> headers[1..][i - 1].0 == header;
      }
      PutHeadersStores(PutHeader(t, headers[0].0, headers[0].1), headers[1..], header);
    }
  }

  lemma {:induction false} StoredPathIsComplete(t: Tables, path: seq<Header>, i: nat)
    requires HeightsConsistent(t) && FromGenesis(path) && i < |path|
    requires forall j :: 0 <= j < |path| ==> Stored(t, path[j])
    ensures path[i].hash in t.height && t.height[path[i].hash] == i && Complete(t, path[i].hash)
    decreases i
  {
    assert Stored(t, path[i]) && FollowsAt(path, i) && HeightConsistent(t, path[i].hash);
    if i > 0 {
      StoredPathIsComplete(t, path, i - 1);
      assert Stored(t, path[i - 1]);
      assert Chain(t, path[i].hash) == [path[i].hash] + Chain(t, path[i - 1].hash);
    }
  }

  /** The first header sync, from the first block on, stores all headers down to height 0. */
  lemma FetchedHeadersAreComplete(t: Tables, path: seq<Header>, headers: seq<(Header, nat)>)
    requires StoreInvariant(t) && AllFit(t, headers)
    requires forall i :: 0 <= i < |headers| ==> headers[i].0.prev != ALL_ZEROS ==> headers[i].1 > 0
    requires path != [] && FromGenesis(path)
    requires forall i :: 0 <= i < |path| ==>
               Stored(t, path[i]) || exists j :: 0 <= j < |headers| && headers[j].0 == path[i]
    ensures path[|path| - 1].hash in PutHeaders(t, headers).header
    ensures Complete(PutHeaders(t, headers), path[|path| - 1].hash)
  {
    PutHeadersKeepsInvariant(t, headers);
    forall i | 0 <= i < |path| ensures Stored(PutHeaders(t, headers), path[i]) {
      PutHeadersStores(t, headers, path[i]);
    }
    StoredPathIsComplete(PutHeaders(t, headers), path, |path| - 1);
  }

  // ---------------------------------------------------------------- facts about two ancestries

  /** Two ancestries can meet only at equal heights. */
  lemma MeetAtEqualHeight(t: Tables, h0: BlockHash, h1: BlockHash, i: nat, j: nat)
    requires HeightsConsistent(t) && h0 in t.height && h1 in t.height
    requires i < |Chain(t, h0)| && j < |Chain(t, h1)|
    ensures Chain(t, h0)[i] == Chain(t, h1)[j] ==> t.height[h0] - i == t.height[h1] - j
  {
    ChainLinks(t, h0);
    ChainLinks(t, h1);
  }

  /** The ancestries differ at every one of the top `d` heights that both reach. */
  ghost predicate DifferAbove(t: Tables, h0: BlockHash, h1: BlockHash, skip0: nat, skip1: nat, d: nat) {
    var c0, c1 := Chain(t, h0), Chain(t, h1);
    forall i, j :: skip0 <= i < skip0 + d && i < |c0| && skip1 <= j < |c1| && i - skip0 == j - skip1 ==>
                     c0[i] != c1[j]
  }

  lemma FirstMeetingIsLast(t: Tables, h0: BlockHash, h1: BlockHash, skip0: nat, skip1: nat, d: nat)
    requires HeightsConsistent(t) && h0 in t.height && h1 in t.height
    requires t.height[h0] - skip0 == t.height[h1] - skip1 && (skip0 == 0 || skip1 == 0)
    requires skip0 + d < |Chain(t, h0)| && skip1 + d < |Chain(t, h1)|
    requires DifferAbove(t, h0, h1, skip0, skip1, d)
    requires Chain(t, h0)[skip0 + d] == Chain(t, h1)[skip1 + d]
    ensures RightAnswer(t, h0, h1, CommonAncestor(Chain(t, h0)[skip0 + d]))
  {
    var c0, c1 := Chain(t, h0), Chain(t, h1);
    var a := c0[skip0 + d];
    ChainLinks(t, h0);
    ChainSuffix(t, h0, skip0 + d);
    forall b | b in c0 && b in c1 ensures b in Chain(t, a) {
      var i :| 0 <= i < |c0| && c0[i] == b;
      var j :| 0 <= j < |c1| && c1[j] == b;
      MeetAtEqualHeight(t, h0, h1, i, j);
      assert i >= skip0 + d;
      assert b == c0[skip0 + d..][i - (skip0 + d)];
    }
  }

  lemma NeverMeetingIsDisjoint(t: Tables, h0: BlockHash, h1: BlockHash, skip0: nat, skip1: nat, d: nat)
    requires HeightsConsistent(t) && h0 in t.height && h1 in t.height
    requires t.height[h0] - skip0 == t.height[h1] - skip1 && (skip0 == 0 || skip1 == 0)
    requires skip0 + d >= |Chain(t, h0)| || skip1 + d >= |Chain(t, h1)|
    requires DifferAbove(t, h0, h1, skip0, skip1, d)
    ensures Disjoint(Chain(t, h0), Chain(t, h1))
  {
    var c0, c1 := Chain(t, h0), Chain(t, h1);
    forall i, j | 0 <= i < |c0| && 0 <= j < |c1| ensures c0[i] != c1[j] {
      MeetAtEqualHeight(t, h0, h1, i, j);
    }
  }

  /** There is one last common ancestor, and it does not depend on the order of the two blocks. */
  lemma LastCommonIsUnique(t: Tables, h0: BlockHash, h1: BlockHash, r: Ancestor, r': Ancestor)
    requires HeightsConsistent(t)
    requires LastCommon(t, h0, h1, r) && LastCommon(t, h1, h0, r')
    requires h0 in t.height && h1 in t.height
    ensures r.CommonAncestor? <==> r'.CommonAncestor?
    ensures r.CommonAncestor? ==> r == r'
  {
    if h0 != h1 && h0 != ALL_ZEROS && h1 != ALL_ZEROS {
      ChainLinks(t, h0);
      ChainLinks(t, h1);
      if r.CommonAncestor? && r'.CommonAncestor? && r.hash != ALL_ZEROS && r'.hash != ALL_ZEROS {
        AncestorsOfEachOther(t, r.hash, r'.hash);
      }
    }
  }

  lemma AncestorsOfEachOther(t: Tables, a: BlockHash, b: BlockHash)
    requires HeightsConsistent(t) && a in t.height && b in t.height
    requires a in Chain(t, b) && b in Chain(t, a)
    ensures a == b
  {
    ChainLinks(t, a);
    ChainLinks(t, b);
  }
}

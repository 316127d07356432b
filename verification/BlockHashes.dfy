/** The tables keyed by block hash: headers, heights, work, coinbase ids and diffs. */
module BlockHashes {
  import opened Common
  import opened Utxos

  /** A header with its own hash; `work` is the proof of work it carries. */
  datatype Header = Header(hash: BlockHash, prev: BlockHash, work: nat)

  type HeaderMap = map<BlockHash, Header>

  datatype Tables = Tables(
    header: HeaderMap,
    height: map<BlockHash, nat>,
    coinbaseTxid: map<BlockHash, nat>,
    cumulativeWork: map<BlockHash, nat>,
    diff: map<BlockHash, Diff>)

  const EMPTY_TABLES := Tables(map[], map[], map[], map[], map[])

  // ---------------------------------------------------------------- ancestry

  /** The stored headers from `h` back, newest first, at most `n` steps. */
  function Ancestry(header: HeaderMap, h: BlockHash, n: nat): seq<BlockHash>
    decreases n
  {
    if h !in header then []
    else [h] + if n == 0 then [] else Ancestry(header, header[h].prev, n - 1)
  }

  /** The whole stored ancestry of a block, the block itself included. */
  function Chain(t: Tables, h: BlockHash): seq<BlockHash> {
    Ancestry(t.header, h, if h in t.height then t.height[h] else 0)
  }

  function SumWork(header: HeaderMap, hashes: seq<BlockHash>): nat
    requires forall h :: h in hashes ==> h in header
  {
    if hashes == [] then 0 else header[hashes[0]].work + SumWork(header, hashes[1..])
  }

  /** A header is filed under its hash and is one higher than its parent. */
  ghost predicate HeightConsistent(t: Tables, h: BlockHash)
    requires h in t.header
  {
    && t.header[h].hash == h
    && h in t.height
    && if t.header[h].prev == ALL_ZEROS then t.height[h] == 0
       else t.header[h].prev in t.height && t.height[h] == t.height[t.header[h].prev] + 1
  }

  ghost predicate HeightsConsistent(t: Tables) {
    && ALL_ZEROS !in t.header
    && t.header.Keys <= t.height.Keys
    && forall h {:trigger HeightConsistent(t, h)} :: h in t.header ==> HeightConsistent(t, h)
  }

  /** Stored headers from `h` at height `n` back, each the parent of the one before, down to an absent one. */
  ghost predicate IsAncestry(t: Tables, c: seq<BlockHash>, h: BlockHash, n: nat) {
    && |c| <= n + 1
    && (h in t.header <==> c != [])
    && (c != [] ==> c[0] == h)
    && (forall i :: 0 <= i < |c| ==> c[i] in t.header && c[i] in t.height && t.height[c[i]] == n - i)
    && (forall i :: 0 <= i < |c| - 1 ==> c[i] in t.header && t.header[c[i]].prev == c[i + 1])
    && (c != [] ==> c[|c| - 1] in t.header && t.header[c[|c| - 1]].prev !in t.header)
  }

  lemma ConsAncestry(t: Tables, h: BlockHash, n: nat, rest: seq<BlockHash>)
    requires h in t.header && h in t.height && t.height[h] == n > 0
    requires IsAncestry(t, rest, t.header[h].prev, n - 1)
    ensures IsAncestry(t, [h] + rest, h, n)
  {
    var c := [h] + rest;
    forall i | 0 <= i < |c| - 1 ensures c[i] in t.header && t.header[c[i]].prev == c[i + 1] {
      if i > 0 {
        assert c[i] == rest[i - 1] && c[i + 1] == rest[i];
      }
    }
  }

  lemma {:induction false} AncestryLinks(t: Tables, h: BlockHash, n: nat)
    requires HeightsConsistent(t) && (h in t.header ==> t.height[h] == n)
    ensures IsAncestry(t, Ancestry(t.header, h, n), h, n)
    decreases n
  {
    if h in t.header {
      assert HeightConsistent(t, h);
      if n > 0 {
        AncestryLinks(t, t.header[h].prev, n - 1);
        ConsAncestry(t, h, n, Ancestry(t.header, t.header[h].prev, n - 1));
      }
    }
  }

  lemma ChainLinks(t: Tables, h: BlockHash)
    requires HeightsConsistent(t) && h in t.height
    ensures var c, n := Chain(t, h), t.height[h];
            && |c| <= n + 1
            && (h in t.header <==> c != [])
            && (c != [] ==> c[0] == h)
            && (forall i :: 0 <= i < |c| ==> c[i] in t.header && t.height[c[i]] == n - i)
            && (forall i :: 0 <= i < |c| - 1 ==> t.header[c[i]].prev == c[i + 1])
            && (c != [] ==> t.header[c[|c| - 1]].prev !in t.header)
  {
    AncestryLinks(t, h, t.height[h]);
  }

  /** The ancestry of an ancestor is the rest of the ancestry. */
  lemma {:induction false} ChainSuffix(t: Tables, h: BlockHash, i: nat)
    requires HeightsConsistent(t) && h in t.height && i < |Chain(t, h)|
    ensures Chain(t, Chain(t, h)[i]) == Chain(t, h)[i..]
    decreases i
  {
    ChainLinks(t, h);
    if i > 0 {
      assert HeightConsistent(t, h);
      var prev := t.header[h].prev;
      assert Chain(t, h) == [h] + Chain(t, prev);
      ChainSuffix(t, prev, i - 1);
    }
  }

  // ---------------------------------------------------------------- writing

  /** A header and its height, and its parent's height one below. */
  function PutHeader(t: Tables, header: Header, height: nat): Tables
    requires header.prev != ALL_ZEROS ==> height > 0
  {
    var t' := t.(header := t.header[header.hash := header], height := t.height[header.hash := height]);
    if header.prev == ALL_ZEROS then t' else t'.(height := t'.height[header.prev := height - 1])
  }

  /** The header does not contradict anything stored. */
  ghost predicate Fits(t: Tables, header: Header, height: nat) {
    && header.hash != ALL_ZEROS
    && header.hash != header.prev
    && (header.hash in t.header ==> t.header[header.hash] == header)
    && (header.hash in t.height ==> t.height[header.hash] == height)
    && if header.prev == ALL_ZEROS then height == 0
       else height > 0 && (header.prev in t.height ==> t.height[header.prev] == height - 1)
  }

  ghost predicate AllFit(t: Tables, headers: seq<(Header, nat)>)
    decreases |headers|
  {
    headers == []
    || (Fits(t, headers[0].0, headers[0].1) && AllFit(PutHeader(t, headers[0].0, headers[0].1), headers[1..]))
  }

  function PutHeaders(t: Tables, headers: seq<(Header, nat)>): Tables
    requires forall i :: 0 <= i < |headers| ==> headers[i].0.prev != ALL_ZEROS ==> headers[i].1 > 0
    decreases |headers|
  {
    if headers == [] then t else PutHeaders(PutHeader(t, headers[0].0, headers[0].1), headers[1..])
  }

  datatype PutError = MissingHeader(hash: BlockHash) | MissingParent(hash: BlockHash, prev: BlockHash)

  function PutBlockInfo(t: Tables, h: BlockHash, coinbaseTxid: nat, diff: Diff): Result<Tables, PutError> {
    if h !in t.header then Err(MissingHeader(h))
    else
      var header := t.header[h];
      if header.prev != ALL_ZEROS && header.prev !in t.cumulativeWork then Err(MissingParent(h, header.prev))
      else
        var parentWork := if header.prev == ALL_ZEROS then 0 else t.cumulativeWork[header.prev];
        Ok(t.(coinbaseTxid := t.coinbaseTxid[h := coinbaseTxid],
              cumulativeWork := t.cumulativeWork[h := parentWork + header.work],
              diff := t.diff[h := diff]))
  }

  // ---------------------------------------------------------------- the invariant of the store

  /** A height belongs to a stored header or to a stored header's parent. */
  ghost predicate HeightKeysExplained(t: Tables) {
    forall h {:trigger HeightExplained(t, h)} :: h in t.height ==> HeightExplained(t, h)
  }

  ghost predicate HeightExplained(t: Tables, h: BlockHash) {
    h in t.header || exists c :: c in t.header && t.header[c].prev == h
  }

  /** The three block tables have the same keys, all of them headers, with all their ancestors. */
  ghost predicate BlocksAncestorClosed(t: Tables) {
    && t.coinbaseTxid.Keys == t.cumulativeWork.Keys == t.diff.Keys <= t.header.Keys
    && forall h {:trigger BlockClosed(t, h)} :: h in t.cumulativeWork ==> BlockClosed(t, h)
  }

  ghost predicate BlockClosed(t: Tables, h: BlockHash) {
    && h in t.header
    && (t.header[h].prev == ALL_ZEROS || t.header[h].prev in t.cumulativeWork)
  }

  /** Stored work is the sum over the whole path to a block without parent. */
  ghost predicate WorkIsPathSum(t: Tables) {
    forall h {:trigger Chain(t, h)} :: h in t.cumulativeWork ==> PathSum(t, Chain(t, h), t.cumulativeWork[h])
  }

  ghost predicate PathSum(t: Tables, c: seq<BlockHash>, work: nat) {
    && (forall a :: a in c ==> a in t.header)
    && c != [] && t.header[c[|c| - 1]].prev == ALL_ZEROS
    && work == SumWork(t.header, c)
  }

  ghost predicate StoreInvariant(t: Tables) {
    HeightsConsistent(t) && HeightKeysExplained(t) && BlocksAncestorClosed(t) && WorkIsPathSum(t)
  }

  /** Nothing stored about headers and heights is changed. */
  ghost predicate Grows(t: Tables, t': Tables) {
    && (forall h :: h in t.header ==> h in t'.header && t'.header[h] == t.header[h])
    && (forall h :: h in t.height ==> h in t'.height && t'.height[h] == t.height[h])
  }

  lemma PutHeaderGrows(t: Tables, header: Header, height: nat)
    requires Fits(t, header, height)
    ensures Grows(t, PutHeader(t, header, height))
  {
  }

  lemma PutHeaderKeepsHeights(t: Tables, header: Header, height: nat)
    requires HeightsConsistent(t) && Fits(t, header, height)
    ensures HeightsConsistent(PutHeader(t, header, height))
  {
    var t' := PutHeader(t, header, height);
    PutHeaderGrows(t, header, height);
    forall h | h in t'.header ensures HeightConsistent(t', h) {
      if h != header.hash {
        assert HeightConsistent(t, h);
      }
    }
  }

  lemma PutHeaderExplainsHeights(t: Tables, header: Header, height: nat)
    requires HeightKeysExplained(t) && Fits(t, header, height)
    ensures HeightKeysExplained(PutHeader(t, header, height))
  {
    var t' := PutHeader(t, header, height);
    PutHeaderGrows(t, header, height);
    forall h | h in t'.height ensures HeightExplained(t', h) {
      if h in t.height {
        assert HeightExplained(t, h);
        if h !in t.header {
          var c :| c in t.header && t.header[c].prev == h;
          assert t'.header[c].prev == h;
        }
      } else if h != header.hash {
        assert t'.header[header.hash].prev == h;
      }
    }
  }

  /** Adding headers does not change the ancestry of a block whose ancestors are all stored. */
  lemma {:induction false} CompleteAncestryStays(t: Tables, t': Tables, h: BlockHash)
    requires HeightsConsistent(t) && HeightsConsistent(t') && Grows(t, t') && h in t.header
    requires var c := Chain(t, h); c != [] && c[|c| - 1] in t.header && t.header[c[|c| - 1]].prev == ALL_ZEROS
    ensures Chain(t', h) == Chain(t, h)
    decreases t.height[h]
  {
    assert HeightConsistent(t, h) && HeightConsistent(t', h);
    var prev := t.header[h].prev;
    if prev != ALL_ZEROS {
      assert Chain(t, h) == [h] + Chain(t, prev);
      assert Chain(t', h) == [h] + Chain(t', prev);
      ChainLinks(t, prev);
      if Chain(t, prev) != [] {
        CompleteAncestryStays(t, t', prev);
      }
    }
  }

  lemma {:induction false} SameSumWork(header: HeaderMap, header': HeaderMap, hashes: seq<BlockHash>)
    requires forall k :: k in header ==> k in header' && header'[k] == header[k]
    requires forall h :: h in hashes ==> h in header
    ensures SumWork(header', hashes) == SumWork(header, hashes)
    decreases |hashes|
  {
    if hashes != [] {
      SameSumWork(header, header', hashes[1..]);
    }
  }

  lemma PathSumStays(t: Tables, t': Tables, h: BlockHash, work: nat)
    requires HeightsConsistent(t) && HeightsConsistent(t') && Grows(t, t') && h in t.header
    requires PathSum(t, Chain(t, h), work)
    ensures PathSum(t', Chain(t', h), work)
  {
    CompleteAncestryStays(t, t', h);
    SameSumWork(t.header, t'.header, Chain(t, h));
  }

  lemma PutHeaderKeepsInvariant(t: Tables, header: Header, height: nat)
    requires StoreInvariant(t) && Fits(t, header, height)
    ensures StoreInvariant(PutHeader(t, header, height))
  {
    var t' := PutHeader(t, header, height);
    PutHeaderGrows(t, header, height);
    PutHeaderKeepsHeights(t, header, height);
    PutHeaderExplainsHeights(t, header, height);
    forall h | h in t'.cumulativeWork ensures BlockClosed(t', h) {
      assert BlockClosed(t, h);
    }
    forall h | h in t'.cumulativeWork ensures PathSum(t', Chain(t', h), t'.cumulativeWork[h]) {
      PathSumStays(t, t', h, t.cumulativeWork[h]);
    }
  }

  /**
   * A header that is stored before its block: the invariant holds, yet the header's key is in no block
   * table, and neither need its parent's header be stored.
   */
  lemma HeaderComesBeforeBlock(t: Tables, header: Header, height: nat)
    requires StoreInvariant(t) && Fits(t, header, height) && header.hash !in t.header
    ensures var t' := PutHeader(t, header, height);
            && StoreInvariant(t')
            && header.hash in t'.header
            && header.hash !in t'.coinbaseTxid && header.hash !in t'.cumulativeWork && header.hash !in t'.diff
            && (header.prev in t'.header <==> header.prev in t.header)
  {
    PutHeaderKeepsInvariant(t, header, height);
  }

  /** The very first header is one. */
  lemma FirstHeaderComesBeforeBlock(header: Header)
    requires header.hash != ALL_ZEROS && header.prev == ALL_ZEROS
    ensures var t := PutHeader(EMPTY_TABLES, header, 0);
            StoreInvariant(t) && header.hash in t.header && header.hash !in t.cumulativeWork
  {
    HeaderComesBeforeBlock(EMPTY_TABLES, header, 0);
  }

  /** Any batch of headers with consistent heights keeps the whole invariant. */
  lemma {:induction false} PutHeadersKeepsInvariant(t: Tables, headers: seq<(Header, nat)>)
    requires StoreInvariant(t) && AllFit(t, headers)
    requires forall i :: 0 <= i < |headers| ==> headers[i].0.prev != ALL_ZEROS ==> headers[i].1 > 0
    ensures StoreInvariant(PutHeaders(t, headers))
    decreases |headers|
  {
    if headers != [] {
      PutHeaderKeepsInvariant(t, headers[0].0, headers[0].1);
      PutHeadersKeepsInvariant(PutHeader(t, headers[0].0, headers[0].1), headers[1..]);
    }
  }

  lemma ConsPathSum(t: Tables, h: BlockHash, c: seq<BlockHash>, work: nat)
    requires h in t.header && PathSum(t, c, work)
    ensures PathSum(t, [h] + c, work + t.header[h].work)
  {
  }

  lemma NewPathSum(t: Tables, h: BlockHash, parentWork: nat)
    requires h in t.header && HeightConsistent(t, h)
    requires if t.header[h].prev == ALL_ZEROS then parentWork == 0
             else PathSum(t, Chain(t, t.header[h].prev), parentWork)
    ensures PathSum(t, Chain(t, h), parentWork + t.header[h].work)
  {
    var prev := t.header[h].prev;
    if prev == ALL_ZEROS {
      assert Chain(t, h) == [h];
      assert [h][1..] == [];
    } else {
      ConsPathSum(t, h, Chain(t, prev), parentWork);
      assert Chain(t, h) == [h] + Chain(t, prev);
    }
  }

  lemma SameHeadersStayConsistent(t: Tables, t': Tables)
    requires t'.header == t.header && t'.height == t.height
    requires HeightsConsistent(t) && HeightKeysExplained(t)
    ensures HeightsConsistent(t') && HeightKeysExplained(t')
  {
    forall k | k in t'.header ensures HeightConsistent(t', k) {
      assert HeightConsistent(t, k);
    }
    forall k | k in t'.height ensures HeightExplained(t', k) {
      assert HeightExplained(t, k);
    }
  }

  lemma SamePathSum(t: Tables, t': Tables, h: BlockHash, work: nat)
    requires t'.header == t.header && t'.height == t.height
    requires PathSum(t, Chain(t, h), work)
    ensures PathSum(t', Chain(t', h), work)
  {
  }

  lemma NewWorkIsPathSum(t: Tables, h: BlockHash, coinbaseTxid: nat, diff: Diff)
    requires h in t.header && HeightConsistent(t, h) && WorkIsPathSum(t)
    requires PutBlockInfo(t, h, coinbaseTxid, diff).Ok?
    ensures PathSum(t, Chain(t, h), PutBlockInfo(t, h, coinbaseTxid, diff).value.cumulativeWork[h])
  {
    var prev := t.header[h].prev;
    NewPathSum(t, h, if prev == ALL_ZEROS then 0 else t.cumulativeWork[prev]);
  }

  lemma PutBlockInfoKeepsWork(t: Tables, h: BlockHash, coinbaseTxid: nat, diff: Diff)
    requires HeightsConsistent(t) && WorkIsPathSum(t) && PutBlockInfo(t, h, coinbaseTxid, diff).Ok?
    ensures WorkIsPathSum(PutBlockInfo(t, h, coinbaseTxid, diff).value)
  {
    var t' := PutBlockInfo(t, h, coinbaseTxid, diff).value;
    assert HeightConsistent(t, h);
    NewWorkIsPathSum(t, h, coinbaseTxid, diff);
    forall k | k in t'.cumulativeWork ensures PathSum(t', Chain(t', k), t'.cumulativeWork[k]) {
      SamePathSum(t, t', k, t'.cumulativeWork[k]);
    }
  }

  lemma PutBlockInfoKeepsClosed(t: Tables, h: BlockHash, coinbaseTxid: nat, diff: Diff)
    requires BlocksAncestorClosed(t) && PutBlockInfo(t, h, coinbaseTxid, diff).Ok?
    ensures BlocksAncestorClosed(PutBlockInfo(t, h, coinbaseTxid, diff).value)
  {
    var t' := PutBlockInfo(t, h, coinbaseTxid, diff).value;
    forall k | k in t'.cumulativeWork ensures BlockClosed(t', k) {
      assert k != h ==> BlockClosed(t, k);
    }
  }

  /** Storing a block keeps the whole invariant. */
  lemma PutBlockInfoKeepsInvariant(t: Tables, h: BlockHash, coinbaseTxid: nat, diff: Diff)
    requires StoreInvariant(t) && PutBlockInfo(t, h, coinbaseTxid, diff).Ok?
    ensures StoreInvariant(PutBlockInfo(t, h, coinbaseTxid, diff).value)
  {
    SameHeadersStayConsistent(t, PutBlockInfo(t, h, coinbaseTxid, diff).value);
    PutBlockInfoKeepsWork(t, h, coinbaseTxid, diff);
    PutBlockInfoKeepsClosed(t, h, coinbaseTxid, diff);
  }
}

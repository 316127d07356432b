/** The header store as the program runs it: five tables written in place, ancestor iterators over them. */
module BlockHashStores {
  import opened Common
  import opened Utxos
  import opened BlockHashes
  import opened HeaderTree

  /** Walks back over stored headers; stops at the first hash that has none. */
  class AncestorHeaders {
    const tables: Tables
    var blockHash: BlockHash

    constructor (tables: Tables, blockHash: BlockHash)
      ensures this.tables == tables && this.blockHash == blockHash
    {
      this.tables, this.blockHash := tables, blockHash;
    }

    /** `taken` items of the ancestry of `start` have been returned. */
    ghost predicate At(start: BlockHash, taken: nat)
      reads this
    {
      var c := Chain(tables, start);
      && taken <= |c|
      && if taken < |c| then blockHash == c[taken] else blockHash !in tables.header
    }

    method Next(ghost start: BlockHash, ghost taken: nat) returns (r: Option<BlockHash>)
      requires HeightsConsistent(tables) && At(start, taken)
      modifies this
      ensures var c := Chain(tables, start);
              if taken < |c| then r == Some(c[taken]) && At(start, taken + 1)
              else r == None && At(start, taken)
    {
      if start in tables.height {
        ChainLinks(tables, start);
      }
      if blockHash in tables.header {
        r := Some(blockHash);
        blockHash := tables.header[blockHash].prev;
      } else {
        r := None;
      }
    }
  }

  datatype HeaderInfo = HeaderInfo(hash: BlockHash, prev: BlockHash, height: nat, work: nat)

  lemma ChainLengths(t: Tables, h: BlockHash)
    requires HeightsConsistent(t) && h in t.height
    ensures |Chain(t, h)| <= t.height[h] + 1
    ensures h in t.header <==> Chain(t, h) != []
    ensures Chain(t, h) != [] ==> Chain(t, h)[0] == h && ALL_ZEROS !in Chain(t, h)
  {
    ChainLinks(t, h);
  }

  class BlockHashDbs {
    var header: HeaderMap
    var height: map<BlockHash, nat>
    var coinbaseTxid: map<BlockHash, nat>
    var cumulativeWork: map<BlockHash, nat>
    var diff: map<BlockHash, Diff>

    function View(): Tables
      reads this
    {
      Tables(header, height, coinbaseTxid, cumulativeWork, diff)
    }

    constructor ()
      ensures View() == EMPTY_TABLES
    {
      header, height, coinbaseTxid, cumulativeWork, diff := map[], map[], map[], map[], map[];
    }

    method PutHeaders(headers: seq<(Header, nat)>)
      requires forall i :: 0 <= i < |headers| ==> headers[i].0.prev != ALL_ZEROS ==> headers[i].1 > 0
      modifies this
      ensures View() == BlockHashes.PutHeaders(old(View()), headers)
    {
      assert headers[0..] == headers;
      var i := 0;
      while i < |headers|
        invariant 0 <= i <= |headers|
        invariant BlockHashes.PutHeaders(View(), headers[i..]) == BlockHashes.PutHeaders(old(View()), headers)
      {
        var (hdr, k) := headers[i];
        assert headers[i..][0] == (hdr, k) && headers[i..][1..] == headers[i + 1..];
        header := header[hdr.hash := hdr];
        height := height[hdr.hash := k];
        if hdr.prev != ALL_ZEROS {
          height := height[hdr.prev := k - 1];
        }
        i := i + 1;
      }
    }

    method PutBlockInfo(blockHash: BlockHash, txid: nat, d: Diff) returns (r: Result<(), PutError>)
      modifies this
      ensures match BlockHashes.PutBlockInfo(old(View()), blockHash, txid, d)
              case Ok(t) => r.Ok? && View() == t
              case Err(e) => r == Err(e) && View() == old(View())
    {
      if blockHash !in header {
        return Err(MissingHeader(blockHash));
      }
      var hdr := header[blockHash];
      var work;
      if hdr.prev == ALL_ZEROS {
        work := hdr.work;
      } else if hdr.prev in cumulativeWork {
        work := cumulativeWork[hdr.prev] + hdr.work;
      } else {
        return Err(MissingParent(blockHash, hdr.prev));
      }
      coinbaseTxid := coinbaseTxid[blockHash := txid];
      cumulativeWork := cumulativeWork[blockHash := work];
      diff := diff[blockHash := d];
      return Ok(());
    }

    /** Skip the part of the longer ancestry above the other block's height. */
    method SkipAncestors(it: AncestorHeaders, h: BlockHash, count: nat) returns (r: Option<nat>)
      requires HeightsConsistent(it.tables) && h in it.tables.height && it.At(h, 0)
      requires count <= it.tables.height[h]
      modifies it
      ensures match r
              case None => it.At(h, count)
              case Some(depth) => depth == |Chain(it.tables, h)| < count
    {
      for depth := 0 to count
        invariant it.At(h, depth)
      {
        var item := it.Next(h, depth);
        if item.None? {
          return Some(depth);
        }
      }
      return None;
    }

    method LastCommonAncestor(h0: BlockHash, h1: BlockHash) returns (r: Ancestor)
      requires HeightsConsistent(View())
      ensures LastCommon(View(), h0, h1, r)
    {
      if h0 == h1 {
        return CommonAncestor(h0);
      }
      if h0 == ALL_ZEROS || h1 == ALL_ZEROS {
        return CommonAncestor(ALL_ZEROS);
      }
      if h0 !in height {
        return MissingHeight(h0);
      }
      if h1 !in height {
        return MissingHeight(h1);
      }
      ghost var t := View();
      var height0, height1 := height[h0], height[h1];
      var ancestors0 := new AncestorHeaders(View(), h0);
      var ancestors1 := new AncestorHeaders(View(), h1);
      ChainLengths(t, h0);
      ChainLengths(t, h1);
      var skip0, skip1 := 0, 0;
      if height0 < height1 {
        skip1 := height1 - height0;
        var missing := SkipAncestors(ancestors1, h1, skip1);
        if missing.Some? {
          NeverMeetingIsDisjoint(t, h0, h1, skip0, skip1, 0);
          return MissingAncestor(h1, missing.value, height1);
        }
      } else if height0 > height1 {
        skip0 := height0 - height1;
        var missing := SkipAncestors(ancestors0, h0, skip0);
        if missing.Some? {
          NeverMeetingIsDisjoint(t, h0, h1, skip0, skip1, 0);
          return MissingAncestor(h0, missing.value, height0);
        }
      }
      r := FirstMeeting(ancestors0, h0, skip0, ancestors1, h1, skip1);
    }

    /** Step both iterators, now at equal heights, until they agree or one runs out. */
    method FirstMeeting(ancestors0: AncestorHeaders, h0: BlockHash, skip0: nat,
                        ancestors1: AncestorHeaders, h1: BlockHash, skip1: nat) returns (r: Ancestor)
      requires ancestors0 != ancestors1 && ancestors0.tables == ancestors1.tables
      requires HeightsConsistent(ancestors0.tables)
      requires h0 in ancestors0.tables.height && h1 in ancestors0.tables.height
      requires ancestors0.tables.height[h0] - skip0 == ancestors0.tables.height[h1] - skip1 >= 0
      requires skip0 == 0 || skip1 == 0
      requires ancestors0.At(h0, skip0) && ancestors1.At(h1, skip1)
      modifies ancestors0, ancestors1
      ensures RightAnswer(ancestors0.tables, h0, h1, r)
    {
      ghost var t := ancestors0.tables;
      var height0, height1 := ancestors0.tables.height[h0], ancestors0.tables.height[h1];
      var low := if height0 <= height1 then height0 else height1;
      ChainLengths(t, h0);
      ChainLengths(t, h1);
      var d := 0;
      while d <= low
        invariant 0 <= d <= low + 1
        invariant ancestors0.At(h0, skip0 + d) && ancestors1.At(h1, skip1 + d)
        invariant DifferAbove(t, h0, h1, skip0, skip1, d)
      {
        var a0 := ancestors0.Next(h0, skip0 + d);
        if a0.None? {
          NeverMeetingIsDisjoint(t, h0, h1, skip0, skip1, d);
          return MissingAncestor(h0, height0 - (low - d), height0);
        }
        var a1 := ancestors1.Next(h1, skip1 + d);
        if a1.None? {
          NeverMeetingIsDisjoint(t, h0, h1, skip0, skip1, d);
          return MissingAncestor(h1, height1 - (low - d), height1);
        }
        if a0.value == a1.value {
          FirstMeetingIsLast(t, h0, h1, skip0, skip1, d);
          return CommonAncestor(a0.value);
        }
        d := d + 1;
      }
      NeverMeetingIsDisjoint(t, h0, h1, skip0, skip1, d);
      return CommonAncestor(ALL_ZEROS);
    }

    method TryGetHeaderInfo(h: BlockHash) returns (r: Option<HeaderInfo>)
      requires HeightsConsistent(View())
      ensures r.Some? <==> h in header
      ensures r.Some? ==> r.value == HeaderInfo(h, header[h].prev, height[h], header[h].work)
    {
      if h !in header {
        return None;
      }
      assert HeightConsistent(View(), h);
      return Some(HeaderInfo(header[h].hash, header[h].prev, height[h], header[h].work));
    }

    /** Newest first: the block itself and up to `maxAncestors` of its stored ancestors. */
    method TryGetHeaderInfos(h: BlockHash, maxAncestors: nat) returns (r: Option<seq<HeaderInfo>>)
      requires HeightsConsistent(View())
      ensures r.Some? <==> h in header
      ensures r.Some? ==>
                var c := Chain(View(), h);
                && |r.value| == (if maxAncestors < |c| then maxAncestors + 1 else |c|)
                && forall i :: 0 <= i < |r.value| ==>
                     && c[i] in header && i <= height[h]
                     && r.value[i] == HeaderInfo(c[i], header[c[i]].prev, height[h] - i, header[c[i]].work)
    {
      var first := TryGetHeaderInfo(h);
      if first.None? {
        return None;
      }
      ghost var c := Chain(View(), h);
      ChainLinks(View(), h);
      var ancestors := maxAncestors;
      var ancestor := first.value.prev;
      var res := [first.value];
      while ancestors > 0 && ancestor != ALL_ZEROS
        invariant 0 <= ancestors && ancestors + |res| == maxAncestors + 1
        invariant 1 <= |res| <= |c|
        invariant forall i :: 0 <= i < |res| ==>
                    && c[i] in header && i <= height[h]
                    && res[i] == HeaderInfo(c[i], header[c[i]].prev, height[h] - i, header[c[i]].work)
        invariant ancestor == header[c[|res| - 1]].prev
        decreases ancestors
      {
        var info := TryGetHeaderInfo(ancestor);
        if info.None? {
          break;
        }
        ancestor := info.value.prev;
        ancestors := ancestors - 1;
        res := res + [info.value];
      }
      assert |res| < |c| ==> ancestor == c[|res|] && ancestor in header;
      return Some(res);
    }
  }
}

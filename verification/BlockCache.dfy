/** The bounded cache of blocks read ahead of their turn. */
module BlockCaches {
  import opened Common

  /** A block as read from a block file: the hash of its header and its raw contents. */
  datatype Block = Block(hash: BlockHash, contents: Bytes)

  /** A cached block together with the hash it is filed under. */
  datatype Entry = Entry(hash: BlockHash, block: Block)

  // ---------------------------------------------------------------- reference: a bounded FIFO

  predicate Has(q: seq<Entry>, h: BlockHash) {
    exists i :: 0 <= i < |q| && q[i].hash == h
  }

  ghost predicate DistinctHashes(q: seq<Entry>) {
    forall i, j :: 0 <= i < j < |q| ==> q[i].hash != q[j].hash
  }

  /** Add at the back; a full queue first loses its oldest entries; a known hash changes nothing. */
  function FifoInsert(q: seq<Entry>, maxSize: nat, e: Entry): seq<Entry>
    requires maxSize > 0
  {
    if Has(q, e.hash) then q
    else if |q| < maxSize then q + [e]
    else q[|q| - maxSize + 1..] + [e]
  }

  function FifoPosition(q: seq<Entry>, h: BlockHash): (i: nat)
    requires Has(q, h)
    ensures i < |q| && q[i].hash == h
    ensures forall j :: 0 <= j < i ==> q[j].hash != h
  {
    if q[0].hash == h then 0
    else
      assert Has(q[1..], h) by {
        var i :| 0 <= i < |q| && q[i].hash == h;
        assert q[1..][i - 1].hash == h;
      }
      1 + FifoPosition(q[1..], h)
  }

  function FifoRemove(q: seq<Entry>, h: BlockHash): seq<Entry> {
    if Has(q, h) then var i := FifoPosition(q, h); q[..i] + q[i + 1..] else q
  }

  function FifoLookup(q: seq<Entry>, h: BlockHash): Option<Block> {
    if Has(q, h) then Some(q[FifoPosition(q, h)].block) else None
  }

  lemma InsertStaysBounded(q: seq<Entry>, maxSize: nat, e: Entry)
    requires maxSize > 0 && DistinctHashes(q) && |q| <= maxSize
    ensures DistinctHashes(FifoInsert(q, maxSize, e)) && 0 < |FifoInsert(q, maxSize, e)| <= maxSize
    ensures Has(FifoInsert(q, maxSize, e), e.hash)
  {
    if !Has(q, e.hash) {
      var kept := if |q| < maxSize then q else q[|q| - maxSize + 1..];
      assert forall i :: 0 <= i < |kept| ==> kept[i] == q[i + |q| - |kept|];
      assert FifoInsert(q, maxSize, e) == kept + [e];
      assert (kept + [e])[|kept|] == e;
    }
  }

  lemma RemoveStaysBounded(q: seq<Entry>, h: BlockHash)
    requires DistinctHashes(q)
    ensures DistinctHashes(FifoRemove(q, h)) && |FifoRemove(q, h)| <= |q|
    ensures !Has(FifoRemove(q, h), h)
  {
  }

  /** Both operations keep the hashes distinct and the size within the bound. */
  lemma FifoStaysBounded(q: seq<Entry>, maxSize: nat, e: Entry, h: BlockHash)
    requires maxSize > 0 && DistinctHashes(q) && |q| <= maxSize
    ensures DistinctHashes(FifoInsert(q, maxSize, e)) && 0 < |FifoInsert(q, maxSize, e)| <= maxSize
    ensures DistinctHashes(FifoRemove(q, h)) && |FifoRemove(q, h)| <= maxSize
    ensures Has(FifoInsert(q, maxSize, e), e.hash)
    ensures !Has(FifoRemove(q, h), h)
  {
    InsertStaysBounded(q, maxSize, e);
    RemoveStaysBounded(q, h);
  }

  lemma PositionIsUnique(q: seq<Entry>, i: nat)
    requires DistinctHashes(q) && i < |q|
    ensures Has(q, q[i].hash) && FifoPosition(q, q[i].hash) == i
  {
  }

  /** Without eviction an insert adds one hash and leaves every other lookup alone. */
  lemma LookupAfterInsert(q: seq<Entry>, maxSize: nat, e: Entry, k: BlockHash)
    requires DistinctHashes(q) && |q| < maxSize
    ensures FifoLookup(FifoInsert(q, maxSize, e), k)
            == if k == e.hash && !Has(q, k) then Some(e.block) else FifoLookup(q, k)
  {
    if !Has(q, e.hash) {
      var r := q + [e];
      assert FifoInsert(q, maxSize, e) == r;
      if k == e.hash {
        PositionIsUnique(r, |q|);
      } else if Has(q, k) {
        PositionIsUnique(r, FifoPosition(q, k));
      }
    }
  }

  /** A remove takes out the entry of that hash and leaves every other lookup alone. */
  lemma LookupAfterRemove(q: seq<Entry>, h: BlockHash, k: BlockHash)
    requires DistinctHashes(q)
    ensures FifoLookup(FifoRemove(q, h), k) == if k == h then None else FifoLookup(q, k)
  {
    if Has(q, h) {
      var i := FifoPosition(q, h);
      var r := q[..i] + q[i + 1..];
      assert FifoRemove(q, h) == r;
      if k != h && Has(q, k) {
        var j := FifoPosition(q, k);
        PositionIsUnique(r, if j < i then j else j - 1);
      }
    }
  }

  // ---------------------------------------------------------------- the map-and-deque cache

  function Entries(blocks: map<BlockHash, Block>, order: seq<BlockHash>): (q: seq<Entry>)
    requires forall h :: h in order ==> h in blocks
    ensures |q| == |order|
    ensures forall i :: 0 <= i < |order| ==> q[i] == Entry(order[i], blocks[order[i]])
  {
    seq(|order|, i requires 0 <= i < |order| => Entry(order[i], blocks[order[i]]))
  }

  /** Map and deque hold the same hashes, each once. */
  ghost predicate Consistent(blocks: map<BlockHash, Block>, order: seq<BlockHash>) {
    && Distinct(order)
    && blocks.Keys == Elements(order)
  }

  lemma ConsistentSize(blocks: map<BlockHash, Block>, order: seq<BlockHash>)
    requires Consistent(blocks, order)
    ensures |blocks| == |order|
  {
    DistinctCardinality(order);
    assert |blocks| == |blocks.Keys|;
  }

  lemma DropAt(blocks: map<BlockHash, Block>, order: seq<BlockHash>, pos: nat)
    requires Consistent(blocks, order) && pos < |order|
    ensures Consistent(blocks - {order[pos]}, order[..pos] + order[pos + 1..])
    ensures Entries(blocks - {order[pos]}, order[..pos] + order[pos + 1..])
            == Entries(blocks, order)[..pos] + Entries(blocks, order)[pos + 1..]
  {
    var h := order[pos];
    var rest := order[..pos] + order[pos + 1..];
    assert Consistent(blocks - {h}, rest) by {
      assert h !in rest;
      forall k ensures k in (blocks - {h}).Keys <==> k in Elements(rest) {
        assert k in order <==> k == h || k in rest;
      }
    }
    var whole := Entries(blocks, order);
    var part := Entries(blocks - {h}, rest);
    forall i | 0 <= i < |rest| ensures part[i] == (whole[..pos] + whole[pos + 1..])[i] {
    }
  }

  lemma DropFirst(blocks: map<BlockHash, Block>, order: seq<BlockHash>)
    requires Consistent(blocks, order) && order != []
    ensures Consistent(blocks - {order[0]}, order[1..])
    ensures Entries(blocks - {order[0]}, order[1..]) == Entries(blocks, order)[1..]
  {
    forall k ensures k in (blocks - {order[0]}).Keys <==> k in Elements(order[1..]) {
      assert k in order <==> k == order[0] || k in order[1..];
    }
  }

  lemma AppendNew(blocks: map<BlockHash, Block>, order: seq<BlockHash>, h: BlockHash, b: Block)
    requires Consistent(blocks, order) && h !in blocks
    ensures Consistent(blocks[h := b], order + [h])
    ensures Entries(blocks[h := b], order + [h]) == Entries(blocks, order) + [Entry(h, b)]
  {
  }

  lemma HasIffStored(blocks: map<BlockHash, Block>, order: seq<BlockHash>, h: BlockHash)
    requires Consistent(blocks, order)
    ensures Has(Entries(blocks, order), h) <==> h in blocks
  {
  }

  class BlockCache {
    var blocks: map<BlockHash, Block>
    var insertionOrder: seq<BlockHash>
    const maxSize: nat

    ghost predicate Valid()
      reads this
    {
      Consistent(blocks, insertionOrder) && |insertionOrder| <= maxSize
    }

    ghost function Contents(): seq<Entry>
      reads this
      requires Valid()
    {
      Entries(blocks, insertionOrder)
    }

    constructor (maxSize: nat)
      ensures Valid() && Contents() == [] && this.maxSize == maxSize
    {
      this.blocks := map[];
      this.insertionOrder := [];
      this.maxSize := maxSize;
    }

    method EvictOldest()
      requires Valid() && Contents() != []
      modifies this
      ensures Valid() && Contents() == old(Contents())[1..]
      ensures blocks.Keys <= old(blocks.Keys)
    {
      DropFirst(blocks, insertionOrder);
      var oldest := insertionOrder[0];
      insertionOrder := insertionOrder[1..];
      blocks := blocks - {oldest};
    }

    /** The map entry and the back of the deque, together. */
    method Append(blockHash: BlockHash, block: Block)
      requires Valid() && |insertionOrder| < maxSize && blockHash !in blocks
      modifies this
      ensures Valid() && Contents() == old(Contents()) + [Entry(blockHash, block)]
    {
      AppendNew(blocks, insertionOrder, blockHash, block);
      blocks := blocks[blockHash := block];
      insertionOrder := insertionOrder + [blockHash];
    }

    /** The eviction loop ends only because map and deque always agree and `maxSize` is positive. */
    method Insert(blockHash: BlockHash, block: Block)
      requires Valid() && maxSize > 0
      modifies this
      ensures Valid()
      ensures Contents() == FifoInsert(old(Contents()), maxSize, Entry(blockHash, block))
    {
      HasIffStored(blocks, insertionOrder, blockHash);
      if blockHash in blocks {
        return;
      }
      ConsistentSize(blocks, insertionOrder);
      while |blocks| >= maxSize
        invariant Valid() && |blocks| == |insertionOrder|
        invariant Contents() == old(Contents())
                  || (|old(Contents())| == maxSize && Contents() == old(Contents())[1..])
        invariant blockHash !in blocks
        decreases |insertionOrder|
      {
        if |insertionOrder| > 0 {
          EvictOldest();
          ConsistentSize(blocks, insertionOrder);
        }
      }
      Append(blockHash, block);
    }

    method Remove(blockHash: BlockHash) returns (r: Option<Block>)
      requires Valid()
      modifies this
      ensures Valid()
      ensures r == FifoLookup(old(Contents()), blockHash)
      ensures Contents() == FifoRemove(old(Contents()), blockHash)
    {
      HasIffStored(blocks, insertionOrder, blockHash);
      if blockHash in blocks {
        r := Some(blocks[blockHash]);
        var pos := 0;
        while pos < |insertionOrder| && insertionOrder[pos] != blockHash
          invariant 0 <= pos <= |insertionOrder|
          invariant blockHash !in insertionOrder[..pos]
        {
          pos := pos + 1;
        }
        PositionIsUnique(Contents(), pos);
        DropAt(blocks, insertionOrder, pos);
        blocks := blocks - {blockHash};
        insertionOrder := insertionOrder[..pos] + insertionOrder[pos + 1..];
      } else {
        r := None;
      }
    }
  }
}

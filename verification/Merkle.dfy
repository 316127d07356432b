/** Opening a script tree with a P2MR control block. Hashing follows BIP 341, "Script validation rules". */
module Merkle {
  import opened Common

  const P2MR_CONTROL_BYTE: byte := 0xc1
  const MERKLE_NODE_SIZE: nat := 32
  const P2MR_CONTROL_BASE_SIZE_CORE: nat := 1
  const LEGACY_PADDED_BASE_SIZE: nat := 33

  function Zeros(n: nat): (z: Bytes)
    ensures |z| == n && forall i :: 0 <= i < n ==> z[i] == 0
  {
    if n == 0 then [] else [0] + Zeros(n - 1)
  }

  /** A 32-byte hash. */
  type Node = s: Bytes | |s| == 32 witness Zeros(32)

  /** The two tagged hashes, arbitrary functions: of a leaf script and of a 64-byte branch. */
  datatype Hashes = Hashes(tapLeaf: Bytes -> Node, tapBranch: Bytes -> Node)

  // ---------------------------------------------------------------- hashing a pair of nodes

  /** Byte-wise lexicographic order. */
  predicate Less(a: Bytes, b: Bytes) {
    b != [] && (a == [] || a[0] < b[0] || (a[0] == b[0] && Less(a[1..], b[1..])))
  }

  /** The smaller node first. */
  function SortedPair(a: Node, b: Node): (x: Bytes)
    ensures |x| == 64
  {
    if Less(a, b) then a + b else b + a
  }

  function BranchHash(h: Hashes, a: Node, b: Node): Node {
    h.tapBranch(SortedPair(a, b))
  }

  lemma {:induction false} LessIsTotal(a: Bytes, b: Bytes)
    requires |a| == |b|
    ensures a == b || (Less(a, b) <==> !Less(b, a))
    decreases |a|
  {
    if a != [] && a[0] == b[0] {
      LessIsTotal(a[1..], b[1..]);
      assert a == [a[0]] + a[1..] && b == [b[0]] + b[1..];
    }
  }

  lemma {:induction false} FirstDifferenceDecides(a: Bytes, b: Bytes, k: nat)
    requires k < |a| == |b| && a[..k] == b[..k] && a[k] < b[k]
    ensures Less(a, b) && !Less(b, a)
    decreases k
  {
    if k > 0 {
      assert a[0] == a[..k][0] == b[..k][0] == b[0];
      assert a[1..][..k - 1] == a[..k][1..] == b[..k][1..] == b[1..][..k - 1];
      FirstDifferenceDecides(a[1..], b[1..], k - 1);
    }
  }

  /** The node that is smaller at the first byte where they differ comes first, whichever side it is on. */
  lemma SmallerNodeFirst(h: Hashes, a: Node, b: Node, k: nat)
    requires k < 32 && a[..k] == b[..k] && a[k] < b[k]
    ensures SortedPair(a, b) == SortedPair(b, a) == a + b
    ensures BranchHash(h, a, b) == BranchHash(h, b, a) == h.tapBranch(a + b)
  {
    FirstDifferenceDecides(a, b, k);
  }

  /** A branch does not tell left from right. */
  lemma BranchIsSymmetric(h: Hashes, a: Node, b: Node)
    ensures BranchHash(h, a, b) == BranchHash(h, b, a)
  {
    LessIsTotal(a, b);
  }

  lemma SortedPairIsInjective(a: Node, b: Node, c: Node, d: Node)
    requires SortedPair(a, b) == SortedPair(c, d)
    ensures (a == c && b == d) || (a == d && b == c)
  {
    var x, y := SortedPair(a, b), SortedPair(c, d);
    assert x[..32] == if Less(a, b) then a else b;
    assert x[32..] == if Less(a, b) then b else a;
    assert y[..32] == if Less(c, d) then c else d;
    assert y[32..] == if Less(c, d) then d else c;
  }

  // ---------------------------------------------------------------- script trees

  datatype Tree = Leaf(script: Bytes) | Branch(left: Tree, right: Tree)

  function Root(h: Hashes, t: Tree): Node {
    match t
    case Leaf(script) => h.tapLeaf(script)
    case Branch(l, r) => BranchHash(h, Root(h, l), Root(h, r))
  }

  /** Directions from the root, true for left, lead to a leaf with this script. */
  predicate Reaches(t: Tree, dirs: seq<bool>, script: Bytes)
    decreases t
  {
    match t
    case Leaf(s) => dirs == [] && s == script
    case Branch(l, r) => dirs != [] && Reaches(if dirs[0] then l else r, dirs[1..], script)
  }

  /** The hashes beside the path, from the leaf up. */
  function Siblings(h: Hashes, t: Tree, dirs: seq<bool>): seq<Node>
    decreases t
  {
    if t.Leaf? || dirs == [] then []
    else if dirs[0] then Siblings(h, t.left, dirs[1..]) + [Root(h, t.right)]
    else Siblings(h, t.right, dirs[1..]) + [Root(h, t.left)]
  }

  /** Hash upwards from a node. */
  function Fold(h: Hashes, node: Node, siblings: seq<Node>): Node
    decreases |siblings|
  {
    if siblings == [] then node else Fold(h, BranchHash(h, node, siblings[0]), siblings[1..])
  }

  lemma {:induction false} FoldLast(h: Hashes, node: Node, siblings: seq<Node>, last: Node)
    ensures Fold(h, node, siblings + [last]) == BranchHash(h, Fold(h, node, siblings), last)
    decreases |siblings|
  {
    if siblings == [] {
      assert [last][1..] == [] && siblings + [last] == [last];
    } else {
      assert (siblings + [last])[1..] == siblings[1..] + [last];
      FoldLast(h, BranchHash(h, node, siblings[0]), siblings[1..], last);
    }
  }

  /** Every leaf opens the root with the hashes beside its path. */
  lemma {:induction false} LeafFoldsToRoot(h: Hashes, t: Tree, dirs: seq<bool>, script: Bytes)
    requires Reaches(t, dirs, script)
    ensures Fold(h, h.tapLeaf(script), Siblings(h, t, dirs)) == Root(h, t)
    decreases t
  {
    if t.Branch? {
      var child := if dirs[0] then t.left else t.right;
      var other := if dirs[0] then t.right else t.left;
      LeafFoldsToRoot(h, child, dirs[1..], script);
      FoldLast(h, h.tapLeaf(script), Siblings(h, child, dirs[1..]), Root(h, other));
      BranchIsSymmetric(h, Root(h, t.left), Root(h, t.right));
    }
  }

  // ---------------------------------------------------------------- soundness as a reduction

  datatype Collision =
    | LeafLeaf(s: Bytes, s': Bytes)
    | BranchBranch(x: Bytes, x': Bytes)
    | LeafBranch(script: Bytes, pair: Bytes)

  predicate IsCollision(h: Hashes, c: Collision) {
    match c
    case LeafLeaf(s, s') => s != s' && h.tapLeaf(s) == h.tapLeaf(s')
    case BranchBranch(x, x') => x != x' && |x| == |x'| == 64 && h.tapBranch(x) == h.tapBranch(x')
    case LeafBranch(s, x) => |x| == 64 && h.tapLeaf(s) == h.tapBranch(x)
  }

  datatype Opening = Found(dirs: seq<bool>) | Broken(collision: Collision)

  /** The script is a leaf at a path with these siblings, or here are two inputs with the same hash. */
  predicate IsOpening(h: Hashes, t: Tree, script: Bytes, siblings: seq<Node>, o: Opening) {
    match o
    case Found(dirs) => Reaches(t, dirs, script) && Siblings(h, t, dirs) == siblings
    case Broken(c) => IsCollision(h, c)
  }

  /**
   * Anything that folds to the root of a tree is a leaf of the tree at exactly that path, or else
   * this computes two inputs with the same hash.
   */
  function Extract(h: Hashes, t: Tree, script: Bytes, siblings: seq<Node>): (o: Opening)
    requires Fold(h, h.tapLeaf(script), siblings) == Root(h, t)
    ensures IsOpening(h, t, script, siblings, o)
    decreases t
  {
    if siblings == [] then
      match t
      case Leaf(s) => if s == script then Found([]) else Broken(LeafLeaf(s, script))
      case Branch(l, r) => Broken(LeafBranch(script, SortedPair(Root(h, l), Root(h, r))))
    else
      var n := |siblings| - 1;
      var below, last := siblings[..n], siblings[n];
      var node := Fold(h, h.tapLeaf(script), below);
      assert Fold(h, h.tapLeaf(script), siblings) == BranchHash(h, node, last) by {
        FoldLast(h, h.tapLeaf(script), below, last);
        assert below + [last] == siblings;
      }
      match t
      case Leaf(s) => Broken(LeafBranch(s, SortedPair(node, last)))
      case Branch(l, r) =>
        var pair, pair' := SortedPair(node, last), SortedPair(Root(h, l), Root(h, r));
        if pair != pair' then Broken(BranchBranch(pair, pair'))
        else
          assert (node == Root(h, l) && last == Root(h, r)) || (node == Root(h, r) && last == Root(h, l)) by {
            SortedPairIsInjective(node, last, Root(h, l), Root(h, r));
          }
          var left := node == Root(h, l) && last == Root(h, r);
          match Extract(h, if left then l else r, script, below)
          case Broken(c) => Broken(c)
          case Found(dirs) =>
            assert ([left] + dirs)[1..] == dirs;
            Found([left] + dirs)
  }

  // ---------------------------------------------------------------- control blocks

  datatype MerkleError = InvalidControlBlockSize | InvalidControlByte | MerkleRootMismatch

  predicate IsLegacyPadded(control: Bytes) {
    && |control| >= LEGACY_PADDED_BASE_SIZE
    && control[P2MR_CONTROL_BASE_SIZE_CORE..LEGACY_PADDED_BASE_SIZE] == Zeros(32)
    && (|control| - LEGACY_PADDED_BASE_SIZE) % MERKLE_NODE_SIZE == 0
  }

  /** The branch nodes: after the control byte, or after the zero pad of the legacy layout. */
  function MerkleBranchBytes(control: Bytes): Result<Bytes, MerkleError> {
    if control == [] then Err(InvalidControlBlockSize)
    else if control[0] != P2MR_CONTROL_BYTE then Err(InvalidControlByte)
    else if IsLegacyPadded(control) then Ok(control[LEGACY_PADDED_BASE_SIZE..])
    else
      var branch := control[P2MR_CONTROL_BASE_SIZE_CORE..];
      if |branch| % MERKLE_NODE_SIZE != 0 then Err(InvalidControlBlockSize) else Ok(branch)
  }

  /** Whole 32-byte chunks. */
  function Chunks(bytes: Bytes): seq<Node>
    decreases |bytes|
  {
    if |bytes| < 32 then [] else [bytes[..32]] + Chunks(bytes[32..])
  }

  function Join(nodes: seq<Node>): Bytes {
    if nodes == [] then [] else nodes[0] + Join(nodes[1..])
  }

  function RecomputeMerkleRoot(h: Hashes, script: Bytes, control: Bytes): Result<Node, MerkleError> {
    match MerkleBranchBytes(control)
    case Err(e) => Err(e)
    case Ok(branch) => Ok(Fold(h, h.tapLeaf(script), Chunks(branch)))
  }

  function VerifyMerklePath(h: Hashes, script: Bytes, root: Node, control: Bytes): Result<(), MerkleError> {
    match RecomputeMerkleRoot(h, script, control)
    case Err(e) => Err(e)
    case Ok(derived) => if derived != root then Err(MerkleRootMismatch) else Ok(())
  }

  /** A control block is a byte 0xc1 and whole 32-byte nodes; anything else has its own error. */
  lemma RejectedControlBlocks(h: Hashes, script: Bytes, root: Node, control: Bytes)
    ensures VerifyMerklePath(h, script, root, control) == Err(InvalidControlByte)
       <==> control != [] && control[0] != 0xc1
    ensures VerifyMerklePath(h, script, root, control) == Err(InvalidControlBlockSize)
       <==> control == [] || (control[0] == 0xc1 && |control| % 32 != 1)
  {
  }

  lemma {:induction false} ChunksOfJoin(nodes: seq<Node>)
    ensures Chunks(Join(nodes)) == nodes && |Join(nodes)| == 32 * |nodes|
    decreases |nodes|
  {
    if nodes != [] {
      ChunksOfJoin(nodes[1..]);
      assert Join(nodes)[..32] == nodes[0] && Join(nodes)[32..] == Join(nodes[1..]);
    }
  }

  /** The control block of a path: the control byte and the siblings. */
  function ControlBlock(siblings: seq<Node>): Bytes {
    [P2MR_CONTROL_BYTE] + Join(siblings)
  }

  predicate StartsWithZeroNode(branch: Bytes) {
    |branch| >= 32 && branch[..32] == Zeros(32)
  }

  /** What becomes of the bytes after the control byte: a leading zero node is dropped as padding. */
  lemma BranchAfterControlByte(branch: Bytes)
    ensures MerkleBranchBytes([P2MR_CONTROL_BYTE] + branch)
         == if |branch| % 32 != 0 then Err(InvalidControlBlockSize)
            else if StartsWithZeroNode(branch) then Ok(branch[32..])
            else Ok(branch)
  {
  }

  /** A control block gives back the path it was built from, unless its first sibling looks like the pad. */
  lemma ControlBlockDecodesExactlyWhen(siblings: seq<Node>)
    ensures MerkleBranchBytes(ControlBlock(siblings)) == Ok(Join(siblings))
       <==> (siblings == [] || siblings[0] != Zeros(32))
    ensures siblings != [] && siblings[0] == Zeros(32) ==>
              MerkleBranchBytes(ControlBlock(siblings)) == Ok(Join(siblings[1..]))
  {
    var branch := Join(siblings);
    JoinIsWholeNodes(siblings);
    BranchAfterControlByte(branch);
    if siblings == [] {
      assert !StartsWithZeroNode(branch);
    } else {
      JoinStarts(siblings);
      assert StartsWithZeroNode(branch) <==> siblings[0] == Zeros(32);
      assert branch[32..] != branch;
    }
  }

  lemma JoinIsWholeNodes(nodes: seq<Node>)
    ensures |Join(nodes)| % 32 == 0
  {
  }

  lemma JoinStarts(siblings: seq<Node>)
    requires siblings != []
    ensures |Join(siblings)| >= 32
    ensures Join(siblings)[..32] == siblings[0] && Join(siblings)[32..] == Join(siblings[1..])
  {
  }

  /** Soundness: an accepted control block opens a leaf of the tree at its path, or breaks the hashes. */
  lemma AcceptedPathIsInTree(h: Hashes, t: Tree, script: Bytes, control: Bytes) returns (o: Opening)
    requires VerifyMerklePath(h, script, Root(h, t), control).Ok?
    ensures IsOpening(h, t, script, Chunks(MerkleBranchBytes(control).value), o)
  {
    o := Extract(h, t, script, Chunks(MerkleBranchBytes(control).value));
  }

  /**
   * Completeness, for any list of siblings: a script opens the root its path hashes to exactly when the
   * lowest sibling is not taken for the pad, or the path hashes to the same root without it.
   */
  lemma PathVerifiesExactlyWhen(h: Hashes, script: Bytes, siblings: seq<Node>)
    ensures VerifyMerklePath(h, script, Fold(h, h.tapLeaf(script), siblings), ControlBlock(siblings)).Ok?
       <==> || siblings == []
            || siblings[0] != Zeros(32)
            || Fold(h, h.tapLeaf(script), siblings[1..]) == Fold(h, h.tapLeaf(script), siblings)
  {
    ControlBlockDecodesExactlyWhen(siblings);
    ChunksOfJoin(siblings);
    if siblings != [] {
      ChunksOfJoin(siblings[1..]);
    }
  }

  /** Every leaf of every tree verifies with its path unless its lowest sibling is taken for the pad. */
  lemma EveryLeafVerifies(h: Hashes, t: Tree, dirs: seq<bool>, script: Bytes)
    requires Reaches(t, dirs, script)
    requires Siblings(h, t, dirs) == [] || Siblings(h, t, dirs)[0] != Zeros(32)
    ensures VerifyMerklePath(h, script, Root(h, t), ControlBlock(Siblings(h, t, dirs))).Ok?
  {
    LeafFoldsToRoot(h, t, dirs, script);
    PathVerifiesExactlyWhen(h, script, Siblings(h, t, dirs));
  }

  /** Two nodes that hash to the same root along the same siblings are the same node, or break the hashes. */
  lemma {:induction false} MeetingIsCollision(h: Hashes, x: Node, y: Node, siblings: seq<Node>) returns (c: Collision)
    requires x != y && Fold(h, x, siblings) == Fold(h, y, siblings)
    ensures IsCollision(h, c)
    decreases |siblings|
  {
    var x', y' := BranchHash(h, x, siblings[0]), BranchHash(h, y, siblings[0]);
    if x' == y' {
      if SortedPair(x, siblings[0]) == SortedPair(y, siblings[0]) {
        SortedPairIsInjective(x, siblings[0], y, siblings[0]);
      }
      c := BranchBranch(SortedPair(x, siblings[0]), SortedPair(y, siblings[0]));
    } else {
      c := MeetingIsCollision(h, x', y', siblings[1..]);
    }
  }

  /** A script behind a zero sibling verifies with its path only if the hashes are broken. */
  lemma ZeroSiblingNeedsCollision(h: Hashes, script: Bytes, siblings: seq<Node>) returns (c: Collision)
    requires siblings != [] && siblings[0] == Zeros(32)
    requires VerifyMerklePath(h, script, Fold(h, h.tapLeaf(script), siblings), ControlBlock(siblings)).Ok?
    ensures IsCollision(h, c)
  {
    PathVerifiesExactlyWhen(h, script, siblings);
    var leaf := h.tapLeaf(script);
    if leaf == BranchHash(h, leaf, siblings[0]) {
      c := LeafBranch(script, SortedPair(leaf, siblings[0]));
    } else {
      c := MeetingIsCollision(h, leaf, BranchHash(h, leaf, siblings[0]), siblings[1..]);
    }
  }

  /**
   * For every hash function and every script: an output that commits to the script and a zero sibling
   * cannot be spent with the script's own path, except by this one collision.
   */
  lemma ZeroSiblingFailsExactlyWhen(h: Hashes, script: Bytes)
    ensures VerifyMerklePath(h, script, BranchHash(h, h.tapLeaf(script), Zeros(32)), ControlBlock([Zeros(32)])).Ok?
       <==> IsCollision(h, LeafBranch(script, SortedPair(h.tapLeaf(script), Zeros(32))))
  {
    assert [Zeros(32)][1..] == [];
    PathVerifiesExactlyWhen(h, script, [Zeros(32)]);
  }

  /** The legacy layout of the same branch: 32 zero bytes after the control byte. */
  function Padded(branch: Bytes): Bytes {
    [P2MR_CONTROL_BYTE] + Zeros(32) + branch
  }

  /** Padded and plain layout mean the same, errors included, unless the branch itself starts with zeros. */
  lemma PadIsEquivalentExactlyWhen(branch: Bytes)
    ensures MerkleBranchBytes(Padded(branch)) == MerkleBranchBytes([P2MR_CONTROL_BYTE] + branch)
       <==> !(|branch| % 32 == 0 && StartsWithZeroNode(branch))
  {
  }

  // ---------------------------------------------------------------- the fold as the program runs it

  method RecomputeRoot(h: Hashes, script: Bytes, control: Bytes) returns (r: Result<Node, MerkleError>)
    ensures r == RecomputeMerkleRoot(h, script, control)
  {
    var branch := MerkleBranchBytes(control);
    if branch.Err? {
      return Err(branch.error);
    }
    var currHash := h.tapLeaf(script);
    var rest := branch.value;
    while |rest| >= MERKLE_NODE_SIZE
      invariant Fold(h, currHash, Chunks(rest)) == Fold(h, h.tapLeaf(script), Chunks(branch.value))
      decreases |rest|
    {
      var sibling: Node := rest[..MERKLE_NODE_SIZE];
      assert Chunks(rest)[1..] == Chunks(rest[MERKLE_NODE_SIZE..]);
      currHash := BranchHash(h, currHash, sibling);
      rest := rest[MERKLE_NODE_SIZE..];
    }
    return Ok(currHash);
  }
}

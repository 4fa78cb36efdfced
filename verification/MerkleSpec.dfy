/** The reference object: a dense binary tree, padded on the right with empty leaves. */
module MerkleSpec {
  import opened Bits
  import opened ByteStrings

  /** SHA-256 as the tree uses it: the hash of two concatenated nodes, and the hash of the zero value. */
  datatype Hasher = Hasher(pair: (Bytes, Bytes) -> Bytes, zero: Bytes)

  /** The tree hash of a digest function: nodes are concatenated, and the zero value is 32 zero bytes. */
  function ShaHasher(sha: Bytes -> Bytes): Hasher {
    Hasher((a, b) => sha(a + b), sha(Zeros(32)))
  }

  /** ZH[n], the chain behind the table of zero hashes. */
  function ZeroHash(h: Hasher, n: nat): Bytes {
    if n == 0 then h.zero else h.pair(ZeroHash(h, n - 1), ZeroHash(h, n - 1))
  }

  /** The padded tree's leaf at position i: an empty leaf counts as ZH[1]. */
  function LeafAt(h: Hasher, leaves: seq<Bytes>, i: nat): Bytes {
    if i < |leaves| then leaves[i] else ZeroHash(h, 1)
  }

  /** Root of the tree whose leaf layer is s, obtained by splitting s in halves. */
  function DenseRoot(h: Hasher, s: seq<Bytes>): Bytes
    requires s != []
  {
    if |s| == 1 then s[0]
    else h.pair(DenseRoot(h, s[..|s| / 2]), DenseRoot(h, s[|s| / 2..]))
  }

  /** 2^k consecutive leaves of the padded tree. */
  function Block(h: Hasher, leaves: seq<Bytes>, start: nat, k: nat): (b: seq<Bytes>)
    ensures |b| == Pow2(k) > 0
  {
    Pow2Positive(k);
    seq(Pow2(k), j requires 0 <= j => LeafAt(h, leaves, start + j))
  }

  /** The padded tree of a depth-level tree has 2^(depth-1) leaves. */
  function PaddedRoot(h: Hasher, leaves: seq<Bytes>, depth: nat): Bytes
    requires depth >= 1
  {
    DenseRoot(h, Block(h, leaves, 0, depth - 1))
  }

  /** The padded tree node number idx at height level. */
  function Node(h: Hasher, leaves: seq<Bytes>, level: nat, idx: nat): Bytes
    decreases level
  {
    if level == 0 then LeafAt(h, leaves, idx)
    else h.pair(Node(h, leaves, level - 1, 2 * idx), Node(h, leaves, level - 1, 2 * idx + 1))
  }

  lemma BlockHalves(h: Hasher, leaves: seq<Bytes>, start: nat, k: nat)
    requires k > 0
    ensures var b := Block(h, leaves, start, k);
            && |b| == 2 * Pow2(k - 1)
            && b[..|b| / 2] == Block(h, leaves, start, k - 1)
            && b[|b| / 2..] == Block(h, leaves, start + Pow2(k - 1), k - 1)
  {
  }

  lemma {:induction false} OneLeaf(h: Hasher, leaves: seq<Bytes>, start: nat)
    ensures DenseRoot(h, Block(h, leaves, start, 0)) == LeafAt(h, leaves, start)
  {
    assert |Block(h, leaves, start, 0)| == Pow2(0) == 1;
  }

  /** A node is the dense root of the leaves it covers. */
  lemma {:induction false} NodeIsDense(h: Hasher, leaves: seq<Bytes>, level: nat, idx: nat)
    ensures Node(h, leaves, level, idx) == DenseRoot(h, Block(h, leaves, idx * Pow2(level), level))
    decreases level
  {
    if level > 0 {
      hide Block;
      var half, start := Pow2(level - 1), idx * Pow2(level);
      assert start == 2 * idx * half;
      assert (2 * idx + 1) * half == start + half;
      BlockHalves(h, leaves, start, level);
      NodeIsDense(h, leaves, level - 1, 2 * idx);
      NodeIsDense(h, leaves, level - 1, 2 * idx + 1);
    } else {
      OneLeaf(h, leaves, idx);
      assert idx * Pow2(0) == idx;
    }
  }

  lemma PaddedRootIsNode(h: Hasher, leaves: seq<Bytes>, depth: nat)
    requires depth >= 1
    ensures PaddedRoot(h, leaves, depth) == Node(h, leaves, depth - 1, 0)
  {
    NodeIsDense(h, leaves, depth - 1, 0);
    assert 0 * Pow2(depth - 1) == 0;
  }

  /** Number of nodes at height level that cover at least one of n leaves. */
  function Count(n: nat, level: nat): nat {
    if level == 0 then n else (Count(n, level - 1) + 1) / 2
  }

  lemma {:induction false} CountBelow(n: nat, j: nat, k: nat)
    ensures Count(n, j + k) <= 1 <==> Count(n, j) <= Pow2(k)
    decreases k
  {
    if k > 0 {
      CountBelow(n, j + 1, k - 1);
    }
  }

  /** ceil(n / 2^k) and floor(i / 2^k) agree on which nodes are occupied. */
  lemma {:induction false} ShrBelowCount(i: nat, n: nat, level: nat)
    requires i < n
    ensures Shr(i, level) < Count(n, level)
  {
    if level > 0 { ShrBelowCount(i, n, level - 1); }
  }

  /** A node that covers no leaf is a zero hash, one further up the chain than its height. */
  lemma {:induction false} EmptyNode(h: Hasher, leaves: seq<Bytes>, level: nat, idx: nat)
    requires idx >= Count(|leaves|, level)
    ensures Node(h, leaves, level, idx) == ZeroHash(h, level + 1)
    decreases level
  {
    if level > 0 {
      EmptyNode(h, leaves, level - 1, 2 * idx);
      EmptyNode(h, leaves, level - 1, 2 * idx + 1);
    }
  }

  /** Appending a leaf leaves every complete node as it was. */
  lemma {:induction false} CompleteNodeStable(h: Hasher, leaves: seq<Bytes>, x: Bytes, level: nat, idx: nat)
    requires idx < Shr(|leaves|, level)
    ensures Node(h, leaves + [x], level, idx) == Node(h, leaves, level, idx)
    decreases level
  {
    if level > 0 {
      CompleteNodeStable(h, leaves, x, level - 1, 2 * idx);
      CompleteNodeStable(h, leaves, x, level - 1, 2 * idx + 1);
    }
  }

  // ------------------------------------------------------------------
  // Proof paths
  // ------------------------------------------------------------------

  datatype MerkleProof = MerkleProof(pathElements: seq<Bytes>, pathIndices: seq<int>)

  /** One step up: a truthy direction puts the sibling on the left. */
  function Step(h: Hasher, cur: Bytes, sibling: Bytes, dir: int): Bytes {
    if dir != 0 then h.pair(sibling, cur) else h.pair(cur, sibling)
  }

  /** The running hash after the first n steps of a path. */
  function FoldPath(h: Hasher, leaf: Bytes, p: MerkleProof, n: nat): Bytes
    requires n <= |p.pathElements| && n <= |p.pathIndices|
  {
    if n == 0 then leaf
    else Step(h, FoldPath(h, leaf, p, n - 1), p.pathElements[n - 1], p.pathIndices[n - 1])
  }

  predicate Verifies(h: Hasher, p: MerkleProof, leaf: Bytes, root: Bytes, depth: nat) {
    && depth >= 1
    && |p.pathElements| == depth - 1 == |p.pathIndices|
    && FoldPath(h, leaf, p, depth - 1) == root
  }

  /** Index of the sibling of a node: idx ^ 1. */
  function Sibling(idx: nat): nat {
    if idx % 2 == 0 then idx + 1 else idx - 1
  }

  /** The path of leaf i in the padded tree: the siblings on the way up, and the bits of i as directions. */
  ghost predicate IsPathOf(h: Hasher, leaves: seq<Bytes>, i: nat, p: MerkleProof) {
    && |p.pathElements| == |p.pathIndices|
    && forall l :: 0 <= l < |p.pathElements| ==>
         p.pathElements[l] == Node(h, leaves, l, Sibling(Shr(i, l))) && p.pathIndices[l] == Bit(i, l)
  }

  ghost predicate IsProofFor(h: Hasher, leaves: seq<Bytes>, i: nat, depth: nat, p: MerkleProof) {
    IsPathOf(h, leaves, i, p) && |p.pathElements| == depth - 1
  }

  // ------------------------------------------------------------------
  // What insert leaves behind
  // ------------------------------------------------------------------

  /** First level from l on, below depth, at which i has a zero bit; depth if there is none. */
  function FirstZero(i: nat, l: nat, depth: nat): nat
    decreases depth - l
  {
    if l >= depth || Bit(i, l) == 0 then l else FirstZero(i, l + 1, depth)
  }

  /** The second phase of insert: combine with the zero hash of each level, on the side bit `level` of i says. */
  function ZeroFold(h: Hasher, x: Bytes, i: nat, level: nat, depth: nat): Bytes
    decreases depth - level
  {
    if level >= depth then x
    else
      var z := ZeroHash(h, level);
      ZeroFold(h, if Bit(i, level) == 0 then h.pair(x, z) else h.pair(z, x), i, level + 1, depth)
  }

  /** The root after the last of the given leaves went in: the complete block that ends there, folded. */
  function InsertRoot(h: Hasher, leaves: seq<Bytes>, depth: nat): Bytes
    requires leaves != []
  {
    var i := |leaves| - 1;
    var k := FirstZero(i, 0, depth);
    ZeroFold(h, Node(h, leaves, k, Shr(i, k)), i, k + 1, depth)
  }

  /** The tree's root field as a function of its leaves. The empty root is the depth-20 one at every depth. */
  function TreeRoot(h: Hasher, leaves: seq<Bytes>, depth: nat): Bytes {
    if leaves == [] then h.pair(ZeroHash(h, 19), ZeroHash(h, 19)) else InsertRoot(h, leaves, depth)
  }

  /** Every level whose bit is set in the leaf count holds the root of the last complete block of its size. */
  ghost predicate FrontierHolds(h: Hasher, frontier: seq<Bytes>, leaves: seq<Bytes>) {
    forall k :: 0 <= k < |frontier| && Bit(|leaves|, k) == 1 ==>
      Shr(|leaves|, k) >= 1 && frontier[k] == Node(h, leaves, k, Shr(|leaves|, k) - 1)
  }
}

/** The client-side incremental Merkle tree. */
module MerkleTree {
  import opened Results
  import opened Bits
  import opened ByteStrings
  import opened Constants
  import opened Crypto
  import opened MerkleSpec

  datatype TreeError = BadLeafLength(got: nat) | TreeFull | IndexOutOfBounds(index: int)

  datatype Inserted = Inserted(root: Bytes, index: nat)

  ghost predicate IsZeroTable(h: Hasher, table: seq<Bytes>, depth: nat) {
    |table| == depth && forall k :: 0 <= k < depth ==> table[k] == ZeroHash(h, k)
  }

  /** The tree's fields, as one condition on values. */
  ghost predicate TreeState(h: Hasher, depth: nat, frontier: seq<Bytes>, leaves: seq<Bytes>, root: Bytes,
                            nextIndex: nat) {
    && |frontier| == depth
    && nextIndex == |leaves| <= MAX_LEAVES
    && FrontierHolds(h, frontier, leaves)
    && root == TreeRoot(h, leaves, depth)
  }

  /** At a one bit, the frontier's block and the carried one are the two halves of a block twice the size. */
  lemma CarryStep(h: Hasher, frontier: seq<Bytes>, leaves: seq<Bytes>, leaf: Bytes, level: nat)
    requires FrontierHolds(h, frontier, leaves) && level < |frontier| && Bit(|leaves|, level) == 1
    ensures h.pair(frontier[level], Node(h, leaves + [leaf], level, Shr(|leaves|, level)))
            == Node(h, leaves + [leaf], level + 1, Shr(|leaves|, level + 1))
  {
    CompleteNodeStable(h, leaves, leaf, level, Shr(|leaves|, level) - 1);
  }

  /** The frontier invariant survives storing the carried hash at the first zero bit (or nowhere that matters). */
  lemma FrontierStep(h: Hasher, before: seq<Bytes>, after: seq<Bytes>, leaves: seq<Bytes>, leaf: Bytes, k: nat)
    requires FrontierHolds(h, before, leaves)
    requires |after| == |before| && k <= |before|
    requires forall l :: 0 <= l < k ==> Bit(|leaves|, l) == 1
    requires k < |before| ==>
               Bit(|leaves|, k) == 0
               && after == before[k := Node(h, leaves + [leaf], k, Shr(|leaves|, k))]
    ensures FrontierHolds(h, after, leaves + [leaf])
  {
    var n := |leaves|;
    ShrSucc(n, k);
    hide Node, ZeroHash;
    forall l | 0 <= l < |after| && Bit(n + 1, l) == 1
      ensures Shr(n + 1, l) >= 1 && after[l] == Node(h, leaves + [leaf], l, Shr(n + 1, l) - 1)
    {
      if l > k {
        ShrSuccAbove(n, k, l);
        assert Bit(n, l) == 1;
        CompleteNodeStable(h, leaves, leaf, l, Shr(n, l) - 1);
      }
    }
  }

  lemma TreeStep(h: Hasher, depth: nat, before: seq<Bytes>, after: seq<Bytes>, leaves: seq<Bytes>, leaf: Bytes, k: nat,
                 root: Bytes)
    requires |before| == depth && |leaves| < MAX_LEAVES && depth >= 1
    requires FrontierHolds(h, before, leaves)
    requires k == FirstZero(|leaves|, 0, depth) <= depth
    requires forall l :: 0 <= l < k ==> Bit(|leaves|, l) == 1
    requires k < depth ==> Bit(|leaves|, k) == 0
    requires var cur := Node(h, leaves + [leaf], k, Shr(|leaves|, k));
             var stored := if k < depth then k else depth - 1;
             after == before[stored := cur]
             && root == ZeroFold(h, cur, |leaves|, stored + 1, depth)
    ensures TreeState(h, depth, after, leaves + [leaf], root, |leaves| + 1)
    ensures root == InsertRoot(h, leaves + [leaf], depth)
  {
    FrontierStep(h, before, after, leaves, leaf, k);
    assert |leaves + [leaf]| - 1 == |leaves|;
  }

  /** A sparse layer: exactly the occupied nodes of one height. */
  ghost predicate IsLayer(h: Hasher, leaves: seq<Bytes>, level: nat, layer: map<nat, Bytes>) {
    && (forall i: nat :: i in layer <==> i < Count(|leaves|, level))
    && (forall i: nat :: i in layer ==> layer[i] == Node(h, leaves, level, i))
  }

  /** Looking up a sparse layer, defaulting to the shifted zero hash, is looking up the dense tree. */
  lemma LayerLookup(h: Hasher, leaves: seq<Bytes>, level: nat, layer: map<nat, Bytes>, i: nat)
    requires IsLayer(h, leaves, level, layer)
    ensures (if i in layer then layer[i] else ZeroHash(h, level + 1)) == Node(h, leaves, level, i)
  {
    if i !in layer {
      EmptyNode(h, leaves, level, i);
    }
  }

  lemma PathGrows(h: Hasher, leaves: seq<Bytes>, i: nat, p: MerkleProof, sibling: Bytes)
    requires IsPathOf(h, leaves, i, p)
    requires var l := |p.pathElements|; sibling == Node(h, leaves, l, Sibling(Shr(i, l)))
    ensures IsPathOf(h, leaves, i, MerkleProof(p.pathElements + [sibling], p.pathIndices + [Bit(i, |p.pathElements|)]))
  {
  }

  /** A layer under construction: the keys of layer outside todo have their parents in next. */
  ghost predicate IsPartialLayer(h: Hasher, leaves: seq<Bytes>, level: nat, layer: map<nat, Bytes>, todo: set<nat>,
                                 next: map<nat, Bytes>) {
    && todo <= layer.Keys
    && (forall i: nat :: i in layer && i !in todo ==> i / 2 in next)
    && (forall p: nat :: p in next ==> p < Count(|leaves|, level + 1) && next[p] == Node(h, leaves, level + 1, p))
  }

  /** The node above idx, computed from a sparse layer. */
  lemma ParentNode(h: Hasher, leaves: seq<Bytes>, level: nat, layer: map<nat, Bytes>, idx: nat)
    requires IsLayer(h, leaves, level, layer) && idx in layer
    ensures var zero, l, r := ZeroHash(h, level + 1), 2 * (idx / 2), 2 * (idx / 2) + 1;
            h.pair(if l in layer then layer[l] else zero, if r in layer then layer[r] else zero)
            == Node(h, leaves, level + 1, idx / 2)
    ensures idx / 2 < Count(|leaves|, level + 1)
  {
    LayerLookup(h, leaves, level, layer, 2 * (idx / 2));
    LayerLookup(h, leaves, level, layer, 2 * (idx / 2) + 1);
  }

  lemma PartialStep(h: Hasher, leaves: seq<Bytes>, level: nat, layer: map<nat, Bytes>, todo: set<nat>,
                    next: map<nat, Bytes>, idx: nat)
    requires IsLayer(h, leaves, level, layer) && IsPartialLayer(h, leaves, level, layer, todo, next) && idx in todo
    ensures var zero, l, r := ZeroHash(h, level + 1), 2 * (idx / 2), 2 * (idx / 2) + 1;
            var node := h.pair(if l in layer then layer[l] else zero, if r in layer then layer[r] else zero);
            var next' := if idx / 2 in next then next else next[idx / 2 := node];
            IsPartialLayer(h, leaves, level, layer, todo - {idx}, next')
  {
    ParentNode(h, leaves, level, layer, idx);
  }

  lemma LayerDone(h: Hasher, leaves: seq<Bytes>, level: nat, layer: map<nat, Bytes>, next: map<nat, Bytes>)
    requires IsLayer(h, leaves, level, layer) && IsPartialLayer(h, leaves, level, layer, {}, next)
    ensures IsLayer(h, leaves, level + 1, next)
  {
    forall p: nat | p < Count(|leaves|, level + 1) ensures p in next {
      assert 2 * p in layer;
      assert 2 * p / 2 == p;
    }
  }

  /** One layer up. The keys may come in any order. */
  method NextLayer(h: Hasher, ghost leaves: seq<Bytes>, ghost level: nat, layer: map<nat, Bytes>, zeroAtLevel: Bytes)
    returns (next: map<nat, Bytes>)
    requires IsLayer(h, leaves, level, layer) && zeroAtLevel == ZeroHash(h, level + 1)
    ensures IsLayer(h, leaves, level + 1, next)
  {
    next := map[];
    var todo := layer.Keys;
    while todo != {}
      invariant IsPartialLayer(h, leaves, level, layer, todo, next)
      decreases todo
    {
      hide IsPartialLayer, IsLayer, Node, Count, ZeroHash;
      var idx :| idx in todo;
      PartialStep(h, leaves, level, layer, todo, next, idx);
      todo := todo - {idx};
      var parentIdx := idx / 2;
      if parentIdx !in next {
        var leftIdx := 2 * parentIdx;
        var rightIdx := leftIdx + 1;
        var left := if leftIdx in layer then layer[leftIdx] else zeroAtLevel;
        var right := if rightIdx in layer then layer[rightIdx] else zeroAtLevel;
        next := next[parentIdx := h.pair(left, right)];
      }
    }
    LayerDone(h, leaves, level, layer, next);
  }

  /** Folds a path and compares: the length of both arrays must be depth - 1. */
  method VerifyMerkleProof(h: Hasher, proof: MerkleProof, leaf: Bytes, root: Bytes, depth: nat) returns (ok: bool)
    ensures ok == Verifies(h, proof, leaf, root, depth)
  {
    var proofLen := depth - 1;
    if |proof.pathElements| != proofLen || |proof.pathIndices| != proofLen {
      return false;
    }
    var currentHash := leaf;
    for i := 0 to proofLen
      invariant currentHash == FoldPath(h, leaf, proof, i)
    {
      if proof.pathIndices[i] != 0 {
        currentHash := h.pair(proof.pathElements[i], currentHash);
      } else {
        currentHash := h.pair(currentHash, proof.pathElements[i]);
      }
    }
    ok := ConstantTimeEqual(currentHash, root);
  }

  class IncrementalMerkleTree {
    const depth: nat
    const h: Hasher
    const zeroHashes: seq<Bytes>
    const frontier: array<Bytes>
    var leaves: seq<Bytes>
    var root: Bytes
    var nextIndex: nat

    ghost predicate Valid()
      reads this, frontier
    {
      && 1 <= depth <= TREE_DEPTH
      && IsZeroTable(h, zeroHashes, depth)
      && TreeState(h, depth, frontier[..], leaves, root, nextIndex)
    }

    /** Accepts any depth, but the table of zero hashes ends at 20. */
    constructor (h: Hasher, depth: nat)
      ensures 1 <= depth <= TREE_DEPTH ==> Valid()
      ensures fresh(frontier) && frontier[..] == zeroHashes
      ensures |zeroHashes| == (if depth < TREE_DEPTH then depth else TREE_DEPTH)
      ensures forall k :: 0 <= k < |zeroHashes| ==> zeroHashes[k] == ZeroHash(h, k)
      ensures this.h == h && this.depth == depth && leaves == [] && nextIndex == 0 && root == TreeRoot(h, [], depth)
    {
      var levels := if depth < TREE_DEPTH then depth else TREE_DEPTH;
      this.depth := depth;
      this.h := h;
      zeroHashes := seq(levels, k requires 0 <= k => ZeroHash(h, k));
      frontier := new Bytes[levels](k requires 0 <= k => ZeroHash(h, k));
      leaves := [];
      root := h.pair(ZeroHash(h, 19), ZeroHash(h, 19));
      nextIndex := 0;
      new;
      forall k: nat ensures Bit(0, k) == 0 { ShrZeroAbove(0, 0, k); }
    }

    /** The first phase of Insert: carry the leaf through the levels whose bit is one. */
    method Carry(leaf: Bytes, leafIndex: nat) returns (currentHash: Bytes, level: nat)
      requires depth == frontier.Length && leafIndex == |leaves|
      requires FrontierHolds(h, frontier[..], leaves)
      ensures level <= depth && level == FirstZero(leafIndex, 0, depth)
      ensures forall l :: 0 <= l < level ==> Bit(leafIndex, l) == 1
      ensures level < depth ==> Bit(leafIndex, level) == 0
      ensures currentHash == Node(h, leaves + [leaf], level, Shr(leafIndex, level))
    {
      currentHash := leaf;
      level := 0;
      while level < depth && Bit(leafIndex, level) == 1
        invariant 0 <= level <= depth
        invariant forall l :: 0 <= l < level ==> Bit(leafIndex, l) == 1
        invariant FirstZero(leafIndex, level, depth) == FirstZero(leafIndex, 0, depth)
        invariant currentHash == Node(h, leaves + [leaf], level, Shr(leafIndex, level))
      {
        hide Node, FrontierHolds;
        CarryStep(h, frontier[..], leaves, leaf, level);
        currentHash := h.pair(frontier[level], currentHash);
        level := level + 1;
      }
    }

    /** The second phase of Insert. */
    method FoldZeros(stored: Bytes, leafIndex: nat, storedLevel: nat) returns (rootHash: Bytes)
      requires IsZeroTable(h, zeroHashes, depth)
      requires storedLevel < depth
      ensures rootHash == ZeroFold(h, stored, leafIndex, storedLevel + 1, depth)
    {
      rootHash := stored;
      var level := storedLevel + 1;
      while level < depth
        invariant storedLevel < level <= depth
        invariant ZeroFold(h, rootHash, leafIndex, level, depth)
                == ZeroFold(h, stored, leafIndex, storedLevel + 1, depth)
      {
        var zero := zeroHashes[level];
        if Bit(leafIndex, level) == 0 {
          rootHash := h.pair(rootHash, zero);
        } else {
          rootHash := h.pair(zero, rootHash);
        }
        level := level + 1;
      }
    }

    /** Appends a leaf. A refused leaf changes nothing. */
    method Insert(leaf: Bytes) returns (r: Result<Inserted, TreeError>)
      requires Valid()
      modifies this, frontier
      ensures Valid()
      ensures |leaf| != 32 ==> r == Err(BadLeafLength(|leaf|))
      ensures |leaf| == 32 && |old(leaves)| == MAX_LEAVES ==> r == Err(TreeFull)
      ensures r.Err? <==> |leaf| != 32 || |old(leaves)| == MAX_LEAVES
      ensures r.Err? ==> leaves == old(leaves) && root == old(root) && frontier[..] == old(frontier[..])
      ensures r.Ok? ==> leaves == old(leaves) + [leaf]
                        && r.value == Inserted(InsertRoot(h, leaves, depth), |old(leaves)|)
    {
      hide InsertRoot, FrontierHolds, TreeRoot, Node, ZeroFold;
      if |leaf| != 32 {
        return Err(BadLeafLength(|leaf|));
      }
      if nextIndex >= MAX_LEAVES {
        return Err(TreeFull);
      }

      var leafIndex := nextIndex;
      var currentHash, level := Carry(leaf, leafIndex);
      // With every bit set, the complete tree goes to the topmost level.
      var storedLevel := if level < depth then level else depth - 1;
      leaves := leaves + [leaf];
      frontier[storedLevel] := currentHash;
      root := FoldZeros(currentHash, leafIndex, storedLevel);
      nextIndex := leafIndex + 1;
      TreeStep(h, depth, old(frontier[..]), frontier[..], old(leaves), leaf, level, root);
      r := Ok(Inserted(root, leafIndex));
    }

    /** The path of a leaf, rebuilt layer by layer from sparse layers. */
    method GenerateProof(leafIndex: int) returns (r: Result<MerkleProof, TreeError>)
      requires Valid()
      ensures 0 <= leafIndex < |leaves| ==> r.Ok? && IsProofFor(h, leaves, leafIndex, depth, r.value)
      ensures !(0 <= leafIndex < |leaves|) ==> r == Err(IndexOutOfBounds(leafIndex))
    {
      hide ZeroHash;
      if leafIndex < 0 || leafIndex >= nextIndex {
        return Err(IndexOutOfBounds(leafIndex));
      }
      var pathElements: seq<Bytes> := [];
      var pathIndices: seq<int> := [];
      var currentLayer: map<nat, Bytes> := map i: nat | i < |leaves| :: leaves[i];
      assert IsLayer(h, leaves, 0, currentLayer);

      var level := 0;
      while level < depth - 1
        invariant 0 <= level <= depth - 1
        invariant IsLayer(h, leaves, level, currentLayer)
        invariant |pathElements| == level
        invariant IsPathOf(h, leaves, leafIndex, MerkleProof(pathElements, pathIndices))
      {
        hide IsLayer, IsPathOf, Node, ZeroHash;
        var nodeIdx := Shr(leafIndex, level);
        var isRight := nodeIdx % 2;
        var siblingIdx := Sibling(nodeIdx);
        var zeroAtLevel := zeroHashes[level + 1];
        var sibling := if siblingIdx in currentLayer then currentLayer[siblingIdx] else zeroAtLevel;
        LayerLookup(h, leaves, level, currentLayer, siblingIdx);
        PathGrows(h, leaves, leafIndex, MerkleProof(pathElements, pathIndices), sibling);
        pathElements := pathElements + [sibling];
        pathIndices := pathIndices + [isRight];

        currentLayer := NextLayer(h, leaves, level, currentLayer, zeroAtLevel);
        level := level + 1;
      }
      r := Ok(MerkleProof(pathElements, pathIndices));
    }

    method VerifyProof(proof: MerkleProof, leaf: Bytes, root: Bytes) returns (ok: bool)
      ensures ok == Verifies(h, proof, leaf, root, depth)
    {
      ok := VerifyMerkleProof(h, proof, leaf, root, depth);
    }
  }
}

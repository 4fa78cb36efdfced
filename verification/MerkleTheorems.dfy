/** What the tree promises: proofs are complete, and exactly when the stored root agrees with them. */
module MerkleTheorems {
  import opened Bits
  import opened ByteStrings
  import opened Constants
  import opened MerkleSpec

  // ------------------------------------------------------------------
  // Completeness: sparse proofs against the dense tree
  // ------------------------------------------------------------------

  /** A node combined with its sibling on the side of its low bit is its parent. */
  lemma ParentStep(h: Hasher, leaves: seq<Bytes>, level: nat, idx: nat)
    ensures Step(h, Node(h, leaves, level, idx), Node(h, leaves, level, Sibling(idx)), idx % 2)
            == Node(h, leaves, level + 1, idx / 2)
  {
    assert idx == 2 * (idx / 2) + idx % 2;
  }

  lemma {:induction false} FoldClimbs(h: Hasher, leaves: seq<Bytes>, i: nat, p: MerkleProof, n: nat)
    requires IsPathOf(h, leaves, i, p) && n <= |p.pathElements|
    ensures FoldPath(h, LeafAt(h, leaves, i), p, n) == Node(h, leaves, n, Shr(i, n))
  {
    if n > 0 {
      FoldClimbs(h, leaves, i, p, n - 1);
      ParentStep(h, leaves, n - 1, Shr(i, n - 1));
    }
  }

  /** Every generated proof leads from its leaf to the root of the padded tree. */
  lemma ProofsReachPaddedRoot(h: Hasher, leaves: seq<Bytes>, i: nat, depth: nat, p: MerkleProof)
    requires depth >= 1 && i < |leaves| <= Pow2(depth - 1) && IsProofFor(h, leaves, i, depth, p)
    ensures Verifies(h, p, leaves[i], PaddedRoot(h, leaves, depth), depth)
  {
    FoldClimbs(h, leaves, i, p, depth - 1);
    ShrBelow(i, depth - 1);
    PaddedRootIsNode(h, leaves, depth);
  }

  /** ...and to no other root: a generated proof verifies exactly against the padded root. */
  lemma ProofsVerifyExactly(h: Hasher, leaves: seq<Bytes>, i: nat, depth: nat, p: MerkleProof, root: Bytes)
    requires depth >= 1 && i < |leaves| <= Pow2(depth - 1) && IsProofFor(h, leaves, i, depth, p)
    ensures Verifies(h, p, leaves[i], root, depth) <==> root == PaddedRoot(h, leaves, depth)
  {
    ProofsReachPaddedRoot(h, leaves, i, depth, p);
  }

  // ------------------------------------------------------------------
  // The frontier determines the padded root
  // ------------------------------------------------------------------

  /** Climb from the first free position, taking left siblings from the frontier and right ones from the zero hashes. */
  function FrontierClimb(h: Hasher, frontier: seq<Bytes>, n: nat, level: nat): Bytes
    requires level <= |frontier|
  {
    if level == 0 then ZeroHash(h, 1)
    else if Bit(n, level - 1) == 1 then h.pair(frontier[level - 1], FrontierClimb(h, frontier, n, level - 1))
    else h.pair(FrontierClimb(h, frontier, n, level - 1), ZeroHash(h, level))
  }

  function FrontierRoot(h: Hasher, frontier: seq<Bytes>, n: nat): Bytes
    requires |frontier| >= 1
  {
    if n == Pow2(|frontier| - 1) then frontier[|frontier| - 1]
    else FrontierClimb(h, frontier, n, |frontier| - 1)
  }

  lemma {:induction false} CountOfNext(n: nat, level: nat)
    ensures Count(n, level) <= Shr(n, level) + 1
  {
    if level > 0 { CountOfNext(n, level - 1); }
  }

  lemma {:induction false} FrontierClimbs(h: Hasher, frontier: seq<Bytes>, leaves: seq<Bytes>, level: nat)
    requires FrontierHolds(h, frontier, leaves) && level <= |frontier|
    ensures FrontierClimb(h, frontier, |leaves|, level) == Node(h, leaves, level, Shr(|leaves|, level))
  {
    var n := |leaves|;
    if level > 0 {
      FrontierClimbs(h, frontier, leaves, level - 1);
      if Bit(n, level - 1) == 0 {
        CountOfNext(n, level - 1);
        EmptyNode(h, leaves, level - 1, Shr(n, level - 1) + 1);
      }
    }
  }

  lemma {:induction false} ShrPow2Down(k: nat, j: nat)
    ensures Shr(Pow2(j + k), k) == Pow2(j)
    decreases k
  {
    if k > 0 {
      ShrPow2Down(k - 1, j + 1);
      assert j + k == (j + 1) + (k - 1);
    }
  }

  lemma {:induction false} ShrOfPow2(k: nat)
    ensures Shr(Pow2(k), k) == 1
  {
    ShrPow2Down(k, 0);
  }

  lemma TopOfFrontier(h: Hasher, frontier: seq<Bytes>, leaves: seq<Bytes>, d: nat)
    requires FrontierHolds(h, frontier, leaves) && d < |frontier| && |leaves| == Pow2(d)
    ensures frontier[d] == Node(h, leaves, d, 0)
  {
    hide Node, Pow2;
    ShrOfPow2(d);
    assert Bit(|leaves|, d) == 1;
  }

  /** The frontier and the leaf count alone give the padded root, at every leaf count the proofs cover. */
  lemma {:induction false} FrontierGivesPaddedRoot(h: Hasher, frontier: seq<Bytes>, leaves: seq<Bytes>)
    requires |frontier| >= 1 && FrontierHolds(h, frontier, leaves)
    requires |leaves| <= Pow2(|frontier| - 1)
    ensures FrontierRoot(h, frontier, |leaves|) == PaddedRoot(h, leaves, |frontier|)
  {
    var n, d := |leaves|, |frontier| - 1;
    PaddedRootIsNode(h, leaves, |frontier|);
    hide FrontierClimb, Node, FrontierHolds, PaddedRoot, Shr, Pow2;
    if n == Pow2(d) {
      TopOfFrontier(h, frontier, leaves, d);
    } else {
      ShrBelow(n, d);
      FrontierClimbs(h, frontier, leaves, d);
    }
  }

  // ------------------------------------------------------------------
  // The stored root: exactly when it is the padded root
  // ------------------------------------------------------------------

  /** Every padded-tree leaf under this node is an empty leaf or equal to one. */
  predicate AllZero(h: Hasher, leaves: seq<Bytes>, level: nat, idx: nat)
    decreases level
  {
    if level == 0 then LeafAt(h, leaves, idx) == ZeroHash(h, 1)
    else AllZero(h, leaves, level - 1, 2 * idx) && AllZero(h, leaves, level - 1, 2 * idx + 1)
  }

  lemma {:induction false} AllZeroIsZero(h: Hasher, leaves: seq<Bytes>, level: nat, idx: nat)
    requires AllZero(h, leaves, level, idx)
    ensures Node(h, leaves, level, idx) == ZeroHash(h, level + 1)
    decreases level
  {
    if level > 0 {
      AllZeroIsZero(h, leaves, level - 1, 2 * idx);
      AllZeroIsZero(h, leaves, level - 1, 2 * idx + 1);
    }
  }

  lemma {:induction false} AllZeroDescends(h: Hasher, leaves: seq<Bytes>, m: nat, k: nat, level: nat)
    requires k <= level && AllZero(h, leaves, level, Shr(m, level))
    ensures AllZero(h, leaves, k, Shr(m, k))
    decreases level
  {
    if k < level {
      AllZeroDescends(h, leaves, m, k, level - 1);
    }
  }

  ghost predicate AllLeavesZero(h: Hasher, leaves: seq<Bytes>) {
    forall m :: 0 <= m < |leaves| ==> leaves[m] == ZeroHash(h, 1)
  }

  lemma {:induction false} NothingButZeros(h: Hasher, leaves: seq<Bytes>, level: nat, idx: nat)
    requires AllLeavesZero(h, leaves)
    ensures AllZero(h, leaves, level, idx)
    decreases level
  {
    if level > 0 {
      NothingButZeros(h, leaves, level - 1, 2 * idx);
      NothingButZeros(h, leaves, level - 1, 2 * idx + 1);
    }
  }

  /** The running hash of insert's second phase when it has reached height j. */
  function Climb(h: Hasher, x: Bytes, i: nat, k: nat, j: nat): Bytes
    requires k <= j
    decreases j
  {
    if j == k then x
    else
      var below := Climb(h, x, i, k, j - 1);
      if Bit(i, j) == 0 then h.pair(below, ZeroHash(h, j)) else h.pair(ZeroHash(h, j), below)
  }

  lemma {:induction false} ZeroFoldIsClimb(h: Hasher, x: Bytes, i: nat, k: nat, j: nat, depth: nat)
    requires k <= j < depth
    ensures ZeroFold(h, Climb(h, x, i, k, j), i, j + 1, depth) == Climb(h, x, i, k, depth - 1)
    decreases depth - j
  {
    if j + 1 < depth {
      ZeroFoldIsClimb(h, x, i, k, j + 1, depth);
    }
  }

  lemma {:induction false} ClimbOverZeros(h: Hasher, i: nat, k: nat, j: nat)
    requires k <= j
    ensures Climb(h, ZeroHash(h, k + 1), i, k, j) == ZeroHash(h, j + 1)
    decreases j
  {
    if k < j { ClimbOverZeros(h, i, k, j - 1); }
  }

  /** With no bit set from height k up, the second phase climbs the left spine of the padded tree. */
  lemma {:induction false} ClimbLeftSpine(h: Hasher, leaves: seq<Bytes>, i: nat, k: nat, j: nat)
    requires k <= j && i == |leaves| - 1 && Shr(i, k) == 0 && Count(|leaves|, k) <= 1
    ensures Climb(h, Node(h, leaves, k, 0), i, k, j) == Node(h, leaves, j, 0)
    ensures Count(|leaves|, j) <= 1
    decreases j
  {
    if k < j {
      ClimbLeftSpine(h, leaves, i, k, j - 1);
      EmptyNode(h, leaves, j - 1, 1);
      ShrZeroAbove(i, k, j);
    }
  }

  lemma {:induction false} LowBitsClear(n: nat, j: nat, k: nat)
    requires j <= k
    requires forall l :: j <= l < k ==> Bit(n, l) == 0
    ensures Shr(n, k) == 1 ==> Shr(n, j) == Pow2(k - j)
    decreases k - j
  {
    if j < k {
      assert Bit(n, j) == 0;
      LowBitsClear(n, j + 1, k);
    }
  }

  /** A leaf count is a power of two exactly when the last index has nothing above its trailing ones. */
  lemma {:induction false} Pow2ByTrailingOnes(i: nat, k: nat)
    requires forall l :: 0 <= l < k ==> Bit(i, l) == 1
    requires Bit(i, k) == 0
    ensures Shr(i, k) == 0 ==> i + 1 == Pow2(k)
    ensures IsPow2(i + 1) ==> Shr(i, k) == 0
  {
    var n := i + 1;
    ShrSucc(i, k);
    LowBitsClear(n, 0, k);
    if IsPow2(n) {
      var m: nat :| n == Pow2(m);
      if m < k {
        assert Bit(n, m) == 0;
        ShrOfPow2(m);
      } else {
        ShrPow2Down(k, m - k);
      }
    }
  }

  lemma {:induction false} FirstZeroFacts(i: nat, l: nat, depth: nat)
    requires l <= depth && forall m :: 0 <= m < l ==> Bit(i, m) == 1
    ensures var k := FirstZero(i, l, depth);
            && l <= k <= depth
            && (forall m :: 0 <= m < k ==> Bit(i, m) == 1)
            && (k < depth ==> Bit(i, k) == 0)
    decreases depth - l
  {
    if l < depth && Bit(i, l) == 1 {
      FirstZeroFacts(i, l + 1, depth);
    }
  }

  /** Where insert's second phase starts when the proofs still cover the tree. */
  lemma CarryStops(leaves: seq<Bytes>, depth: nat) returns (k: nat)
    requires depth >= 1 && 1 <= |leaves| <= Pow2(depth - 1)
    ensures k == FirstZero(|leaves| - 1, 0, depth) <= depth - 1
    ensures var i := |leaves| - 1; forall l :: 0 <= l < k ==> Bit(i, l) == 1
    ensures Bit(|leaves| - 1, k) == 0 && Shr(|leaves| - 1, depth - 1) == 0
  {
    var i := |leaves| - 1;
    ShrBelow(i, depth - 1);
    k := FirstZero(i, 0, depth);
    FirstZeroFacts(i, 0, depth);
    assert Bit(i, depth - 1) == 0;
  }

  /** If: at a power of two, and when all leaves equal the empty leaf, insert stores the padded root. */
  lemma RootAgrees(h: Hasher, leaves: seq<Bytes>, depth: nat)
    requires depth >= 1 && 1 <= |leaves| <= Pow2(depth - 1)
    requires IsPow2(|leaves|) || AllLeavesZero(h, leaves)
    ensures TreeRoot(h, leaves, depth) == PaddedRoot(h, leaves, depth)
  {
    var i, d := |leaves| - 1, depth - 1;
    var k := CarryStops(leaves, depth);
    var block := Node(h, leaves, k, Shr(i, k));
    ZeroFoldIsClimb(h, block, i, k, k, depth);
    PaddedRootIsNode(h, leaves, depth);
    if IsPow2(|leaves|) {
      Pow2ByTrailingOnes(i, k);
      CountBelow(|leaves|, 0, k);
      ClimbLeftSpine(h, leaves, i, k, d);
    } else {
      NothingButZeros(h, leaves, k, Shr(i, k));
      AllZeroIsZero(h, leaves, k, Shr(i, k));
      ClimbOverZeros(h, i, k, d);
      NothingButZeros(h, leaves, d, 0);
      AllZeroIsZero(h, leaves, d, 0);
    }
  }

  // ------------------------------------------------------------------
  // Only if: up to a collision that the two trees exhibit
  // ------------------------------------------------------------------

  ghost predicate Collides(sha: Bytes -> Bytes, a: Bytes, b: Bytes) {
    a != b && sha(a) == sha(b)
  }

  /** Digests and leaves have 32 bytes. */
  ghost predicate Sized(sha: Bytes -> Bytes, leaves: seq<Bytes>) {
    && (forall x :: |sha(x)| == 32)
    && (forall m :: 0 <= m < |leaves| ==> |leaves[m]| == 32)
  }

  lemma {:induction false} ZeroHashLength(sha: Bytes -> Bytes, n: nat)
    requires forall x :: |sha(x)| == 32
    ensures |ZeroHash(ShaHasher(sha), n)| == 32
  {
  }

  lemma NodeLength(sha: Bytes -> Bytes, leaves: seq<Bytes>, level: nat, idx: nat)
    requires Sized(sha, leaves)
    ensures |Node(ShaHasher(sha), leaves, level, idx)| == 32
  {
    ZeroHashLength(sha, 1);
  }

  /** Equal hashes of two pairs of the same widths come from equal pairs, or collide. */
  lemma PairsCollide(sha: Bytes -> Bytes, a: Bytes, b: Bytes, c: Bytes, d: Bytes)
    requires |a| == |c| && sha(a + b) == sha(c + d)
    ensures (a == c && b == d) || Collides(sha, a + b, c + d)
  {
    if a + b == c + d {
      assert a == (a + b)[..|a|] && b == (a + b)[|a|..];
      assert c == (c + d)[..|a|] && d == (c + d)[|a|..];
    }
  }

  /** The children of node number idx at height level + 1 hash like two zero hashes, but are not. */
  ghost predicate NodeCollision(sha: Bytes -> Bytes, leaves: seq<Bytes>, level: nat, idx: nat) {
    var h := ShaHasher(sha);
    var zero := ZeroHash(h, level + 1);
    Collides(sha, Node(h, leaves, level, 2 * idx) + Node(h, leaves, level, 2 * idx + 1), zero + zero)
  }

  /** Insert's running hash at height j and the zero hash beside it hash like the two top nodes of the padded tree. */
  ghost predicate ClimbCollision(sha: Bytes -> Bytes, leaves: seq<Bytes>, k: nat, j: nat)
    requires leaves != [] && k <= j
  {
    var h, i := ShaHasher(sha), |leaves| - 1;
    Collides(sha, Climb(h, Node(h, leaves, k, Shr(i, k)), i, k, j) + ZeroHash(h, j + 1),
             Node(h, leaves, j, 0) + Node(h, leaves, j, 1))
  }

  ghost predicate SomeNodeCollides(sha: Bytes -> Bytes, leaves: seq<Bytes>, depth: nat) {
    exists level: nat, idx: nat :: level < depth && NodeCollision(sha, leaves, level, idx)
  }

  ghost predicate SomeClimbCollides(sha: Bytes -> Bytes, leaves: seq<Bytes>, depth: nat)
    requires leaves != []
  {
    var k := FirstZero(|leaves| - 1, 0, depth);
    exists j: nat :: k <= j < depth && ClimbCollision(sha, leaves, k, j)
  }

  /** A collision among the values that insert and the padded tree compute for these leaves. */
  ghost predicate TreeCollision(sha: Bytes -> Bytes, leaves: seq<Bytes>, depth: nat)
    requires leaves != []
  {
    SomeNodeCollides(sha, leaves, depth) || SomeClimbCollides(sha, leaves, depth)
  }

  /** A node equal to the zero hash of its height has two zero hashes for children, or they collide. */
  lemma ZeroChildren(sha: Bytes -> Bytes, leaves: seq<Bytes>, level: nat, idx: nat)
    requires Sized(sha, leaves)
    requires Node(ShaHasher(sha), leaves, level + 1, idx) == ZeroHash(ShaHasher(sha), level + 2)
    ensures var h := ShaHasher(sha);
            || (Node(h, leaves, level, 2 * idx) == ZeroHash(h, level + 1) == Node(h, leaves, level, 2 * idx + 1))
            || NodeCollision(sha, leaves, level, idx)
  {
    var h := ShaHasher(sha);
    var left, right := Node(h, leaves, level, 2 * idx), Node(h, leaves, level, 2 * idx + 1);
    var zero := ZeroHash(h, level + 1);
    NodeLength(sha, leaves, level, 2 * idx);
    ZeroHashLength(sha, level + 1);
    PairsCollide(sha, left, right, zero, zero);
  }

  lemma AllZeroLeaf(h: Hasher, leaves: seq<Bytes>, idx: nat)
    ensures AllZero(h, leaves, 0, idx) <==> Node(h, leaves, 0, idx) == ZeroHash(h, 1)
  {
  }

  lemma AllZeroChildren(h: Hasher, leaves: seq<Bytes>, level: nat, idx: nat)
    ensures AllZero(h, leaves, level + 1, idx)
            <==> AllZero(h, leaves, level, 2 * idx) && AllZero(h, leaves, level, 2 * idx + 1)
  {
  }

  /** Only empty leaves hash to a zero hash. */
  lemma {:induction false} ZeroIsAllZero(sha: Bytes -> Bytes, leaves: seq<Bytes>, level: nat, idx: nat, depth: nat)
    requires Sized(sha, leaves) && level <= depth
    requires Node(ShaHasher(sha), leaves, level, idx) == ZeroHash(ShaHasher(sha), level + 1)
    ensures AllZero(ShaHasher(sha), leaves, level, idx) || SomeNodeCollides(sha, leaves, depth)
    decreases level
  {
    hide Sized, Node, ZeroHash, NodeCollision, ShaHasher, AllZero;
    if level == 0 {
      AllZeroLeaf(ShaHasher(sha), leaves, idx);
    } else {
      AllZeroChildren(ShaHasher(sha), leaves, level - 1, idx);
      ZeroChildren(sha, leaves, level - 1, idx);
      if NodeCollision(sha, leaves, level - 1, idx) {
        assert SomeNodeCollides(sha, leaves, depth);
      } else {
        hide SomeNodeCollides;
        ZeroIsAllZero(sha, leaves, level - 1, 2 * idx, depth);
        ZeroIsAllZero(sha, leaves, level - 1, 2 * idx + 1, depth);
      }
    }
  }

  lemma ClimbLength(sha: Bytes -> Bytes, x: Bytes, i: nat, k: nat, j: nat)
    requires |x| == 32 && k <= j && forall b :: |sha(b)| == 32
    ensures |Climb(ShaHasher(sha), x, i, k, j)| == 32
  {
  }

  /** The right child that holds the last leaf is a zero hash, and so is the left child: all leaves are empty ones. */
  lemma LastLeafRight(sha: Bytes -> Bytes, leaves: seq<Bytes>, k: nat, t: nat, depth: nat)
    requires Sized(sha, leaves) && leaves != [] && k <= t < depth
    requires Shr(|leaves| - 1, t) == 1
    requires var h, i := ShaHasher(sha), |leaves| - 1;
             && Climb(h, Node(h, leaves, k, Shr(i, k)), i, k, t) == Node(h, leaves, t, 0)
             && Node(h, leaves, t, 1) == ZeroHash(h, t + 1)
    ensures AllLeavesZero(ShaHasher(sha), leaves) || SomeNodeCollides(sha, leaves, depth)
  {
    var h, i := ShaHasher(sha), |leaves| - 1;
    ZeroIsAllZero(sha, leaves, t, 1, depth);
    if !SomeNodeCollides(sha, leaves, depth) {
      AllZeroDescends(h, leaves, i, k, t);
      AllZeroIsZero(h, leaves, k, Shr(i, k));
      ClimbOverZeros(h, i, k, t);
      ZeroIsAllZero(sha, leaves, t, 0, depth);
      forall m | 0 <= m < |leaves| ensures leaves[m] == ZeroHash(h, 1) {
        ShrMonotone(m, i, t);
        AllZeroDescends(h, leaves, m, 0, t);
      }
    }
  }

  /** From height j down, the two climbs can only meet over empty leaves or at a power of two. */
  lemma {:induction false} ClimbsMeet(sha: Bytes -> Bytes, leaves: seq<Bytes>, k: nat, j: nat, depth: nat)
    requires Sized(sha, leaves) && leaves != []
    requires k == FirstZero(|leaves| - 1, 0, depth) <= j < depth
    requires Shr(|leaves| - 1, j) == 0 && Bit(|leaves| - 1, k) == 0
    requires var h, i := ShaHasher(sha), |leaves| - 1;
             Climb(h, Node(h, leaves, k, Shr(i, k)), i, k, j) == Node(h, leaves, j, 0)
    ensures Shr(|leaves| - 1, k) == 0 || AllLeavesZero(ShaHasher(sha), leaves) || TreeCollision(sha, leaves, depth)
    decreases j
  {
    var h, i := ShaHasher(sha), |leaves| - 1;
    var block := Node(h, leaves, k, Shr(i, k));
    if j > k {
      var t := j - 1;
      var below, zero := Climb(h, block, i, k, t), ZeroHash(h, j);
      NodeLength(sha, leaves, k, Shr(i, k));
      ClimbLength(sha, block, i, k, t);
      NodeLength(sha, leaves, t, 0);
      PairsCollide(sha, below, zero, Node(h, leaves, t, 0), Node(h, leaves, t, 1));
      if below != Node(h, leaves, t, 0) || zero != Node(h, leaves, t, 1) {
        assert ClimbCollision(sha, leaves, k, t);
      } else if Shr(i, t) == 0 {
        ClimbsMeet(sha, leaves, k, t, depth);
      } else {
        // The last leaf is in the right child at height t; insert put the climb on the left.
        LastLeafRight(sha, leaves, k, t, depth);
      }
    }
  }

  lemma OnlyIfAgrees(sha: Bytes -> Bytes, leaves: seq<Bytes>, depth: nat)
    requires Sized(sha, leaves)
    requires depth >= 1 && 1 <= |leaves| <= Pow2(depth - 1)
    requires TreeRoot(ShaHasher(sha), leaves, depth) == PaddedRoot(ShaHasher(sha), leaves, depth)
    ensures IsPow2(|leaves|) || AllLeavesZero(ShaHasher(sha), leaves) || TreeCollision(sha, leaves, depth)
  {
    hide Sized, TreeCollision, AllLeavesZero, ShaHasher, Node, PaddedRoot, ZeroFold;
    var h, i, d := ShaHasher(sha), |leaves| - 1, depth - 1;
    var k := CarryStops(leaves, depth);
    ZeroFoldIsClimb(h, Node(h, leaves, k, Shr(i, k)), i, k, k, depth);
    assert Climb(h, Node(h, leaves, k, Shr(i, k)), i, k, k) == Node(h, leaves, k, Shr(i, k));
    PaddedRootIsNode(h, leaves, depth);
    ClimbsMeet(sha, leaves, k, d, depth);
    Pow2ByTrailingOnes(i, k);
  }

  /**
   * The exact condition under which the root that insert stores is the padded tree's root: the leaf count is a
   * power of two, or every leaf happens to equal the empty leaf. The only way around it is a SHA-256 collision.
   */
  lemma RootAgreesIff(sha: Bytes -> Bytes, leaves: seq<Bytes>, depth: nat)
    requires Sized(sha, leaves)
    requires depth >= 1 && 1 <= |leaves| <= Pow2(depth - 1)
    ensures || (TreeRoot(ShaHasher(sha), leaves, depth) == PaddedRoot(ShaHasher(sha), leaves, depth)
                <==> IsPow2(|leaves|) || AllLeavesZero(ShaHasher(sha), leaves))
            || TreeCollision(sha, leaves, depth)
  {
    hide *;
    if IsPow2(|leaves|) || AllLeavesZero(ShaHasher(sha), leaves) {
      RootAgrees(ShaHasher(sha), leaves, depth);
    } else if TreeRoot(ShaHasher(sha), leaves, depth) == PaddedRoot(ShaHasher(sha), leaves, depth) {
      OnlyIfAgrees(sha, leaves, depth);
    }
  }

  /** The same for proofs: a tree's own proofs verify against its own root under exactly that condition. */
  lemma OwnProofsVerifyIff(sha: Bytes -> Bytes, leaves: seq<Bytes>, i: nat, depth: nat, p: MerkleProof)
    requires Sized(sha, leaves)
    requires depth >= 1 && i < |leaves| <= Pow2(depth - 1) && IsProofFor(ShaHasher(sha), leaves, i, depth, p)
    ensures || (Verifies(ShaHasher(sha), p, leaves[i], TreeRoot(ShaHasher(sha), leaves, depth), depth)
                <==> IsPow2(|leaves|) || AllLeavesZero(ShaHasher(sha), leaves))
            || TreeCollision(sha, leaves, depth)
  {
    RootAgreesIff(sha, leaves, depth);
    ProofsVerifyExactly(ShaHasher(sha), leaves, i, depth, p, TreeRoot(ShaHasher(sha), leaves, depth));
  }

  lemma ThreeIsNoPower()
    ensures !IsPow2(3)
  {
    forall k: nat ensures Pow2(k) != 3 {
      if k >= 2 { Pow2Monotone(2, k); }
    }
  }

  /** Three leaves, not all of them the empty leaf: the stored root is never the padded root, short of a collision. */
  lemma ThreeLeavesDisagree(sha: Bytes -> Bytes, leaves: seq<Bytes>, depth: nat)
    requires Sized(sha, leaves) && |leaves| == 3 && depth >= 3
    requires !AllLeavesZero(ShaHasher(sha), leaves)
    ensures TreeRoot(ShaHasher(sha), leaves, depth) != PaddedRoot(ShaHasher(sha), leaves, depth)
            || TreeCollision(sha, leaves, depth)
  {
    ThreeIsNoPower();
    Pow2Monotone(2, depth - 1);
    RootAgreesIff(sha, leaves, depth);
  }

  // ------------------------------------------------------------------
  // Roots that need no such clause, and the empty tree's
  // ------------------------------------------------------------------

  /** At powers of two no assumption on the hash is needed. */
  lemma OwnProofsVerify(h: Hasher, leaves: seq<Bytes>, i: nat, depth: nat, p: MerkleProof)
    requires depth >= 1 && i < |leaves| <= Pow2(depth - 1) && IsProofFor(h, leaves, i, depth, p)
    requires IsPow2(|leaves|)
    ensures Verifies(h, p, leaves[i], TreeRoot(h, leaves, depth), depth)
  {
    RootAgrees(h, leaves, depth);
    ProofsReachPaddedRoot(h, leaves, i, depth, p);
  }

  /** The bytes whose digest is ZH[n]. */
  function ZeroInput(sha: Bytes -> Bytes, n: nat): Bytes {
    if n == 0 then Zeros(32) else ZeroHash(ShaHasher(sha), n - 1) + ZeroHash(ShaHasher(sha), n - 1)
  }

  ghost predicate ChainCollision(sha: Bytes -> Bytes, m: nat, n: nat) {
    exists a: nat, b: nat :: a <= m && b <= n && Collides(sha, ZeroInput(sha, a), ZeroInput(sha, b))
  }

  /** The zero chain does not repeat, short of a collision between two of its steps. */
  lemma {:induction false} ChainRepeats(sha: Bytes -> Bytes, m: nat, n: nat)
    requires m < n && forall x :: |sha(x)| == 32
    requires ZeroHash(ShaHasher(sha), m) == ZeroHash(ShaHasher(sha), n)
    ensures ChainCollision(sha, m, n)
  {
    var h := ShaHasher(sha);
    ZeroHashLength(sha, n - 1);
    if m == 0 {
      assert Collides(sha, ZeroInput(sha, m), ZeroInput(sha, n));
    } else {
      var x, y := ZeroHash(h, m - 1), ZeroHash(h, n - 1);
      ZeroHashLength(sha, m - 1);
      PairsCollide(sha, x, x, y, y);
      if x == y {
        ChainRepeats(sha, m - 1, n - 1);
      } else {
        assert Collides(sha, ZeroInput(sha, m), ZeroInput(sha, n));
      }
    }
  }

  /** The empty tree's root, the same constant at every depth, is the padded root at depth 20 only. */
  lemma EmptyRootAgreesIff(sha: Bytes -> Bytes, depth: nat)
    requires depth >= 1 && forall x :: |sha(x)| == 32
    ensures || (TreeRoot(ShaHasher(sha), [], depth) == PaddedRoot(ShaHasher(sha), [], depth) <==> depth == TREE_DEPTH)
            || ChainCollision(sha, depth, TREE_DEPTH) || ChainCollision(sha, TREE_DEPTH, depth)
  {
    var h := ShaHasher(sha);
    PaddedRootIsNode(h, [], depth);
    CountBelow(0, 0, depth - 1);
    NothingButZeros(h, [], depth - 1, 0);
    AllZeroIsZero(h, [], depth - 1, 0);
    assert TreeRoot(h, [], depth) == ZeroHash(h, TREE_DEPTH);
    if ZeroHash(h, TREE_DEPTH) == ZeroHash(h, depth) {
      if depth < TREE_DEPTH {
        ChainRepeats(sha, depth, TREE_DEPTH);
      } else if depth > TREE_DEPTH {
        ChainRepeats(sha, TREE_DEPTH, depth);
      }
    }
  }

  lemma {:induction false} ShrAllOnes(i: nat, depth: nat, l: nat)
    requires i + 1 == Pow2(depth) && l <= depth
    ensures Shr(i, l) + 1 == Pow2(depth - l)
  {
    if l > 0 { ShrAllOnes(i, depth, l - 1); }
  }

  lemma {:induction false} AllOnes(i: nat, depth: nat)
    requires i + 1 == Pow2(depth)
    ensures forall l :: 0 <= l < depth ==> Bit(i, l) == 1
  {
    forall l | 0 <= l < depth ensures Bit(i, l) == 1 {
      ShrAllOnes(i, depth, l);
    }
  }

  /** A tree filled to 2^depth leaves stores the root of the complete tree, one level above any proof. */
  lemma FullTreeRoot(h: Hasher, leaves: seq<Bytes>, depth: nat)
    requires |leaves| == Pow2(depth)
    ensures leaves != [] && TreeRoot(h, leaves, depth) == DenseRoot(h, leaves)
  {
    var i := |leaves| - 1;
    Pow2Positive(depth);
    AllOnes(i, depth);
    FirstZeroFacts(i, 0, depth);
    var k := FirstZero(i, 0, depth);
    assert k == depth;
    ShrBelow(i, depth);
    NodeIsDense(h, leaves, depth, 0);
    assert 0 * Pow2(depth) == 0;
    assert Block(h, leaves, 0, depth) == leaves;
  }

  /** A 32-byte digest that keeps the first byte, enough to tell two trees apart. */
  function FirstByte(b: Bytes): Bytes {
    [if b == [] then 0 else b[0]] + Zeros(31)
  }

  ghost predicate StartsWith(x: Bytes, b: Byte) {
    |x| > 0 && x[0] == b
  }

  lemma PairStarts(x: Bytes, y: Bytes, b: Byte)
    requires StartsWith(x, b)
    ensures StartsWith(ShaHasher(FirstByte).pair(x, y), b)
  {
    assert (x + y)[0] == b;
    assert ShaHasher(FirstByte).pair(x, y) == FirstByte(x + y);
  }

  lemma {:induction false} NodeStarts(leaves: seq<Bytes>, b: Byte, level: nat)
    requires |leaves| > 0 && StartsWith(leaves[0], b)
    ensures StartsWith(Node(ShaHasher(FirstByte), leaves, level, 0), b)
  {
    var h := ShaHasher(FirstByte);
    if level > 0 {
      NodeStarts(leaves, b, level - 1);
      PairStarts(Node(h, leaves, level - 1, 0), Node(h, leaves, level - 1, 1), b);
    }
  }

  lemma {:induction false} ZeroHashStarts(n: nat)
    ensures StartsWith(ZeroHash(ShaHasher(FirstByte), n), 0)
  {
    var h := ShaHasher(FirstByte);
    if n > 0 {
      ZeroHashStarts(n - 1);
      PairStarts(ZeroHash(h, n - 1), ZeroHash(h, n - 1), 0);
    } else {
      assert Zeros(32)[0] == 0;
    }
  }

  lemma {:induction false} ClimbStarts(leaf: Bytes, j: nat)
    requires j >= 1
    ensures StartsWith(Climb(ShaHasher(FirstByte), leaf, 2, 0, j), 0)
  {
    var h := ShaHasher(FirstByte);
    if j == 1 {
      assert Bit(2, 1) == 1 && Climb(h, leaf, 2, 0, 0) == leaf;
      ZeroHashStarts(1);
      PairStarts(ZeroHash(h, 1), leaf, 0);
    } else {
      ShrZeroAbove(2, 2, j);
      ClimbStarts(leaf, j - 1);
      PairStarts(Climb(h, leaf, 2, 0, j - 1), ZeroHash(h, j), 0);
    }
  }

  /** Three concrete leaves and a concrete 32-byte digest for which stored root and padded root differ. */
  lemma ThreeOnesDisagree(depth: nat)
    requires depth >= 3
    ensures var h, leaf := ShaHasher(FirstByte), seq(32, _ => 1);
            TreeRoot(h, [leaf, leaf, leaf], depth) != PaddedRoot(h, [leaf, leaf, leaf], depth)
  {
    // The padded root starts with the first leaf; the stored root starts with a zero hash.
    var h, leaf := ShaHasher(FirstByte), seq(32, _ => 1);
    var leaves := [leaf, leaf, leaf];
    PaddedRootIsNode(h, leaves, depth);
    NodeStarts(leaves, 1, depth - 1);
    ZeroFoldIsClimb(h, leaf, 2, 0, 0, depth);
    ClimbStarts(leaf, depth - 1);
  }

  // ------------------------------------------------------------------
  // Binding
  // ------------------------------------------------------------------

  /** The bytes hashed at step i of a fold. */
  function StepInput(sha: Bytes -> Bytes, leaf: Bytes, p: MerkleProof, i: nat): Bytes
    requires i < |p.pathElements| && i < |p.pathIndices|
  {
    var cur := FoldPath(ShaHasher(sha), leaf, p, i);
    if p.pathIndices[i] != 0 then p.pathElements[i] + cur else cur + p.pathElements[i]
  }

  ghost predicate CollisionOnPaths(sha: Bytes -> Bytes, leaf: Bytes, p: MerkleProof, leaf': Bytes, p': MerkleProof,
                                   n: nat)
    requires n <= |p.pathElements| && n <= |p.pathIndices| && n <= |p'.pathElements| && n <= |p'.pathIndices|
  {
    exists i: nat :: i < n
                     && StepInput(sha, leaf, p, i) != StepInput(sha, leaf', p', i)
                     && sha(StepInput(sha, leaf, p, i)) == sha(StepInput(sha, leaf', p', i))
  }

  lemma FoldLength(sha: Bytes -> Bytes, leaf: Bytes, p: MerkleProof, n: nat)
    requires n <= |p.pathElements| && n <= |p.pathIndices|
    requires |leaf| == 32 && forall x :: |sha(x)| == 32
    ensures |FoldPath(ShaHasher(sha), leaf, p, n)| == 32
  {
    if n > 0 {
      assert FoldPath(ShaHasher(sha), leaf, p, n) == sha(StepInput(sha, leaf, p, n - 1));
    }
  }

  lemma SplitAt(a: Bytes, b: Bytes, k: int)
    requires a == b
    ensures 0 <= k <= |a| ==> a[..k] == b[..k] && a[k..] == b[k..]
  {
  }

  /**
   * Two paths with the same directions that fold to the same root start at the same leaf and list the same
   * siblings, of whatever length, or else one of their steps exhibits a SHA-256 collision.
   */
  lemma {:induction false} PathsBind(sha: Bytes -> Bytes, leaf: Bytes, p: MerkleProof, leaf': Bytes, p': MerkleProof,
                                     n: nat)
    requires forall x :: |sha(x)| == 32
    requires |leaf| == 32 == |leaf'|
    requires n <= |p.pathElements| && n <= |p.pathIndices| && n <= |p'.pathElements| && n <= |p'.pathIndices|
    requires forall i :: 0 <= i < n ==> (p.pathIndices[i] != 0 <==> p'.pathIndices[i] != 0)
    requires FoldPath(ShaHasher(sha), leaf, p, n) == FoldPath(ShaHasher(sha), leaf', p', n)
    ensures (leaf == leaf' && forall i :: 0 <= i < n ==> p.pathElements[i] == p'.pathElements[i])
            || CollisionOnPaths(sha, leaf, p, leaf', p', n)
  {
    if n > 0 {
      var i := n - 1;
      var a, b := StepInput(sha, leaf, p, i), StepInput(sha, leaf', p', i);
      var cur, cur' := FoldPath(ShaHasher(sha), leaf, p, i), FoldPath(ShaHasher(sha), leaf', p', i);
      var e, e' := p.pathElements[i], p'.pathElements[i];
      assert sha(a) == sha(b);
      FoldLength(sha, leaf, p, i);
      FoldLength(sha, leaf', p', i);
      if a == b {
        // The running hash is the last or the first 32 bytes of a step's input.
        var split := if p.pathIndices[i] != 0 then |a| - 32 else 32;
        SplitAt(a, b, split);
        assert if p.pathIndices[i] != 0 then e == a[..split] && cur == a[split..]
               else cur == a[..split] && e == a[split..];
        assert if p.pathIndices[i] != 0 then e' == b[..split] && cur' == b[split..]
               else cur' == b[..split] && e' == b[split..];
        PathsBind(sha, leaf, p, leaf', p', n - 1);
      }
    }
  }

  /** The proof with `moved` bytes of the leaf handed over to its first sibling. */
  function Shortened(leaf: Bytes, p: MerkleProof, moved: Bytes): MerkleProof
    requires p.pathElements != [] && p.pathIndices != []
  {
    var first := if p.pathIndices[0] != 0 then p.pathElements[0] + moved else moved + p.pathElements[0];
    p.(pathElements := p.pathElements[0 := first])
  }

  lemma {:induction false} ShortenedFolds(h: Hasher, leaf: Bytes, leaf': Bytes, p: MerkleProof, moved: Bytes, n: nat)
    requires 1 <= n <= |p.pathElements| && n <= |p.pathIndices|
    requires Step(h, leaf', Shortened(leaf, p, moved).pathElements[0], p.pathIndices[0])
             == Step(h, leaf, p.pathElements[0], p.pathIndices[0])
    ensures FoldPath(h, leaf', Shortened(leaf, p, moved), n) == FoldPath(h, leaf, p, n)
  {
    if n > 1 {
      ShortenedFolds(h, leaf, leaf', p, moved, n - 1);
    } else {
      assert FoldPath(h, leaf, p, 0) == leaf && FoldPath(h, leaf', Shortened(leaf, p, moved), 0) == leaf';
    }
  }

  /**
   * The leaf's length is what binding rests on: from any path that verifies, another one verifies to the same root
   * for a shorter leaf, cut off on the side of its first sibling.
   */
  lemma LeafLengthMatters(sha: Bytes -> Bytes, leaf: Bytes, p: MerkleProof, root: Bytes, depth: nat, k: nat)
    requires depth >= 2 && k <= |leaf| && Verifies(ShaHasher(sha), p, leaf, root, depth)
    ensures if p.pathIndices[0] != 0
            then Verifies(ShaHasher(sha), Shortened(leaf, p, leaf[..k]), leaf[k..], root, depth)
            else Verifies(ShaHasher(sha), Shortened(leaf, p, leaf[k..]), leaf[..k], root, depth)
  {
    var h, e := ShaHasher(sha), p.pathElements[0];
    if p.pathIndices[0] != 0 {
      assert e + leaf[..k] + leaf[k..] == e + leaf;
      ShortenedFolds(h, leaf, leaf[k..], p, leaf[..k], depth - 1);
    } else {
      assert leaf[..k] + (leaf[k..] + e) == leaf + e;
      ShortenedFolds(h, leaf, leaf[..k], p, leaf[k..], depth - 1);
    }
  }

  // ------------------------------------------------------------------
  // Membership
  // ------------------------------------------------------------------

  /** The position that the directions of a path spell, lowest bit first. */
  function IndexOf(dirs: seq<int>): nat {
    if dirs == [] then 0 else (if dirs[0] != 0 then 1 else 0) + 2 * IndexOf(dirs[1..])
  }

  lemma IndexStep(dirs: seq<int>)
    requires dirs != []
    ensures IndexOf(dirs) % 2 == if dirs[0] != 0 then 1 else 0
    ensures IndexOf(dirs) / 2 == IndexOf(dirs[1..])
  {
  }

  lemma {:induction false} BitOfIndex(dirs: seq<int>, l: nat)
    requires l < |dirs|
    ensures Bit(IndexOf(dirs), l) == if dirs[l] != 0 then 1 else 0
  {
    hide *;
    IndexStep(dirs);
    if l == 0 {
      BitStep(IndexOf(dirs), 0);
    } else {
      BitStep(IndexOf(dirs), l - 1);
      BitOfIndex(dirs[1..], l - 1);
    }
  }

  lemma {:induction false} IndexIsBelow(dirs: seq<int>)
    ensures Shr(IndexOf(dirs), |dirs|) == 0
  {
    if dirs != [] {
      IndexStep(dirs);
      hide IndexOf;
      ShrOfHalf(IndexOf(dirs), |dirs| - 1);
      IndexIsBelow(dirs[1..]);
    }
  }

  /** The first n steps of the path from position i of the padded tree. */
  function PathTo(h: Hasher, leaves: seq<Bytes>, i: nat, n: nat): (p: MerkleProof)
    ensures |p.pathElements| == n == |p.pathIndices|
  {
    MerkleProof(seq(n, l requires 0 <= l => Node(h, leaves, l, Sibling(Shr(i, l)))),
                seq(n, l requires 0 <= l => Bit(i, l)))
  }

  /**
   * A path that verifies against the padded root starts at the leaf whose position its directions spell, and lists
   * that leaf's siblings, or else one of its steps exhibits a SHA-256 collision with the tree.
   */
  lemma VerifiedLeafIsInTree(sha: Bytes -> Bytes, leaves: seq<Bytes>, leaf: Bytes, p: MerkleProof, depth: nat)
    requires Sized(sha, leaves) && |leaf| == 32 && depth >= 1
    requires Verifies(ShaHasher(sha), p, leaf, PaddedRoot(ShaHasher(sha), leaves, depth), depth)
    ensures var h, i := ShaHasher(sha), IndexOf(p.pathIndices);
            var own := PathTo(h, leaves, i, depth - 1);
            || (leaf == LeafAt(h, leaves, i) && p.pathElements == own.pathElements)
            || CollisionOnPaths(sha, leaf, p, LeafAt(h, leaves, i), own, depth - 1)
  {
    var h, i, n := ShaHasher(sha), IndexOf(p.pathIndices), depth - 1;
    var own := PathTo(h, leaves, i, n);
    IndexIsBelow(p.pathIndices);
    PaddedRootIsNode(h, leaves, depth);
    FoldClimbs(h, leaves, i, own, n);
    NodeLength(sha, leaves, 0, i);
    forall l | 0 <= l < n ensures p.pathIndices[l] != 0 <==> own.pathIndices[l] != 0 {
      BitOfIndex(p.pathIndices, l);
    }
    PathsBind(sha, leaf, p, LeafAt(h, leaves, i), own, n);
  }

  // ------------------------------------------------------------------
  // What the stored root is made of
  // ------------------------------------------------------------------

  /** n steps up from height k: unshifted zero hashes as siblings, on the sides that the bits of i say. */
  function ZeroPath(h: Hasher, i: nat, k: nat, n: nat): (p: MerkleProof)
    ensures |p.pathElements| == n == |p.pathIndices|
  {
    MerkleProof(seq(n, j requires 0 <= j => ZeroHash(h, k + 1 + j)), seq(n, j requires 0 <= j => Bit(i, k + 1 + j)))
  }

  lemma {:induction false} ClimbIsFold(h: Hasher, x: Bytes, i: nat, k: nat, n: nat, m: nat)
    requires m <= n
    ensures Climb(h, x, i, k, k + m) == FoldPath(h, x, ZeroPath(h, i, k, n), m)
  {
    if m > 0 {
      ClimbIsFold(h, x, i, k, n, m - 1);
    }
  }

  lemma {:induction false} FirstZeroIs(i: nat, l: nat, k: nat, depth: nat)
    requires l <= k <= depth && (forall j :: 0 <= j < k ==> Bit(i, j) == 1) && (k < depth ==> Bit(i, k) == 0)
    ensures FirstZero(i, l, depth) == k
    decreases k - l
  {
    if l < k { FirstZeroIs(i, l + 1, k, depth); }
  }

  lemma Doubled(rest: nat, half: nat)
    ensures (2 * rest + 1 + 1) * half == (rest + 1) * (2 * half)
  {
  }

  /** With k trailing ones, the count is a multiple of 2^k. */
  lemma {:induction false} TrailingOnes(i: nat, k: nat)
    requires forall j :: 0 <= j < k ==> Bit(i, j) == 1
    ensures i + 1 == (Shr(i, k) + 1) * Pow2(k)
  {
    if k > 0 {
      TrailingOnes(i, k - 1);
      assert Bit(i, k - 1) == 1;
      assert Shr(i, k - 1) == 2 * Shr(i, k) + 1;
      Doubled(Shr(i, k), Pow2(k - 1));
      hide Shr, Bit;
    }
  }

  lemma Successor(idx: nat, p: nat)
    ensures (idx + 1) * p == idx * p + p && idx * p >= 0
  {
  }

  lemma BlockIsTail(h: Hasher, leaves: seq<Bytes>, start: nat, k: nat)
    requires start + Pow2(k) == |leaves|
    ensures Block(h, leaves, start, k) == leaves[start..]
  {
    var block, tail := Block(h, leaves, start, k), leaves[start..];
    assert |block| == |tail|;
    forall j | 0 <= j < |tail| ensures block[j] == tail[j] {}
  }

  /** The block that ends at the last leaf, as a dense tree of those leaves. */
  lemma LastBlock(h: Hasher, leaves: seq<Bytes>, k: nat)
    requires leaves != [] && forall j {:trigger Bit(|leaves| - 1, j)} :: 0 <= j < k ==> Bit(|leaves| - 1, j) == 1
    ensures 0 < Pow2(k) <= |leaves|
    ensures Node(h, leaves, k, Shr(|leaves| - 1, k)) == DenseRoot(h, leaves[|leaves| - Pow2(k)..])
  {
    var idx := Shr(|leaves| - 1, k);
    Pow2Positive(k);
    TrailingOnes(|leaves| - 1, k);
    hide Shr, Bit, DenseRoot, Node, Block;
    Successor(idx, Pow2(k));
    NodeIsDense(h, leaves, k, idx);
    BlockIsTail(h, leaves, |leaves| - Pow2(k), k);
  }

  ghost predicate EndsAtBlock(leaves: seq<Bytes>, depth: nat, k: nat)
    requires leaves != []
  {
    var i := |leaves| - 1;
    k <= depth && (forall j :: 0 <= j < k ==> Bit(i, j) == 1) && (k < depth ==> Bit(i, k) == 0)
  }

  /** Number of steps that insert's second phase takes. */
  function StepsAbove(k: nat, depth: nat): nat {
    if k < depth then depth - 1 - k else 0
  }

  /**
   * What insert stores, for a last index with k trailing ones: the dense root of the last 2^k leaves, folded along
   * the zero hashes of heights k+1 to depth-1 with the bits of the index as directions.
   */
  lemma StoredRootIsFold(h: Hasher, leaves: seq<Bytes>, depth: nat, k: nat)
    requires leaves != [] && EndsAtBlock(leaves, depth, k)
    ensures 0 < Pow2(k) <= |leaves|
    ensures var n := StepsAbove(k, depth);
            TreeRoot(h, leaves, depth)
            == FoldPath(h, DenseRoot(h, leaves[|leaves| - Pow2(k)..]), ZeroPath(h, |leaves| - 1, k, n), n)
  {
    hide Node, DenseRoot, Pow2, ZeroPath, Shr, FirstZero, Bit;
    var i, n := |leaves| - 1, StepsAbove(k, depth);
    FirstZeroIs(i, 0, k, depth);
    LastBlock(h, leaves, k);
    var block := Node(h, leaves, k, Shr(i, k));
    if k < depth {
      ZeroFoldIsClimb(h, block, i, k, k, depth);
      ClimbIsFold(h, block, i, k, n, n);
    }
  }

  /** Two halves of two dense trees collide somewhere. */
  ghost predicate DenseCollision(sha: Bytes -> Bytes, s: seq<Bytes>, t: seq<Bytes>)
    requires |s| == |t|
    decreases |s|
  {
    && |s| >= 2
    && var m, h := |s| / 2, ShaHasher(sha);
    || Collides(sha, DenseRoot(h, s[..m]) + DenseRoot(h, s[m..]), DenseRoot(h, t[..m]) + DenseRoot(h, t[m..]))
    || DenseCollision(sha, s[..m], t[..m])
    || DenseCollision(sha, s[m..], t[m..])
  }

  lemma DenseLength(sha: Bytes -> Bytes, s: seq<Bytes>)
    requires Sized(sha, s) && s != []
    ensures |DenseRoot(ShaHasher(sha), s)| == 32
  {
  }

  lemma DenseHalves(sha: Bytes -> Bytes, s: seq<Bytes>)
    requires |s| >= 2
    ensures var m, h := |s| / 2, ShaHasher(sha);
            DenseRoot(h, s) == sha(DenseRoot(h, s[..m]) + DenseRoot(h, s[m..]))
  {
  }

  lemma CollisionBelow(sha: Bytes -> Bytes, s: seq<Bytes>, t: seq<Bytes>)
    requires |s| == |t| >= 2
    ensures var m, h := |s| / 2, ShaHasher(sha);
            && (Collides(sha, DenseRoot(h, s[..m]) + DenseRoot(h, s[m..]), DenseRoot(h, t[..m]) + DenseRoot(h, t[m..]))
                ==> DenseCollision(sha, s, t))
            && (DenseCollision(sha, s[..m], t[..m]) ==> DenseCollision(sha, s, t))
            && (DenseCollision(sha, s[m..], t[m..]) ==> DenseCollision(sha, s, t))
  {
  }

  lemma SingleLeaf(sha: Bytes -> Bytes, s: seq<Bytes>)
    requires |s| == 1
    ensures s == [DenseRoot(ShaHasher(sha), s)]
  {
  }

  lemma SizedParts(sha: Bytes -> Bytes, s: seq<Bytes>, m: nat)
    requires Sized(sha, s) && m <= |s|
    ensures Sized(sha, s[..m]) && Sized(sha, s[m..]) && forall x :: |sha(x)| == 32
  {
  }

  lemma HalvesBind(sha: Bytes -> Bytes, s: seq<Bytes>, t: seq<Bytes>)
    requires Sized(sha, s) && Sized(sha, t) && |s| == |t| >= 2
    requires DenseRoot(ShaHasher(sha), s) == DenseRoot(ShaHasher(sha), t)
    ensures var m, h := |s| / 2, ShaHasher(sha);
            && Sized(sha, s[..m]) && Sized(sha, s[m..]) && Sized(sha, t[..m]) && Sized(sha, t[m..])
            && (DenseCollision(sha, s[..m], t[..m]) ==> DenseCollision(sha, s, t))
            && (DenseCollision(sha, s[m..], t[m..]) ==> DenseCollision(sha, s, t))
            && (DenseCollision(sha, s, t)
                || (DenseRoot(h, s[..m]) == DenseRoot(h, t[..m]) && DenseRoot(h, s[m..]) == DenseRoot(h, t[m..])))
  {
    hide DenseRoot, DenseCollision, ShaHasher, Collides, Sized;
    var m, h := |s| / 2, ShaHasher(sha);
    SizedParts(sha, s, m);
    SizedParts(sha, t, m);
    DenseHalves(sha, s);
    DenseHalves(sha, t);
    CollisionBelow(sha, s, t);
    DenseLength(sha, s[..m]);
    DenseLength(sha, t[..m]);
    PairsCollide(sha, DenseRoot(h, s[..m]), DenseRoot(h, s[m..]), DenseRoot(h, t[..m]), DenseRoot(h, t[m..]));
  }

  /** A dense root determines its leaves, short of a collision. */
  lemma {:induction false} DenseBinds(sha: Bytes -> Bytes, s: seq<Bytes>, t: seq<Bytes>)
    requires Sized(sha, s) && Sized(sha, t) && |s| == |t| > 0
    requires DenseRoot(ShaHasher(sha), s) == DenseRoot(ShaHasher(sha), t)
    ensures s == t || DenseCollision(sha, s, t)
    decreases |s|
  {
    hide DenseRoot, DenseCollision, ShaHasher, Collides, Sized;
    if |s| == 1 {
      SingleLeaf(sha, s);
      SingleLeaf(sha, t);
    } else {
      HalvesBind(sha, s, t);
      if !DenseCollision(sha, s, t) {
        DenseBinds(sha, s[..|s| / 2], t[..|s| / 2]);
        DenseBinds(sha, s[|s| / 2..], t[|s| / 2..]);
        assert s == s[..|s| / 2] + s[|s| / 2..] && t == t[..|s| / 2] + t[|s| / 2..];
      }
    }
  }

  lemma SameEnd(a: seq<Bytes>, b: seq<Bytes>, depth: nat, k: nat)
    requires |a| == |b| > 0 && EndsAtBlock(a, depth, k)
    ensures EndsAtBlock(b, depth, k)
  {
  }

  lemma SizedTail(sha: Bytes -> Bytes, s: seq<Bytes>, start: nat)
    requires Sized(sha, s) && start <= |s|
    ensures Sized(sha, s[start..])
  {
  }

  lemma BlocksBind(sha: Bytes -> Bytes, s: seq<Bytes>, t: seq<Bytes>, p: MerkleProof, n: nat)
    requires Sized(sha, s) && Sized(sha, t) && |s| == |t| > 0
    requires n <= |p.pathElements| && n <= |p.pathIndices|
    requires var h := ShaHasher(sha); FoldPath(h, DenseRoot(h, s), p, n) == FoldPath(h, DenseRoot(h, t), p, n)
    ensures var h := ShaHasher(sha);
            || s == t || CollisionOnPaths(sha, DenseRoot(h, s), p, DenseRoot(h, t), p, n) || DenseCollision(sha, s, t)
  {
    var h := ShaHasher(sha);
    DenseLength(sha, s);
    DenseLength(sha, t);
    hide DenseRoot, FoldPath, DenseCollision, CollisionOnPaths, ShaHasher;
    PathsBind(sha, DenseRoot(h, s), p, DenseRoot(h, t), p, n);
    if DenseRoot(h, s) == DenseRoot(h, t) {
      DenseBinds(sha, s, t);
    }
  }

  /**
   * Two trees of one size store the same root if and only if their last complete blocks agree, whatever leaves come
   * before, or else the blocks or the steps above them exhibit a SHA-256 collision.
   */
  lemma StoredRootsAgreeIff(sha: Bytes -> Bytes, a: seq<Bytes>, b: seq<Bytes>, depth: nat, k: nat)
    requires Sized(sha, a) && Sized(sha, b) && |a| == |b| > 0 && EndsAtBlock(a, depth, k)
    ensures 0 < Pow2(k) <= |a|
    ensures var h, n, start := ShaHasher(sha), StepsAbove(k, depth), |a| - Pow2(k);
            var p := ZeroPath(h, |a| - 1, k, n);
            || (TreeRoot(h, a, depth) == TreeRoot(h, b, depth) <==> a[start..] == b[start..])
            || CollisionOnPaths(sha, DenseRoot(h, a[start..]), p, DenseRoot(h, b[start..]), p, n)
            || DenseCollision(sha, a[start..], b[start..])
  {
    hide *;
    var h, n := ShaHasher(sha), StepsAbove(k, depth);
    SameEnd(a, b, depth, k);
    StoredRootIsFold(h, a, depth, k);
    StoredRootIsFold(h, b, depth, k);
    var start := |a| - Pow2(k);
    SizedTail(sha, a, start);
    SizedTail(sha, b, start);
    if TreeRoot(h, a, depth) == TreeRoot(h, b, depth) {
      BlocksBind(sha, a[start..], b[start..], ZeroPath(h, |a| - 1, k, n), n);
    }
  }

  /** The bound on leaves is the size of a tree of full depth. */
  lemma MaxLeavesFillTheTree()
    ensures MAX_LEAVES == Pow2(TREE_DEPTH)
  {
    assert Pow2(4) == 16;
    assert Pow2(8) == 16 * Pow2(4);
    assert Pow2(12) == 16 * Pow2(8);
    assert Pow2(16) == 16 * Pow2(12);
    assert Pow2(20) == 16 * Pow2(16);
  }
}

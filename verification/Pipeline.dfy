/** From inputs to an accepted withdrawal proof: validation, witness, Fiat-Shamir proof, local verification. */
module Pipeline {
  import opened Results
  import opened Bits
  import opened ByteStrings
  import opened Constants
  import opened Digits
  import opened Crypto
  import opened MerkleSpec
  import opened MerkleTheorems
  import Codec = ProofCodec

  const PATH_LENGTH := TREE_DEPTH - 1

  datatype PublicInputs = PublicInputs(nullifierHash: Bytes, root: Bytes, recipient: string, relayerFee: int)

  datatype PrivateInputs = PrivateInputs(secret: Bytes, nullifier: Bytes, amount: int, leafIndex: int,
                                         merklePathElements: seq<Bytes>, merklePathIndices: seq<int>)

  datatype CircuitError =
    | BadSecret | BadNullifier | BadAmount | BadLeafIndex
    | BadElementCount | BadElement(i: nat) | BadIndexCount | BadIndex(i: nat)
    | BadNullifierHash | BadRoot | BadRecipient | BadFee
    | AmountTooLarge | NullifierMismatch | RootMismatch

  datatype Witness = Witness(commitment: Bytes, nullifierHash: Bytes, merklePathHashes: seq<Bytes>, computedRoot: Bytes,
                             publicInputs: PublicInputs, privateInputs: PrivateInputs)

  /** SHA-256 and the UTF-8 encoder, as functions of which only the digest length is known. */
  datatype Primitives = Primitives(sha: Bytes -> Bytes, utf8: string -> Bytes)

  ghost predicate Lawful(x: Primitives) {
    forall b :: |x.sha(b)| == 32
  }

  // ------------------------------------------------------------------
  // Validation: the first field found wrong
  // ------------------------------------------------------------------

  function FirstBadElement(es: seq<Bytes>, i: nat): Option<CircuitError>
    decreases |es| - i
  {
    if i >= |es| then None
    else if |es[i]| != HASH_LENGTH then Some(BadElement(i))
    else FirstBadElement(es, i + 1)
  }

  function FirstBadIndex(idxs: seq<int>, i: nat): Option<CircuitError>
    decreases |idxs| - i
  {
    if i >= |idxs| then None
    else if idxs[i] != 0 && idxs[i] != 1 then Some(BadIndex(i))
    else FirstBadIndex(idxs, i + 1)
  }

  function ValidatePrivateInputs(p: PrivateInputs): Option<CircuitError> {
    if |p.secret| != HASH_LENGTH then Some(BadSecret)
    else if |p.nullifier| != HASH_LENGTH then Some(BadNullifier)
    else if p.amount < 0 then Some(BadAmount)
    else if p.leafIndex < 0 || p.leafIndex >= MAX_LEAVES then Some(BadLeafIndex)
    else if |p.merklePathElements| != PATH_LENGTH then Some(BadElementCount)
    else if FirstBadElement(p.merklePathElements, 0).Some? then FirstBadElement(p.merklePathElements, 0)
    else if |p.merklePathIndices| != PATH_LENGTH then Some(BadIndexCount)
    else FirstBadIndex(p.merklePathIndices, 0)
  }

  function ValidatePublicInputs(p: PublicInputs): Option<CircuitError> {
    if |p.nullifierHash| != HASH_LENGTH then Some(BadNullifierHash)
    else if |p.root| != HASH_LENGTH then Some(BadRoot)
    else if p.recipient == "" then Some(BadRecipient)
    else if p.relayerFee < 0 then Some(BadFee)
    else None
  }

  /** What well-formed private inputs are, stated without an order of checks. */
  ghost predicate PrivateShape(p: PrivateInputs) {
    && |p.secret| == 32 && |p.nullifier| == 32 && p.amount >= 0 && 0 <= p.leafIndex < MAX_LEAVES
    && |p.merklePathElements| == PATH_LENGTH == |p.merklePathIndices|
    && (forall i :: 0 <= i < PATH_LENGTH ==> |p.merklePathElements[i]| == 32)
    && (forall i :: 0 <= i < PATH_LENGTH ==> p.merklePathIndices[i] == 0 || p.merklePathIndices[i] == 1)
  }

  ghost predicate PublicShape(p: PublicInputs) {
    |p.nullifierHash| == 32 && |p.root| == 32 && p.recipient != "" && p.relayerFee >= 0
  }

  lemma {:induction false} FirstBadElementIff(es: seq<Bytes>, i: nat)
    requires i <= |es|
    ensures FirstBadElement(es, i).None? <==> forall j :: i <= j < |es| ==> |es[j]| == 32
    decreases |es| - i
  {
    if i < |es| { FirstBadElementIff(es, i + 1); }
  }

  lemma {:induction false} FirstBadIndexIff(idxs: seq<int>, i: nat)
    requires i <= |idxs|
    ensures FirstBadIndex(idxs, i).None? <==> forall j :: i <= j < |idxs| ==> idxs[j] == 0 || idxs[j] == 1
    decreases |idxs| - i
  {
    if i < |idxs| { FirstBadIndexIff(idxs, i + 1); }
  }

  lemma ValidationIff(priv: PrivateInputs, pub: PublicInputs)
    ensures ValidatePrivateInputs(priv).None? <==> PrivateShape(priv)
    ensures ValidatePublicInputs(pub).None? <==> PublicShape(pub)
  {
    FirstBadElementIff(priv.merklePathElements, 0);
    FirstBadIndexIff(priv.merklePathIndices, 0);
  }

  // ------------------------------------------------------------------
  // Witness
  // ------------------------------------------------------------------

  function Commitment(x: Primitives, p: PrivateInputs): Bytes
    requires 0 <= p.amount
  {
    x.sha(p.secret + p.nullifier + ToBE(p.amount, 16))
  }

  function PathOf(p: PrivateInputs): MerkleProof {
    MerkleProof(p.merklePathElements, p.merklePathIndices)
  }

  /** The statement the circuit proves. */
  ghost predicate Holds(x: Primitives, priv: PrivateInputs, pub: PublicInputs) {
    && PrivateShape(priv) && PublicShape(pub)
    && priv.amount < TWO_TO_THE_128
    && x.sha(priv.nullifier) == pub.nullifierHash
    && Verifies(ShaHasher(x.sha), PathOf(priv), Commitment(x, priv), pub.root, TREE_DEPTH)
  }

  ghost predicate IsWitness(x: Primitives, w: Witness, priv: PrivateInputs, pub: PublicInputs)
    requires PrivateShape(priv)
  {
    && w.commitment == Commitment(x, priv)
    && w.nullifierHash == x.sha(priv.nullifier) == pub.nullifierHash
    && |w.merklePathHashes| == PATH_LENGTH
    && (forall i :: 0 <= i < PATH_LENGTH ==>
          w.merklePathHashes[i] == FoldPath(ShaHasher(x.sha), w.commitment, PathOf(priv), i + 1))
    && w.computedRoot == pub.root
    && w.publicInputs == pub && w.privateInputs == priv
  }

  method WalkPath(x: Primitives, priv: PrivateInputs, commitment: Bytes)
    returns (hashes: seq<Bytes>, currentHash: Bytes)
    requires PrivateShape(priv)
    ensures |hashes| == PATH_LENGTH
    ensures forall i :: 0 <= i < PATH_LENGTH ==>
              hashes[i] == FoldPath(ShaHasher(x.sha), commitment, PathOf(priv), i + 1)
    ensures currentHash == FoldPath(ShaHasher(x.sha), commitment, PathOf(priv), PATH_LENGTH)
  {
    hashes := [];
    currentHash := commitment;
    for i := 0 to PATH_LENGTH
      invariant |hashes| == i
      invariant forall j :: 0 <= j < i ==> hashes[j] == FoldPath(ShaHasher(x.sha), commitment, PathOf(priv), j + 1)
      invariant currentHash == FoldPath(ShaHasher(x.sha), commitment, PathOf(priv), i)
    {
      var sibling := priv.merklePathElements[i];
      if priv.merklePathIndices[i] == 1 {
        currentHash := x.sha(sibling + currentHash);
      } else {
        currentHash := x.sha(currentHash + sibling);
      }
      hashes := hashes + [currentHash];
    }
  }

  /** Succeeds exactly when the statement holds; otherwise names the first check that failed. */
  method GenerateWitness(x: Primitives, priv: PrivateInputs, pub: PublicInputs)
    returns (r: Result<Witness, CircuitError>)
    ensures r.Ok? <==> Holds(x, priv, pub)
    ensures r.Ok? ==> IsWitness(x, r.value, priv, pub)
    ensures ValidatePrivateInputs(priv).Some? ==> r == Err(ValidatePrivateInputs(priv).value)
    ensures ValidatePrivateInputs(priv).None? && ValidatePublicInputs(pub).Some?
            ==> r == Err(ValidatePublicInputs(pub).value)
    ensures PrivateShape(priv) && PublicShape(pub) && priv.amount >= TWO_TO_THE_128 ==> r == Err(AmountTooLarge)
    ensures PrivateShape(priv) && PublicShape(pub) && priv.amount < TWO_TO_THE_128 ==>
              && (x.sha(priv.nullifier) != pub.nullifierHash ==> r == Err(NullifierMismatch))
              && (x.sha(priv.nullifier) == pub.nullifierHash && !Holds(x, priv, pub) ==> r == Err(RootMismatch))
  {
    ValidationIff(priv, pub);
    var bad := ValidatePrivateInputs(priv);
    if bad.Some? {
      return Err(bad.value);
    }
    bad := ValidatePublicInputs(pub);
    if bad.Some? {
      return Err(bad.value);
    }
    hide FirstBadElement, FirstBadIndex, ShaHasher, ToBE;
    var amountBytes := BigintToUint128BE(priv.amount);
    if amountBytes.Err? {
      return Err(AmountTooLarge);
    }
    var commitment := x.sha(priv.secret + priv.nullifier + amountBytes.value);
    var nullifierHash := x.sha(priv.nullifier);
    var same := ConstantTimeEqual(nullifierHash, pub.nullifierHash);
    if !same {
      return Err(NullifierMismatch);
    }
    var hashes, computedRoot := WalkPath(x, priv, commitment);
    same := ConstantTimeEqual(computedRoot, pub.root);
    if !same {
      return Err(RootMismatch);
    }
    r := Ok(Witness(commitment, nullifierHash, hashes, computedRoot, pub, priv));
  }

  // ------------------------------------------------------------------
  // Fiat-Shamir proof
  // ------------------------------------------------------------------

  /** What the challenge binds: nullifier hash, root, recipient, fee. */
  function Transcript(x: Primitives, pub: PublicInputs, feeBytes: Bytes): Bytes {
    pub.nullifierHash + pub.root + x.utf8(pub.recipient) + feeBytes
  }

  function ComputeChallenge(x: Primitives, pub: PublicInputs): Result<Bytes, CodecError> {
    match Uint128(pub.relayerFee)
    case Err(e) => Err(e)
    case Ok(feeBytes) => Ok(x.sha(Transcript(x, pub, feeBytes)))
  }

  function ProofDataOf(w: Witness, challenge: Bytes, response: Bytes): Codec.ProofData {
    Codec.ProofData(w.commitment, w.nullifierHash, w.privateInputs.merklePathElements,
                    w.privateInputs.merklePathIndices, challenge, response)
  }

  function ResponseOf(x: Primitives, w: Witness, challenge: Bytes): Bytes
    requires w.privateInputs.leafIndex >= 0
  {
    x.sha(challenge + w.privateInputs.secret + ToBE(w.privateInputs.leafIndex, 4))
  }

  /** The hash-based prover. The fee is encoded first, so a fee of 2^128 or more fails here. */
  method GenerateHashBasedProof(x: Primitives, w: Witness) returns (r: Result<Bytes, CodecError>)
    requires Lawful(x) && PrivateShape(w.privateInputs) && IsWitness(x, w, w.privateInputs, w.publicInputs)
    ensures match ComputeChallenge(x, w.publicInputs)
            case Err(e) => r == Err(e)
            case Ok(challenge) =>
              var p := ProofDataOf(w, challenge, ResponseOf(x, w, challenge));
              |Codec.Payload(p)| <= MAX_PROOF_BYTES && r == Ok(Codec.Encoded(p))
  {
    hide Codec.Payload, Codec.Encoded, Codec.Serialised, FoldPath, ToBE;
    var challenge := ComputeChallenge(x, w.publicInputs);
    if challenge.Err? {
      return Err(challenge.error);
    }
    var response := x.sha(challenge.value + w.privateInputs.secret + ToBE(w.privateInputs.leafIndex, 4));
    var proof := Codec.SerializeProof(ProofDataOf(w, challenge.value, response));
    Codec.SerialisedIsEncoded(ProofDataOf(w, challenge.value, response));
    r := Ok(proof.value);
  }

  /** The conditions under which a proof is accepted for some public inputs. */
  predicate Accepted(x: Primitives, proof: Bytes, pub: PublicInputs) {
    match Codec.Decoded(proof)
    case Err(_) => false
    case Ok(d) =>
      && d.nullifierHash == pub.nullifierHash
      && ComputeChallenge(x, pub) == Ok(d.challengeHash)
      && |d.merklePathElements| == PATH_LENGTH == |d.merklePathIndices|
      && d.responseHash != Zeros(32)
  }

  /** Anything that would throw counts as a rejection. */
  method VerifyProofLocally(x: Primitives, proof: Bytes, pub: PublicInputs) returns (ok: bool)
    ensures ok == Accepted(x, proof, pub)
  {
    hide Codec.Decoded;
    var decoded := Codec.DeserializeProof(proof);
    if decoded.Err? {
      return false;
    }
    var d := decoded.value;
    var same := ConstantTimeEqual(d.nullifierHash, pub.nullifierHash);
    if !same {
      return false;
    }
    var expected := ComputeChallenge(x, pub);
    if expected.Err? {
      return false;
    }
    same := ConstantTimeEqual(d.challengeHash, expected.value);
    if !same {
      return false;
    }
    if |d.merklePathElements| != PATH_LENGTH || |d.merklePathIndices| != PATH_LENGTH {
      return false;
    }
    var zero := ConstantTimeEqual(d.responseHash, Zeros(32));
    ok := !zero;
  }

  // ------------------------------------------------------------------
  // The pipeline, end to end
  // ------------------------------------------------------------------

  /** Every proof made from a witness is accepted for the witness's public inputs, unless the response hash is zero. */
  lemma PipelineCompletes(x: Primitives, w: Witness, challenge: Bytes)
    requires Lawful(x) && PrivateShape(w.privateInputs) && IsWitness(x, w, w.privateInputs, w.publicInputs)
    requires ComputeChallenge(x, w.publicInputs) == Ok(challenge)
    ensures var p := ProofDataOf(w, challenge, ResponseOf(x, w, challenge));
            && |Codec.Payload(p)| <= MAX_PROOF_BYTES
            && (Accepted(x, Codec.Encoded(p), w.publicInputs) <==> ResponseOf(x, w, challenge) != Zeros(32))
  {
    hide FoldPath, Codec.Encoded, Codec.Payload, Codec.Decoded, ToBE;
    Codec.DecodeEncoded(ProofDataOf(w, challenge, ResponseOf(x, w, challenge)));
  }

  ghost predicate ShaCollision(x: Primitives, a: Bytes, b: Bytes) {
    a != b && x.sha(a) == x.sha(b)
  }

  lemma TranscriptParses(n: Bytes, root: Bytes, to: Bytes, fee: Bytes, root': Bytes, to': Bytes, fee': Bytes)
    requires |root| == 32 == |root'| && |fee| == 16 == |fee'|
    requires n + root + to + fee == n + root' + to' + fee'
    ensures root == root' && to == to' && fee == fee'
  {
    var t, t' := n + root + to + fee, n + root' + to' + fee';
    var i, j := |n| + 32, |t| - 16;
    assert root == t[|n|..i] && root' == t'[|n|..i];
    assert to == t[i..j] && to' == t'[i..j];
    assert fee == t[j..] && fee' == t'[j..];
  }

  /**
   * A proof accepted for two sets of public inputs forces them equal, the recipients as UTF-8 bytes, or else their
   * transcripts are a SHA-256 collision: the transcript can be parsed in one way only.
   */
  lemma ProofBindsPublicInputs(x: Primitives, proof: Bytes, a: PublicInputs, b: PublicInputs)
    requires |a.root| == 32 == |b.root|
    requires Accepted(x, proof, a) && Accepted(x, proof, b)
    ensures Uint128(a.relayerFee).Ok? && Uint128(b.relayerFee).Ok?
    ensures var ta, tb := Transcript(x, a, Uint128(a.relayerFee).value), Transcript(x, b, Uint128(b.relayerFee).value);
            || ShaCollision(x, ta, tb)
            || (&& a.nullifierHash == b.nullifierHash && a.root == b.root && a.relayerFee == b.relayerFee
                && x.utf8(a.recipient) == x.utf8(b.recipient))
  {
    hide ToBE, FromBE, Codec.ElementsAt, Codec.IndicesAt;
    var fa, fb := Uint128(a.relayerFee).value, Uint128(b.relayerFee).value;
    var ta, tb := Transcript(x, a, fa), Transcript(x, b, fb);
    assert |a.nullifierHash| == 32;
    Uint128RoundTrip(a.relayerFee, Zeros(16));
    Uint128RoundTrip(b.relayerFee, Zeros(16));
    if ta == tb {
      TranscriptParses(a.nullifierHash, a.root, x.utf8(a.recipient), fa, b.root, x.utf8(b.recipient), fb);
    }
  }

  // ------------------------------------------------------------------
  // What local verification does not see
  // ------------------------------------------------------------------

  /** The documented check of the path is not made: any bytes in the place of the path elements do as well. */
  lemma PathIsNotChecked(x: Primitives, proof: Bytes, pub: PublicInputs, path: Bytes)
    requires |proof| >= Codec.FIXED_HEADER_SIZE + |path| && |path| == 32 * PATH_LENGTH
    ensures var header, rest := proof[..Codec.FIXED_HEADER_SIZE], proof[Codec.FIXED_HEADER_SIZE + |path|..];
            Accepted(x, header + path + rest, pub) <==> Accepted(x, proof, pub)
  {
    hide Bit, ComputeChallenge;
    var other := proof[..98] + path + proof[98 + |path|..];
    assert other[0] == proof[0] && other[97] == proof[97];
    assert other[1..33] == proof[1..33] && other[33..65] == proof[33..65] && other[65..97] == proof[65..97];
  }

  /** A buffer with the last path element, the one below the root, replaced. */
  function WithTop(proof: Bytes, top: Bytes): Bytes
    requires |proof| >= Codec.FIXED_HEADER_SIZE + 32 * PATH_LENGTH && |top| == 32
  {
    proof[..Codec.FIXED_HEADER_SIZE + 32 * (PATH_LENGTH - 1)] + top
    + proof[Codec.FIXED_HEADER_SIZE + 32 * PATH_LENGTH..]
  }

  lemma TopReplaced(proof: Bytes, top: Bytes)
    requires Codec.Decoded(proof).Ok? && |Codec.Decoded(proof).value.merklePathElements| == PATH_LENGTH && |top| == 32
    ensures |proof| >= Codec.FIXED_HEADER_SIZE + 32 * PATH_LENGTH
    ensures var d := Codec.Decoded(proof).value;
            Codec.Decoded(WithTop(proof, top))
            == Ok(d.(merklePathElements := d.merklePathElements[PATH_LENGTH - 1 := top]))
  {
    hide Bit;
    var other, d := WithTop(proof, top), Codec.Decoded(proof).value;
    assert other[0] == proof[0] && other[97] == proof[97];
    assert other[1..33] == proof[1..33] && other[33..65] == proof[33..65] && other[65..97] == proof[65..97];
    assert other[..674] == proof[..674] && other[706..] == proof[706..] && other[674..706] == top;
    forall i | 0 <= i < PATH_LENGTH - 1
      ensures Codec.ElementsAt(other, PATH_LENGTH)[i] == d.merklePathElements[i]
    {
      Codec.SliceOfSlice(other, 0, 674, 98 + 32 * i, 98 + 32 * i + 32);
      Codec.SliceOfSlice(proof, 0, 674, 98 + 32 * i, 98 + 32 * i + 32);
      assert other[0..674] == proof[0..674];
    }
    assert Codec.ElementsAt(other, PATH_LENGTH) == d.merklePathElements[PATH_LENGTH - 1 := top];
    assert Codec.IndicesAt(other, PATH_LENGTH) == d.merklePathIndices;
  }

  function DecodedPath(proof: Bytes): MerkleProof
    requires Codec.Decoded(proof).Ok?
  {
    var d := Codec.Decoded(proof).value;
    MerkleProof(d.merklePathElements, d.merklePathIndices)
  }

  /**
   * Some accepted buffer misses the root: of an accepted buffer and the one with another top sibling, both of them
   * accepted, at most one leads from any leaf to the root, short of a SHA-256 collision on the two paths.
   */
  lemma AcceptedPathMayMiss(x: Primitives, proof: Bytes, pub: PublicInputs, top: Bytes, leaf: Bytes, leaf': Bytes)
    requires Lawful(x) && Accepted(x, proof, pub) && |top| == 32
    requires top != Codec.Decoded(proof).value.merklePathElements[PATH_LENGTH - 1]
    requires |leaf| == 32 == |leaf'|
    ensures |proof| >= Codec.FIXED_HEADER_SIZE + 32 * PATH_LENGTH && Accepted(x, WithTop(proof, top), pub)
    ensures var h, p, p' := ShaHasher(x.sha), DecodedPath(proof), DecodedPath(WithTop(proof, top));
            || !Verifies(h, p, leaf, pub.root, TREE_DEPTH)
            || !Verifies(h, p', leaf', pub.root, TREE_DEPTH)
            || CollisionOnPaths(x.sha, leaf, p, leaf', p', PATH_LENGTH)
  {
    TopReplaced(proof, top);
    hide Codec.Decoded, FoldPath, CollisionOnPaths, WithTop;
    var h, p, p' := ShaHasher(x.sha), DecodedPath(proof), DecodedPath(WithTop(proof, top));
    if Verifies(h, p, leaf, pub.root, TREE_DEPTH) && Verifies(h, p', leaf', pub.root, TREE_DEPTH) {
      PathsBind(x.sha, leaf, p, leaf', p', PATH_LENGTH);
    }
  }

  /** A buffer for given public inputs, made from nothing else: zero siblings and a constant response. */
  function Unwitnessed(pub: PublicInputs, challenge: Bytes): Codec.ProofData {
    Codec.ProofData(Zeros(32), pub.nullifierHash, seq(PATH_LENGTH, i => Zeros(32)), seq(PATH_LENGTH, i => 0), challenge,
                    [1] + Zeros(31))
  }

  /** Acceptance alone shows no membership: for all public inputs that encode, some buffer is accepted. */
  lemma AcceptanceNeedsNoWitness(x: Primitives, pub: PublicInputs)
    requires Lawful(x) && |pub.nullifierHash| == 32 && 0 <= pub.relayerFee < TWO_TO_THE_128
    ensures ComputeChallenge(x, pub).Ok?
    ensures var p := Unwitnessed(pub, ComputeChallenge(x, pub).value);
            |Codec.Payload(p)| <= MAX_PROOF_BYTES && Accepted(x, Codec.Encoded(p), pub)
  {
    hide Codec.Payload, Codec.Encoded, Codec.Decoded;
    var p := Unwitnessed(pub, ComputeChallenge(x, pub).value);
    Codec.DecodeEncoded(p);
    assert p.responseHash[0] != Zeros(32)[0];
  }

  // ------------------------------------------------------------------
  // Witnesses and the tree
  // ------------------------------------------------------------------

  /** What a witness's proof shows is in the tree: the leaf of any generated Merkle proof makes the statement hold. */
  lemma TreeProofMakesWitness(x: Primitives, leaves: seq<Bytes>, priv: PrivateInputs, pub: PublicInputs)
    requires Lawful(x) && PrivateShape(priv) && PublicShape(pub) && priv.amount < TWO_TO_THE_128
    requires pub.nullifierHash == x.sha(priv.nullifier)
    requires priv.leafIndex < |leaves| <= Pow2(PATH_LENGTH) && leaves[priv.leafIndex] == Commitment(x, priv)
    requires IsProofFor(ShaHasher(x.sha), leaves, priv.leafIndex, TREE_DEPTH, PathOf(priv))
    ensures Holds(x, priv, pub) <==> pub.root == PaddedRoot(ShaHasher(x.sha), leaves, TREE_DEPTH)
  {
    hide ShaHasher, PaddedRoot, Commitment;
    ProofsVerifyExactly(ShaHasher(x.sha), leaves, priv.leafIndex, TREE_DEPTH, PathOf(priv), pub.root);
  }

  /** A withdrawal against the tree's stored root: the statement holds at every leaf count that is a power of two. */
  lemma StoredRootMakesWitness(x: Primitives, leaves: seq<Bytes>, priv: PrivateInputs, pub: PublicInputs)
    requires Lawful(x) && PrivateShape(priv) && PublicShape(pub) && priv.amount < TWO_TO_THE_128
    requires pub.nullifierHash == x.sha(priv.nullifier)
    requires priv.leafIndex < |leaves| <= Pow2(PATH_LENGTH) && leaves[priv.leafIndex] == Commitment(x, priv)
    requires IsProofFor(ShaHasher(x.sha), leaves, priv.leafIndex, TREE_DEPTH, PathOf(priv))
    requires IsPow2(|leaves|) && pub.root == TreeRoot(ShaHasher(x.sha), leaves, TREE_DEPTH)
    ensures Holds(x, priv, pub)
  {
    hide ShaHasher, TreeRoot, Commitment;
    OwnProofsVerify(ShaHasher(x.sha), leaves, priv.leafIndex, TREE_DEPTH, PathOf(priv));
  }

  /**
   * Membership: if the statement holds for the padded root of a tree, the commitment is that tree's leaf at the
   * position the path's directions spell, or a step of the path is a SHA-256 collision with the tree.
   */
  lemma StatementMeansMembership(x: Primitives, leaves: seq<Bytes>, priv: PrivateInputs, pub: PublicInputs)
    requires Sized(x.sha, leaves) && Holds(x, priv, pub)
    requires pub.root == PaddedRoot(ShaHasher(x.sha), leaves, TREE_DEPTH)
    ensures var h, i := ShaHasher(x.sha), IndexOf(priv.merklePathIndices);
            || Commitment(x, priv) == LeafAt(h, leaves, i)
            || CollisionOnPaths(x.sha, Commitment(x, priv), PathOf(priv), LeafAt(h, leaves, i),
                                PathTo(h, leaves, i, PATH_LENGTH), PATH_LENGTH)
  {
    hide FoldPath, CollisionOnPaths, PaddedRoot, LeafAt, PathTo, ToBE;
    VerifiedLeafIsInTree(x.sha, leaves, Commitment(x, priv), PathOf(priv), TREE_DEPTH);
  }

  // ------------------------------------------------------------------
  // One deposit, one nullifier
  // ------------------------------------------------------------------

  /** The bytes whose digest is the commitment. */
  function Opening(p: PrivateInputs): Bytes
    requires 0 <= p.amount
  {
    p.secret + p.nullifier + ToBE(p.amount, 16)
  }

  /** A commitment determines the secret, the nullifier and the amount, short of a collision. */
  lemma CommitmentBinds(x: Primitives, p: PrivateInputs, q: PrivateInputs)
    requires PrivateShape(p) && PrivateShape(q) && p.amount < TWO_TO_THE_128 && q.amount < TWO_TO_THE_128
    requires Commitment(x, p) == Commitment(x, q)
    ensures (p.secret == q.secret && p.nullifier == q.nullifier && p.amount == q.amount)
            || ShaCollision(x, Opening(p), Opening(q))
  {
    var a, b := Opening(p), Opening(q);
    if a == b {
      hide ToBE;
      assert p.secret == a[..32] && p.nullifier == a[32..64] && ToBE(p.amount, 16) == a[64..];
      assert q.secret == b[..32] && q.nullifier == b[32..64] && ToBE(q.amount, 16) == b[64..];
      Pow256Values();
      FromToBE(p.amount, 16);
      FromToBE(q.amount, 16);
    }
  }

  /**
   * Two statements that hold for one root and one position have the same secret, nullifier and amount, and so the
   * same nullifier hash: a deposit can be withdrawn under one nullifier only, short of a SHA-256 collision.
   */
  lemma OneNullifierPerLeaf(x: Primitives, p: PrivateInputs, a: PublicInputs, q: PrivateInputs, b: PublicInputs)
    requires Lawful(x) && Holds(x, p, a) && Holds(x, q, b)
    requires a.root == b.root && p.merklePathIndices == q.merklePathIndices
    ensures || (p.secret == q.secret && p.nullifier == q.nullifier && p.amount == q.amount
                && a.nullifierHash == b.nullifierHash)
            || ShaCollision(x, Opening(p), Opening(q))
            || CollisionOnPaths(x.sha, Commitment(x, p), PathOf(p), Commitment(x, q), PathOf(q), PATH_LENGTH)
  {
    hide FoldPath, CollisionOnPaths, ToBE;
    PathsBind(x.sha, Commitment(x, p), PathOf(p), Commitment(x, q), PathOf(q), PATH_LENGTH);
    if Commitment(x, p) == Commitment(x, q) {
      CommitmentBinds(x, p, q);
    }
  }

  /** The leaf index is not tied to the path: any index in range serves the statement as well. */
  lemma LeafIndexIsFree(x: Primitives, p: PrivateInputs, a: PublicInputs, i: int)
    requires Holds(x, p, a)
    ensures Holds(x, p.(leafIndex := i), a) <==> 0 <= i < MAX_LEAVES
  {
    hide FoldPath;
    assert PathOf(p.(leafIndex := i)) == PathOf(p);
  }

  // ------------------------------------------------------------------
  // What is hashed, byte by byte
  // ------------------------------------------------------------------

  /** The commitment hashes the 80 bytes that read as secret, nullifier and amount. */
  lemma CommitmentPreimage(x: Primitives, p: PrivateInputs, b: Bytes)
    requires p.amount >= 0 && |b| == 80
    requires b[..32] == p.secret && b[32..64] == p.nullifier && FromBE(b[64..]) == p.amount
    ensures Commitment(x, p) == x.sha(b)
  {
    ToFromBE(b[64..]);
    assert b == b[..32] + b[32..64] + b[64..];
  }

  /** The challenge hashes nullifier hash, root, recipient and, in the last 16 bytes, the fee. */
  lemma ChallengePreimage(x: Primitives, pub: PublicInputs, b: Bytes)
    requires |b| >= 80 && b[..32] == pub.nullifierHash && b[32..64] == pub.root
    requires b[64..|b| - 16] == x.utf8(pub.recipient) && FromBE(b[|b| - 16..]) == pub.relayerFee
    ensures ComputeChallenge(x, pub) == Ok(x.sha(b))
  {
    var fee := b[|b| - 16..];
    Uint128RoundTrip(pub.relayerFee, fee);
    assert b == b[..32] + b[32..64] + b[64..|b| - 16] + fee;
    assert Transcript(x, pub, fee) == b;
  }

  /** The response hashes challenge, secret and, in four bytes, the leaf index. */
  lemma ResponsePreimage(x: Primitives, w: Witness, challenge: Bytes, b: Bytes)
    requires |challenge| == 32 == |w.privateInputs.secret| && w.privateInputs.leafIndex >= 0
    requires |b| == 68 && b[..32] == challenge && b[32..64] == w.privateInputs.secret
    requires FromBE(b[64..]) == w.privateInputs.leafIndex
    ensures ResponseOf(x, w, challenge) == x.sha(b)
  {
    ToFromBE(b[64..]);
    assert b == b[..32] + b[32..64] + b[64..];
  }

  /** A response ties the challenge to one secret and one leaf index, short of a collision. */
  lemma ResponseBinds(x: Primitives, w: Witness, c: Bytes, w': Witness, c': Bytes)
    requires |c| == 32 == |c'| && PrivateShape(w.privateInputs) && PrivateShape(w'.privateInputs)
    requires ResponseOf(x, w, c) == ResponseOf(x, w', c')
    ensures var p, p' := w.privateInputs, w'.privateInputs;
            var a, b := c + p.secret + ToBE(p.leafIndex, 4), c' + p'.secret + ToBE(p'.leafIndex, 4);
            || (c == c' && p.secret == p'.secret && p.leafIndex == p'.leafIndex)
            || ShaCollision(x, a, b)
  {
    var p, p' := w.privateInputs, w'.privateInputs;
    var a, b := c + p.secret + ToBE(p.leafIndex, 4), c' + p'.secret + ToBE(p'.leafIndex, 4);
    if a == b {
      hide ToBE;
      assert c == a[..32] && p.secret == a[32..64] && ToBE(p.leafIndex, 4) == a[64..];
      assert c' == b[..32] && p'.secret == b[32..64] && ToBE(p'.leafIndex, 4) == b[64..];
      Pow256Values();
      FromToBE(p.leafIndex, 4);
      FromToBE(p'.leafIndex, 4);
    }
  }

  /** What an error of the validators says: the check it names fails, and for list entries it is the first that does. */
  ghost predicate Justified(e: CircuitError, p: PrivateInputs) {
    match e
    case BadSecret => |p.secret| != 32
    case BadNullifier => |p.secret| == 32 && |p.nullifier| != 32
    case BadAmount => |p.nullifier| == 32 && p.amount < 0
    case BadLeafIndex => p.amount >= 0 && !(0 <= p.leafIndex < 1_048_576)
    case BadElementCount => |p.merklePathElements| != 19
    case BadElement(i) =>
      && |p.merklePathElements| == 19 && i < 19 && |p.merklePathElements[i]| != 32
      && forall j :: 0 <= j < i ==> |p.merklePathElements[j]| == 32
    case BadIndexCount => |p.merklePathElements| == 19 && |p.merklePathIndices| != 19
    case BadIndex(i) =>
      && |p.merklePathIndices| == 19 && i < 19 && p.merklePathIndices[i] != 0 && p.merklePathIndices[i] != 1
      && forall j :: 0 <= j < i ==> p.merklePathIndices[j] == 0 || p.merklePathIndices[j] == 1
    case _ => false
  }

  lemma {:induction false} FirstBadElementIs(es: seq<Bytes>, i: nat)
    requires FirstBadElement(es, i).Some?
    ensures var e := FirstBadElement(es, i).value;
            && e.BadElement? && i <= e.i < |es| && |es[e.i]| != 32 && forall j :: i <= j < e.i ==> |es[j]| == 32
    decreases |es| - i
  {
    if |es[i]| == 32 { FirstBadElementIs(es, i + 1); }
  }

  lemma {:induction false} FirstBadIndexIs(idxs: seq<int>, i: nat)
    requires FirstBadIndex(idxs, i).Some?
    ensures var e := FirstBadIndex(idxs, i).value;
            && e.BadIndex? && i <= e.i < |idxs| && idxs[e.i] != 0 && idxs[e.i] != 1
            && forall j :: i <= j < e.i ==> idxs[j] == 0 || idxs[j] == 1
    decreases |idxs| - i
  {
    if idxs[i] == 0 || idxs[i] == 1 { FirstBadIndexIs(idxs, i + 1); }
  }

  /** The validator of private inputs names a check that really fails. */
  lemma ErrorsAreJustified(p: PrivateInputs)
    ensures ValidatePrivateInputs(p).Some? ==> Justified(ValidatePrivateInputs(p).value, p)
  {
    hide FirstBadElement, FirstBadIndex;
    if FirstBadElement(p.merklePathElements, 0).Some? {
      FirstBadElementIs(p.merklePathElements, 0);
    }
    if FirstBadIndex(p.merklePathIndices, 0).Some? {
      FirstBadIndexIs(p.merklePathIndices, 0);
    }
  }

  /** The same for public inputs. */
  lemma PublicErrorsAreJustified(p: PublicInputs)
    ensures match ValidatePublicInputs(p)
            case None => true
            case Some(BadNullifierHash) => |p.nullifierHash| != 32
            case Some(BadRoot) => |p.nullifierHash| == 32 && |p.root| != 32
            case Some(BadRecipient) => |p.root| == 32 && p.recipient == ""
            case Some(BadFee) => p.recipient != "" && p.relayerFee < 0
            case Some(_) => false
  {
  }
}

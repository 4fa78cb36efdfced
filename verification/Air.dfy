/** The membership circuit: the execution trace the prover builds and the constraints the AIR puts on it. */
module Air {
  import opened Bits
  import opened ByteStrings
  import opened Constants
  import opened Digits
  import opened ModArith
  import opened Rescue

  const TRACE_WIDTH := 3

  datatype PublicInputs = PublicInputs(commitment: Elem, nullifierHash: Elem, root: Elem, recipientHash: Elem,
                                       relayerFee: Elem)

  datatype PrivateInputs = PrivateInputs(commitment: Elem, merklePath: seq<Elem>, pathIndices: seq<Elem>)

  /** One row: the running hash, the sibling and the direction bit of one Merkle level. */
  datatype Row = Row(hash: Elem, sibling: Elem, bit: Elem)

  datatype Trace = Trace(meta: Bytes, rows: seq<Row>)

  // ------------------------------------------------------------------
  // Trace length and depth metadata
  // ------------------------------------------------------------------

  function Max(a: nat, b: nat): nat {
    if a < b then b else a
  }

  function NextPowerOfTwo(n: nat, p: nat): nat
    requires p > 0
    decreases n - p
  {
    if p >= n then p else NextPowerOfTwo(n, 2 * p)
  }

  function TraceLengthForDepth(depth: nat): nat {
    NextPowerOfTwo(Max(depth + 1, 8), 1)
  }

  lemma {:induction false} NextPowerIsLeast(n: nat, k: nat)
    requires k == 0 || Pow2(k - 1) < n
    ensures Pow2(k) > 0
    ensures var r := NextPowerOfTwo(n, Pow2(k));
            r >= n && IsPow2(r) && forall j :: 0 <= j && Pow2(j) >= n ==> r <= Pow2(j)
    decreases n - Pow2(k)
  {
    Pow2Positive(k);
    if Pow2(k) < n {
      NextPowerIsLeast(n, k + 1);
    } else {
      forall j | 0 <= j && Pow2(j) >= n ensures Pow2(k) <= Pow2(j) {
        if j < k { Pow2Monotone(j, k - 1); }
        else { Pow2Monotone(k, j); }
      }
    }
  }

  /** The trace length is the least power of two that has room for depth + 1 rows and for eight. */
  lemma TraceLengthIsLeast(depth: nat)
    ensures var len := TraceLengthForDepth(depth);
            && IsPow2(len) && len >= depth + 1 && len >= 8
            && forall j :: 0 <= j && Pow2(j) >= depth + 1 && Pow2(j) >= 8 ==> len <= Pow2(j)
  {
    assert Pow2(0) == 1;
    NextPowerIsLeast(Max(depth + 1, 8), 0);
  }

  function ToLE(n: nat, k: nat): (b: Bytes)
    ensures |b| == k
  {
    if k == 0 then [] else [n % 256] + ToLE(n / 256, k - 1)
  }

  function FromLE(b: Bytes): nat {
    if b == [] then 0 else b[0] + 256 * FromLE(b[1..])
  }

  lemma {:induction false} FromToLE(n: nat, k: nat)
    requires n < Pow256(k)
    ensures FromLE(ToLE(n, k)) == n
  {
    if k > 0 {
      FromToLE(n / 256, k - 1);
      assert ToLE(n, k)[1..] == ToLE(n / 256, k - 1);
    }
  }

  /** The depth survives its trip through the four metadata bytes exactly when it fits 32 bits. */
  lemma DepthMetadata(depth: nat)
    ensures FromLE(ToLE(depth % TWO_TO_THE_32, 4)) == depth <==> depth < TWO_TO_THE_32
  {
    var n := depth % TWO_TO_THE_32;
    assert Pow256(4) == 256 * (256 * (256 * 256));
    FromToLE(n, 4);
  }

  // ------------------------------------------------------------------
  // The prover's trace
  // ------------------------------------------------------------------

  /** A level's hash: a non-zero direction puts the sibling on the left. */
  function LevelHash(current: Elem, sibling: Elem, bit: Elem): Elem {
    if bit != 0 then RescueHash(sibling, current) else RescueHash(current, sibling)
  }

  /** The running hash after the first r levels. */
  function Chain(inputs: PrivateInputs, r: nat): Elem
    requires r <= |inputs.merklePath| && r <= |inputs.pathIndices|
  {
    if r == 0 then inputs.commitment
    else LevelHash(Chain(inputs, r - 1), inputs.merklePath[r - 1], inputs.pathIndices[r - 1])
  }

  predicate Indexed(inputs: PrivateInputs) {
    |inputs.merklePath| <= |inputs.pathIndices|
  }

  /** Row r of the trace: one active row per level, then the root repeated. */
  function RowAt(inputs: PrivateInputs, r: nat): Row
    requires Indexed(inputs)
  {
    var depth := |inputs.merklePath|;
    if r < depth then Row(Chain(inputs, r), inputs.merklePath[r], inputs.pathIndices[r])
    else if r == 0 && inputs.pathIndices != [] then Row(inputs.commitment, 0, inputs.pathIndices[0])
    else Row(Chain(inputs, depth), 0, 0)
  }

  ghost predicate IsTraceOf(trace: Trace, inputs: PrivateInputs)
    requires Indexed(inputs)
  {
    var depth := |inputs.merklePath|;
    && trace.meta == ToLE(depth % TWO_TO_THE_32, 4)
    && |trace.rows| == TraceLengthForDepth(depth)
    && forall r :: 0 <= r < |trace.rows| ==> trace.rows[r] == RowAt(inputs, r)
  }

  method HashChain(inputs: PrivateInputs) returns (hashChain: seq<Elem>)
    requires Indexed(inputs)
    ensures |hashChain| == |inputs.merklePath| + 1
    ensures forall r :: 0 <= r < |hashChain| ==> hashChain[r] == Chain(inputs, r)
  {
    hide RescueHash;
    hashChain := [inputs.commitment];
    var current := inputs.commitment;
    for level := 0 to |inputs.merklePath|
      invariant |hashChain| == level + 1 && current == Chain(inputs, level)
      invariant forall r :: 0 <= r < |hashChain| ==> hashChain[r] == Chain(inputs, r)
    {
      var sibling := inputs.merklePath[level];
      var isRight := inputs.pathIndices[level] != 0;
      var left, right := current, sibling;
      if isRight {
        left, right := sibling, current;
      }
      var hashResult := Hash(left, right);
      hashChain := hashChain + [hashResult];
      current := hashResult;
    }
  }

  method BuildTrace(inputs: PrivateInputs) returns (trace: Trace)
    requires Indexed(inputs)
    ensures IsTraceOf(trace, inputs)
  {
    hide RescueHash, LevelHash, NextPowerOfTwo, ToLE;
    var merkleDepth := |inputs.merklePath|;
    var traceLength := TraceLengthForDepth(merkleDepth);
    var meta := ToLE(merkleDepth % TWO_TO_THE_32, 4);
    var hashChain := HashChain(inputs);
    var root := hashChain[merkleDepth];

    // Fill the trace row by row through one mutable state.
    TraceLengthIsLeast(merkleDepth);
    var state := new Elem[TRACE_WIDTH](_ => 0);
    state[0] := inputs.commitment;
    state[1] := if inputs.merklePath != [] then inputs.merklePath[0] else 0;
    state[2] := if inputs.pathIndices != [] then inputs.pathIndices[0] else 0;
    var rows := [Row(state[0], state[1], state[2])];
    assert rows[0] == RowAt(inputs, 0);
    for step := 0 to traceLength - 1
      invariant |rows| == step + 1
      invariant forall r :: 0 <= r < |rows| ==> rows[r] == RowAt(inputs, r)
    {
      var row := step + 1;
      if row < merkleDepth {
        state[0] := hashChain[row];
        state[1] := inputs.merklePath[row];
        state[2] := inputs.pathIndices[row];
      } else {
        state[0] := root;
        state[1] := 0;
        state[2] := 0;
      }
      rows := rows + [Row(state[0], state[1], state[2])];
    }
    trace := Trace(meta, rows);
  }

  // ------------------------------------------------------------------
  // The AIR
  // ------------------------------------------------------------------

  datatype Assertion = Assertion(column: nat, row: nat, value: Elem)

  /** The only transition constraint: bit * (1 - bit). */
  function Transition(current: Row, next: Row): Elem {
    Mul(current.bit, Sub(1, current.bit))
  }

  function MerkleDepth(trace: Trace): nat
    requires trace.rows != []
  {
    if |trace.meta| >= 4 then FromLE(trace.meta[..4]) else |trace.rows| - 1
  }

  function LastActive(trace: Trace): nat
    requires trace.rows != []
  {
    var depth := MerkleDepth(trace);
    if depth < |trace.rows| - 1 then depth else |trace.rows| - 1
  }

  function Assertions(trace: Trace, pub: PublicInputs): seq<Assertion>
    requires trace.rows != []
  {
    [Assertion(0, 0, pub.commitment), Assertion(0, LastActive(trace), pub.root)]
  }

  function Cell(row: Row, column: nat): Elem {
    if column == 0 then row.hash else if column == 1 then row.sibling else row.bit
  }

  /** The trace meets the constraint on every transition, and every assertion. */
  ghost predicate Satisfies(trace: Trace, pub: PublicInputs) {
    && trace.rows != []
    && (forall r :: 0 <= r < |trace.rows| - 1 ==> Transition(trace.rows[r], trace.rows[r + 1]) == 0)
    && (forall a :: a in Assertions(trace, pub)
            ==> a.row < |trace.rows| && Cell(trace.rows[a.row], a.column) == a.value)
  }

  /** In a field, bit * (1 - bit) vanishes at 0 and 1 only. */
  lemma BitConstraint(bit: Elem)
    requires IsPrime(MODULUS)
    ensures Mul(bit, Sub(1, bit)) == 0 <==> bit == 0 || bit == 1
  {
    if bit == 0 || bit == 1 {
      assert Sub(1, 1) == 0;
    } else {
      NewShift(1 + MODULUS - bit, -1, 1 - bit);
      NoZeroDivisors(MODULUS, bit, Sub(1, bit));
    }
  }

  ghost predicate BitsAreBinary(inputs: PrivateInputs) {
    forall l :: 0 <= l < |inputs.pathIndices| ==> inputs.pathIndices[l] == 0 || inputs.pathIndices[l] == 1
  }

  /** The decoded depth names the row that holds the folded path, inside the trace. */
  lemma LastActiveRow(trace: Trace, inputs: PrivateInputs)
    requires |inputs.pathIndices| == |inputs.merklePath| < TWO_TO_THE_32 && IsTraceOf(trace, inputs)
    ensures trace.rows != []
    ensures LastActive(trace) == |inputs.merklePath| < |trace.rows|
    ensures trace.rows[LastActive(trace)].hash == Chain(inputs, |inputs.merklePath|)
    ensures trace.rows[0].hash == inputs.commitment
  {
    hide ToLE, FromLE, LevelHash, NextPowerOfTwo;
    var depth := |inputs.merklePath|;
    DepthMetadata(depth);
    TraceLengthIsLeast(depth);
    assert trace.meta[..4] == trace.meta;
    assert trace.rows[depth] == RowAt(inputs, depth);
    assert trace.rows[0] == RowAt(inputs, 0);
  }

  lemma TransitionsIff(trace: Trace, inputs: PrivateInputs)
    requires IsPrime(MODULUS)
    requires |inputs.pathIndices| == |inputs.merklePath| && IsTraceOf(trace, inputs)
    ensures (forall r :: 0 <= r < |trace.rows| - 1 ==> Transition(trace.rows[r], trace.rows[r + 1]) == 0)
            <==> BitsAreBinary(inputs)
  {
    hide Mul, Sub, Chain;
    var depth := |inputs.merklePath|;
    TraceLengthIsLeast(depth);
    if BitsAreBinary(inputs) {
      forall r | 0 <= r < |trace.rows| - 1 ensures Transition(trace.rows[r], trace.rows[r + 1]) == 0 {
        assert trace.rows[r] == RowAt(inputs, r);
        BitConstraint(trace.rows[r].bit);
      }
    } else {
      var l :| 0 <= l < depth && inputs.pathIndices[l] != 0 && inputs.pathIndices[l] != 1;
      assert trace.rows[l] == RowAt(inputs, l);
      BitConstraint(trace.rows[l].bit);
      assert Transition(trace.rows[l], trace.rows[l + 1]) != 0;
    }
  }

  /**
   * The trace the prover builds meets the AIR exactly when the path bits are 0 or 1 and the public commitment
   * and root are the leaf and the folded path, at any depth that fits the metadata.
   */
  lemma BuiltTraceSatisfiesIff(trace: Trace, inputs: PrivateInputs, pub: PublicInputs)
    requires IsPrime(MODULUS)
    requires |inputs.pathIndices| == |inputs.merklePath| < TWO_TO_THE_32 && IsTraceOf(trace, inputs)
    ensures Satisfies(trace, pub)
            <==> (&& BitsAreBinary(inputs)
                  && pub.commitment == inputs.commitment
                  && pub.root == Chain(inputs, |inputs.merklePath|))
  {
    hide Chain, RowAt, Transition;
    LastActiveRow(trace, inputs);
    TransitionsIff(trace, inputs);
    var asserts := Assertions(trace, pub);
    assert asserts[0] in asserts && asserts[1] in asserts;
    assert forall a :: a in asserts ==> a == asserts[0] || a == asserts[1];
  }

  /** Eight rows without a path: the commitment, then the root. */
  function Pathless(pub: PublicInputs): Trace {
    Trace(ToLE(1, 4), seq(8, r => Row(if r == 0 then pub.commitment else pub.root, 0, 0)))
  }

  /** What the constraints do not say: whatever the public inputs, some trace satisfies them. */
  lemma EveryInputIsSatisfied(pub: PublicInputs)
    ensures Satisfies(Pathless(pub), pub)
  {
    var trace := Pathless(pub);
    FromToLE(1, 4);
    assert Pow256(4) == 256 * (256 * (256 * (256 * Pow256(0))));
    assert trace.meta[..4] == ToLE(1, 4);
    assert Mul(0, Sub(1, 0)) == 0;
  }

  /**
   * The trace as its table describes it: the first row starts from the commitment; every active row holds its level's
   * sibling and bit, and its hash with the sibling, on the side the bit says, is the next row's; the rest repeat the
   * last hash with nothing beside it.
   */
  lemma TraceWalksPath(trace: Trace, inputs: PrivateInputs)
    requires |inputs.pathIndices| == |inputs.merklePath| && IsTraceOf(trace, inputs)
    ensures |trace.rows| > |inputs.merklePath| && trace.rows[0].hash == inputs.commitment
    ensures forall r :: 0 <= r < |inputs.merklePath| ==>
              var row := trace.rows[r];
              && row.sibling == inputs.merklePath[r] && row.bit == inputs.pathIndices[r]
              && trace.rows[r + 1].hash
                 == (if row.bit != 0 then RescueHash(row.sibling, row.hash) else RescueHash(row.hash, row.sibling))
    ensures forall r :: |inputs.merklePath| <= r < |trace.rows| ==>
              trace.rows[r] == Row(trace.rows[|inputs.merklePath|].hash, 0, 0)
  {
    hide RescueHash;
    TraceLengthIsLeast(|inputs.merklePath|);
  }

  /** The metadata is little-endian. */
  lemma MetadataBytes(depth: nat)
    requires depth < TWO_TO_THE_32
    ensures var meta := ToLE(depth, 4);
            meta[0] == depth % 256 && (depth < 256 ==> meta == [depth, 0, 0, 0])
  {
    assert ToLE(0, 3) == [0] + ToLE(0, 2) && ToLE(0, 2) == [0] + ToLE(0, 1) && ToLE(0, 1) == [0] + ToLE(0, 0);
  }
}

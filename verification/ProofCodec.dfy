/** The packed binary form of a hash-based proof. */
module ProofCodec {
  import opened Results
  import opened Bits
  import opened ByteStrings
  import opened Constants
  import opened Crypto

  const PROOF_VERSION: Byte := 1
  const FIXED_HEADER_SIZE := 98

  datatype ProofData = ProofData(commitment: Bytes, nullifierHash: Bytes, merklePathElements: seq<Bytes>,
                                 merklePathIndices: seq<int>, challengeHash: Bytes, responseHash: Bytes)

  datatype ProofError =
    | OutOfRange | TooShort(got: nat) | BadVersion(got: nat) | BadPathLength(got: nat) | TooShortForPath(need: nat)

  ghost predicate HashesAre32(p: ProofData) {
    && |p.nullifierHash| == 32 == |p.challengeHash| == |p.responseHash|
    && forall i :: 0 <= i < |p.merklePathElements| ==> |p.merklePathElements[i]| == 32
  }

  // ------------------------------------------------------------------
  // Path elements
  // ------------------------------------------------------------------

  function Flatten(es: seq<Bytes>): Bytes {
    if es == [] then [] else Flatten(es[..|es| - 1]) + es[|es| - 1]
  }

  lemma {:induction false} FlattenAt(es: seq<Bytes>)
    requires forall i :: 0 <= i < |es| ==> |es[i]| == 32
    ensures |Flatten(es)| == 32 * |es|
    ensures forall i :: 0 <= i < |es| ==> Flatten(es)[32 * i..32 * i + 32] == es[i]
  {
    if es != [] {
      var front := es[..|es| - 1];
      FlattenAt(front);
      forall i | 0 <= i < |es| ensures Flatten(es)[32 * i..32 * i + 32] == es[i] {
        if i < |front| {
          assert Flatten(es)[32 * i..32 * i + 32] == Flatten(front)[32 * i..32 * i + 32];
          assert front[i] == es[i];
        }
      }
    }
  }

  /** Cutting a string into 32-byte pieces and flattening them gives the string. */
  lemma {:induction false} FlattenPieces(es: seq<Bytes>, s: Bytes)
    requires |s| == 32 * |es|
    requires forall i :: 0 <= i < |es| ==> es[i] == s[32 * i..32 * i + 32]
    ensures Flatten(es) == s
  {
    if es != [] {
      var n := |es| - 1;
      var t := s[..32 * n];
      forall i | 0 <= i < n ensures es[..n][i] == t[32 * i..32 * i + 32] {
        assert t[32 * i..32 * i + 32] == s[32 * i..32 * i + 32];
      }
      FlattenPieces(es[..n], t);
      assert s == t + es[n];
    }
  }

  // ------------------------------------------------------------------
  // Path indices, eight to a byte
  // ------------------------------------------------------------------

  function IndexBytes(n: nat): nat {
    (n + 7) / 8
  }

  /** Bit i of the packed indices, when only the first n count. */
  function PathBit(indices: seq<int>, n: nat, i: nat): nat {
    if i < n && i < |indices| && indices[i] == 1 then 1 else 0
  }

  /** Bits j..7 of byte k, shifted down by j. */
  function PackedFrom(indices: seq<int>, n: nat, k: nat, j: nat): nat
    requires j <= 8
    decreases 8 - j
  {
    if j == 8 then 0 else PathBit(indices, n, 8 * k + j) + 2 * PackedFrom(indices, n, k, j + 1)
  }

  lemma {:induction false} PackedBound(indices: seq<int>, n: nat, k: nat, j: nat)
    requires j <= 8
    ensures PackedFrom(indices, n, k, j) < Pow2(8 - j)
    decreases 8 - j
  {
    if j < 8 { PackedBound(indices, n, k, j + 1); }
  }

  lemma Pow2Eight()
    ensures Pow2(8) == 256
  {
    assert Pow2(8) == 2 * (2 * Pow2(6)) && Pow2(6) == 2 * (2 * Pow2(4)) && Pow2(4) == 2 * (2 * Pow2(2));
  }

  function PackedByte(indices: seq<int>, n: nat, k: nat): Byte {
    PackedBound(indices, n, k, 0);
    Pow2Eight();
    PackedFrom(indices, n, k, 0)
  }

  function Packed(indices: seq<int>, n: nat, count: nat): (b: Bytes)
    ensures |b| == count
  {
    seq(count, k requires 0 <= k => PackedByte(indices, n, k))
  }

  lemma {:induction false} PackedShr(indices: seq<int>, n: nat, k: nat, j: nat)
    requires j <= 8
    ensures Shr(PackedByte(indices, n, k), j) == PackedFrom(indices, n, k, j)
  {
    if j > 0 { PackedShr(indices, n, k, j - 1); }
  }

  lemma Parity(bit: nat, rest: nat)
    requires bit < 2
    ensures (bit + 2 * rest) % 2 == bit
  {
  }

  lemma PackedBitAt(indices: seq<int>, n: nat, k0: nat, j0: nat)
    requires j0 < 8
    ensures Bit(PackedByte(indices, n, k0), j0) == PathBit(indices, n, 8 * k0 + j0)
  {
    assert PackedFrom(indices, n, k0, j0) == PathBit(indices, n, 8 * k0 + j0) + 2 * PackedFrom(indices, n, k0, j0 + 1);
    assert PathBit(indices, n, 8 * k0 + j0) < 2;
    hide PackedFrom, PackedByte, Shr, PathBit;
    PackedShr(indices, n, k0, j0);
    Parity(PathBit(indices, n, 8 * k0 + j0), PackedFrom(indices, n, k0, j0 + 1));
  }

  /** Unpacking reads what packing wrote. */
  lemma PackedBit(indices: seq<int>, n: nat, i: nat)
    ensures Bit(PackedByte(indices, n, i / 8), i % 8) == PathBit(indices, n, i)
  {
    hide *;
    assert 8 * (i / 8) + i % 8 == i;
    PackedBitAt(indices, n, i / 8, i % 8);
  }

  /** b | (1 << j) */
  function SetBit(b: Byte, j: nat): nat {
    if Bit(b, j) == 1 then b else b + Pow2(j)
  }

  lemma BitOfNext(indices: seq<int>, i: nat, m: nat)
    ensures PathBit(indices, i + 1, m) == if m == i then PathBit(indices, i + 1, i) else PathBit(indices, i, m)
    ensures PathBit(indices, i, i) == 0
  {
  }

  /** What bit i adds to bits j..7 of byte k, where bit i is bit j0 of byte k0. */
  function Share(indices: seq<int>, k0: nat, j0: nat, k: nat, j: nat): nat {
    if k == k0 && j <= j0 && PathBit(indices, 8 * k0 + j0 + 1, 8 * k0 + j0) == 1 then Pow2(j0 - j) else 0
  }

  lemma ShareStep(indices: seq<int>, k0: nat, j0: nat, k: nat, j: nat)
    requires j < 8 && j0 < 8
    ensures var i, m := 8 * k0 + j0, 8 * k + j;
            PathBit(indices, i + 1, m) + 2 * Share(indices, k0, j0, k, j + 1)
            == PathBit(indices, i, m) + Share(indices, k0, j0, k, j)
  {
    BitOfNext(indices, 8 * k0 + j0, 8 * k + j);
    assert j < j0 ==> Pow2(j0 - j) == 2 * Pow2(j0 - (j + 1));
    assert Pow2(0) == 1;
    hide Pow2;
  }

  /** Setting bit i extends the packing of the first i indices to i + 1, in its byte and in no other. */
  lemma {:induction false} PackOneFrom(indices: seq<int>, k0: nat, j0: nat, k: nat, j: nat)
    requires j <= 8 && j0 < 8
    ensures var i := 8 * k0 + j0;
            PackedFrom(indices, i + 1, k, j) == PackedFrom(indices, i, k, j) + Share(indices, k0, j0, k, j)
    decreases 8 - j
  {
    if j < 8 {
      hide PathBit, Share;
      PackOneFrom(indices, k0, j0, k, j + 1);
      ShareStep(indices, k0, j0, k, j);
    }
  }

  lemma PackOneAt(indices: seq<int>, k0: nat, j0: nat, k: nat)
    requires j0 < 8
    ensures var i := 8 * k0 + j0;
            PackedByte(indices, i + 1, k)
            == if k == k0 && PathBit(indices, i + 1, i) == 1 then SetBit(PackedByte(indices, i, k), j0)
               else PackedByte(indices, i, k)
  {
    var i := 8 * k0 + j0;
    hide PathBit, PackedFrom, Pow2, Bit;
    PackedBitAt(indices, i, k0, j0);
    BitOfNext(indices, i, i);
    PackOneFrom(indices, k0, j0, k, 0);
  }

  lemma PackOne(indices: seq<int>, i: nat, k: nat)
    ensures PackedByte(indices, i + 1, k)
            == if k == i / 8 && PathBit(indices, i + 1, i) == 1 then SetBit(PackedByte(indices, i, k), i % 8)
               else PackedByte(indices, i, k)
  {
    hide *;
    assert 8 * (i / 8) + i % 8 == i;
    PackOneAt(indices, i / 8, i % 8, k);
  }

  lemma {:induction false} PackNothing(indices: seq<int>, k: nat, j: nat)
    requires j <= 8
    ensures PackedFrom(indices, 0, k, j) == 0
    decreases 8 - j
  {
    if j < 8 { PackNothing(indices, k, j + 1); }
  }

  // ------------------------------------------------------------------
  // Serialisation
  // ------------------------------------------------------------------

  function Header(p: ProofData): Bytes {
    [PROOF_VERSION] + p.nullifierHash + p.challengeHash + p.responseHash + [|p.merklePathElements| % 256]
  }

  function Payload(p: ProofData): Bytes {
    var n := |p.merklePathElements|;
    Header(p) + Flatten(p.merklePathElements) + Packed(p.merklePathIndices, n, IndexBytes(n))
  }

  /** The 2048-byte buffer: the payload, then zeros. */
  function Encoded(p: ProofData): Bytes
    requires |Payload(p)| <= MAX_PROOF_BYTES
  {
    Payload(p) + Zeros(MAX_PROOF_BYTES - |Payload(p)|)
  }

  lemma PayloadFits(p: ProofData)
    requires HashesAre32(p) && |p.merklePathElements| <= 60
    ensures |Payload(p)| == FIXED_HEADER_SIZE + 32 * |p.merklePathElements| + IndexBytes(|p.merklePathElements|)
    ensures |Payload(p)| <= MAX_PROOF_BYTES
  {
    FlattenAt(p.merklePathElements);
  }

  /** Writes src at an offset, or fails as typed-array writes do. */
  function Put(b: Bytes, src: Bytes, at: nat): (r: Result<Bytes, ProofError>)
    ensures r.Ok? ==> |r.value| == |b|
  {
    if at + |src| > |b| then Err(OutOfRange) else Ok(b[..at] + src + b[at + |src|..])
  }

  /** Writes the parts 32 bytes apart, whatever their lengths: the next one overwrites what a longer one left over. */
  function PutAll(b: Bytes, parts: seq<Bytes>, offset: nat): (r: Result<Bytes, ProofError>)
    ensures r.Ok? ==> |r.value| == |b|
  {
    if parts == [] then Ok(b)
    else
      var n := |parts| - 1;
      match PutAll(b, parts[..n], offset)
      case Err(e) => Err(e)
      case Ok(before) => Put(before, parts[n], offset + 32 * n)
  }

  lemma SetBitFits(b: Byte, j: nat)
    requires j < 8
    ensures SetBit(b, j) < 256
  {
    Pow2Eight();
    hide Pow2;
    if Bit(b, j) == 0 {
      SetBitBelow(b, j, 8);
    }
  }

  function WithBit(b: Bytes, at: nat, j: nat): (r: Bytes)
    requires at < |b| && j < 8
    ensures |r| == |b|
  {
    SetBitFits(b[at], j);
    b[at := SetBit(b[at], j)]
  }

  /** Sets the bits of the first n indices that are 1. Writes beyond the end are ignored. */
  function WithBits(b: Bytes, offset: nat, indices: seq<int>, n: nat): (r: Bytes)
    ensures |r| == |b|
  {
    if n == 0 then b
    else
      var before, i := WithBits(b, offset, indices, n - 1), n - 1;
      var at := offset + i / 8;
      if PathBit(indices, n, i) == 1 && at < |b| then WithBit(before, at, i % 8) else before
  }

  /** What serializeProof returns for hashes and elements of any lengths. */
  function Serialised(p: ProofData): Result<Bytes, ProofError> {
    var n := |p.merklePathElements|;
    match PutAll([PROOF_VERSION] + Zeros(MAX_PROOF_BYTES - 1), [p.nullifierHash, p.challengeHash, p.responseHash], 1)
    case Err(e) => Err(e)
    case Ok(hashes) =>
      match PutAll(hashes[97 := n % 256], p.merklePathElements, FIXED_HEADER_SIZE)
      case Err(e) => Err(e)
      case Ok(elements) => Ok(WithBits(elements, FIXED_HEADER_SIZE + 32 * n, p.merklePathIndices, n))
  }

  /** The first failure ends it. */
  lemma {:induction false} PutAllFails(b: Bytes, parts: seq<Bytes>, offset: nat, i: nat)
    requires i <= |parts| && PutAll(b, parts[..i], offset).Err?
    ensures PutAll(b, parts, offset) == PutAll(b, parts[..i], offset)
    decreases |parts|
  {
    if i < |parts| {
      assert parts[..|parts| - 1][..i] == parts[..i];
      PutAllFails(b, parts[..|parts| - 1], offset, i);
    } else {
      assert parts[..i] == parts;
    }
  }

  lemma PutAllNext(b: Bytes, parts: seq<Bytes>, i: nat, offset: nat, before: Bytes)
    requires i < |parts| && PutAll(b, parts[..i], offset) == Ok(before)
    ensures PutAll(b, parts[..i + 1], offset) == Put(before, parts[i], offset + 32 * i)
  {
    assert parts[..i + 1][..i] == parts[..i];
  }

  /** Writes the parts one after another from a moving offset. */
  method WriteAll(buf: array<Byte>, parts: seq<Bytes>, start: nat) returns (r: Result<nat, ProofError>)
    modifies buf
    ensures match PutAll(old(buf[..]), parts, start)
            case Err(e) => r == Err(e)
            case Ok(b) => r == Ok(start + 32 * |parts|) && buf[..] == b
  {
    var offset := start;
    ghost var whole := buf[..];
    for i := 0 to |parts|
      invariant offset == start + 32 * i
      invariant PutAll(whole, parts[..i], start) == Ok(buf[..])
    {
      hide PutAll;
      PutAllNext(whole, parts, i, start, buf[..]);
      if offset + |parts[i]| > buf.Length {
        PutAllFails(whole, parts, start, i + 1);
        return Err(OutOfRange);
      }
      Blit(buf, parts[i], offset);
      offset := offset + HASH_LENGTH;
    }
    assert parts[..|parts|] == parts;
    r := Ok(offset);
  }

  /** Sets one bit per index equal to 1. */
  method WriteIndices(buf: array<Byte>, offset: nat, indices: seq<int>, pathLength: nat)
    modifies buf
    ensures buf[..] == WithBits(old(buf[..]), offset, indices, pathLength)
  {
    hide SetBit;
    for i := 0 to pathLength
      invariant buf[..] == WithBits(old(buf[..]), offset, indices, i)
    {
      var byteIdx := i / 8;
      var bitIdx := i % 8;
      if i < |indices| && indices[i] == 1 && offset + byteIdx < buf.Length {
        SetBitFits(buf[offset + byteIdx], bitIdx);
        buf[offset + byteIdx] := SetBit(buf[offset + byteIdx], bitIdx);
      }
    }
  }

  method SerializeProof(p: ProofData) returns (r: Result<Bytes, ProofError>)
    ensures r == Serialised(p)
  {
    hide PutAll, WithBits;
    var buf := new Byte[MAX_PROOF_BYTES](_ => 0);
    buf[0] := PROOF_VERSION;
    assert buf[..] == [PROOF_VERSION] + Zeros(MAX_PROOF_BYTES - 1);
    var offset := WriteAll(buf, [p.nullifierHash, p.challengeHash, p.responseHash], 1);
    if offset.Err? {
      return Err(offset.error);
    }
    var pathLength := |p.merklePathElements|;
    buf[offset.value] := pathLength % 256;
    offset := WriteAll(buf, p.merklePathElements, offset.value + 1);
    if offset.Err? {
      return Err(offset.error);
    }
    WriteIndices(buf, offset.value, p.merklePathIndices, pathLength);
    r := Ok(buf[..]);
  }

  // ------------------------------------------------------------------
  // The serialised form of a proof with 32-byte hashes
  // ------------------------------------------------------------------

  lemma PutNext(written: Bytes, src: Bytes, rest: Bytes)
    requires |src| <= |rest|
    ensures Put(written + rest, src, |written|) == Ok(written + src + rest[|src|..])
  {
  }

  /** Parts of 32 bytes each come out one behind the other. */
  lemma {:induction false} PutAllFlat(b: Bytes, parts: seq<Bytes>, offset: nat)
    requires forall i :: 0 <= i < |parts| ==> |parts[i]| == 32
    requires offset + 32 * |parts| <= |b|
    ensures |Flatten(parts)| == 32 * |parts|
    ensures PutAll(b, parts, offset) == Ok(b[..offset] + Flatten(parts) + b[offset + 32 * |parts|..])
  {
    FlattenAt(parts);
    if parts == [] {
      assert b[..offset] + Flatten(parts) + b[offset..] == b;
    } else {
      var n := |parts| - 1;
      PutAllFlat(b, parts[..n], offset);
      PutNext(b[..offset] + Flatten(parts[..n]), parts[n], b[offset + 32 * n..]);
      assert b[offset + 32 * n..][32..] == b[offset + 32 * (n + 1)..];
      assert b[..offset] + Flatten(parts[..n]) + parts[n] == b[..offset] + Flatten(parts);
    }
  }

  lemma PackedNothing(indices: seq<int>, count: nat)
    ensures Packed(indices, 0, count) == Zeros(count)
  {
    forall k | 0 <= k < count ensures PackedByte(indices, 0, k) == 0 { PackNothing(indices, k, 0); }
  }

  lemma PackStep(indices: seq<int>, i: nat, count: nat)
    requires i / 8 < count
    ensures var before, k := Packed(indices, i, count), i / 8;
            Packed(indices, i + 1, count)
            == if PathBit(indices, i + 1, i) == 1 then WithBit(before, k, i % 8) else before
  {
    hide Bit, SetBit, PackedByte;
    forall k | 0 <= k < count
      ensures Packed(indices, i + 1, count)[k]
              == if k == i / 8 && PathBit(indices, i + 1, i) == 1 then SetBit(Packed(indices, i, count)[k], i % 8)
                 else Packed(indices, i, count)[k]
    {
      PackOne(indices, i, k);
    }
  }

  lemma WriteStep(buf: seq<Byte>, head: Bytes, tail: Bytes, indices: seq<int>, i: nat, count: nat)
    requires i / 8 < count && buf == head + Packed(indices, i, count) + tail
    ensures var at := |head| + i / 8;
            && at < |buf|
            && (if PathBit(indices, i + 1, i) == 1 then WithBit(buf, at, i % 8) else buf)
               == head + Packed(indices, i + 1, count) + tail
  {
    hide Bit, SetBit, PackedByte;
    PackStep(indices, i, count);
    var at := |head| + i / 8;
    assert buf[at] == Packed(indices, i, count)[i / 8];
  }

  /** Setting bits in zeros packs the indices. */
  lemma {:induction false} BitsArePacked(head: Bytes, tail: Bytes, indices: seq<int>, n: nat, count: nat)
    requires n <= 8 * count
    ensures WithBits(head + Zeros(count) + tail, |head|, indices, n) == head + Packed(indices, n, count) + tail
  {
    hide WithBit, Packed, PathBit, IndexBytes;
    if n == 0 {
      PackedNothing(indices, count);
    } else {
      var i := n - 1;
      BitsArePacked(head, tail, indices, i, count);
      WriteStep(head + Packed(indices, i, count) + tail, head, tail, indices, i, count);
    }
  }

  lemma ThreeHashes(p: ProofData)
    requires HashesAre32(p)
    ensures var b := [PROOF_VERSION] + Zeros(MAX_PROOF_BYTES - 1);
            var written := [PROOF_VERSION] + p.nullifierHash + p.challengeHash + p.responseHash;
            PutAll(b, [p.nullifierHash, p.challengeHash, p.responseHash], 1)
            == Ok(written + Zeros(MAX_PROOF_BYTES - 97))
  {
    var b, parts := [PROOF_VERSION] + Zeros(MAX_PROOF_BYTES - 1), [p.nullifierHash, p.challengeHash, p.responseHash];
    PutAllFlat(b, parts, 1);
    assert parts[..2][..1] == parts[..1];
    assert Flatten(parts[..1]) == p.nullifierHash;
    assert Flatten(parts[..2]) == p.nullifierHash + p.challengeHash;
    assert Flatten(parts) == p.nullifierHash + p.challengeHash + p.responseHash;
    assert [PROOF_VERSION] + Flatten(parts) == [PROOF_VERSION] + p.nullifierHash + p.challengeHash + p.responseHash;
    assert b[..1] == [PROOF_VERSION] && b[97..] == Zeros(MAX_PROOF_BYTES - 97);
  }

  lemma TooManyElements(b: Bytes, es: seq<Bytes>)
    requires |b| == MAX_PROOF_BYTES && |es| > 60 && forall i :: 0 <= i < |es| ==> |es[i]| == 32
    ensures PutAll(b, es, FIXED_HEADER_SIZE) == Err(OutOfRange)
  {
    PutAllFlat(b, es[..60], FIXED_HEADER_SIZE);
    assert es[..61][..60] == es[..60];
    PutAllFails(b, es, FIXED_HEADER_SIZE, 61);
  }

  lemma ElementsAndBits(p: ProofData)
    requires HashesAre32(p) && |p.merklePathElements| <= 60 && |Payload(p)| <= MAX_PROOF_BYTES
    ensures var n, b := |p.merklePathElements|, Header(p) + Zeros(MAX_PROOF_BYTES - FIXED_HEADER_SIZE);
            var r := PutAll(b, p.merklePathElements, FIXED_HEADER_SIZE);
            && r.Ok?
            && WithBits(r.value, FIXED_HEADER_SIZE + 32 * n, p.merklePathIndices, n) == Encoded(p)
  {
    hide Flatten, Packed, WithBits, PutAll;
    var n, b := |p.merklePathElements|, Header(p) + Zeros(MAX_PROOF_BYTES - FIXED_HEADER_SIZE);
    assert |Header(p)| == FIXED_HEADER_SIZE;
    hide Header;
    PayloadFits(p);
    PutAllFlat(b, p.merklePathElements, FIXED_HEADER_SIZE);
    var head, tail := Header(p) + Flatten(p.merklePathElements), Zeros(MAX_PROOF_BYTES - |Payload(p)|);
    assert b[..FIXED_HEADER_SIZE] == Header(p);
    assert b[FIXED_HEADER_SIZE + 32 * n..] == Zeros(IndexBytes(n)) + tail;
    assert head + b[FIXED_HEADER_SIZE + 32 * n..] == head + Zeros(IndexBytes(n)) + tail;
    BitsArePacked(head, tail, p.merklePathIndices, n, IndexBytes(n));
  }

  /** With 32-byte hashes, up to 60 levels fit: the payload, then zeros. Longer paths overrun the buffer. */
  lemma SerialisedIsEncoded(p: ProofData)
    requires HashesAre32(p)
    ensures |p.merklePathElements| > 60 ==> Serialised(p) == Err(OutOfRange)
    ensures |p.merklePathElements| <= 60 ==> |Payload(p)| <= MAX_PROOF_BYTES && Serialised(p) == Ok(Encoded(p))
  {
    hide Flatten, Packed, WithBits, PutAll;
    var n := |p.merklePathElements|;
    ThreeHashes(p);
    var b := Header(p) + Zeros(MAX_PROOF_BYTES - FIXED_HEADER_SIZE);
    var written := [PROOF_VERSION] + p.nullifierHash + p.challengeHash + p.responseHash;
    assert (written + Zeros(MAX_PROOF_BYTES - 97))[97 := n % 256] == b;
    if n > 60 {
      hide Header;
      TooManyElements(b, p.merklePathElements);
    } else {
      PayloadFits(p);
      ElementsAndBits(p);
    }
  }

  // ------------------------------------------------------------------
  // Deserialisation
  // ------------------------------------------------------------------

  function ElementsAt(b: Bytes, n: nat): seq<Bytes>
    requires FIXED_HEADER_SIZE + 32 * n <= |b|
  {
    seq(n, i requires 0 <= i < n => b[FIXED_HEADER_SIZE + 32 * i..FIXED_HEADER_SIZE + 32 * i + 32])
  }

  function IndicesAt(b: Bytes, n: nat): seq<int>
    requires FIXED_HEADER_SIZE + 32 * n + IndexBytes(n) <= |b|
  {
    seq(n, i requires 0 <= i < n => Bit(b[FIXED_HEADER_SIZE + 32 * n + i / 8], i % 8))
  }

  function Needed(n: nat): nat {
    FIXED_HEADER_SIZE + 32 * n + IndexBytes(n)
  }

  function Decoded(b: Bytes): Result<ProofData, ProofError> {
    if |b| < FIXED_HEADER_SIZE then Err(TooShort(|b|))
    else if b[0] != PROOF_VERSION then Err(BadVersion(b[0]))
    else
      var n := b[97];
      if n == 0 || n > TREE_DEPTH then Err(BadPathLength(n))
      else if |b| < Needed(n) then Err(TooShortForPath(Needed(n)))
      else Ok(ProofData(Zeros(32), b[1..33], ElementsAt(b, n), IndicesAt(b, n), b[33..65], b[65..97]))
  }

  method DeserializeProof(bytes: Bytes) returns (r: Result<ProofData, ProofError>)
    ensures r == Decoded(bytes)
  {
    if |bytes| < FIXED_HEADER_SIZE {
      return Err(TooShort(|bytes|));
    }
    var offset := 0;
    var version := bytes[offset];
    if version != PROOF_VERSION {
      return Err(BadVersion(version));
    }
    offset := offset + 1;
    var nullifierHash := bytes[offset..offset + HASH_LENGTH];
    offset := offset + HASH_LENGTH;
    var challengeHash := bytes[offset..offset + HASH_LENGTH];
    offset := offset + HASH_LENGTH;
    var responseHash := bytes[offset..offset + HASH_LENGTH];
    offset := offset + HASH_LENGTH;
    var pathLength := bytes[offset];
    offset := offset + 1;
    if pathLength == 0 || pathLength > TREE_DEPTH {
      return Err(BadPathLength(pathLength));
    }
    var neededBytes: nat := offset + pathLength * HASH_LENGTH + IndexBytes(pathLength);
    if |bytes| < neededBytes {
      return Err(TooShortForPath(neededBytes));
    }
    var elements: seq<Bytes> := [];
    for i := 0 to pathLength
      invariant offset == FIXED_HEADER_SIZE + 32 * i
      invariant |elements| == i
      invariant forall j :: 0 <= j < i ==> elements[j] == ElementsAt(bytes, pathLength)[j]
    {
      elements := elements + [bytes[offset..offset + HASH_LENGTH]];
      offset := offset + HASH_LENGTH;
    }
    assert elements == ElementsAt(bytes, pathLength);
    var indices: seq<int> := [];
    for i := 0 to pathLength
      invariant |indices| == i
      invariant forall j :: 0 <= j < i ==> indices[j] == IndicesAt(bytes, pathLength)[j]
    {
      indices := indices + [Bit(bytes[offset + i / 8], i % 8)];
    }
    assert indices == IndicesAt(bytes, pathLength);
    r := Ok(ProofData(Zeros(HASH_LENGTH), nullifierHash, elements, indices, challengeHash, responseHash));
  }

  // ------------------------------------------------------------------
  // Round trips
  // ------------------------------------------------------------------

  ghost predicate BinaryIndices(p: ProofData) {
    && |p.merklePathIndices| == |p.merklePathElements|
    && forall i :: 0 <= i < |p.merklePathIndices| ==> p.merklePathIndices[i] == 0 || p.merklePathIndices[i] == 1
  }

  lemma HeaderFields(p: ProofData)
    requires HashesAre32(p) && |p.merklePathElements| <= 60
    ensures var h := Header(p);
            && |h| == FIXED_HEADER_SIZE && h[0] == 1 && h[97] == |p.merklePathElements|
            && h[1..33] == p.nullifierHash && h[33..65] == p.challengeHash && h[65..97] == p.responseHash
  {
  }

  lemma EncodedParts(p: ProofData)
    requires HashesAre32(p) && 1 <= |p.merklePathElements| <= TREE_DEPTH
    ensures |Payload(p)| <= MAX_PROOF_BYTES
    ensures var b, n := Encoded(p), |p.merklePathElements|;
            && |b| == MAX_PROOF_BYTES
            && b[..98] == Header(p)
            && b[98..98 + 32 * n] == Flatten(p.merklePathElements)
            && b[98 + 32 * n..Needed(n)] == Packed(p.merklePathIndices, n, IndexBytes(n))
            && b[Needed(n)..] == Zeros(MAX_PROOF_BYTES - Needed(n))
  {
    PayloadFits(p);
    HeaderFields(p);
    FlattenAt(p.merklePathElements);
  }

  lemma IndicesOfPacked(b: Bytes, p: ProofData, n: nat)
    requires n == |p.merklePathElements| && BinaryIndices(p) && Needed(n) <= |b|
    requires b[98 + 32 * n..Needed(n)] == Packed(p.merklePathIndices, n, IndexBytes(n))
    ensures IndicesAt(b, n) == p.merklePathIndices
  {
    hide Bit, PackedByte;
    var packed := Packed(p.merklePathIndices, n, IndexBytes(n));
    forall i | 0 <= i < n ensures IndicesAt(b, n)[i] == p.merklePathIndices[i] {
      assert b[98 + 32 * n + i / 8] == packed[i / 8];
      PackedBit(p.merklePathIndices, n, i);
    }
  }

  /** Deserialising a serialised proof gives the proof back, except for the commitment, which is not stored. */
  lemma DecodeEncoded(p: ProofData)
    requires HashesAre32(p) && BinaryIndices(p) && 1 <= |p.merklePathElements| <= TREE_DEPTH
    ensures |Payload(p)| <= MAX_PROOF_BYTES && Decoded(Encoded(p)) == Ok(p.(commitment := Zeros(32)))
  {
    hide Header, Flatten, Packed, Encoded, Payload, Bit, PackedByte;
    EncodedParts(p);
    HeaderFields(p);
    FlattenAt(p.merklePathElements);
    var b, n := Encoded(p), |p.merklePathElements|;
    assert b[0] == b[..98][0] && b[97] == b[..98][97];
    assert b[1..33] == b[..98][1..33] && b[33..65] == b[..98][33..65] && b[65..97] == b[..98][65..97];
    forall i | 0 <= i < n ensures ElementsAt(b, n)[i] == p.merklePathElements[i] {
      assert b[98 + 32 * i..98 + 32 * i + 32] == b[98..98 + 32 * n][32 * i..32 * i + 32];
    }
    assert ElementsAt(b, n) == p.merklePathElements;
    IndicesOfPacked(b, p, n);
  }

  /** A buffer in the serialiser's own form: full length, no stray index bits, nothing after the payload. */
  ghost predicate Canonical(b: Bytes, n: nat) {
    && |b| == MAX_PROOF_BYTES
    && Needed(n) <= |b|
    && (forall i :: n <= i < 8 * IndexBytes(n) ==> Bit(b[98 + 32 * n + i / 8], i % 8) == 0)
    && (forall i :: Needed(n) <= i < |b| ==> b[i] == 0)
  }

  lemma ShrByte(b: Byte)
    ensures Shr(b, 8) == 0
  {
    Pow2Eight();
    ShrBelow(b, 8);
  }

  ghost predicate BitsMatch(b: Byte, indices: seq<int>, n: nat, k: nat) {
    forall m: nat :: m < 8 ==> Bit(b, m) == PathBit(indices, n, 8 * k + m)
  }

  /** A byte is what its eight bits pack to. */
  lemma {:induction false} BitsDetermine(b: Byte, indices: seq<int>, n: nat, k: nat, j: nat)
    requires j <= 8
    requires BitsMatch(b, indices, n, k)
    ensures Shr(b, j) == PackedFrom(indices, n, k, j)
    decreases 8 - j
  {
    if j == 8 {
      ShrByte(b);
    } else {
      BitsDetermine(b, indices, n, k, j + 1);
      assert Bit(b, j) == PathBit(indices, n, 8 * k + j);
    }
  }

  lemma PackedOfIndices(b: Bytes, n: nat)
    requires Needed(n) <= |b|
    requires forall i :: n <= i < 8 * IndexBytes(n) ==> Bit(b[98 + 32 * n + i / 8], i % 8) == 0
    ensures Packed(IndicesAt(b, n), n, IndexBytes(n)) == b[98 + 32 * n..Needed(n)]
  {
    var indices := IndicesAt(b, n);
    forall k | 0 <= k < IndexBytes(n) ensures PackedByte(indices, n, k) == b[98 + 32 * n + k] {
      var byte := b[98 + 32 * n + k];
      forall m: nat | m < 8 ensures Bit(byte, m) == PathBit(indices, n, 8 * k + m) {
        var i := 8 * k + m;
        assert i / 8 == k && i % 8 == m;
      }
      BitsDetermine(byte, indices, n, k, 0);
    }
  }

  lemma PackedClears(indices: seq<int>, n: nat, i: nat)
    requires n <= i < 8 * IndexBytes(n)
    ensures Bit(Packed(indices, n, IndexBytes(n))[i / 8], i % 8) == 0
  {
    PackedBit(indices, n, i);
  }

  lemma DecodedShape(b: Bytes)
    requires Decoded(b).Ok?
    ensures var p := Decoded(b).value;
            HashesAre32(p) && BinaryIndices(p) && 1 <= |p.merklePathElements| == b[97] <= TREE_DEPTH
  {
  }

  lemma ReencodedIsCanonical(b: Bytes, p: ProofData, n: nat)
    requires Decoded(b) == Ok(p) && n == b[97]
    requires |Payload(p)| <= MAX_PROOF_BYTES && Encoded(p) == b
    ensures Canonical(b, n)
  {
    hide Header, Flatten, Packed, Encoded, Payload, Bit;
    DecodedShape(b);
    EncodedParts(p);
    hide Decoded;
    var packed := Packed(p.merklePathIndices, n, IndexBytes(n));
    forall i | n <= i < 8 * IndexBytes(n) ensures Bit(b[98 + 32 * n + i / 8], i % 8) == 0 {
      assert b[98 + 32 * n + i / 8] == packed[i / 8];
      PackedClears(p.merklePathIndices, n, i);
    }
    forall i | Needed(n) <= i < |b| ensures b[i] == 0 {
      assert b[i] == b[Needed(n)..][i - Needed(n)];
    }
  }

  lemma HeaderOfDecoded(b: Bytes, p: ProofData)
    requires Decoded(b) == Ok(p)
    ensures |b| >= Needed(b[97]) && b[..98] == Header(p)
  {
    DecodedShape(b);
    assert b[..98] == [b[0]] + b[1..33] + b[33..65] + b[65..97] + [b[97]];
  }

  lemma SliceOfSlice(b: Bytes, lo: nat, hi: nat, i: nat, j: nat)
    requires i <= j <= hi - lo && hi <= |b| && lo <= hi
    ensures b[lo..hi][i..j] == b[lo + i..lo + j]
  {
    var s, t := b[lo..hi][i..j], b[lo + i..lo + j];
    assert forall k :: 0 <= k < j - i ==> s[k] == b[lo..hi][i + k] == b[lo + i + k];
    assert forall k :: 0 <= k < j - i ==> t[k] == b[lo + i + k];
    assert s == t;
  }

  lemma ElementsOfDecoded(b: Bytes, p: ProofData, n: nat)
    requires Needed(n) <= |b| && p.merklePathElements == ElementsAt(b, n)
    ensures Flatten(p.merklePathElements) == b[98..98 + 32 * n]
  {
    hide Flatten;
    var body := b[98..98 + 32 * n];
    forall i | 0 <= i < n ensures p.merklePathElements[i] == body[32 * i..32 * i + 32] {
      SliceOfSlice(b, 98, 98 + 32 * n, 32 * i, 32 * i + 32);
    }
    FlattenPieces(p.merklePathElements, body);
  }

  lemma FourParts(b: Bytes, c: Bytes, i: nat, j: nat, k: nat)
    requires i <= j <= k <= |b| == |c|
    requires b[..i] == c[..i] && b[i..j] == c[i..j] && b[j..k] == c[j..k] && b[k..] == c[k..]
    ensures b == c
  {
    assert b == b[..i] + b[i..j] + b[j..k] + b[k..];
    assert c == c[..i] + c[i..j] + c[j..k] + c[k..];
  }

  lemma CanonicalReencodes(b: Bytes, p: ProofData, n: nat)
    requires Decoded(b) == Ok(p) && n == b[97] && Canonical(b, n)
    ensures |Payload(p)| <= MAX_PROOF_BYTES && Encoded(p) == b
  {
    hide Header, Flatten, Packed, Encoded, Payload, Bit;
    DecodedShape(b);
    EncodedParts(p);
    PackedOfIndices(b, n);
    HeaderOfDecoded(b, p);
    ElementsOfDecoded(b, p, n);
    assert b[Needed(n)..] == Zeros(MAX_PROOF_BYTES - Needed(n));
    FourParts(b, Encoded(p), 98, 98 + 32 * n, Needed(n));
  }

  /** Serialising a deserialised buffer gives the buffer back exactly when the buffer was canonical. */
  lemma EncodeDecodedIff(b: Bytes)
    requires Decoded(b).Ok?
    ensures var p := Decoded(b).value;
            |Payload(p)| <= MAX_PROOF_BYTES && (Encoded(p) == b <==> Canonical(b, b[97]))
  {
    hide Header, Flatten, Packed, Encoded, Payload, Canonical;
    var p, n := Decoded(b).value, b[97];
    DecodedShape(b);
    EncodedParts(p);
    if Encoded(p) == b {
      ReencodedIsCanonical(b, p, n);
    }
    if Canonical(b, n) {
      CanonicalReencodes(b, p, n);
    }
  }

  /** Exactly buffers of version 1 with 1 to 20 levels, long enough for them, are accepted. */
  lemma DecodesIff(b: Bytes)
    ensures Decoded(b).Ok?
            <==> && |b| >= 98 && b[0] == 1
                 && var n: nat := b[97];
                 1 <= n <= 20 && |b| >= 98 + 32 * n + (n + 7) / 8
  {
  }
}

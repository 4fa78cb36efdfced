/** Hexadecimal strings. */
module Hex {
  import opened Results
  import opened ByteStrings

  const HEX_DIGITS := "0123456789abcdef"

  function BytesToHex(b: Bytes): string {
    if b == [] then "" else [HEX_DIGITS[b[0] / 16], HEX_DIGITS[b[0] % 16]] + BytesToHex(b[1..])
  }

  /** Either case is read. */
  function HexValue(c: char): Option<nat> {
    if '0' <= c <= '9' then Some(c as int - '0' as int)
    else if 'a' <= c <= 'f' then Some(c as int - 'a' as int + 10)
    else if 'A' <= c <= 'F' then Some(c as int - 'A' as int + 10)
    else None
  }

  function ParsePairs(s: string): (r: Option<Bytes>)
    requires |s| % 2 == 0
  {
    if s == [] then Some([])
    else
      match (HexValue(s[0]), HexValue(s[1]), ParsePairs(s[2..]))
      case (Some(hi), Some(lo), Some(rest)) => (if hi < 16 && lo < 16 then Some([16 * hi + lo] + rest) else None)
      case _ => None
  }

  /** None stands for the exception on odd lengths and foreign characters. */
  function HexToBytes(hex: string): Option<Bytes> {
    var cleaned := if |hex| >= 2 && hex[0] == '0' && hex[1] == 'x' then hex[2..] else hex;
    if |cleaned| % 2 != 0 then None else ParsePairs(cleaned)
  }

  lemma DigitValue(d: nat)
    requires d < 16
    ensures HexValue(HEX_DIGITS[d]) == Some(d)
    ensures HEX_DIGITS[d] != 'x'
  {
  }

  lemma {:induction false} ParsePrinted(b: Bytes)
    ensures |BytesToHex(b)| == 2 * |b|
    ensures ParsePairs(BytesToHex(b)) == Some(b)
  {
    hide HexValue;
    if b != [] {
      var s := BytesToHex(b);
      ParsePrinted(b[1..]);
      DigitValue(b[0] / 16);
      DigitValue(b[0] % 16);
      assert s[0] == HEX_DIGITS[b[0] / 16] && s[1] == HEX_DIGITS[b[0] % 16] && s[2..] == BytesToHex(b[1..]);
      assert b == [b[0]] + b[1..];
    }
  }

  /** Printing is undone by parsing; a printed string never looks like it has a 0x prefix. */
  lemma {:induction false} HexRoundTrip(b: Bytes)
    ensures |BytesToHex(b)| == 2 * |b|
    ensures HexToBytes(BytesToHex(b)) == Some(b)
  {
    hide ParsePairs, HexValue;
    ParsePrinted(b);
    if b != [] {
      DigitValue(b[0] % 16);
      assert BytesToHex(b)[1] == HEX_DIGITS[b[0] % 16];
    }
  }

  lemma DigitIsLower(d: nat)
    requires d < 16
    ensures HexValue(HEX_DIGITS[d]) == Some(d) && !('A' <= HEX_DIGITS[d] <= 'F')
  {
  }

  /** Printed digits are lower-case, the high half of each byte first. */
  lemma {:induction false} PrintsLowerCase(b: Bytes, i: nat)
    requires i < |b|
    ensures |BytesToHex(b)| == 2 * |b|
    ensures var hex := BytesToHex(b);
            && HexValue(hex[2 * i]) == Some(b[i] / 16) && HexValue(hex[2 * i + 1]) == Some(b[i] % 16)
            && !('A' <= hex[2 * i] <= 'F') && !('A' <= hex[2 * i + 1] <= 'F')
  {
    hide HexValue;
    HexRoundTrip(b);
    if i == 0 {
      DigitIsLower(b[0] / 16);
      DigitIsLower(b[0] % 16);
    } else {
      PrintsLowerCase(b[1..], i - 1);
    }
  }

  lemma LettersEitherCase()
    ensures HexValue('c') == HexValue('C') && HexValue('a') == HexValue('A') && HexValue('f') == HexValue('F')
    ensures HexValue('e') == HexValue('E') && HexValue('g').None?
  {
  }

  /** The repository's own example, in all the forms that are read. */
  lemma CafeExample()
    ensures BytesToHex([0xca, 0xfe]) == "cafe"
    ensures HexToBytes("cafe") == HexToBytes("0xcafe") == HexToBytes("CAFE") == Some([0xca, 0xfe])
    ensures HexToBytes("caf").None? && HexToBytes("cafg").None?
  {
    assert BytesToHex([0xfe]) == "fe";
    hide HexValue;
    HexRoundTrip([0xca, 0xfe]);
    LettersEitherCase();
    assert "cafe"[2..] == "fe" && "CAFE"[2..] == "FE" && "0xcafe"[2..] == "cafe" && "cafg"[2..] == "fg";
    assert "fe"[2..] == "FE"[2..];
    assert ParsePairs("fe") == ParsePairs("FE");
    assert ParsePairs("cafe") == ParsePairs("CAFE");
  }

  lemma DigitsAreSmall(c: char)
    ensures HexValue(c).Some? ==> HexValue(c).value < 16
  {
  }

  /** Exactly strings of hexadecimal digits of even length are read, after one 0x prefix. */
  lemma {:induction false} PairsParseIff(s: string)
    requires |s| % 2 == 0
    ensures ParsePairs(s).Some? <==> forall i :: 0 <= i < |s| ==> HexValue(s[i]).Some?
  {
    if s != [] {
      PairsParseIff(s[2..]);
      DigitsAreSmall(s[0]);
      DigitsAreSmall(s[1]);
      hide HexValue;
      assert forall i :: 2 <= i < |s| ==> s[i] == s[2..][i - 2];
    }
  }
}

/** A deposit note and its 148-byte form. */
module Notes {
  import opened Results
  import opened ByteStrings
  import opened Constants
  import opened Digits
  import opened Crypto

  const SERIALIZED_NOTE_LENGTH := 148

  datatype DecryptedNote = DecryptedNote(secret: Bytes, nullifier: Bytes, amount: int, commitment: Bytes,
                                         leafIndex: nat, stealthPrivKey: Bytes)

  ghost predicate FieldsAre32(n: DecryptedNote) {
    |n.secret| == 32 == |n.nullifier| == |n.commitment| == |n.stealthPrivKey|
  }

  function Serialized(n: DecryptedNote): Result<Bytes, CodecError> {
    match Uint128(n.amount)
    case Err(e) => Err(e)
    case Ok(amount) => Ok(n.secret + n.nullifier + amount + n.commitment + ToBE(n.leafIndex, 4) + n.stealthPrivKey)
  }

  method SerializeNote(n: DecryptedNote) returns (r: Result<Bytes, CodecError>)
    ensures r == Serialized(n)
  {
    var amountBytes := BigintToUint128BE(n.amount);
    if amountBytes.Err? {
      return Err(amountBytes.error);
    }
    var leafIndexBytes := ToBE(n.leafIndex, 4);
    r := Ok(n.secret + n.nullifier + amountBytes.value + n.commitment + leafIndexBytes + n.stealthPrivKey);
  }

  function Deserialized(data: Bytes): Result<DecryptedNote, CodecError> {
    if |data| != SERIALIZED_NOTE_LENGTH then Err(BadLength(|data|))
    else Ok(DecryptedNote(data[..32], data[32..64], FromBE(data[64..80]), data[80..112], FromBE(data[112..116]),
                          data[116..]))
  }

  method DeserializeNote(data: Bytes) returns (r: Result<DecryptedNote, CodecError>)
    ensures r == Deserialized(data)
  {
    if |data| != SERIALIZED_NOTE_LENGTH {
      return Err(BadLength(|data|));
    }
    var offset := 0;
    var secret := data[offset..offset + 32];
    offset := offset + 32;
    var nullifier := data[offset..offset + 32];
    offset := offset + 32;
    var amount := Uint128BEToBigint(data[offset..offset + 16]);
    offset := offset + 16;
    var commitment := data[offset..offset + 32];
    offset := offset + 32;
    var leafIndex := FromBE(data[offset..offset + 4]);
    offset := offset + 4;
    var stealthPrivKey := data[offset..offset + 32];
    assert data[116..148] == data[116..];
    r := Ok(DecryptedNote(secret, nullifier, amount.value, commitment, leafIndex, stealthPrivKey));
  }

  lemma SixParts(a: Bytes, b: Bytes, c: Bytes, d: Bytes, e: Bytes, f: Bytes)
    requires |a| == 32 == |b| == |d| == |f| && |c| == 16 && |e| == 4
    ensures var s := a + b + c + d + e + f;
            && |s| == SERIALIZED_NOTE_LENGTH
            && s[..32] == a && s[32..64] == b && s[64..80] == c && s[80..112] == d && s[112..116] == e && s[116..] == f
  {
  }

  /** A serialised note reads back as itself exactly when its leaf index fits the 32-bit field. */
  lemma NoteRoundTrip(n: DecryptedNote)
    requires FieldsAre32(n) && 0 <= n.amount < TWO_TO_THE_128
    ensures Serialized(n).Ok? && |Serialized(n).value| == SERIALIZED_NOTE_LENGTH
    ensures Deserialized(Serialized(n).value) == Ok(n) <==> n.leafIndex < TWO_TO_THE_32
  {
    hide FromBE, ToBE;
    var amount := Uint128(n.amount).value;
    Uint128RoundTrip(n.amount, Zeros(16));
    SixParts(n.secret, n.nullifier, amount, n.commitment, ToBE(n.leafIndex, 4), n.stealthPrivKey);
    Pow256Values();
    if n.leafIndex < TWO_TO_THE_32 {
      FromToBE(n.leafIndex, 4);
    } else {
      ToFromBE(ToBE(n.leafIndex, 4));
    }
  }

  /** Every 148 bytes are the serialisation of the note they read as. */
  lemma BytesRoundTrip(data: Bytes)
    requires |data| == SERIALIZED_NOTE_LENGTH
    ensures Serialized(Deserialized(data).value) == Ok(data)
  {
    hide FromBE, ToBE;
    Uint128RoundTrip(0, data[64..80]);
    ToFromBE(data[112..116]);
    assert data == data[..32] + data[32..64] + data[64..80] + data[80..112] + data[112..116] + data[116..];
  }

  /** Where the fields of a serialised note are. */
  lemma NoteLayout(n: DecryptedNote)
    requires FieldsAre32(n) && Serialized(n).Ok?
    ensures var b := Serialized(n).value;
            && |b| == 148
            && b[..32] == n.secret && b[32..64] == n.nullifier && FromBE(b[64..80]) == n.amount
            && b[80..112] == n.commitment && FromBE(b[112..116]) == n.leafIndex % TWO_TO_THE_32
            && b[116..] == n.stealthPrivKey
  {
    Uint128RoundTrip(n.amount, Zeros(16));
    Truncated(n.leafIndex, 4);
    Pow256Values();
    hide ToBE, FromBE, Uint128, Pow256;
    SixParts(n.secret, n.nullifier, Uint128(n.amount).value, n.commitment, ToBE(n.leafIndex, 4), n.stealthPrivKey);
  }
}

/** The self-describing wrapper around an encrypted backup. */
module Backup {
  import opened Results
  import opened ByteStrings
  import opened Constants
  import opened Digits
  import opened Crypto
  import opened Hex

  const BUNDLE_MAGIC: Bytes := [0x53, 0x54, 0x42, 0x4b]
  const BUNDLE_VERSION := 1
  const BUNDLE_HEADER_SIZE := 10
  const SDK_VERSION := "0.1.0"

  datatype Metadata = Metadata(version: string, createdAt: int, noteCount: int, unspentCount: int,
                               poolContracts: seq<string>, checksum: string)

  /** Metadata as parsed: None for a field that is missing or of the wrong type. */
  datatype RawMetadata = RawMetadata(version: Option<string>, createdAt: Option<int>, noteCount: Option<int>,
                                     unspentCount: Option<int>, poolContracts: Option<seq<string>>,
                                     checksum: Option<string>)

  function Raw(m: Metadata): RawMetadata {
    RawMetadata(Some(m.version), Some(m.createdAt), Some(m.noteCount), Some(m.unspentCount), Some(m.poolContracts),
                Some(m.checksum))
  }

  /** JSON with UTF-8, as a printer and a parser. */
  datatype Json = Json(render: Metadata -> Bytes, parse: Bytes -> Option<RawMetadata>)

  ghost predicate Faithful(json: Json) {
    forall m :: json.parse(json.render(m)) == Some(Raw(m))
  }

  datatype BundleError = TooShort | WrongMagic | UnsupportedVersion | Truncated | Malformed
                       | BadField(name: string) | ChecksumMismatch

  function Checksum(sha: Bytes -> Bytes, encrypted: Bytes): string {
    BytesToHex(sha(encrypted))
  }

  function Bundle(json: Json, encrypted: Bytes, m: Metadata): Bytes {
    BUNDLE_MAGIC + ToBE(BUNDLE_VERSION, 2) + ToBE(|json.render(m)|, 4) + json.render(m) + encrypted
  }

  method CreateBackupBundle(json: Json, encrypted: Bytes, m: Metadata) returns (bundle: Bytes)
    ensures bundle == Bundle(json, encrypted, m)
  {
    var metadataBytes := json.render(m);
    var buf := new Byte[BUNDLE_HEADER_SIZE + |metadataBytes| + |encrypted|](_ => 0);
    Blit(buf, BUNDLE_MAGIC, 0);
    Blit(buf, ToBE(BUNDLE_VERSION, 2), 4);
    Blit(buf, ToBE(|metadataBytes|, 4), 6);
    assert buf[..BUNDLE_HEADER_SIZE] == BUNDLE_MAGIC + ToBE(BUNDLE_VERSION, 2) + ToBE(|metadataBytes|, 4);
    Blit(buf, metadataBytes, BUNDLE_HEADER_SIZE);
    Blit(buf, encrypted, BUNDLE_HEADER_SIZE + |metadataBytes|);
    bundle := buf[..];
  }

  datatype ParsedBundle = ParsedBundle(encrypted: Bytes, metadata: RawMetadata)

  function MetadataEnd(b: Bytes): nat
    requires |b| >= BUNDLE_HEADER_SIZE
  {
    BUNDLE_HEADER_SIZE + FromBE(b[6..10])
  }

  function ParseBundle(json: Json, b: Bytes): Result<ParsedBundle, BundleError> {
    if |b| < BUNDLE_HEADER_SIZE then Err(TooShort)
    else if b[..4] != BUNDLE_MAGIC then Err(WrongMagic)
    else if FromBE(b[4..6]) != BUNDLE_VERSION then Err(UnsupportedVersion)
    else if |b| < MetadataEnd(b) then Err(Truncated)
    else match json.parse(b[BUNDLE_HEADER_SIZE..MetadataEnd(b)])
      case None => Err(Malformed)
      case Some(m) => Ok(ParsedBundle(b[MetadataEnd(b)..], m))
  }

  method SameMagic(bundle: Bytes) returns (same: bool)
    requires |bundle| >= 4
    ensures same == (bundle[..4] == BUNDLE_MAGIC)
  {
    for i := 0 to 4
      invariant bundle[..i] == BUNDLE_MAGIC[..i]
    {
      if bundle[i] != BUNDLE_MAGIC[i] {
        assert bundle[..4][i] != BUNDLE_MAGIC[i];
        return false;
      }
    }
    assert BUNDLE_MAGIC[..4] == BUNDLE_MAGIC;
    same := true;
  }

  method ParseBackupBundle(json: Json, bundle: Bytes) returns (r: Result<ParsedBundle, BundleError>)
    ensures r == ParseBundle(json, bundle)
  {
    if |bundle| < BUNDLE_HEADER_SIZE {
      return Err(TooShort);
    }
    var same := SameMagic(bundle);
    if !same {
      return Err(WrongMagic);
    }
    var version := FromBE(bundle[4..6]);
    if version != BUNDLE_VERSION {
      return Err(UnsupportedVersion);
    }
    var metadataEnd := BUNDLE_HEADER_SIZE + FromBE(bundle[6..10]);
    if |bundle| < metadataEnd {
      return Err(Truncated);
    }
    var metadata := json.parse(bundle[BUNDLE_HEADER_SIZE..metadataEnd]);
    if metadata.None? {
      return Err(Malformed);
    }
    r := Ok(ParsedBundle(bundle[metadataEnd..], metadata.value));
  }

  ghost predicate FieldsValid(m: RawMetadata) {
    && m.version.Some? && m.version.value != ""
    && m.createdAt.Some? && m.createdAt.value > 0
    && m.noteCount.Some? && m.noteCount.value >= 0
    && m.unspentCount.Some? && m.unspentCount.value >= 0
    && m.poolContracts.Some?
    && m.checksum.Some? && m.checksum.value != ""
  }

  function FieldErrors(m: RawMetadata): (errors: seq<BundleError>)
    ensures errors == [] <==> FieldsValid(m)
  {
    (if m.version.None? || m.version.value == "" then [BadField("version")] else [])
    + (if m.createdAt.None? || m.createdAt.value <= 0 then [BadField("createdAt")] else [])
    + (if m.noteCount.None? || m.noteCount.value < 0 then [BadField("noteCount")] else [])
    + (if m.unspentCount.None? || m.unspentCount.value < 0 then [BadField("unspentCount")] else [])
    + (if m.poolContracts.None? then [BadField("poolContracts")] else [])
    + (if m.checksum.None? || m.checksum.value == "" then [BadField("checksum")] else [])
  }

  /** Collects every complaint it can; stops early only where nothing more can be read. */
  method ValidateBackupIntegrity(json: Json, sha: Bytes -> Bytes, bundle: Bytes)
    returns (valid: bool, errors: seq<BundleError>)
    ensures valid <==> errors == []
    ensures valid <==> (&& ParseBundle(json, bundle).Ok?
                        && FieldsValid(ParseBundle(json, bundle).value.metadata)
                        && ParseBundle(json, bundle).value.metadata.checksum
                           == Some(Checksum(sha, ParseBundle(json, bundle).value.encrypted)))
  {
    errors := [];
    if |bundle| < BUNDLE_HEADER_SIZE {
      return false, [TooShort];
    }
    var same := SameMagic(bundle);
    if !same {
      return false, [WrongMagic];
    }
    var version := FromBE(bundle[4..6]);
    if version != BUNDLE_VERSION {
      errors := errors + [UnsupportedVersion];
    }
    var metadataEnd := BUNDLE_HEADER_SIZE + FromBE(bundle[6..10]);
    if |bundle| < metadataEnd {
      return false, errors + [Truncated];
    }
    var parsed := json.parse(bundle[BUNDLE_HEADER_SIZE..metadataEnd]);
    if parsed.None? {
      return false, errors + [Malformed];
    }
    var metadata := parsed.value;
    errors := errors + FieldErrors(metadata);
    var computed := Checksum(sha, bundle[metadataEnd..]);
    if metadata.checksum.Some? && metadata.checksum.value != "" && computed != metadata.checksum.value {
      errors := errors + [ChecksumMismatch];
    }
    valid := |errors| == 0;
  }

  /** A bundle parses back into its payload and metadata, as long as the metadata length fits its field. */
  lemma BundleRoundTrip(json: Json, encrypted: Bytes, m: Metadata)
    requires Faithful(json) && |json.render(m)| < TWO_TO_THE_32
    ensures ParseBundle(json, Bundle(json, encrypted, m)) == Ok(ParsedBundle(encrypted, Raw(m)))
  {
    hide FromBE, ToBE;
    var b, j := Bundle(json, encrypted, m), json.render(m);
    Pow256Values();
    FromToBE(BUNDLE_VERSION, 2);
    FromToBE(|j|, 4);
    assert b[..4] == BUNDLE_MAGIC && b[4..6] == ToBE(BUNDLE_VERSION, 2) && b[6..10] == ToBE(|j|, 4);
    assert b[10..10 + |j|] == j && b[10 + |j|..] == encrypted;
  }

  /** The first six bytes of a bundle: the letters STBK and version 1. */
  lemma BundleHeader(json: Json, encrypted: Bytes, m: Metadata, b: Bytes)
    ensures |Bundle(json, encrypted, m)| >= 6 && Bundle(json, encrypted, m)[..6] == [0x53, 0x54, 0x42, 0x4b, 0, 1]
    ensures ParseBundle(json, b).Ok? ==> |b| >= 10 && b[..6] == [0x53, 0x54, 0x42, 0x4b, 0, 1]
  {
    assert ToBE(1, 2) == ToBE(0, 1) + [1] && ToBE(0, 1) == ToBE(0, 0) + [0];
    if ParseBundle(json, b).Ok? {
      ToFromBE(b[4..6]);
      assert b[..6] == b[..4] + b[4..6];
    }
  }

  /** A checksum belongs to one payload, short of a collision: altered payloads fail the integrity check. */
  lemma ChecksumBinds(sha: Bytes -> Bytes, a: Bytes, b: Bytes)
    requires Checksum(sha, a) == Checksum(sha, b)
    ensures sha(a) == sha(b)
  {
    HexRoundTrip(sha(a));
    HexRoundTrip(sha(b));
  }
}

/** The plaintext of a note store backup, and what importing it does to a collection of notes. */
module StoreFormat {
  import opened Results
  import opened Bits
  import opened ByteStrings
  import opened Constants
  import opened Digits
  import opened Crypto
  import opened Hex

  const BACKUP_MAGIC: Bytes := [0x53, 0x54, 0x4e, 0x54]
  const BACKUP_VERSION := 1
  const NOTE_ID_BYTES := 16
  const META_SIZE := 57

  datatype StoredNote = StoredNote(id: string, ciphertext: Bytes, iv: Bytes, tag: Bytes, spent: bool, createdAt: nat)

  datatype StoreError = NotFound | BadKeyLength | BadNote(error: CodecError) | DecryptionFailed
                      | BackupTooShort | TooShortForHeader | BadMagic | UnsupportedVersion(version: nat)
                      | TruncatedNote(i: nat) | TruncatedCiphertext(i: nat)

  // ------------------------------------------------------------------
  // Numbers
  // ------------------------------------------------------------------

  const TWO_TO_THE_53: nat := 0x20_0000_0000_0000

  function ExcessBits(x: nat): nat {
    if x < TWO_TO_THE_53 then 0 else 1 + ExcessBits(x / 2)
  }

  /** The nearest multiple of ulp, an even one if there are two. */
  function RoundedTo(x: nat, ulp: nat): nat
    requires ulp > 0
  {
    var q: nat, r := x / ulp, x % ulp;
    if 2 * r < ulp || (2 * r == ulp && q % 2 == 0) then q * ulp else (q + 1) * ulp
  }

  /** A big integer as a double: rounded to 53 significant bits, ties to even. */
  function NumberOf(x: nat): nat {
    Pow2Positive(ExcessBits(x));
    RoundedTo(x, Pow2(ExcessBits(x)))
  }

  lemma SafeIntegersExact(x: nat)
    requires x < 0x20_0000_0000_0000
    ensures NumberOf(x) == x
  {
    assert Pow2(0) == 1;
    assert x / 1 == x && x % 1 == 0;
  }

  /** The double is a nearest one: off by at most half a unit in the last place. */
  lemma NumberOfIsNearest(x: nat)
    ensures -(Pow2(ExcessBits(x)) as int) <= 2 * (NumberOf(x) - x) <= Pow2(ExcessBits(x))
  {
    var ulp := Pow2(ExcessBits(x));
    Pow2Positive(ExcessBits(x));
    var q, r := x / ulp, x % ulp;
    assert x == q * ulp + r;
    assert (q + 1) * ulp == q * ulp + ulp;
  }

  // ------------------------------------------------------------------
  // Records
  // ------------------------------------------------------------------

  /** Hex to exactly n bytes: padded with zeros or cut on the left. */
  function HexToRawBytes(hex: string, n: nat): Option<Bytes> {
    match HexToBytes(hex)
    case None => None
    case Some(b) => if |b| <= n then Some(Zeros(n - |b|) + b) else Some(b[|b| - n..])
  }

  /** An entry as save and import make them. */
  ghost predicate GoodEntry(e: StoredNote) {
    && (exists raw: Bytes :: |raw| == NOTE_ID_BYTES && e.id == BytesToHex(raw))
    && |e.iv| == 12 && |e.tag| == 16
  }

  lemma RawId(e: StoredNote)
    requires GoodEntry(e)
    ensures HexToRawBytes(e.id, NOTE_ID_BYTES).Some?
    ensures var raw := HexToRawBytes(e.id, NOTE_ID_BYTES).value; |raw| == NOTE_ID_BYTES && BytesToHex(raw) == e.id
  {
    var raw: Bytes :| |raw| == NOTE_ID_BYTES && e.id == BytesToHex(raw);
    HexRoundTrip(raw);
    assert Zeros(0) + raw == raw;
  }

  function Meta(e: StoredNote): Bytes {
    match HexToRawBytes(e.id, NOTE_ID_BYTES)
    case None => []
    case Some(raw) =>
      raw + [if e.spent then 1 else 0] + ToBE(e.createdAt / TWO_TO_THE_32, 4) + ToBE(e.createdAt % TWO_TO_THE_32, 4)
      + e.iv + e.tag + ToBE(|e.ciphertext|, 4)
  }

  function Record(e: StoredNote): Bytes {
    Meta(e) + e.ciphertext
  }

  function Records(es: seq<StoredNote>): Bytes {
    if es == [] then [] else Record(es[0]) + Records(es[1..])
  }

  function Header(count: nat): Bytes {
    BACKUP_MAGIC + ToBE(BACKUP_VERSION, 2) + ToBE(count, 4)
  }

  function Plaintext(es: seq<StoredNote>): Bytes {
    Header(|es|) + Records(es)
  }

  function CiphertextLength(s: Bytes): nat
    requires |s| >= META_SIZE
  {
    FromBE(s[53..57])
  }

  /** The record that s starts with. */
  function ReadRecord(s: Bytes): StoredNote
    requires |s| >= META_SIZE && |s| >= META_SIZE + CiphertextLength(s)
  {
    StoredNote(BytesToHex(s[..16]), s[57..57 + CiphertextLength(s)], s[25..37], s[37..53], s[16] == 1,
               NumberOf(FromBE(s[17..21]) * TWO_TO_THE_32 + FromBE(s[21..25])))
  }

  /** The records read before anything was found wrong. */
  datatype Parsed = Parsed(records: seq<StoredNote>, error: Option<StoreError>)

  function ParseRecords(s: Bytes, i: nat, count: nat): Parsed
    decreases count - i
  {
    if i >= count then Parsed([], None)
    else if |s| < META_SIZE then Parsed([], Some(TruncatedNote(i)))
    else if |s| < META_SIZE + CiphertextLength(s) then Parsed([], Some(TruncatedCiphertext(i)))
    else
      var rest := ParseRecords(s[META_SIZE + CiphertextLength(s)..], i + 1, count);
      Parsed([ReadRecord(s)] + rest.records, rest.error)
  }

  function ParsePlaintext(p: Bytes): Parsed {
    if |p| < 10 then Parsed([], Some(TooShortForHeader))
    else if p[..4] != BACKUP_MAGIC then Parsed([], Some(BadMagic))
    else if FromBE(p[4..6]) != BACKUP_VERSION then Parsed([], Some(UnsupportedVersion(FromBE(p[4..6]))))
    else ParseRecords(p[10..], 0, FromBE(p[6..10]))
  }

  lemma ReadGood(s: Bytes)
    requires |s| >= META_SIZE && |s| >= META_SIZE + CiphertextLength(s)
    ensures GoodEntry(ReadRecord(s))
  {
    var raw := s[..16];
    assert |raw| == NOTE_ID_BYTES && ReadRecord(s).id == BytesToHex(raw);
  }

  lemma {:induction false} ParsedAreGood(s: Bytes, i: nat, count: nat)
    ensures forall e :: e in ParseRecords(s, i, count).records ==> GoodEntry(e)
    decreases count - i
  {
    hide GoodEntry, ReadRecord;
    if i < count && |s| >= META_SIZE && |s| >= META_SIZE + CiphertextLength(s) {
      ReadGood(s);
      ParsedAreGood(s[META_SIZE + CiphertextLength(s)..], i + 1, count);
    }
  }

  /** The fields that a record has room for: 32-bit ciphertext length, 64-bit timestamp that is a double. */
  ghost predicate Fits(e: StoredNote) {
    && |e.ciphertext| < TWO_TO_THE_32
    && e.createdAt < TWO_TO_THE_32 * TWO_TO_THE_32
    && NumberOf(e.createdAt) == e.createdAt
  }

  lemma MetaParts(raw: Bytes, spent: Byte, hi: Bytes, lo: Bytes, iv: Bytes, tag: Bytes, len: Bytes, rest: Bytes)
    requires |raw| == 16 == |tag| && |hi| == 4 == |lo| == |len| && |iv| == 12
    ensures var s := raw + [spent] + hi + lo + iv + tag + len + rest;
            && |s| == META_SIZE + |rest|
            && s[..16] == raw && s[16] == spent && s[17..21] == hi && s[21..25] == lo && s[25..37] == iv
            && s[37..53] == tag && s[53..57] == len && s[57..] == rest
  {
  }

  lemma IvAndTag(e: StoredNote)
    requires GoodEntry(e)
    ensures |e.iv| == 12 && |e.tag| == 16
  {
  }

  lemma RecordConcat(e: StoredNote, rest: Bytes)
    requires HexToRawBytes(e.id, NOTE_ID_BYTES).Some?
    ensures Record(e) + rest
            == HexToRawBytes(e.id, NOTE_ID_BYTES).value
               + [if e.spent then 1 else 0] + ToBE(e.createdAt / TWO_TO_THE_32, 4)
               + ToBE(e.createdAt % TWO_TO_THE_32, 4) + e.iv + e.tag + ToBE(|e.ciphertext|, 4) + (e.ciphertext + rest)
  {
    hide ToBE, HexToRawBytes;
  }

  lemma SplitTail(s: Bytes, at: nat, a: Bytes, b: Bytes)
    requires at <= |s| && s[at..] == a + b
    ensures |s| == at + |a| + |b| && s[at..at + |a|] == a && s[at + |a|..] == b
  {
    assert s[at..at + |a|] == s[at..][..|a|];
    assert s[at + |a|..] == s[at..][|a|..];
  }

  /** Where the fields of a printed record are. */
  lemma RecordShape(e: StoredNote, rest: Bytes)
    requires GoodEntry(e)
    ensures var s, n := Record(e) + rest, |e.ciphertext|;
            && |s| == META_SIZE + n + |rest|
            && BytesToHex(s[..16]) == e.id && s[16] == (if e.spent then 1 else 0)
            && s[17..21] == ToBE(e.createdAt / TWO_TO_THE_32, 4) && s[21..25] == ToBE(e.createdAt % TWO_TO_THE_32, 4)
            && s[25..37] == e.iv && s[37..53] == e.tag && s[53..57] == ToBE(n, 4)
            && s[57..57 + n] == e.ciphertext && s[57 + n..] == rest
  {
    RawId(e);
    IvAndTag(e);
    hide ToBE, HexToRawBytes, BytesToHex, GoodEntry, Record;
    var raw, n := HexToRawBytes(e.id, NOTE_ID_BYTES).value, |e.ciphertext|;
    var hi, lo := ToBE(e.createdAt / TWO_TO_THE_32, 4), ToBE(e.createdAt % TWO_TO_THE_32, 4);
    var spent: Byte := if e.spent then 1 else 0;
    var s := Record(e) + rest;
    RecordConcat(e, rest);
    MetaParts(raw, spent, hi, lo, e.iv, e.tag, ToBE(n, 4), e.ciphertext + rest);
    SplitTail(s, 57, e.ciphertext, rest);
  }

  /** A printed record is read back, and what follows it is left over. */
  lemma RecordRoundTrip(e: StoredNote, rest: Bytes)
    requires GoodEntry(e) && Fits(e)
    ensures var s := Record(e) + rest;
            && |s| >= META_SIZE && CiphertextLength(s) == |e.ciphertext| && |s| >= META_SIZE + |e.ciphertext|
            && ReadRecord(s) == e
            && s[META_SIZE + CiphertextLength(s)..] == rest
  {
    hide ToBE, FromBE, Record, BytesToHex, NumberOf, GoodEntry;
    RecordShape(e, rest);
    Pow256Values();
    FromToBE(e.createdAt / TWO_TO_THE_32, 4);
    FromToBE(e.createdAt % TWO_TO_THE_32, 4);
    FromToBE(|e.ciphertext|, 4);
  }

  ghost predicate Printable(es: seq<StoredNote>) {
    forall i :: 0 <= i < |es| ==> GoodEntry(es[i]) && Fits(es[i])
  }

  lemma ParseOne(s: Bytes, i: nat, count: nat, e: StoredNote, rest: Bytes, es: seq<StoredNote>)
    requires i < count && |s| >= META_SIZE && |s| >= META_SIZE + CiphertextLength(s)
    requires ReadRecord(s) == e && s[META_SIZE + CiphertextLength(s)..] == rest
    requires ParseRecords(rest, i + 1, count) == Parsed(es, None)
    ensures ParseRecords(s, i, count) == Parsed([e] + es, None)
  {
    hide ReadRecord, CiphertextLength;
  }

  lemma {:induction false} RecordsRoundTrip(es: seq<StoredNote>, i: nat, count: nat)
    requires Printable(es) && count == i + |es|
    ensures ParseRecords(Records(es), i, count) == Parsed(es, None)
    decreases |es|
  {
    if es != [] {
      assert Printable(es[1..]) && GoodEntry(es[0]) && Fits(es[0]);
      hide Record, ReadRecord, CiphertextLength, GoodEntry, Fits, Printable, ParseRecords;
      RecordRoundTrip(es[0], Records(es[1..]));
      RecordsRoundTrip(es[1..], i + 1, count);
      ParseOne(Records(es), i, count, es[0], Records(es[1..]), es[1..]);
      assert es == [es[0]] + es[1..];
    }
  }

  /** Parsing a printed backup yields the entries that were printed. */
  lemma PlaintextRoundTrip(es: seq<StoredNote>)
    requires |es| < TWO_TO_THE_32 && Printable(es)
    ensures ParsePlaintext(Plaintext(es)) == Parsed(es, None)
  {
    hide Records, ToBE, FromBE, ParseRecords, Printable;
    var p := Plaintext(es);
    Pow256Values();
    FromToBE(BACKUP_VERSION, 2);
    FromToBE(|es|, 4);
    RecordsRoundTrip(es, 0, |es|);
    assert p[..4] == BACKUP_MAGIC && p[4..6] == ToBE(BACKUP_VERSION, 2) && p[6..10] == ToBE(|es|, 4);
    assert p[10..] == Records(es);
  }

  // ------------------------------------------------------------------
  // Merging
  // ------------------------------------------------------------------

  type NoteMap = map<string, StoredNote>

  function AddIfNew(m: NoteMap, e: StoredNote): NoteMap {
    if e.id in m then m else m[e.id := e]
  }

  /** Adds records in order, skipping ids that are already there. */
  function MergeAll(m: NoteMap, rs: seq<StoredNote>): NoteMap
    decreases |rs|
  {
    if rs == [] then m else MergeAll(AddIfNew(m, rs[0]), rs[1..])
  }

  /** How many of them were new when their turn came. */
  function Added(m: NoteMap, rs: seq<StoredNote>): nat
    decreases |rs|
  {
    if rs == [] then 0 else (if rs[0].id in m then 0 else 1) + Added(AddIfNew(m, rs[0]), rs[1..])
  }

  /** Merging keeps every entry as it was, knows every id of both sides, and grows by what it counted. */
  lemma {:induction false} MergeExtends(m: NoteMap, rs: seq<StoredNote>)
    ensures var m' := MergeAll(m, rs);
            && (forall id :: id in m ==> id in m' && m'[id] == m[id])
            && (forall id :: id in m' <==> id in m || exists r :: r in rs && r.id == id)
            && |m'| == |m| + Added(m, rs)
    decreases |rs|
  {
    if rs != [] {
      var m1 := AddIfNew(m, rs[0]);
      MergeExtends(m1, rs[1..]);
      if rs[0].id !in m {
        assert m1.Keys == m.Keys + {rs[0].id};
      }
      var m' := MergeAll(m, rs);
      forall id ensures id in m' <==> id in m || exists r :: r in rs && r.id == id {
        if id in m' && id !in m && id != rs[0].id {
          var r :| r in rs[1..] && r.id == id;
          assert r in rs;
        }
        if r :| r in rs && r.id == id {
          assert r == rs[0] || r in rs[1..];
        }
      }
    }
  }

  lemma {:induction false} NothingNew(m: NoteMap, rs: seq<StoredNote>)
    requires forall r :: r in rs ==> r.id in m
    ensures MergeAll(m, rs) == m && Added(m, rs) == 0
    decreases |rs|
  {
    if rs != [] {
      assert rs[0] in rs;
      NothingNew(m, rs[1..]);
    }
  }

  /** Merging the same records again changes nothing and counts nothing. */
  lemma MergeIsIdempotent(m: NoteMap, rs: seq<StoredNote>)
    ensures MergeAll(MergeAll(m, rs), rs) == MergeAll(m, rs)
    ensures Added(MergeAll(m, rs), rs) == 0
  {
    MergeExtends(m, rs);
    NothingNew(MergeAll(m, rs), rs);
  }

  ghost predicate DistinctIds(es: seq<StoredNote>) {
    forall i, j :: 0 <= i < j < |es| ==> es[i].id != es[j].id
  }

  /** Entries with distinct new ids are all added, each as it is. */
  lemma {:induction false} MergeDistinct(m: NoteMap, es: seq<StoredNote>)
    requires DistinctIds(es) && forall e :: e in es ==> e.id !in m
    ensures forall e :: e in es ==> e.id in MergeAll(m, es) && MergeAll(m, es)[e.id] == e
    ensures Added(m, es) == |es|
    decreases |es|
  {
    if es != [] {
      var m1 := AddIfNew(m, es[0]);
      assert es[0] in es;
      assert DistinctIds(es[1..]) by {
        forall i, j | 0 <= i < j < |es[1..]| ensures es[1..][i].id != es[1..][j].id {
          assert es[1..][i] == es[i + 1] && es[1..][j] == es[j + 1];
        }
      }
      forall e | e in es[1..] ensures e.id !in m1 {
        assert e in es;
        var j :| 1 <= j < |es| && es[j] == e;
      }
      MergeDistinct(m1, es[1..]);
      MergeExtends(m1, es[1..]);
      assert forall e :: e in es ==> e == es[0] || e in es[1..];
    }
  }

  // ------------------------------------------------------------------
  // Layout, and what a record read prints as
  // ------------------------------------------------------------------

  lemma {:induction false} ParsedCount(s: Bytes, i: nat, count: nat)
    requires i <= count && ParseRecords(s, i, count).error.None?
    ensures |ParseRecords(s, i, count).records| == count - i
    decreases count - i
  {
    hide ReadRecord, CiphertextLength;
    if i < count {
      ParsedCount(s[META_SIZE + CiphertextLength(s)..], i + 1, count);
    }
  }

  /** The first ten bytes of a backup: the letters STNT, version 1, and the count. */
  lemma PlaintextHeader(es: seq<StoredNote>, p: Bytes)
    ensures |Plaintext(es)| >= 10
    ensures Plaintext(es)[..6] == [0x53, 0x54, 0x4e, 0x54, 0, 1]
    ensures FromBE(Plaintext(es)[6..10]) == |es| % TWO_TO_THE_32
    ensures ParsePlaintext(p).error.None? ==>
              |p| >= 10 && p[..6] == [0x53, 0x54, 0x4e, 0x54, 0, 1] && |ParsePlaintext(p).records| == FromBE(p[6..10])
  {
    assert ToBE(1, 2) == ToBE(0, 1) + [1] && ToBE(0, 1) == ToBE(0, 0) + [0];
    Truncated(|es|, 4);
    Pow256Values();
    assert Plaintext(es)[6..10] == ToBE(|es|, 4);
    if ParsePlaintext(p).error.None? {
      ToFromBE(p[4..6]);
      assert p[..6] == p[..4] + p[4..6];
      ParsedCount(p[10..], 0, FromBE(p[6..10]));
    }
  }

  /** Hex of any length becomes exactly n bytes: the last n, or zeros in front. */
  lemma RawBytesOf(b: Bytes, n: nat)
    ensures var raw := HexToRawBytes(BytesToHex(b), n);
            && raw.Some? && |raw.value| == n
            && (|b| <= n ==> raw.value[n - |b|..] == b && raw.value[..n - |b|] == Zeros(n - |b|))
            && (|b| > n ==> raw.value == b[|b| - n..])
  {
    HexRoundTrip(b);
  }

  /** Exactly ties go to an even multiple of the unit in the last place. */
  lemma TiesGoToEven(x: nat, ulp: nat)
    requires ulp > 0 && 2 * (x % ulp) == ulp
    ensures exists m: nat :: RoundedTo(x, ulp) == 2 * m * ulp
  {
    var q := x / ulp;
    var m := (q + 1) / 2;
    assert 2 * m == if q % 2 == 0 then q else q + 1;
    assert RoundedTo(x, ulp) == 2 * m * ulp;
  }

  /** The unit leaves 53 significant bits, and no fewer unless the number is that small. */
  lemma {:induction false} SignificantBits(x: nat)
    ensures x < 0x20_0000_0000_0000 * Pow2(ExcessBits(x))
    ensures ExcessBits(x) > 0 ==> 0x20_0000_0000_0000 * Pow2(ExcessBits(x)) <= 2 * x
  {
    if x >= TWO_TO_THE_53 {
      SignificantBits(x / 2);
      assert Pow2(ExcessBits(x)) == 2 * Pow2(ExcessBits(x / 2));
      if ExcessBits(x / 2) == 0 {
        assert Pow2(0) == 1;
      }
    }
  }

  /** A flag byte other than 1 reads as not spent. */
  lemma OnlyOneIsSpent(s: Bytes)
    requires |s| >= META_SIZE && |s| >= META_SIZE + CiphertextLength(s)
    ensures ReadRecord(s).spent <==> s[16] == 1
  {
  }

  /** Rounding moves a 64-bit timestamp by very little. */
  lemma RoundingIsSmall(x: nat)
    requires x < TWO_TO_THE_32 * TWO_TO_THE_32
    ensures -4096 <= NumberOf(x) - x <= 4096
  {
    SignificantBits(x);
    NumberOfIsNearest(x);
    if ExcessBits(x) == 0 {
      assert Pow2(0) == 1;
    }
    hide NumberOf, ExcessBits, Pow2;
  }

  lemma Halves(at: nat, h: nat, l: nat)
    requires h < TWO_TO_THE_32 && l < TWO_TO_THE_32 && -4096 <= at - (h * TWO_TO_THE_32 + l) <= 4096
    ensures (h == at / TWO_TO_THE_32 % TWO_TO_THE_32 && l == at % TWO_TO_THE_32) <==> at == h * TWO_TO_THE_32 + l
  {
    var m := at / 0x1_0000_0000;
    var q := m / 0x1_0000_0000;
    assert at == m * 0x1_0000_0000 + at % 0x1_0000_0000;
    assert m == q * 0x1_0000_0000 + m % 0x1_0000_0000;
  }

  /** Two four-byte fields hold a timestamp exactly when it is near and the same modulo 2^64. */
  lemma TimestampIff(hi: Bytes, lo: Bytes, at: nat)
    requires |hi| == 4 == |lo|
    requires var ts := FromBE(hi) * TWO_TO_THE_32 + FromBE(lo); -4096 <= at - ts <= 4096
    ensures hi == ToBE(at / TWO_TO_THE_32, 4) && lo == ToBE(at % TWO_TO_THE_32, 4)
            <==> at == FromBE(hi) * TWO_TO_THE_32 + FromBE(lo)
  {
    hide FromBE, ToBE, Pow256;
    Pow256Values();
    ToFromBE(hi);
    ToFromBE(lo);
    var h, l := at / TWO_TO_THE_32, at % TWO_TO_THE_32;
    Truncated(h, 4);
    Truncated(l, 4);
    Halves(at, FromBE(hi), FromBE(lo));
  }

  lemma Cut(a: Bytes)
    requires |a| >= META_SIZE
    ensures a == a[..16] + [a[16]] + a[17..21] + a[21..25] + a[25..37] + a[37..53] + a[53..57] + a[57..]
  {
  }

  lemma SameParts(a: Bytes, b: Bytes)
    requires |a| == |b| >= META_SIZE
    requires a[..16] == b[..16] && a[25..37] == b[25..37] && a[37..53] == b[37..53] && a[53..57] == b[53..57]
    requires a[57..] == b[57..]
    ensures a == b <==> a[16] == b[16] && a[17..21] == b[17..21] && a[21..25] == b[21..25]
  {
    if a[16] == b[16] && a[17..21] == b[17..21] && a[21..25] == b[21..25] {
      Cut(a);
      Cut(b);
    }
  }

  lemma PrefixParts(s: Bytes, n: nat)
    requires META_SIZE <= n <= |s|
    ensures var b := s[..n];
            && b[..16] == s[..16] && b[16] == s[16] && b[17..21] == s[17..21] && b[21..25] == s[21..25]
            && b[25..37] == s[25..37] && b[37..53] == s[37..53] && b[53..57] == s[53..57] && b[57..] == s[57..n]
  {
  }

  lemma HexInjective(a: Bytes, b: Bytes)
    requires BytesToHex(a) == BytesToHex(b)
    ensures a == b
  {
    HexRoundTrip(a);
    HexRoundTrip(b);
  }

  /** Apart from flag and timestamp, a record that was read prints as the bytes it was read from. */
  lemma RestReprints(s: Bytes)
    requires |s| >= META_SIZE && |s| >= META_SIZE + CiphertextLength(s)
    ensures var n, e := META_SIZE + CiphertextLength(s), ReadRecord(s);
            var a := Record(e);
            && |a| == n && a[..16] == s[..16] && a[25..37] == s[25..37] && a[37..53] == s[37..53]
            && a[53..57] == s[53..57] && a[57..] == s[57..n]
            && a[16] == (if s[16] == 1 then 1 else 0)
            && a[17..21] == ToBE(e.createdAt / TWO_TO_THE_32, 4) && a[21..25] == ToBE(e.createdAt % TWO_TO_THE_32, 4)
            && e.createdAt == NumberOf(FromBE(s[17..21]) * TWO_TO_THE_32 + FromBE(s[21..25]))
  {
    var e := ReadRecord(s);
    ReadGood(s);
    RecordShape(e, []);
    assert Record(e) + [] == Record(e);
    ToFromBE(s[53..57]);
    hide Record, ToBE, FromBE, NumberOf, GoodEntry;
    HexInjective(Record(e)[..16], s[..16]);
  }

  lemma TimestampBelow(hi: Bytes, lo: Bytes)
    requires |hi| == 4 == |lo|
    ensures FromBE(hi) * TWO_TO_THE_32 + FromBE(lo) < TWO_TO_THE_32 * TWO_TO_THE_32
  {
    Pow256Values();
    ToFromBE(hi);
    ToFromBE(lo);
    hide FromBE, ToBE, Pow256;
  }

  /**
   * Printing what was read gives back the bytes read exactly when the flag is 0 or 1 and the timestamp is exact as a
   * double.
   */
  lemma RecordReprintsIff(s: Bytes)
    requires |s| >= META_SIZE && |s| >= META_SIZE + CiphertextLength(s)
    ensures var n, ts := META_SIZE + CiphertextLength(s), FromBE(s[17..21]) * TWO_TO_THE_32 + FromBE(s[21..25]);
            Record(ReadRecord(s)) == s[..n] <==> s[16] <= 1 && NumberOf(ts) == ts
  {
    hide Record, ToBE, FromBE, NumberOf, ReadRecord, CiphertextLength;
    var n, ts := META_SIZE + CiphertextLength(s), FromBE(s[17..21]) * TWO_TO_THE_32 + FromBE(s[21..25]);
    RestReprints(s);
    var a, b := Record(ReadRecord(s)), s[..n];
    TimestampBelow(s[17..21], s[21..25]);
    PrefixParts(s, n);
    SameParts(a, b);
    RoundingIsSmall(ts);
    TimestampIff(s[17..21], s[21..25], NumberOf(ts));
  }
}

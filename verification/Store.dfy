/** The encrypted note store. */
module Store {
  import opened Results
  import opened ByteStrings
  import opened Constants
  import opened Digits
  import opened Crypto
  import opened Hex
  import opened Notes
  import opened Backup
  import opened StoreFormat

  /** Authenticated encryption: ciphertext and tag of (key, iv, plaintext); decryption of (key, iv, tag, ciphertext). */
  datatype Cipher = Cipher(enc: (Bytes, Bytes, Bytes) -> Bytes, tagOf: (Bytes, Bytes, Bytes) -> Bytes,
                           dec: (Bytes, Bytes, Bytes, Bytes) -> Option<Bytes>)

  ghost predicate Ideal(c: Cipher) {
    && (forall k, iv, p :: c.dec(k, iv, c.tagOf(k, iv, p), c.enc(k, iv, p)) == Some(p))
    && (forall k, iv, p :: |c.tagOf(k, iv, p)| == 16)
  }

  function ExportBlob(c: Cipher, key: Bytes, iv: Bytes, es: seq<StoredNote>): Bytes {
    iv + c.tagOf(key, iv, Plaintext(es)) + c.enc(key, iv, Plaintext(es))
  }

  /** What an import of these bytes reads, up to the first error. */
  function ReadBackup(c: Cipher, key: Bytes, backup: Bytes): Parsed {
    if |backup| < 12 + 16 then Parsed([], Some(BackupTooShort))
    else match c.dec(key, backup[..12], backup[12..28], backup[28..])
      case None => Parsed([], Some(DecryptionFailed))
      case Some(p) => ParsePlaintext(p)
  }

  function ImportResult(before: NoteMap, parsed: Parsed): Result<nat, StoreError> {
    match parsed.error
    case None => Ok(Added(before, parsed.records))
    case Some(e) => Err(e)
  }

  function LoadFrom(c: Cipher, key: Bytes, notes: NoteMap, id: string): Result<DecryptedNote, StoreError> {
    if id !in notes then Err(NotFound)
    else match c.dec(key, notes[id].iv, notes[id].tag, notes[id].ciphertext)
      case None => Err(DecryptionFailed)
      case Some(p) =>
        match Deserialized(p)
        case Err(e) => Err(BadNote(e))
        case Ok(n) => Ok(n)
  }

  /** The notes in insertion order, under their own ids, each as save or import would make it. */
  ghost predicate WellKept(order: seq<string>, notes: NoteMap) {
    && (forall i, j :: 0 <= i < j < |order| ==> order[i] != order[j])
    && (forall id :: id in order <==> id in notes)
    && (forall id :: id in notes ==> notes[id].id == id && GoodEntry(notes[id]))
  }

  function EntriesOf(order: seq<string>, notes: NoteMap): (es: seq<StoredNote>)
    requires WellKept(order, notes)
    ensures |es| == |order|
  {
    seq(|order|, i requires 0 <= i < |order| => notes[order[i]])
  }

  function ToSet<T>(s: seq<T>): set<T> {
    set x | x in s
  }

  lemma {:induction false} DistinctSize<T>(s: seq<T>)
    requires forall i, j :: 0 <= i < j < |s| ==> s[i] != s[j]
    ensures |ToSet(s)| == |s|
  {
    if s != [] {
      var n := |s| - 1;
      DistinctSize(s[..n]);
      assert s == s[..n] + [s[n]];
      assert ToSet(s) == ToSet(s[..n]) + {s[n]};
    }
  }

  lemma KeptSize(order: seq<string>, notes: NoteMap)
    requires WellKept(order, notes)
    ensures |order| == |notes|
  {
    DistinctSize(order);
    assert ToSet(order) == notes.Keys;
  }

  lemma EntriesDistinct(order: seq<string>, notes: NoteMap)
    requires WellKept(order, notes)
    ensures DistinctIds(EntriesOf(order, notes))
    ensures forall i :: 0 <= i < |order| ==> GoodEntry(EntriesOf(order, notes)[i])
    ensures forall i :: 0 <= i < |order| ==> order[i] in notes && EntriesOf(order, notes)[i] == notes[order[i]]
    ensures forall id :: id in notes ==> notes[id] in EntriesOf(order, notes) && notes[id].id == id
    ensures forall e :: e in EntriesOf(order, notes) ==> e.id in notes
  {
    hide GoodEntry;
    var es := EntriesOf(order, notes);
    forall i | 0 <= i < |order| ensures GoodEntry(es[i]) && es[i].id == order[i] {
      assert order[i] in order;
    }
    forall id | id in notes ensures notes[id] in es {
      var i :| 0 <= i < |order| && order[i] == id;
      assert es[i] == notes[id];
    }
  }

  lemma KeptAdd(order: seq<string>, notes: NoteMap, e: StoredNote)
    requires WellKept(order, notes) && GoodEntry(e)
    ensures WellKept(if e.id in notes then order else order + [e.id], notes[e.id := e])
  {
  }

  lemma RecordsStep(plaintext: Bytes, es: seq<StoredNote>, i: nat)
    requires i < |es|
    ensures plaintext + Records(es[i..]) == plaintext + Meta(es[i]) + es[i].ciphertext + Records(es[i + 1..])
  {
    hide Meta;
    assert es[i..][1..] == es[i + 1..];
    assert plaintext + (Record(es[i]) + Records(es[i + 1..]))
            == plaintext + Meta(es[i]) + es[i].ciphertext + Records(es[i + 1..]);
  }

  /** A buffer that holds what was written so far and zeros after it. */
  ghost predicate Holds(buf: seq<Byte>, written: Bytes) {
    |written| <= |buf| && buf == written + Zeros(|buf| - |written|)
  }

  lemma HoldsNothing(buf: seq<Byte>)
    requires forall i :: 0 <= i < |buf| ==> buf[i] == 0
    ensures Holds(buf, [])
  {
  }

  lemma HoldsAll(buf: seq<Byte>, written: Bytes)
    requires Holds(buf, written) && |buf| == |written|
    ensures buf == written
  {
  }

  /** Writes the next field. */
  method Fill(buf: array<Byte>, src: Bytes, ghost written: Bytes, offset: nat)
    requires Holds(buf[..], written) && offset == |written| && offset + |src| <= buf.Length
    modifies buf
    ensures Holds(buf[..], written + src)
  {
    Blit(buf, src, offset);
  }

  /** The fixed part of a record, filled in field by field. */
  method WriteMeta(e: StoredNote) returns (meta: Bytes)
    requires GoodEntry(e)
    ensures meta == Meta(e)
  {
    RawId(e);
    hide ToBE, HexToRawBytes, GoodEntry, BytesToHex;
    IvAndTag(e);
    var buf := new Byte[META_SIZE](_ => 0);
    hide Holds;
    HoldsNothing(buf[..]);
    var raw := HexToRawBytes(e.id, NOTE_ID_BYTES).value;
    Fill(buf, raw, [], 0);
    var flag: Bytes := [if e.spent then 1 else 0];
    Fill(buf, flag, raw, 16);
    ghost var written := raw + flag;
    var hi := ToBE(e.createdAt / TWO_TO_THE_32, 4);
    Fill(buf, hi, written, 17);
    written := written + hi;
    var lo := ToBE(e.createdAt % TWO_TO_THE_32, 4);
    Fill(buf, lo, written, 21);
    written := written + lo;
    Fill(buf, e.iv, written, 25);
    written := written + e.iv;
    Fill(buf, e.tag, written, 37);
    written := written + e.tag;
    Fill(buf, ToBE(|e.ciphertext|, 4), written, 53);
    HoldsAll(buf[..], written + ToBE(|e.ciphertext|, 4));
    meta := buf[..];
  }

  lemma RecordsEnd(plaintext: Bytes, es: seq<StoredNote>)
    ensures plaintext + Records(es[|es|..]) == plaintext
  {
  }

  /** Between two turns of the import loop: what is merged so far, and what is still to be read. */
  ghost predicate Progress(before: NoteMap, all: Parsed, now: NoteMap, imported: nat, rest: Parsed) {
    && rest.error == all.error
    && MergeAll(now, rest.records) == MergeAll(before, all.records)
    && imported + Added(now, rest.records) == Added(before, all.records)
  }

  lemma ProgressStart(before: NoteMap, all: Parsed)
    ensures Progress(before, all, before, 0, all)
  {
  }

  /** One turn: a malformed record ends the import with what is merged; a record moves on by AddIfNew. */
  lemma ProgressStep(before: NoteMap, all: Parsed, now: NoteMap, imported: nat, s: Bytes, i: nat, count: nat)
    requires i < count && Progress(before, all, now, imported, ParseRecords(s, i, count))
    ensures |s| < META_SIZE ==> all.error == Some(TruncatedNote(i)) && now == MergeAll(before, all.records)
    ensures |s| >= META_SIZE && |s| < META_SIZE + CiphertextLength(s) ==>
              all.error == Some(TruncatedCiphertext(i)) && now == MergeAll(before, all.records)
    ensures |s| >= META_SIZE && |s| >= META_SIZE + CiphertextLength(s) ==>
              var e, rest := ReadRecord(s), ParseRecords(s[META_SIZE + CiphertextLength(s)..], i + 1, count);
              Progress(before, all, AddIfNew(now, e), imported + (if e.id in now then 0 else 1), rest)
  {
    hide ReadRecord, CiphertextLength;
    if |s| >= META_SIZE && |s| >= META_SIZE + CiphertextLength(s) {
      var e, rest := ReadRecord(s), ParseRecords(s[META_SIZE + CiphertextLength(s)..], i + 1, count);
      assert ParseRecords(s, i, count) == Parsed([e] + rest.records, rest.error);
      assert ([e] + rest.records)[1..] == rest.records;
    }
  }

  datatype Next = Next(record: StoredNote, offset: nat)

  /** Reads record number i, which starts at offset. */
  method NextRecord(plaintext: Bytes, offset: nat, i: nat) returns (r: Result<Next, StoreError>)
    requires offset <= |plaintext|
    ensures var s := plaintext[offset..];
            if |s| < META_SIZE then r == Err(TruncatedNote(i))
            else if |s| < META_SIZE + CiphertextLength(s) then r == Err(TruncatedCiphertext(i))
            else
              && r == Ok(Next(ReadRecord(s), offset + META_SIZE + CiphertextLength(s)))
              && GoodEntry(r.value.record) && r.value.offset <= |plaintext|
              && plaintext[r.value.offset..] == s[META_SIZE + CiphertextLength(s)..]
  {
    hide CiphertextLength, ReadRecord, GoodEntry;
    ghost var s := plaintext[offset..];
    if offset + META_SIZE > |plaintext| {
      return Err(TruncatedNote(i));
    }
    var ctLen := CiphertextLength(plaintext[offset..]);
    if offset + META_SIZE + ctLen > |plaintext| {
      return Err(TruncatedCiphertext(i));
    }
    ReadGood(s);
    r := Ok(Next(ReadRecord(plaintext[offset..]), offset + META_SIZE + ctLen));
  }

  lemma ProgressEnd(before: NoteMap, all: Parsed, now: NoteMap, imported: nat, s: Bytes, i: nat, count: nat)
    requires i >= count && Progress(before, all, now, imported, ParseRecords(s, i, count))
    ensures now == MergeAll(before, all.records) && ImportResult(before, all) == Ok(imported)
  {
  }

  function Unspent(es: seq<StoredNote>): seq<StoredNote> {
    if es == [] then []
    else Unspent(es[..|es| - 1]) + (if es[|es| - 1].spent then [] else [es[|es| - 1]])
  }

  lemma UnspentNone(es: seq<StoredNote>)
    ensures Unspent(es[..0]) == []
  {
  }

  lemma UnspentStep(es: seq<StoredNote>, i: nat)
    requires i < |es|
    ensures Unspent(es[..i + 1]) == Unspent(es[..i]) + if es[i].spent then [] else [es[i]]
  {
    assert es[..i + 1][..i] == es[..i];
  }

  class NoteStore {
    const key: Bytes
    const cipher: Cipher
    var order: seq<string>
    var notes: NoteMap
    var lastBackupAt: Option<int>

    ghost predicate Valid()
      reads this
    {
      |key| == 32 && Ideal(cipher) && WellKept(order, notes)
    }

    ghost function Entries(): seq<StoredNote>
      reads this
      requires Valid()
    {
      EntriesOf(order, notes)
    }

    constructor (cipher: Cipher, key: Bytes)
      requires |key| == 32 && Ideal(cipher)
      ensures Valid() && this.key == key && this.cipher == cipher
      ensures notes == map[] && order == [] && lastBackupAt == None
    {
      this.key := key;
      this.cipher := cipher;
      order := [];
      notes := map[];
      lastBackupAt := None;
    }

    /** The id, the initialisation vector and the time come from outside. */
    method Save(note: DecryptedNote, rawId: Bytes, iv: Bytes, now: nat) returns (r: Result<string, StoreError>)
      requires Valid() && |rawId| == NOTE_ID_BYTES && |iv| == 12
      modifies this
      ensures Valid() && lastBackupAt == old(lastBackupAt)
      ensures match Serialized(note)
              case Err(e) => r == Err(BadNote(e)) && notes == old(notes) && order == old(order)
              case Ok(p) =>
                && r == Ok(BytesToHex(rawId))
                && notes == old(notes)[BytesToHex(rawId) :=
                     StoredNote(BytesToHex(rawId), cipher.enc(key, iv, p), iv, cipher.tagOf(key, iv, p), false, now)]
                && order == if BytesToHex(rawId) in old(notes) then old(order) else old(order) + [BytesToHex(rawId)]
    {
      hide WellKept;
      var id := BytesToHex(rawId);
      var serialized := SerializeNote(note);
      if serialized.Err? {
        return Err(BadNote(serialized.error));
      }
      var p := serialized.value;
      var entry := StoredNote(id, cipher.enc(key, iv, p), iv, cipher.tagOf(key, iv, p), false, now);
      KeptAdd(order, notes, entry);
      if id !in notes {
        order := order + [id];
      }
      notes := notes[id := entry];
      r := Ok(id);
    }

    method Load(id: string) returns (r: Result<DecryptedNote, StoreError>)
      requires Valid()
      ensures r == LoadFrom(cipher, key, notes, id)
    {
      if id !in notes {
        return Err(NotFound);
      }
      var stored := notes[id];
      var plaintext := cipher.dec(key, stored.iv, stored.tag, stored.ciphertext);
      if plaintext.None? {
        return Err(DecryptionFailed);
      }
      var note := DeserializeNote(plaintext.value);
      r := if note.Err? then Err(BadNote(note.error)) else Ok(note.value);
    }

    method MarkSpent(id: string) returns (r: Result<(), StoreError>)
      requires Valid()
      modifies this
      ensures Valid() && order == old(order) && lastBackupAt == old(lastBackupAt)
      ensures id !in old(notes) ==> r == Err(NotFound) && notes == old(notes)
      ensures id in old(notes) ==> r == Ok(()) && notes == old(notes)[id := old(notes)[id].(spent := true)]
    {
      if id !in notes {
        return Err(NotFound);
      }
      notes := notes[id := notes[id].(spent := true)];
      r := Ok(());
    }

    method Export(iv: Bytes) returns (backup: Bytes)
      requires Valid() && |iv| == 12
      ensures backup == ExportBlob(cipher, key, iv, Entries())
    {
      ghost var entries := Entries();
      EntriesDistinct(order, notes);
      hide WellKept, Ideal, GoodEntry, Record, Records, Header, EntriesOf, Meta;
      var plaintext := Header(|order|);
      var i := 0;
      assert entries[0..] == entries;
      while i < |order|
        invariant i <= |order|
        invariant plaintext + Records(entries[i..]) == Plaintext(entries)
      {
        var stored := notes[order[i]];
        RecordsStep(plaintext, entries, i);
        var meta := WriteMeta(stored);
        plaintext := plaintext + meta + stored.ciphertext;
        i := i + 1;
      }
      RecordsEnd(plaintext, entries);
      backup := iv + cipher.tagOf(key, iv, plaintext) + cipher.enc(key, iv, plaintext);
    }

    /** Keeps an entry that is already there. */
    method AddIfAbsent(record: StoredNote) returns (added: nat)
      requires Valid() && GoodEntry(record)
      modifies this
      ensures Valid() && lastBackupAt == old(lastBackupAt)
      ensures notes == AddIfNew(old(notes), record) && added == if record.id in old(notes) then 0 else 1
    {
      hide WellKept, GoodEntry;
      KeptAdd(order, notes, record);
      added := 0;
      if record.id !in notes {
        order := order + [record.id];
        notes := notes[record.id := record];
        added := 1;
      }
    }

    method ImportRecords(plaintext: Bytes, noteCount: nat) returns (r: Result<nat, StoreError>)
      requires Valid() && |plaintext| >= 10
      modifies this
      ensures Valid() && lastBackupAt == old(lastBackupAt)
      ensures notes == MergeAll(old(notes), ParseRecords(plaintext[10..], 0, noteCount).records)
      ensures r == ImportResult(old(notes), ParseRecords(plaintext[10..], 0, noteCount))
    {
      ghost var all := ParseRecords(plaintext[10..], 0, noteCount);
      var offset := 10;
      var imported := 0;
      var i := 0;
      hide WellKept, Ideal, GoodEntry, ReadRecord, CiphertextLength, ParseRecords, Progress, AddIfNew,
           ImportResult, MergeAll;
      ProgressStart(notes, all);
      while i < noteCount
        invariant 10 <= offset <= |plaintext| && i <= noteCount
        invariant Valid() && lastBackupAt == old(lastBackupAt)
        invariant Progress(old(notes), all, notes, imported, ParseRecords(plaintext[offset..], i, noteCount))
      {
        ProgressStep(old(notes), all, notes, imported, plaintext[offset..], i, noteCount);
        var next := NextRecord(plaintext, offset, i);
        if next.Err? {
          return Err(next.error);
        }
        var added := AddIfAbsent(next.value.record);
        imported := imported + added;
        offset := next.value.offset;
        i := i + 1;
      }
      ProgressEnd(old(notes), all, notes, imported, plaintext[offset..], i, noteCount);
      r := Ok(imported);
    }

    /** Adds what is not there yet; stops at the first malformed record, keeping what came before it. */
    method Import(backup: Bytes) returns (r: Result<nat, StoreError>)
      requires Valid()
      modifies this
      ensures Valid() && lastBackupAt == old(lastBackupAt)
      ensures notes == MergeAll(old(notes), ReadBackup(cipher, key, backup).records)
      ensures r == ImportResult(old(notes), ReadBackup(cipher, key, backup))
      ensures forall id :: id in old(notes) ==> id in notes && notes[id] == old(notes)[id]
      ensures |notes| == |old(notes)| + Added(old(notes), ReadBackup(cipher, key, backup).records)
    {
      hide WellKept, Ideal, ParseRecords;
      MergeExtends(notes, ReadBackup(cipher, key, backup).records);
      if |backup| < 12 + 16 {
        return Err(BackupTooShort);
      }
      var decrypted := cipher.dec(key, backup[..12], backup[12..28], backup[28..]);
      if decrypted.None? {
        return Err(DecryptionFailed);
      }
      var plaintext := decrypted.value;
      if |plaintext| < 10 {
        return Err(TooShortForHeader);
      }
      if plaintext[..4] != BACKUP_MAGIC {
        return Err(BadMagic);
      }
      var version := FromBE(plaintext[4..6]);
      if version != BACKUP_VERSION {
        return Err(StoreError.UnsupportedVersion(version));
      }
      r := ImportRecords(plaintext, FromBE(plaintext[6..10]));
    }

    method CountUnspent() returns (unspentCount: nat)
      requires Valid()
      ensures unspentCount == |Unspent(Entries())|
    {
      ghost var es := Entries();
      EntriesDistinct(order, notes);
      hide WellKept, GoodEntry, EntriesOf, Unspent;
      UnspentNone(es);
      unspentCount := 0;
      for i := 0 to |order|
        invariant unspentCount == |Unspent(es[..i])|
      {
        UnspentStep(es, i);
        if !notes[order[i]].spent {
          unspentCount := unspentCount + 1;
        }
      }
      assert es[..|order|] == es;
    }

    /**
     * What exportWithMetadata does once its export is awaited: other operations may have run since the entries were
     * printed, and the counts are those of now. The clock is read twice: for the metadata, and at the end.
     */
    method SealBackup(json: Json, sha: Bytes -> Bytes, poolContracts: seq<string>, encrypted: Bytes, now: int,
                      later: int)
      returns (backup: Bytes, metadata: Metadata)
      requires Valid()
      modifies this
      ensures Valid() && notes == old(notes) && order == old(order) && lastBackupAt == Some(later)
      ensures metadata == Metadata(SDK_VERSION, now, |notes|, |Unspent(Entries())|, poolContracts,
                                   Checksum(sha, encrypted))
      ensures backup == Bundle(json, encrypted, metadata)
    {
      hide Unspent;
      var unspentCount := CountUnspent();
      metadata := Metadata(SDK_VERSION, now, |notes|, unspentCount, poolContracts, Checksum(sha, encrypted));
      backup := CreateBackupBundle(json, encrypted, metadata);
      lastBackupAt := Some(later);
    }

    /** Both parts with nothing in between. */
    method ExportWithMetadata(json: Json, sha: Bytes -> Bytes, poolContracts: seq<string>, iv: Bytes, now: int,
                              later: int)
      returns (backup: Bytes, metadata: Metadata)
      requires Valid() && |iv| == 12
      modifies this
      ensures Valid() && notes == old(notes) && order == old(order) && lastBackupAt == Some(later)
      ensures var encrypted := ExportBlob(cipher, key, iv, Entries());
              && metadata == Metadata(SDK_VERSION, now, |notes|, |Unspent(Entries())|, poolContracts,
                                      Checksum(sha, encrypted))
              && backup == Bundle(json, encrypted, metadata)
    {
      hide ExportBlob, Unspent, Bundle, Checksum;
      var encrypted := Export(iv);
      backup, metadata := SealBackup(json, sha, poolContracts, encrypted, now, later);
    }
  }

  // ------------------------------------------------------------------
  // Whole backups
  // ------------------------------------------------------------------

  lemma BlobOpens(c: Cipher, key: Bytes, iv: Bytes, es: seq<StoredNote>)
    requires Ideal(c) && |iv| == 12
    ensures ReadBackup(c, key, ExportBlob(c, key, iv, es)) == ParsePlaintext(Plaintext(es))
  {
    hide Plaintext, ParsePlaintext;
    var b := ExportBlob(c, key, iv, es);
    assert b[..12] == iv && b[12..28] == c.tagOf(key, iv, Plaintext(es)) && b[28..] == c.enc(key, iv, Plaintext(es));
  }

  /** Merging the entries of a collection into nothing gives the collection. */
  lemma MergedIs(es: seq<StoredNote>, notes: NoteMap)
    requires DistinctIds(es)
    requires forall id :: id in notes ==> notes[id] in es && notes[id].id == id
    requires forall e :: e in es ==> e.id in notes
    ensures MergeAll(map[], es) == notes && Added(map[], es) == |es|
  {
    hide DistinctIds;
    MergeDistinct(map[], es);
    MergeExtends(map[], es);
    var m := MergeAll(map[], es);
    hide MergeAll;
    assert m.Keys == notes.Keys;
  }

  lemma ImportOk(before: NoteMap, parsed: Parsed)
    requires parsed.error == None
    ensures ImportResult(before, parsed) == Ok(Added(before, parsed.records))
  {
  }

  /** Exporting a store and importing the result into an empty one rebuilds the same notes. */
  lemma ExportImport(c: Cipher, key: Bytes, iv: Bytes, order: seq<string>, notes: NoteMap)
    requires Ideal(c) && |iv| == 12 && WellKept(order, notes)
    requires |order| < TWO_TO_THE_32 && forall id :: id in notes ==> Fits(notes[id])
    ensures var parsed := ReadBackup(c, key, ExportBlob(c, key, iv, EntriesOf(order, notes)));
            && MergeAll(map[], parsed.records) == notes
            && ImportResult(map[], parsed) == Ok(|notes|)
  {
    var es := EntriesOf(order, notes);
    EntriesDistinct(order, notes);
    BlobOpens(c, key, iv, es);
    assert Printable(es);
    PlaintextRoundTrip(es);
    KeptSize(order, notes);
    hide *;
    MergedIs(es, notes);
    ImportOk(map[], Parsed(es, None));
  }

  /** Importing the same backup twice, even one that fails midway, changes nothing the second time. */
  lemma ImportTwice(c: Cipher, key: Bytes, backup: Bytes, notes: NoteMap)
    ensures var parsed := ReadBackup(c, key, backup);
            var once := MergeAll(notes, parsed.records);
            && MergeAll(once, parsed.records) == once
            && ImportResult(once, parsed) == match parsed.error { case None => Ok(0) case Some(e) => Err(e) }
  {
    MergeIsIdempotent(notes, ReadBackup(c, key, backup).records);
  }

  /** A saved note loads as it was saved, until its id is reused; marking it spent does not matter. */
  lemma SaveThenLoad(c: Cipher, key: Bytes, notes: NoteMap, note: DecryptedNote, id: string, iv: Bytes, spent: bool,
                     now: nat)
    requires Ideal(c) && FieldsAre32(note) && 0 <= note.amount < TWO_TO_THE_128
    requires id in notes && Serialized(note).Ok?
    requires var p := Serialized(note).value;
             notes[id] == StoredNote(id, c.enc(key, iv, p), iv, c.tagOf(key, iv, p), spent, now)
    ensures LoadFrom(c, key, notes, id) == Ok(note) <==> note.leafIndex < TWO_TO_THE_32
  {
    hide Serialized, Deserialized;
    NoteRoundTrip(note);
  }

  // ------------------------------------------------------------------
  // Bundles, end to end
  // ------------------------------------------------------------------

  datatype Warning = VersionMismatch(version: string) | CountMismatch(expected: int, imported: nat)

  datatype RestoreError = Integrity(errors: seq<BundleError>) | StoreFailed(error: StoreError)

  datatype Restored = Restored(metadata: RawMetadata, warnings: seq<Warning>)

  function Warnings(metadata: RawMetadata, imported: nat): seq<Warning> {
    (if metadata.version.Some? && metadata.version.value != SDK_VERSION
     then [VersionMismatch(metadata.version.value)] else [])
    + (if metadata.noteCount.Some? && metadata.noteCount.value != imported
       then [CountMismatch(metadata.noteCount.value, imported)] else [])
  }

  /** A bundle that passes the integrity check, is opened with a 32-byte key and parses to the end. */
  ghost predicate Restorable(json: Json, sha: Bytes -> Bytes, c: Cipher, bundle: Bytes, key: Bytes) {
    && ParseBundle(json, bundle).Ok?
    && var b := ParseBundle(json, bundle).value;
    && FieldsValid(b.metadata)
    && b.metadata.checksum == Some(Checksum(sha, b.encrypted))
    && |key| == 32
    && ReadBackup(c, key, b.encrypted).error.None?
  }

  /** A new store, or the exception on keys of other lengths. */
  method Open(c: Cipher, key: Bytes) returns (r: Result<NoteStore, StoreError>)
    requires Ideal(c)
    ensures |key| != 32 ==> r == Err(BadKeyLength)
    ensures |key| == 32 ==> r.Ok? && fresh(r.value) && r.value.Valid() && r.value.key == key && r.value.cipher == c
                            && r.value.notes == map[] && r.value.lastBackupAt == None
  {
    if |key| != 32 {
      return Err(BadKeyLength);
    }
    var store := new NoteStore(c, key);
    r := Ok(store);
  }

  /** Validates a bundle and imports it into a new store. */
  method ImportWithValidation(json: Json, sha: Bytes -> Bytes, c: Cipher, bundle: Bytes, key: Bytes)
    returns (r: Result<Restored, RestoreError>, store: NoteStore?)
    requires Ideal(c)
    ensures r.Ok? <==> Restorable(json, sha, c, bundle, key)
    ensures r.Ok? ==>
              var b := ParseBundle(json, bundle).value;
              var records := ReadBackup(c, key, b.encrypted).records;
              && store != null && fresh(store) && store.Valid() && store.key == key
              && store.notes == MergeAll(map[], records)
              && r.value == Restored(b.metadata, Warnings(b.metadata, Added(map[], records)))
    ensures r.Err? ==> store == null
  {
    hide ParseBundle, ReadBackup, Ideal;
    store := null;
    var valid, errors := ValidateBackupIntegrity(json, sha, bundle);
    if !valid {
      return Err(Integrity(errors)), null;
    }
    var parsed := ParseBackupBundle(json, bundle);
    var b := parsed.value;
    if Checksum(sha, b.encrypted) != b.metadata.checksum.value {
      return Err(Integrity([ChecksumMismatch])), null;
    }
    var created := Open(c, key);
    if created.Err? {
      return Err(StoreFailed(created.error)), null;
    }
    var restored := created.value;
    var imported := restored.Import(b.encrypted);
    if imported.Err? {
      return Err(StoreFailed(imported.error)), null;
    }
    store := restored;
    r := Ok(Restored(b.metadata, Warnings(b.metadata, imported.value)));
  }

  lemma ChecksumNonEmpty(sha: Bytes -> Bytes, encrypted: Bytes)
    requires |sha(encrypted)| == 32
    ensures Checksum(sha, encrypted) != ""
  {
    HexRoundTrip(sha(encrypted));
  }

  /**
   * A store exported with metadata is restored from its bundle, as it was when the entries were printed. There is no
   * warning if and only if the store had as many notes when the metadata was made.
   */
  lemma BundleRestores(json: Json, sha: Bytes -> Bytes, c: Cipher, key: Bytes, iv: Bytes, order: seq<string>,
                       notes: NoteMap, m: Metadata)
    requires Faithful(json) && Ideal(c) && |key| == 32 && |iv| == 12 && WellKept(order, notes)
    requires |order| < TWO_TO_THE_32 && forall id :: id in notes ==> Fits(notes[id])
    requires var encrypted := ExportBlob(c, key, iv, EntriesOf(order, notes));
             && m.version == SDK_VERSION && m.createdAt > 0 && m.noteCount >= 0 && m.unspentCount >= 0
             && |sha(encrypted)| == 32 && m.checksum == Checksum(sha, encrypted)
    requires |json.render(m)| < TWO_TO_THE_32
    ensures var bundle := Bundle(json, ExportBlob(c, key, iv, EntriesOf(order, notes)), m);
            && Restorable(json, sha, c, bundle, key)
            && var b := ParseBundle(json, bundle).value;
            && MergeAll(map[], ReadBackup(c, key, b.encrypted).records) == notes
            && b.metadata == Raw(m)
            && Warnings(b.metadata, Added(map[], ReadBackup(c, key, b.encrypted).records))
               == if m.noteCount == |notes| then [] else [CountMismatch(m.noteCount, |notes|)]
  {
    hide ExportBlob, ReadBackup, ParseBundle, Bundle, WellKept, EntriesOf, Fits, Ideal, Faithful, MergeAll, Added,
         BytesToHex;
    var encrypted := ExportBlob(c, key, iv, EntriesOf(order, notes));
    ChecksumNonEmpty(sha, encrypted);
    ExportImport(c, key, iv, order, notes);
    BundleRoundTrip(json, encrypted, m);
  }

  // ------------------------------------------------------------------
  // Counts, layout, warnings
  // ------------------------------------------------------------------

  /** Exactly the entries not marked spent are counted, each as often as it occurs. */
  lemma {:induction false} UnspentAre(es: seq<StoredNote>, e: StoredNote)
    ensures multiset(Unspent(es))[e] == if e.spent then 0 else multiset(es)[e]
  {
    if es != [] {
      var front, last := es[..|es| - 1], es[|es| - 1];
      UnspentAre(front, e);
      assert es == front + [last];
    }
  }

  /** An exported blob: initialisation vector, tag, ciphertext. */
  lemma BlobLayout(c: Cipher, key: Bytes, iv: Bytes, es: seq<StoredNote>)
    requires Ideal(c) && |iv| == 12
    ensures var b := ExportBlob(c, key, iv, es);
            && |b| >= 28 && b[..12] == iv && b[12..28] == c.tagOf(key, iv, Plaintext(es))
            && b[28..] == c.enc(key, iv, Plaintext(es))
  {
  }

  /** A restored bundle warns exactly of another version and of another count. */
  lemma WarningsIff(m: RawMetadata, imported: nat)
    requires FieldsValid(m)
    ensures (exists w :: w in Warnings(m, imported) && w.VersionMismatch?) <==> m.version != Some("0.1.0")
    ensures (exists w :: w in Warnings(m, imported) && w.CountMismatch?) <==> m.noteCount != Some(imported)
  {
    var w := Warnings(m, imported);
    if m.version != Some("0.1.0") {
      assert w[0].VersionMismatch? && w[0] in w;
    }
    if m.noteCount != Some(imported) {
      assert w[|w| - 1].CountMismatch? && w[|w| - 1] in w;
    }
  }
}

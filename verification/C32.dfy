/** c32 and c32check, Stacks' base-32 address encoding. */
module C32 {
  import opened ByteStrings
  import opened Digits

  const C32_ALPHABET := "0123456789ABCDEFGHJKMNPQRSTVWXYZ"

  function Chars(ds: seq<nat>): string
    requires IsNumeral(ds, 32)
  {
    seq(|ds|, i requires 0 <= i < |ds| => C32_ALPHABET[ds[i]])
  }

  function LeadingZeroBytes(data: Bytes): (z: nat)
    ensures z <= |data|
  {
    if data != [] && data[0] == 0 then 1 + LeadingZeroBytes(data[1..]) else 0
  }

  /** The encoding: one '0' per leading zero byte, then the numeral of the whole in base 32. */
  function Encoding(data: Bytes): string {
    var num := FromBE(data);
    ValueOfDigits(num, 32);
    if num == 0 then seq(|data|, _ => '0')
    else seq(LeadingZeroBytes(data), _ => '0') + Chars(ToDigits(num, 32))
  }

  function Reversed<T>(s: seq<T>): seq<T> {
    if s == [] then [] else Reversed(s[1..]) + [s[0]]
  }

  lemma {:induction false} ReversedPush(s: seq<nat>, x: nat)
    ensures Reversed(s + [x]) == [x] + Reversed(s)
  {
    if s != [] {
      assert (s + [x])[1..] == s[1..] + [x];
      ReversedPush(s[1..], x);
    } else {
      assert s + [x] == [x] && Reversed([x]) == Reversed([x][1..]) + [x];
    }
  }

  /** Divides by 32 until nothing is left; the digits come out least significant first and are then reversed. */
  method ExtractDigits(whole: nat) returns (digits: seq<nat>)
    ensures digits == ToDigits(whole, 32)
  {
    var num := whole;
    digits := [];
    while num > 0
      invariant ToDigits(whole, 32) == ToDigits(num, 32) + Reversed(digits)
      decreases num
    {
      ReversedPush(digits, num % 32);
      digits := digits + [num % 32];
      num := num / 32;
    }
    digits := Reversed(digits);
  }

  method CountLeadingZeros(data: Bytes) returns (leadingZeros: nat)
    ensures leadingZeros == LeadingZeroBytes(data)
  {
    leadingZeros := 0;
    while leadingZeros < |data| && data[leadingZeros] == 0
      invariant leadingZeros <= |data|
      invariant LeadingZeroBytes(data) == leadingZeros + LeadingZeroBytes(data[leadingZeros..])
    {
      assert data[leadingZeros..][1..] == data[leadingZeros + 1..];
      leadingZeros := leadingZeros + 1;
    }
  }

  method C32Encode(data: Bytes) returns (s: string)
    ensures s == Encoding(data)
  {
    var num: nat := 0;
    for i := 0 to |data|
      invariant num == FromBE(data[..i])
    {
      assert data[..i + 1][..i] == data[..i];
      num := num * 256 + data[i];
    }
    assert data[..|data|] == data;
    if num == 0 {
      return seq(|data|, _ => '0');
    }
    var digits := ExtractDigits(num);
    ValueOfDigits(num, 32);
    var leadingZeros := CountLeadingZeros(data);
    s := seq(leadingZeros, _ => '0') + Chars(digits);
  }

  // ------------------------------------------------------------------
  // A decoder, and why it inverts the encoder
  // ------------------------------------------------------------------

  function DigitFrom(c: char, i: nat): nat
    decreases 32 - i
  {
    if i >= 32 || C32_ALPHABET[i] == c then i else DigitFrom(c, i + 1)
  }

  function LeadingZeroChars(s: string): (z: nat)
    ensures z <= |s|
  {
    if s != [] && s[0] == '0' then 1 + LeadingZeroChars(s[1..]) else 0
  }

  function Digitise(s: string): seq<nat> {
    seq(|s|, i requires 0 <= i < |s| => DigitFrom(s[i], 0))
  }

  /** As many zero bytes as leading '0' characters, then the number that the rest spells. */
  function Decode(s: string): seq<nat> {
    var z := LeadingZeroChars(s);
    seq(z, _ => 0) + ToDigits(Value(Digitise(s[z..]), 32), 256)
  }

  /** The alphabet is in increasing order, so no character occurs twice. */
  lemma AlphabetStep(i: nat)
    requires i < 31
    ensures C32_ALPHABET[i] < C32_ALPHABET[i + 1]
  {
  }

  lemma {:induction false} AlphabetIncreases(i: nat, j: nat)
    requires i < j < 32
    ensures C32_ALPHABET[i] < C32_ALPHABET[j]
  {
    AlphabetStep(j - 1);
    if i < j - 1 { AlphabetIncreases(i, j - 1); }
  }

  lemma {:induction false} DigitOfChar(d: nat, i: nat)
    requires i <= d < 32
    ensures DigitFrom(C32_ALPHABET[d], i) == d
    decreases d - i
  {
    if i < d {
      AlphabetIncreases(i, d);
      DigitOfChar(d, i + 1);
    }
  }

  lemma DigitiseChars(ds: seq<nat>)
    requires IsNumeral(ds, 32)
    ensures Digitise(Chars(ds)) == ds
  {
    forall i | 0 <= i < |ds| ensures Digitise(Chars(ds))[i] == ds[i] {
      DigitOfChar(ds[i], 0);
    }
  }

  lemma {:induction false} LeadingZeroCharsOf(z: nat, rest: string)
    requires rest == [] || rest[0] != '0'
    ensures LeadingZeroChars(seq(z, _ => '0') + rest) == z
  {
    var s := seq(z, _ => '0') + rest;
    if z > 0 {
      assert s[1..] == seq(z - 1, _ => '0') + rest;
      LeadingZeroCharsOf(z - 1, rest);
    } else {
      assert s == rest;
    }
  }

  lemma {:induction false} LeadingZeroBytesSplit(data: Bytes)
    ensures var z := LeadingZeroBytes(data);
            && (forall i :: 0 <= i < z ==> data[i] == 0)
            && (z < |data| ==> data[z] != 0)
  {
    if data != [] && data[0] == 0 {
      LeadingZeroBytesSplit(data[1..]);
      assert forall i :: 1 <= i < |data| ==> data[i] == data[1..][i - 1];
    }
  }

  lemma DecodeNonZero(data: Bytes, z: nat, rest: Bytes)
    requires z == LeadingZeroBytes(data) && data == Zeros(z) + rest
    requires rest != [] && rest[0] != 0
    ensures Decode(Encoding(data)) == data
  {
    var num := FromBE(data);
    LeadingZeros(Zeros(z), rest, 256);
    DigitsOfValue(rest, 256);
    ValueOfDigits(num, 32);
    var ds := ToDigits(num, 32);
    DigitOfChar(0, 0);
    DigitOfChar(ds[0], 0);
    LeadingZeroCharsOf(z, Chars(ds));
    var s := seq(z, _ => '0') + Chars(ds);
    assert s[z..] == Chars(ds);
    DigitiseChars(ds);
    assert Encoding(data) == s;
    assert Decode(s) == seq(z, _ => 0) + ToDigits(Value(ds, 32), 256);
  }

  /** Decoding an encoding gives the bytes back, whatever their leading zeros. */
  lemma DecodeEncoding(data: Bytes)
    ensures Decode(Encoding(data)) == data
  {
    var z := LeadingZeroBytes(data);
    LeadingZeroBytesSplit(data);
    assert data == Zeros(z) + data[z..];
    if FromBE(data) == 0 {
      ValueZero(data, 256);
      LeadingZeroCharsOf(|data|, []);
      var s := seq(|data|, _ => '0');
      assert s == s + [];
      assert s[|data|..] == [];
      assert Decode(s) == seq(|data|, _ => 0) + [];
    } else {
      LeadingZeros(Zeros(z), data[z..], 256);
      DecodeNonZero(data, z, data[z..]);
    }
  }

  lemma EncodingInjective(a: Bytes, b: Bytes)
    requires Encoding(a) == Encoding(b)
    ensures a == b
  {
    DecodeEncoding(a);
    DecodeEncoding(b);
  }

  // ------------------------------------------------------------------
  // c32check
  // ------------------------------------------------------------------

  function Checksum(sha: Bytes -> Bytes, version: nat, data: Bytes): (checksum: Bytes)
    requires version < 256 && forall x :: |sha(x)| == 32
    ensures |checksum| == 4
  {
    sha(sha([version] + data))[..4]
  }

  lemma PayloadOf(data: Bytes, checksum: Bytes)
    requires |checksum| == 4
    ensures var p := data + checksum; p[..|p| - 4] == data
  {
  }

  function C32Check(sha: Bytes -> Bytes, version: nat, data: Bytes): string
    requires version < 32 && forall x :: |sha(x)| == 32
  {
    ['S', C32_ALPHABET[version]] + Encoding(data + Checksum(sha, version, data))
  }

  /** Versions and payloads can be read back: the address determines both. */
  lemma C32CheckInjective(sha: Bytes -> Bytes, v: nat, data: Bytes, v': nat, data': Bytes)
    requires v < 32 && v' < 32 && forall x :: |sha(x)| == 32
    requires C32Check(sha, v, data) == C32Check(sha, v', data')
    ensures v == v' && data == data'
  {
    hide Encoding, Checksum;
    var s, s' := C32Check(sha, v, data), C32Check(sha, v', data');
    assert s[1] == s'[1] && s[2..] == s'[2..];
    DigitOfChar(v, 0);
    DigitOfChar(v', 0);
    var p, p' := data + Checksum(sha, v, data), data' + Checksum(sha, v', data');
    assert s[2..] == Encoding(p) && s'[2..] == Encoding(p');
    EncodingInjective(p, p');
    PayloadOf(data, Checksum(sha, v, data));
    PayloadOf(data', Checksum(sha, v', data'));
  }

  method C32CheckEncode(sha: Bytes -> Bytes, version: nat, data: Bytes) returns (s: string)
    requires version < 32 && forall x :: |sha(x)| == 32
    ensures s == C32Check(sha, version, data)
  {
    var versionedData := new Byte[1 + |data|](_ => 0);
    versionedData[0] := version;
    forall i | 0 <= i < |data| { versionedData[1 + i] := data[i]; }
    assert versionedData[..] == [version] + data;
    var checksum := sha(sha(versionedData[..]))[..4];

    var payload := new Byte[|data| + 4](_ => 0);
    forall i | 0 <= i < |data| { payload[i] := data[i]; }
    forall i | 0 <= i < 4 { payload[|data| + i] := checksum[i]; }
    assert payload[..] == data + checksum;

    var c32Str := C32Encode(payload[..]);
    s := ['S', C32_ALPHABET[version]] + c32Str;
  }

  /** An address read back: its version character, then payload and checksum, four bytes of a double SHA-256. */
  lemma C32CheckDecodes(sha: Bytes -> Bytes, version: nat, data: Bytes)
    requires version < 32 && forall x :: |sha(x)| == 32
    ensures var s := C32Check(sha, version, data);
            && |s| >= 2 && s[0] == 'S' && s[1] == C32_ALPHABET[version]
            && Decode(s[2..]) == data + sha(sha([version] + data))[..4]
  {
    hide Encoding, Decode;
    var payload := data + Checksum(sha, version, data);
    DecodeEncoding(payload);
    assert C32Check(sha, version, data)[2..] == Encoding(payload);
  }

  /** Crockford's alphabet: the digits, then the capital letters in order without I, L, O and U. */
  lemma AlphabetIs(i: nat)
    requires i < 32
    ensures |C32_ALPHABET| == 32
    ensures C32_ALPHABET[i] as int
            == (if i < 10 then '0' as int + i
                else if i < 18 then 'A' as int + i - 10
                else if i < 20 then 'J' as int + i - 18
                else if i < 22 then 'M' as int + i - 20
                else if i < 27 then 'P' as int + i - 22
                else 'V' as int + i - 27)
  {
  }

  /** Zeros in front do not change what a string spells. */
  lemma ZerosSpell(z: nat, ds: seq<nat>)
    requires IsNumeral(ds, 32)
    ensures Value(Digitise(seq(z, _ => '0') + Chars(ds)), 32) == Value(ds, 32)
  {
    DigitOfChar(0, 0);
    DigitiseChars(ds);
    assert Digitise(seq(z, _ => '0') + Chars(ds)) == seq(z, _ => 0) + ds;
    LeadingZeros(seq(z, _ => 0), ds, 32);
  }

  lemma NoDigits()
    ensures Chars([]) == [] && Value([], 32) == 0
  {
  }

  /** An encoding spells the number that the bytes are, in base 32. */
  lemma EncodingSpells(data: Bytes)
    ensures Value(Digitise(Encoding(data)), 32) == FromBE(data)
  {
    hide Value, Digitise, Chars;
    var num := FromBE(data);
    ValueOfDigits(num, 32);
    if num == 0 {
      ZerosSpell(|data|, []);
      NoDigits();
      assert seq(|data|, _ => '0') + Chars([]) == seq(|data|, _ => '0');
    } else {
      ZerosSpell(LeadingZeroBytes(data), ToDigits(num, 32));
    }
  }
}

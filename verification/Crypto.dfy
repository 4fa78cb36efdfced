/** Byte-level helpers shared by the SDK. */
module Crypto {
  import opened Results
  import opened Bits
  import opened ByteStrings
  import opened Constants
  import opened Digits

  datatype CodecError = Negative | ExceedsUint128 | BadLength(got: nat)

  lemma Pow256Values()
    ensures Pow256(2) == 0x1_0000
    ensures Pow256(4) == TWO_TO_THE_32
    ensures Pow256(16) == TWO_TO_THE_128
  {
    assert Pow256(2) == 256 * (256 * Pow256(0));
    assert Pow256(4) == 256 * (256 * Pow256(2));
    assert Pow256(6) == 256 * (256 * Pow256(4));
    assert Pow256(8) == 256 * (256 * Pow256(6));
    assert Pow256(10) == 256 * (256 * Pow256(8));
    assert Pow256(12) == 256 * (256 * Pow256(10));
    assert Pow256(14) == 256 * (256 * Pow256(12));
    assert Pow256(16) == 256 * (256 * Pow256(14));
  }

  /** The 16-byte big-endian form of a number that Clarity would accept as a uint. */
  function Uint128(value: int): Result<Bytes, CodecError> {
    if value < 0 then Err(Negative)
    else if value >= TWO_TO_THE_128 then Err(ExceedsUint128)
    else Ok(ToBE(value, 16))
  }

  method BigintToUint128BE(value: int) returns (r: Result<Bytes, CodecError>)
    ensures r == Uint128(value)
  {
    if value < 0 {
      return Err(Negative);
    }
    if value >= TWO_TO_THE_128 {
      return Err(ExceedsUint128);
    }
    var bytes := new Byte[16](_ => 0);
    var remaining: nat := value;
    var i := 15;
    while i >= 0
      invariant -1 <= i <= 15
      invariant ToBE(value, 16) == ToBE(remaining, i + 1) + bytes[i + 1..]
    {
      bytes[i] := remaining % 256;
      remaining := remaining / 256;
      i := i - 1;
    }
    assert ToBE(remaining, i + 1) + bytes[0..] == bytes[..];
    r := Ok(bytes[..]);
  }

  method Uint128BEToBigint(bytes: Bytes) returns (r: Result<nat, CodecError>)
    ensures r == if |bytes| != 16 then Err(BadLength(|bytes|)) else Ok(FromBE(bytes))
  {
    if |bytes| != 16 {
      return Err(BadLength(|bytes|));
    }
    var value: nat := 0;
    for i := 0 to 16
      invariant value == FromBE(bytes[..i])
    {
      assert bytes[..i + 1][..i] == bytes[..i];
      value := value * 256 + bytes[i];
    }
    assert bytes[..16] == bytes;
    r := Ok(value);
  }

  /** The 128-bit codecs undo each other, on every number in range and on every 16 bytes. */
  lemma Uint128RoundTrip(value: int, bytes: Bytes)
    requires |bytes| == 16
    ensures Uint128(value).Ok? ==> |Uint128(value).value| == 16 && FromBE(Uint128(value).value) == value
    ensures Uint128(FromBE(bytes)) == Ok(bytes)
    ensures Uint128(value).Ok? <==> 0 <= value < TWO_TO_THE_128
  {
    Pow256Values();
    if Uint128(value).Ok? {
      FromToBE(value, 16);
    }
    ToFromBE(bytes);
  }

  /** Examines every byte whatever happens, and accumulates the differences. */
  method ConstantTimeEqual(a: Bytes, b: Bytes) returns (equal: bool)
    ensures equal <==> a == b
  {
    if |a| != |b| {
      return false;
    }
    var diff := 0;
    for i := 0 to |a|
      invariant diff == 0 <==> a[..i] == b[..i]
    {
      XorZero(a[i], b[i]);
      OrZero(diff, Xor(a[i], b[i]));
      assert a[..i + 1] == a[..i] + [a[i]] && b[..i + 1] == b[..i] + [b[i]];
      diff := Or(diff, Xor(a[i], b[i]));
    }
    assert a[..|a|] == a && b[..|b|] == b;
    equal := diff == 0;
  }

  /** Writes src into buf from offset on, as Uint8Array.set does. */
  method Blit(buf: array<Byte>, src: Bytes, offset: nat)
    requires offset + |src| <= buf.Length
    modifies buf
    ensures buf[..] == old(buf[..offset]) + src + old(buf[offset + |src|..])
  {
    forall i | 0 <= i < |src| {
      buf[offset + i] := src[i];
    }
  }
}

/** Positional numerals, most significant digit first. */
module Digits {
  import opened Arithmetic
  import opened ByteStrings

  function Value(ds: seq<nat>, base: nat): nat {
    if ds == [] then 0 else Value(ds[..|ds| - 1], base) * base + ds[|ds| - 1]
  }

  /** The numeral of n without leading zeros. */
  function ToDigits(n: nat, base: nat): seq<nat>
    requires base >= 2
  {
    if n == 0 then []
    else
      QuotientSmaller(n, base);
      ToDigits(n / base, base) + [n % base]
  }

  /** The last k digits of n in base 256: what a big-endian field of k bytes holds. */
  function ToBE(n: nat, k: nat): (b: Bytes)
    ensures |b| == k
  {
    if k == 0 then [] else ToBE(n / 256, k - 1) + [n % 256]
  }

  function FromBE(b: Bytes): nat {
    Value(b, 256)
  }

  function Pow256(k: nat): nat {
    if k == 0 then 1 else 256 * Pow256(k - 1)
  }

  ghost predicate IsNumeral(ds: seq<nat>, base: nat) {
    forall i :: 0 <= i < |ds| ==> ds[i] < base
  }

  /** Appending a digit. */
  lemma ValuePush(ds: seq<nat>, d: nat, base: nat)
    ensures Value(ds + [d], base) == Value(ds, base) * base + d
  {
    assert (ds + [d])[..|ds|] == ds;
  }

  lemma {:induction false} DigitsAreNumeral(n: nat, base: nat)
    requires base >= 2
    ensures IsNumeral(ToDigits(n, base), base)
    ensures n > 0 ==> |ToDigits(n, base)| > 0 && ToDigits(n, base)[0] != 0
  {
    if n > 0 {
      QuotientSmaller(n, base);
      DigitsAreNumeral(n / base, base);
    }
  }

  lemma {:induction false} ValueOfDigits(n: nat, base: nat)
    requires base >= 2
    ensures Value(ToDigits(n, base), base) == n
    ensures IsNumeral(ToDigits(n, base), base)
    ensures n > 0 ==> |ToDigits(n, base)| > 0 && ToDigits(n, base)[0] != 0
  {
    DigitsAreNumeral(n, base);
    if n > 0 {
      hide Value, IsNumeral;
      QuotientSmaller(n, base);
      ValueOfDigits(n / base, base);
      ValuePush(ToDigits(n / base, base), n % base, base);
    }
  }

  /** A numeral without a leading zero is the numeral of its value. */
  lemma {:induction false} DigitsOfValue(ds: seq<nat>, base: nat)
    requires base >= 2 && IsNumeral(ds, base)
    requires ds == [] || ds[0] != 0
    ensures ToDigits(Value(ds, base), base) == ds
    ensures ds != [] ==> Value(ds, base) > 0
  {
    if ds != [] {
      var front, d := ds[..|ds| - 1], ds[|ds| - 1];
      DigitsOfValue(front, base);
      ModUnique(base, Value(front, base), d, Value(ds, base));
      assert ds == front + [d];
      if front != [] {
        MulAtLeast(Value(front, base), base);
      }
    }
  }

  lemma {:induction false} LeadingZeros(zeros: seq<nat>, ds: seq<nat>, base: nat)
    requires forall i :: 0 <= i < |zeros| ==> zeros[i] == 0
    ensures Value(zeros + ds, base) == Value(ds, base)
    decreases |zeros| + |ds|
  {
    if ds != [] {
      assert (zeros + ds)[..|zeros + ds| - 1] == zeros + ds[..|ds| - 1];
      LeadingZeros(zeros, ds[..|ds| - 1], base);
    } else if zeros != [] {
      assert zeros + ds == zeros;
      LeadingZeros(zeros[..|zeros| - 1], [], base);
      assert zeros[..|zeros| - 1] + [] == zeros[..|zeros| - 1];
    }
  }

  lemma {:induction false} ValueZero(ds: seq<nat>, base: nat)
    requires base >= 2 && Value(ds, base) == 0
    ensures forall i :: 0 <= i < |ds| ==> ds[i] == 0
  {
    if ds != [] {
      var v := Value(ds[..|ds| - 1], base);
      if v > 0 {
        MulAtLeast(v, base);
      }
      ValueZero(ds[..|ds| - 1], base);
    }
  }

  /** Reading a big-endian field gives back the number if it fits. */
  lemma {:induction false} FromToBE(n: nat, k: nat)
    requires n < Pow256(k)
    ensures FromBE(ToBE(n, k)) == n
  {
    if k > 0 {
      FromToBE(n / 256, k - 1);
      assert ToBE(n, k)[..k - 1] == ToBE(n / 256, k - 1);
    }
  }

  lemma {:induction false} ToFromBE(b: Bytes)
    ensures ToBE(FromBE(b), |b|) == b
    ensures FromBE(b) < Pow256(|b|)
  {
    if b != [] {
      var front, d := b[..|b| - 1], b[|b| - 1];
      ToFromBE(front);
      assert b == front + [d];
      assert FromBE(b) == FromBE(front) * 256 + d;
    }
  }

  /** The first byte weighs most. */
  lemma {:induction false} LeadingByteWeighsMost(first: Byte, rest: Bytes)
    ensures FromBE([first] + rest) == first * Pow256(|rest|) + FromBE(rest)
  {
    var n := |rest|;
    if n == 0 {
      assert [first] + rest == [] + [first];
      ValuePush([], first, 256);
    } else {
      var front, last := rest[..n - 1], rest[n - 1];
      LeadingByteWeighsMost(first, front);
      assert [first] + rest == ([first] + front) + [last] && rest == front + [last];
      ValuePush([first] + front, last, 256);
      ValuePush(front, last, 256);
      assert first * Pow256(n) == 256 * (first * Pow256(n - 1));
    }
  }

  lemma ModOfQuotient(n: nat, p: nat)
    requires p > 0
    ensures (n / 256) % p * 256 + n % 256 == n % (256 * p)
  {
    var q, r := n / 256 / p, (n / 256) % p;
    DivSplit(n / 256, p);
    DivSplit(n, 256);
    assert n == q * (256 * p) + (r * 256 + n % 256);
    ModUnique(256 * p, q, r * 256 + n % 256, n);
  }

  /** A field of k bytes keeps a number modulo 256^k. */
  lemma {:induction false} Truncated(n: nat, k: nat)
    ensures Pow256(k) > 0 && FromBE(ToBE(n, k)) == n % Pow256(k)
  {
    if k == 0 {
      assert n % 1 == 0;
    } else {
      Truncated(n / 256, k - 1);
      ValuePush(ToBE(n / 256, k - 1), n % 256, 256);
      ModOfQuotient(n, Pow256(k - 1));
    }
  }
}

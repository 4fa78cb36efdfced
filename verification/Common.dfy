// Vocabulary shared by every component: results, bits of naturals, bytes.

module Results {
  datatype Option<+T> = None | Some(value: T)

  datatype Result<+T, +E> = Ok(value: T) | Err(error: E)
}

/** Multiplication, quotients and remainders by a variable. */
module Arithmetic {
  lemma MulDistributes(a: int, b: int, p: int)
    ensures (a - b) * p == a * p - b * p && (b - a) * p == b * p - a * p
  {
  }

  lemma MulAtLeast(k: int, p: nat)
    requires k >= 1
    ensures k * p >= p
  {
    assert (k - 1) * p >= 0;
  }

  lemma QuotientUnique(p: nat, q: int, r: int, q': int, r': int)
    requires q * p + r == q' * p + r' && 0 <= r < p && 0 <= r' < p
    ensures q == q' && r == r'
  {
    MulDistributes(q, q', p);
    if q < q' {
      MulAtLeast(q' - q, p);
    } else if q' < q {
      MulAtLeast(q - q', p);
    }
  }

  lemma ModUnique(p: nat, q: int, r: int, x: int)
    requires p > 0 && x == q * p + r && 0 <= r < p
    ensures x % p == r && x / p == q
  {
    QuotientUnique(p, q, r, x / p, x % p);
  }

  lemma DivSplit(n: nat, p: nat)
    requires p > 0
    ensures n == (n / p) * p + n % p
  {
  }

  lemma QuotientSmaller(n: nat, p: nat)
    requires n > 0 && p >= 2
    ensures 0 <= n / p < n
    ensures n == (n / p) * p + n % p
  {
    var q := n / p;
    assert n == q * p + n % p;
    if q >= 1 {
      MulDistributes(p, 2, q);
      assert (p - 2) * q >= 0;
    }
  }
}

/** Shifts, bits and powers of two of non-negative integers. */
module Bits {
  function Pow2(k: nat): nat {
    if k == 0 then 1 else 2 * Pow2(k - 1)
  }

  /** n >> k */
  function Shr(n: nat, k: nat): nat {
    if k == 0 then n else Shr(n, k - 1) / 2
  }

  /** (n >> k) & 1 */
  function Bit(n: nat, k: nat): nat {
    Shr(n, k) % 2
  }

  /** a ^ b */
  function Xor(a: nat, b: nat): nat
    decreases a + b
  {
    if a == 0 && b == 0 then 0 else (a + b) % 2 + 2 * Xor(a / 2, b / 2)
  }

  /** a | b */
  function Or(a: nat, b: nat): nat
    decreases a + b
  {
    if a == 0 && b == 0 then 0 else (if a % 2 == 1 || b % 2 == 1 then 1 else 0) + 2 * Or(a / 2, b / 2)
  }

  lemma {:induction false} XorZero(a: nat, b: nat)
    ensures Xor(a, b) == 0 <==> a == b
    decreases a + b
  {
    if a != 0 || b != 0 { XorZero(a / 2, b / 2); }
  }

  lemma {:induction false} OrZero(a: nat, b: nat)
    ensures Or(a, b) == 0 <==> a == 0 && b == 0
    decreases a + b
  {
    if a != 0 || b != 0 { OrZero(a / 2, b / 2); }
  }

  ghost predicate IsPow2(n: nat) {
    exists k: nat :: n == Pow2(k)
  }

  lemma {:induction false} Pow2Positive(k: nat)
    ensures Pow2(k) >= 1
  {
    if k > 0 { Pow2Positive(k - 1); }
  }

  lemma {:induction false} Pow2Monotone(j: nat, k: nat)
    requires j <= k
    ensures Pow2(j) <= Pow2(k)
  {
    Pow2Positive(k);
    if j < k { Pow2Monotone(j, k - 1); }
  }

  lemma {:induction false} ShrPow2(n: nat, j: nat, k: nat)
    ensures Shr(n, j + k) == 0 <==> Shr(n, j) < Pow2(k)
    decreases k
  {
    if k > 0 {
      ShrPow2(n, j + 1, k - 1);
    }
  }

  /** Shifting right is division by a power of two, without a multiplication of two variables in sight. */
  lemma {:induction false} ShrBelow(n: nat, k: nat)
    ensures Shr(n, k) == 0 <==> n < Pow2(k)
  {
    ShrPow2(n, 0, k);
  }

  lemma {:induction false} ShrMonotone(m: nat, n: nat, k: nat)
    requires m <= n
    ensures Shr(m, k) <= Shr(n, k)
  {
    if k > 0 { ShrMonotone(m, n, k - 1); }
  }

  lemma {:induction false} ShrZeroAbove(n: nat, j: nat, k: nat)
    requires j <= k && Shr(n, j) == 0
    ensures Shr(n, k) == 0
  {
    if j < k { ShrZeroAbove(n, j, k - 1); }
  }

  lemma {:induction false} ShrOfHalf(n: nat, k: nat)
    ensures Shr(n, k + 1) == Shr(n / 2, k)
  {
    if k > 0 { ShrOfHalf(n, k - 1); }
  }

  lemma Pow2Step(k: nat)
    ensures Pow2(0) == 1 && Pow2(k + 1) == 2 * Pow2(k)
  {
  }

  lemma BitStep(n: nat, j: nat)
    ensures Bit(n, 0) == n % 2 && Bit(n, j + 1) == Bit(n / 2, j)
  {
    ShrOfHalf(n, j);
  }

  /** Setting a bit that is clear keeps a number below a power of two. */
  lemma {:induction false} SetBitBelow(n: nat, j: nat, k: nat)
    requires j < k && n < Pow2(k) && Bit(n, j) == 0
    ensures n + Pow2(j) < Pow2(k)
  {
    hide *;
    Pow2Step(k - 1);
    if j == 0 {
      BitStep(n, 0);
    } else {
      Pow2Step(j - 1);
      BitStep(n, j - 1);
      SetBitBelow(n / 2, j - 1, k - 1);
    }
  }

  /** Adding one carries through trailing ones and stops at the first zero. */
  lemma {:induction false} ShrSucc(n: nat, k: nat)
    requires forall l :: 0 <= l < k ==> Bit(n, l) == 1
    ensures Shr(n + 1, k) == Shr(n, k) + 1
    ensures var m := n + 1; forall l :: 0 <= l < k ==> Bit(m, l) == 0
  {
    if k > 0 {
      ShrSucc(n, k - 1);
      assert Bit(n, k - 1) == 1;
    }
  }

  lemma {:induction false} ShrSuccAbove(n: nat, k: nat, l: nat)
    requires forall j :: 0 <= j < k ==> Bit(n, j) == 1
    requires Bit(n, k) == 0 && k < l
    ensures Shr(n + 1, l) == Shr(n, l)
  {
    if l == k + 1 {
      ShrSucc(n, k);
    } else {
      ShrSuccAbove(n, k, l - 1);
    }
  }
}

/** Byte strings. Bytes are integers so that shifts and masks become arithmetic. */
module ByteStrings {
  type Byte = b: int | 0 <= b < 256

  type Bytes = seq<Byte>

  function Zeros(n: nat): (z: Bytes)
    ensures |z| == n
  {
    seq(n, _ => 0)
  }
}

/** The program's constants. */
module Constants {
  const HASH_LENGTH := 32
  const TREE_DEPTH := 20
  const MAX_LEAVES := 1048576
  const MAX_PROOF_BYTES := 2048
  const TWO_TO_THE_32: nat := 0x1_0000_0000
  const TWO_TO_THE_128: nat := 0x1_0000_0000_0000_0000_0000_0000_0000_0000
}

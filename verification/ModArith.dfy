/** Arithmetic modulo p, up to Fermat's little theorem. */
module ModArith {
  import opened Arithmetic

  function MulMod(p: nat, a: nat, b: nat): (r: nat)
    requires p > 0
    ensures r < p
  {
    (a * b) % p
  }

  function PowMod(p: nat, a: nat, n: nat): (r: nat)
    requires p > 1
    ensures r < p
  {
    if n == 0 then 1 else MulMod(p, PowMod(p, a, n - 1), a)
  }

  ghost predicate IsPrime(p: nat) {
    p >= 2 && forall d: nat :: 2 <= d < p ==> p % d != 0
  }

  // ------------------------------------------------------------------
  // Remainders
  // ------------------------------------------------------------------

  /** Multiples of p do not change a remainder. */
  lemma ModShift(p: nat, x: int, k: int)
    requires p > 0
    ensures (x + k * p) % p == x % p
  {
    var q, r := x / p, x % p;
    assert x + k * p == (q + k) * p + r by {
      assert (q + k) * p == q * p + k * p;
    }
    ModUnique(p, q + k, r, x + k * p);
  }

  lemma MulModReduce(p: nat, a: nat, b: nat)
    requires p > 0
    ensures MulMod(p, a % p, b) == MulMod(p, a, b)
  {
    var q, r := a / p, a % p;
    assert a * b == r * b + (q * b) * p by {
      assert a == q * p + r;
      assert (q * p + r) * b == q * p * b + r * b;
      assert q * p * b == (q * b) * p;
    }
    ModShift(p, r * b, q * b);
  }

  lemma MulModCommutes(p: nat, a: nat, b: nat)
    requires p > 0
    ensures MulMod(p, a, b) == MulMod(p, b, a)
  {
  }

  lemma MulModAssociates(p: nat, a: nat, b: nat, c: nat)
    requires p > 0
    ensures MulMod(p, MulMod(p, a, b), c) == MulMod(p, a, MulMod(p, b, c))
  {
    MulModReduce(p, a * b, c);
    MulModReduce(p, b * c, a);
    MulModCommutes(p, a, MulMod(p, b, c));
    assert (a * b) * c == (b * c) * a;
    assert MulMod(p, a * b, c) == MulMod(p, b * c, a);
  }

  lemma MulModOne(p: nat, a: nat)
    requires a < p
    ensures MulMod(p, a, 1) == a == MulMod(p, 1, a)
  {
    ModUnique(p, 0, a, a);
  }

  // ------------------------------------------------------------------
  // Powers
  // ------------------------------------------------------------------

  lemma {:induction false} PowModAdd(p: nat, a: nat, m: nat, n: nat)
    requires p > 1
    ensures PowMod(p, a, m + n) == MulMod(p, PowMod(p, a, m), PowMod(p, a, n))
  {
    hide MulMod;
    if n == 0 {
      MulModOne(p, PowMod(p, a, m));
    } else {
      PowModAdd(p, a, m, n - 1);
      MulModAssociates(p, PowMod(p, a, m), PowMod(p, a, n - 1), a);
    }
  }

  lemma {:induction false} PowModMul(p: nat, a: nat, m: nat, n: nat)
    requires p > 1
    ensures PowMod(p, PowMod(p, a, m), n) == PowMod(p, a, m * n)
  {
    hide MulMod;
    if n > 0 {
      PowModMul(p, a, m, n - 1);
      assert m * n == m * (n - 1) + m;
      PowModAdd(p, a, m * (n - 1), m);
    }
  }

  lemma {:induction false} PowModOfOne(p: nat, n: nat)
    requires p > 1
    ensures PowMod(p, 1, n) == 1
  {
    if n > 0 {
      PowModOfOne(p, n - 1);
      MulModOne(p, 1);
    }
  }

  lemma PowModThree(p: nat, a: nat)
    requires p > 1 && a < p
    ensures PowMod(p, a, 3) == MulMod(p, MulMod(p, a, a), a)
  {
    hide MulMod;
    MulModOne(p, a);
    assert PowMod(p, a, 1) == MulMod(p, PowMod(p, a, 0), a);
    assert PowMod(p, a, 2) == MulMod(p, PowMod(p, a, 1), a);
  }

  /** A cube reduced twice on the way, by the number of moduli in it. */
  lemma CubeReduces(p: nat, x: nat, y: nat, q: nat)
    requires y < p && x * x * x == q * p + y
    ensures MulMod(p, MulMod(p, x, x), x) == y
  {
    MulModReduce(p, x * x, x);
    ModUnique(p, q, y, x * x * x);
  }

  /** Squaring the base halves the exponent: the step of square-and-multiply. */
  lemma {:induction false} PowModSquare(p: nat, b: nat, n: nat)
    requires p > 1
    ensures PowMod(p, MulMod(p, b, b), n) == PowMod(p, b, 2 * n)
  {
    hide MulMod;
    if n > 0 {
      PowModSquare(p, b, n - 1);
      MulModAssociates(p, PowMod(p, b, 2 * n - 2), b, b);
      assert PowMod(p, b, 2 * n) == MulMod(p, PowMod(p, b, 2 * n - 1), b);
    }
  }

  // ------------------------------------------------------------------
  // Euclid's lemma
  // ------------------------------------------------------------------

  lemma RemainderMultiplier(p: nat, a: nat, d: nat, e: nat)
    requires p >= 1 && d >= 1 && MulMod(p, d, a) == 0 && MulMod(p, e, a) == 0
    ensures MulMod(p, e % d, a) == 0
  {
    var q, r := e / d, e % d;
    var k := d * a / p;
    assert d * a == k * p;
    assert e * a == r * a + (q * k) * p by {
      assert e == q * d + r;
      assert (q * d + r) * a == q * (d * a) + r * a;
      assert q * (k * p) == (q * k) * p;
    }
    ModShift(p, r * a, q * k);
  }

  /** The least positive d with p | d*a divides every e with p | e*a. */
  lemma LeastMultiplier(p: nat, a: nat) returns (d: nat)
    requires p >= 1
    ensures 1 <= d <= p
    ensures MulMod(p, d, a) == 0
    ensures forall e: nat :: MulMod(p, e, a) == 0 ==> e % d == 0
  {
    ModUnique(p, a, 0, p * a);
    d := 1;
    while MulMod(p, d, a) != 0
      invariant 1 <= d <= p
      invariant forall e: nat :: 1 <= e < d ==> MulMod(p, e, a) != 0
      decreases p - d
    {
      d := d + 1;
    }
    forall e: nat | MulMod(p, e, a) == 0 ensures e % d == 0 {
      RemainderMultiplier(p, a, d, e);
    }
  }

  lemma Euclid(p: nat, a: nat, b: nat)
    requires IsPrime(p) && MulMod(p, a, b) == 0
    ensures a % p == 0 || b % p == 0
  {
    var d := LeastMultiplier(p, a);
    ModUnique(p, a, 0, p * a);
    assert MulMod(p, p, a) == 0;
    MulModCommutes(p, a, b);
    assert d == 1 || d == p;
  }

  lemma NoZeroDivisors(p: nat, a: nat, b: nat)
    requires IsPrime(p) && 0 < a < p && 0 < b < p
    ensures MulMod(p, a, b) != 0
  {
    ModUnique(p, 0, a, a);
    ModUnique(p, 0, b, b);
    if MulMod(p, a, b) == 0 {
      Euclid(p, a, b);
    }
  }

  lemma EqualRemainders(p: nat, x: nat, y: nat)
    requires p > 0 && x % p == y % p
    ensures (x - y) % p == 0
  {
    assert x - y == (x / p - y / p) * p + 0 by {
      assert x == (x / p) * p + x % p && y == (y / p) * p + y % p;
    }
    ModUnique(p, x / p - y / p, 0, x - y);
  }

  lemma Cancel(p: nat, u: nat, v: nat, c: nat)
    requires IsPrime(p) && u < p && v < p && 0 < c < p
    requires MulMod(p, u, c) == MulMod(p, v, c)
    ensures u == v
  {
    MulDistributes(u, v, c);
    if u < v {
      EqualRemainders(p, v * c, u * c);
      NoZeroDivisors(p, v - u, c);
    } else if v < u {
      EqualRemainders(p, u * c, v * c);
      NoZeroDivisors(p, u - v, c);
    }
  }

  // ------------------------------------------------------------------
  // Fermat's little theorem
  // ------------------------------------------------------------------

  ghost function Product(p: nat, s: set<nat>): (r: nat)
    requires p > 1
    ensures r < p
  {
    if s == {} then 1
    else var x :| x in s; MulMod(p, x, Product(p, s - {x}))
  }

  lemma {:induction false} ProductPick(p: nat, s: set<nat>, x: nat)
    requires p > 1 && x in s
    ensures Product(p, s) == MulMod(p, x, Product(p, s - {x}))
    decreases s
  {
    hide MulMod;
    var y :| y in s && Product(p, s) == MulMod(p, y, Product(p, s - {y}));
    if x != y {
      var rest := Product(p, s - {x} - {y});
      ProductPick(p, s - {y}, x);
      ProductPick(p, s - {x}, y);
      assert s - {y} - {x} == s - {x} - {y};
      MulModAssociates(p, y, x, rest);
      MulModAssociates(p, x, y, rest);
      MulModCommutes(p, x, y);
    }
  }

  ghost function Scaled(p: nat, a: nat, s: set<nat>): set<nat>
    requires p > 0
  {
    set x | x in s :: MulMod(p, a, x)
  }

  lemma Shuffle(p: nat, a: nat, x: nat, b: nat, c: nat)
    requires p > 0
    ensures MulMod(p, MulMod(p, a, x), MulMod(p, b, c)) == MulMod(p, MulMod(p, b, a), MulMod(p, x, c))
  {
    hide MulMod;
    var bc, xc := MulMod(p, b, c), MulMod(p, x, c);
    MulModAssociates(p, a, x, bc);
    MulModAssociates(p, x, b, c);
    MulModCommutes(p, x, b);
    MulModAssociates(p, b, x, c);
    MulModAssociates(p, a, b, xc);
    MulModCommutes(p, a, b);
  }

  /** Multiplying by a is injective, so taking x out of a set takes a * x out of its multiples. */
  lemma ScaledPick(p: nat, a: nat, s: set<nat>, x: nat)
    requires IsPrime(p) && 0 < a < p && x in s && forall y :: y in s ==> 0 < y < p
    ensures MulMod(p, a, x) in Scaled(p, a, s) && MulMod(p, a, x) !in Scaled(p, a, s - {x})
    ensures Scaled(p, a, s) - {MulMod(p, a, x)} == Scaled(p, a, s - {x})
    ensures Scaled(p, a, s) == Scaled(p, a, s - {x}) + {MulMod(p, a, x)}
  {
    hide MulMod, IsPrime;
    forall y | y in s && MulMod(p, a, y) == MulMod(p, a, x) ensures y == x {
      MulModCommutes(p, a, x);
      MulModCommutes(p, a, y);
      Cancel(p, y, x, a);
    }
  }

  /** Multiplying every element of a set by a multiplies its product by a power of a. */
  lemma {:induction false} ScaledProduct(p: nat, a: nat, s: set<nat>)
    requires IsPrime(p) && 0 < a < p && forall x :: x in s ==> 0 < x < p
    ensures Product(p, Scaled(p, a, s)) == MulMod(p, PowMod(p, a, |s|), Product(p, s))
    ensures |Scaled(p, a, s)| == |s|
    decreases s
  {
    hide MulMod;
    if s == {} {
      assert Scaled(p, a, s) == {};
      MulModOne(p, 1);
    } else {
      var x :| x in s;
      var s' := s - {x};
      var ax := MulMod(p, a, x);
      ScaledProduct(p, a, s');
      ScaledPick(p, a, s, x);
      hide Scaled, Product, IsPrime;
      ProductPick(p, Scaled(p, a, s), ax);
      ProductPick(p, s, x);
      Shuffle(p, a, x, PowMod(p, a, |s'|), Product(p, s'));
    }
  }

  lemma {:induction false} ProductNonZero(p: nat, s: set<nat>)
    requires IsPrime(p) && forall x :: x in s ==> 0 < x < p
    ensures Product(p, s) != 0
    decreases s
  {
    if s != {} {
      var x :| x in s;
      ProductPick(p, s, x);
      ProductNonZero(p, s - {x});
      NoZeroDivisors(p, x, Product(p, s - {x}));
    }
  }

  ghost function Units(p: nat): set<nat> {
    if p <= 1 then {} else Units(p - 1) + {p - 1}
  }

  lemma {:induction false} AboutUnits(p: nat)
    requires p >= 1
    ensures |Units(p)| == p - 1
    ensures forall x: nat :: x in Units(p) <==> 0 < x < p
  {
    if p > 1 {
      AboutUnits(p - 1);
    }
  }

  lemma SubsetSameSize(s: set<nat>, t: set<nat>)
    requires s <= t && |s| == |t|
    ensures s == t
  {
    assert t == s + (t - s);
  }

  /** Multiplying by a only reorders 1, ..., p-1. */
  lemma ScaledUnits(p: nat, a: nat)
    requires IsPrime(p) && 0 < a < p
    ensures Scaled(p, a, Units(p)) == Units(p)
  {
    hide MulMod, Product, Units;
    var u := Units(p);
    AboutUnits(p);
    ScaledProduct(p, a, u);
    forall y | y in Scaled(p, a, u) ensures y in u {
      var x :| x in u && y == MulMod(p, a, x);
      NoZeroDivisors(p, a, x);
    }
    SubsetSameSize(Scaled(p, a, u), u);
  }

  /** Fermat: a^(p-1) is 1 modulo a prime p, for every a between 1 and p-1. */
  lemma Fermat(p: nat, a: nat)
    requires IsPrime(p) && 0 < a < p
    ensures PowMod(p, a, p - 1) == 1
  {
    hide MulMod, PowMod, Product, Units, Scaled;
    var u := Units(p);
    AboutUnits(p);
    ScaledProduct(p, a, u);
    ScaledUnits(p, a);
    ProductNonZero(p, u);
    MulModOne(p, Product(p, u));
    Cancel(p, PowMod(p, a, p - 1), 1, Product(p, u));
  }
}

/** Rescue-Prime over the field of 2^128 - 45 * 2^40 + 1 elements. */
module Rescue {
  import opened Arithmetic
  import opened Constants
  import opened ModArith

  /** The exponent e of cube roots: 3e = 1 modulo p-1. */
  const CUBE_ROOT_EXPONENT: nat := 226854911280625642308916371969163307691
  const MODULUS: nat := 340282366920938463463374557953744961537

  /** 1/4 in the field. */
  const QUARTER: nat := 255211775190703847597530918465308721153

  const STATE_WIDTH := 3
  const NUM_ROUNDS := 7

  type Elem = x: nat | x < MODULUS

  lemma FieldConstants()
    ensures MODULUS == TWO_TO_THE_128 - 45 * 0x100_0000_0000 + 1
    ensures 3 * CUBE_ROOT_EXPONENT == 2 * (MODULUS - 1) + 1
    ensures CUBE_ROOT_EXPONENT < MODULUS - 1
    ensures 4 * QUARTER == 3 * MODULUS + 1
  {
  }

  // ------------------------------------------------------------------
  // Field elements
  // ------------------------------------------------------------------

  /** An integer reduced into the field. */
  function New(x: int): Elem {
    x % MODULUS
  }

  function Add(x: Elem, y: Elem): Elem {
    New(x + y)
  }

  function Sub(x: Elem, y: Elem): Elem {
    New(x - y)
  }

  function Mul(x: Elem, y: Elem): Elem {
    MulMod(MODULUS, x, y)
  }

  function Pow(x: Elem, e: nat): Elem {
    PowMod(MODULUS, x, e)
  }

  /** One turn of square-and-multiply keeps result * b^e. */
  lemma PowStep(result: Elem, b: Elem, e: nat)
    requires e > 0
    ensures Mul(if e % 2 == 1 then Mul(result, b) else result, Pow(Mul(b, b), e / 2)) == Mul(result, Pow(b, e))
  {
    var h := e / 2;
    PowModSquare(MODULUS, b, h);
    if e % 2 == 1 {
      assert Pow(b, e) == Mul(Pow(b, 2 * h), b);
      MulModCommutes(MODULUS, Pow(b, 2 * h), b);
      MulModAssociates(MODULUS, result, b, Pow(b, 2 * h));
    }
  }

  /** Square-and-multiply. */
  method PowU128(base: Elem, exp: nat) returns (result: Elem)
    requires exp < TWO_TO_THE_128
    ensures result == Pow(base, exp)
  {
    if exp == 0 {
      return 1;
    }
    result := 1;
    var b := base;
    var e := exp;
    MulModOne(MODULUS, Pow(base, exp));
    while e > 0
      invariant Mul(result, Pow(b, e)) == Pow(base, exp)
      decreases e
    {
      PowStep(result, b, e);
      if e % 2 == 1 {
        result := Mul(result, b);
      }
      b := Mul(b, b);
      e := e / 2;
    }
    MulModOne(MODULUS, result);
  }

  function Cube(x: Elem): Elem {
    Mul(Mul(x, x), x)
  }

  function CubeRootOf(x: Elem): Elem {
    if x == 0 then 0 else Pow(x, CUBE_ROOT_EXPONENT)
  }

  method CubeRoot(x: Elem) returns (r: Elem)
    ensures r == CubeRootOf(x)
  {
    if x == 0 {
      return 0;
    }
    r := PowU128(x, CUBE_ROOT_EXPONENT);
  }

  /** x^(3e) = x whenever 3e = 2(p-1) + 1. */
  lemma ThirdOfTwice(x: Elem, e: nat)
    requires IsPrime(MODULUS) && x > 0 && 3 * e == 2 * (MODULUS - 1) + 1
    ensures Pow(x, 3 * e) == x
  {
    hide MulMod;
    var m := MODULUS - 1;
    Fermat(MODULUS, x);
    PowModMul(MODULUS, x, m, 2);
    PowModOfOne(MODULUS, 2);
    PowModAdd(MODULUS, x, m * 2, 1);
    MulModOne(MODULUS, x);
    assert PowMod(MODULUS, x, 1) == MulMod(MODULUS, PowMod(MODULUS, x, 0), x);
  }

  lemma UnitCubeRootInverts(x: Elem, e: nat)
    requires IsPrime(MODULUS) && x > 0 && e == CUBE_ROOT_EXPONENT
    ensures Pow(Cube(x), e) == x && Cube(x) != 0
    ensures Cube(Pow(x, e)) == x
  {
    hide MulMod, PowMod;
    FieldConstants();
    PowModThree(MODULUS, x);
    PowModThree(MODULUS, Pow(x, e));
    ThirdOfTwice(x, e);
    PowModMul(MODULUS, x, 3, e);
    PowModMul(MODULUS, x, e, 3);
    assert e * 3 == 3 * e;
    NoZeroDivisors(MODULUS, x, x);
    NoZeroDivisors(MODULUS, Mul(x, x), x);
  }

  /** Cube roots and cubes undo each other: cubing is a bijection of the field. */
  lemma CubeRootInverts(x: Elem)
    requires IsPrime(MODULUS)
    ensures CubeRootOf(Cube(x)) == x
    ensures Cube(CubeRootOf(x)) == x
  {
    if x > 0 {
      UnitCubeRootInverts(x, CUBE_ROOT_EXPONENT);
    }
  }

  // ------------------------------------------------------------------
  // Layers on a state of three elements
  // ------------------------------------------------------------------

  datatype State = State(a: Elem, b: Elem, c: Elem)

  function View(state: array<Elem>): State
    requires state.Length == STATE_WIDTH
    reads state
  {
    State(state[0], state[1], state[2])
  }

  function Sbox(s: State): State {
    State(Cube(s.a), Cube(s.b), Cube(s.c))
  }

  function InvSbox(s: State): State {
    State(CubeRootOf(s.a), CubeRootOf(s.b), CubeRootOf(s.c))
  }

  /** The matrix [[2,1,1],[1,2,1],[1,1,2]]. */
  function Mds(s: State): State {
    State(New(2 * s.a + s.b + s.c), New(s.a + 2 * s.b + s.c), New(s.a + s.b + 2 * s.c))
  }

  function AddConstants(s: State, k: State): State {
    State(Add(s.a, k.a), Add(s.b, k.b), Add(s.c, k.c))
  }

  /** Round constant j of half-round i, with the 128-bit wrap of the source. */
  function RoundConstant(i: nat, j: nat): Elem {
    New((i * STATE_WIDTH + j + 1) * 0x9e3779b97f4a7c15 % TWO_TO_THE_128 + 42)
  }

  function RoundConstants(i: nat): State {
    State(RoundConstant(i, 0), RoundConstant(i, 1), RoundConstant(i, 2))
  }

  function HalfRound(s: State, i: nat): State {
    AddConstants(Mds(s), RoundConstants(i))
  }

  function Round(s: State, r: nat): State {
    HalfRound(InvSbox(HalfRound(Sbox(s), 2 * r)), 2 * r + 1)
  }

  function Rounds(s: State, r: nat): State {
    if r == 0 then s else Round(Rounds(s, r - 1), r - 1)
  }

  function Permutation(s: State): State {
    Rounds(s, NUM_ROUNDS)
  }

  function RescueHash(a: Elem, b: Elem): Elem {
    Permutation(State(a, b, 0)).a
  }

  const MDS: seq<seq<Elem>> := [[2, 1, 1], [1, 2, 1], [1, 1, 2]]

  /** The sum of the first j products of row i with the old state. */
  function RowSum(before: seq<Elem>, i: nat, j: nat): Elem
    requires i < 3 && j <= 3 == |before|
  {
    if j == 0 then 0 else Add(RowSum(before, i, j - 1), Mul(MDS[i][j - 1], before[j - 1]))
  }

  /** A reduction takes off some number of moduli. */
  lemma NewSplit(y: int) returns (k: int)
    ensures New(y) == y - k * MODULUS
  {
    k := y / MODULUS;
  }

  lemma AddNews(x: int, y: int)
    ensures Add(New(x), New(y)) == New(x + y)
  {
    var j := NewSplit(x);
    var k := NewSplit(y);
    ModShift(MODULUS, x + y, -j - k);
  }

  function Dot(i: nat, s: seq<Elem>): int
    requires i < 3 && |s| == 3
  {
    var sum: int := s[0];
    sum + s[1] + s[2] + s[i]
  }

  lemma RowSumOf(s: seq<Elem>, i: nat, x: int, y: int, z: int)
    requires i < 3 && |s| == 3
    requires Mul(MDS[i][0], s[0]) == New(x) && Mul(MDS[i][1], s[1]) == New(y) && Mul(MDS[i][2], s[2]) == New(z)
    ensures RowSum(s, i, 3) == New(x + y + z)
  {
    hide Add, Mul;
    AddNews(0, x);
    AddNews(x, y);
    AddNews(x + y, z);
    assert RowSum(s, i, 1) == Add(RowSum(s, i, 0), New(x));
    assert RowSum(s, i, 2) == Add(RowSum(s, i, 1), New(y));
  }

  lemma Entries(i: nat, j: nat, x: Elem)
    requires i < 3 && j < 3
    ensures Mul(MDS[i][j], x) == if i == j then New((x as int) + (x as int)) else New(x)
  {
    assert MDS[i][j] == if i == j then 2 else 1;
  }

  lemma RowSumIsDot(s: seq<Elem>, i: nat)
    requires i < 3 && |s| == 3
    ensures RowSum(s, i, 3) == New(Dot(i, s))
  {
    hide Add, Mul, New;
    var x: int, y: int, z: int := s[0], s[1], s[2];
    Entries(i, 0, s[0]);
    Entries(i, 1, s[1]);
    Entries(i, 2, s[2]);
    RowSumOf(s, i, if i == 0 then x + x else x, if i == 1 then y + y else y, if i == 2 then z + z else z);
  }

  method ApplyMds(state: array<Elem>)
    requires state.Length == STATE_WIDTH
    modifies state
    ensures View(state) == Mds(old(View(state)))
  {
    hide Add, Mul, New;
    var before := state[..];
    for i := 0 to STATE_WIDTH
      invariant forall k :: 0 <= k < i ==> state[k] == RowSum(before, k, 3)
    {
      state[i] := 0;
      for j := 0 to STATE_WIDTH
        invariant forall k :: 0 <= k < i ==> state[k] == RowSum(before, k, 3)
        invariant state[i] == RowSum(before, i, j)
      {
        state[i] := Add(state[i], Mul(MDS[i][j], before[j]));
      }
    }
    RowSumIsDot(before, 0);
    RowSumIsDot(before, 1);
    RowSumIsDot(before, 2);
  }

  method ApplySbox(state: array<Elem>)
    requires state.Length == STATE_WIDTH
    modifies state
    ensures View(state) == Sbox(old(View(state)))
  {
    for i := 0 to STATE_WIDTH
      invariant forall k :: 0 <= k < i ==> state[k] == Cube(old(state[k]))
      invariant forall k :: i <= k < STATE_WIDTH ==> state[k] == old(state[k])
    {
      state[i] := Mul(Mul(state[i], state[i]), state[i]);
    }
  }

  method ApplyInvSbox(state: array<Elem>)
    requires state.Length == STATE_WIDTH
    modifies state
    ensures View(state) == InvSbox(old(View(state)))
  {
    for i := 0 to STATE_WIDTH
      invariant forall k :: 0 <= k < i ==> state[k] == CubeRootOf(old(state[k]))
      invariant forall k :: i <= k < STATE_WIDTH ==> state[k] == old(state[k])
    {
      var root := CubeRoot(state[i]);
      state[i] := root;
    }
  }

  method ApplyConstants(state: array<Elem>, i: nat)
    requires state.Length == STATE_WIDTH
    modifies state
    ensures View(state) == AddConstants(old(View(state)), RoundConstants(i))
  {
    for j := 0 to STATE_WIDTH
      invariant forall k :: 0 <= k < j ==> state[k] == Add(old(state[k]), RoundConstant(i, k))
      invariant forall k :: j <= k < STATE_WIDTH ==> state[k] == old(state[k])
    {
      state[j] := Add(state[j], RoundConstant(i, j));
    }
  }

  method RescuePermutation(state: array<Elem>)
    requires state.Length == STATE_WIDTH
    modifies state
    ensures View(state) == Permutation(old(View(state)))
  {
    hide Sbox, InvSbox, Mds, AddConstants;
    for r := 0 to NUM_ROUNDS
      invariant View(state) == Rounds(old(View(state)), r)
    {
      ApplySbox(state);
      ApplyMds(state);
      ApplyConstants(state, 2 * r);
      ApplyInvSbox(state);
      ApplyMds(state);
      ApplyConstants(state, 2 * r + 1);
    }
  }

  method Hash(a: Elem, b: Elem) returns (h: Elem)
    ensures h == RescueHash(a, b)
  {
    var state := new Elem[3](i => if i == 0 then a else if i == 1 then b else 0);
    RescuePermutation(state);
    h := state[0];
  }

  // ------------------------------------------------------------------
  // Running the permutation backwards
  // ------------------------------------------------------------------

  /** The inverse matrix: subtract a quarter of the sum from every element. */
  function MdsInverse(s: State): State {
    var q := QUARTER * (s.a + s.b + s.c);
    State(New(s.a - q), New(s.b - q), New(s.c - q))
  }

  function SubConstants(s: State, k: State): State {
    State(Sub(s.a, k.a), Sub(s.b, k.b), Sub(s.c, k.c))
  }

  function HalfRoundInverse(s: State, i: nat): State {
    MdsInverse(SubConstants(s, RoundConstants(i)))
  }

  function RoundInverse(s: State, r: nat): State {
    InvSbox(HalfRoundInverse(Sbox(HalfRoundInverse(s, 2 * r + 1)), 2 * r))
  }

  /** Undoes the last k rounds. */
  function UndoRounds(s: State, k: nat): State
    requires k <= NUM_ROUNDS
  {
    if k == 0 then s else RoundInverse(UndoRounds(s, k - 1), NUM_ROUNDS - k)
  }

  function PermutationInverse(s: State): State {
    UndoRounds(s, NUM_ROUNDS)
  }

  /** Reducing a number that is off by a multiple of the modulus. */
  lemma NewShift(x: Elem, t: int, y: int)
    requires y == x + t * MODULUS
    ensures New(y) == x
  {
    ModUnique(MODULUS, t, x, y);
  }

  /** One element of a matrix product, x + sum, comes back when a quarter of the total 4 * sum is taken off. */
  lemma UndoneAt(x: Elem, sum: int, m: int, total: int, kx: int, k: int)
    requires m == x + sum - kx * MODULUS && total == 4 * sum - k * MODULUS
    ensures New(m - QUARTER * total) == x
  {
    hide New;
    assert 4 * QUARTER == 3 * MODULUS + 1;
    assert QUARTER * total == sum + (3 * sum - QUARTER * k) * MODULUS;
    NewShift(x, QUARTER * k - 3 * sum - kx, m - QUARTER * total);
  }

  /** Taking a quarter of the sum off every element takes a whole sum off every row. */
  lemma RedoneAt(x: Elem, sum: int, q: int, mx: int, total: int, kx: int, k: int)
    requires q == QUARTER * sum && mx == x - q - kx * MODULUS && total == sum - 3 * q - k * MODULUS
    ensures New(mx + total) == x
  {
    hide New;
    var row := mx + total;
    assert 4 * QUARTER == 3 * MODULUS + 1;
    assert 4 * q == sum + 3 * sum * MODULUS;
    NewShift(x, -3 * sum - kx - k, row);
  }

  /** What the reductions in a matrix product take off. */
  lemma MdsSplits(s: State) returns (ka: int, kb: int, kc: int)
    ensures var m, sum := Mds(s), s.a + s.b + s.c;
            && m.a == s.a + sum - ka * MODULUS && m.b == s.b + sum - kb * MODULUS && m.c == s.c + sum - kc * MODULUS
            && m.a + m.b + m.c == 4 * sum - (ka + kb + kc) * MODULUS
  {
    hide New;
    ka := NewSplit(2 * s.a + s.b + s.c);
    kb := NewSplit(s.a + 2 * s.b + s.c);
    kc := NewSplit(s.a + s.b + 2 * s.c);
  }

  lemma MdsUndone(s: State)
    ensures MdsInverse(Mds(s)) == s
  {
    hide New, Mds;
    var sum, m := s.a + s.b + s.c, Mds(s);
    var ka, kb, kc := MdsSplits(s);
    var total: int := m.a + m.b + m.c;
    UndoneAt(s.a, sum, m.a, total, ka, ka + kb + kc);
    UndoneAt(s.b, sum, m.b, total, kb, ka + kb + kc);
    UndoneAt(s.c, sum, m.c, total, kc, ka + kb + kc);
  }

  /** What the reductions in an inverse product take off, with a quarter of the sum per element. */
  lemma InverseSplits(s: State) returns (ka: int, kb: int, kc: int)
    ensures var m, sum := MdsInverse(s), s.a + s.b + s.c;
            var q := QUARTER * sum;
            && m.a == s.a - q - ka * MODULUS && m.b == s.b - q - kb * MODULUS && m.c == s.c - q - kc * MODULUS
            && m.a + m.b + m.c == sum - 3 * q - (ka + kb + kc) * MODULUS
  {
    hide New;
    var q := QUARTER * (s.a + s.b + s.c);
    ka := NewSplit(s.a - q);
    kb := NewSplit(s.b - q);
    kc := NewSplit(s.c - q);
  }

  /** A row of the matrix adds an element to the sum of all three. */
  lemma MdsIsRows(m: State)
    ensures var total: int := m.a + m.b + m.c; Mds(m) == State(New(m.a + total), New(m.b + total), New(m.c + total))
  {
  }

  lemma MdsRedone(s: State)
    ensures Mds(MdsInverse(s)) == s
  {
    hide New, Mds, MdsInverse;
    var sum, m := s.a + s.b + s.c, MdsInverse(s);
    var q := QUARTER * sum;
    var ka, kb, kc := InverseSplits(s);
    var total: int := m.a + m.b + m.c;
    MdsIsRows(m);
    RedoneAt(s.a, sum, q, m.a, total, ka, ka + kb + kc);
    RedoneAt(s.b, sum, q, m.b, total, kb, ka + kb + kc);
    RedoneAt(s.c, sum, q, m.c, total, kc, ka + kb + kc);
  }

  lemma AddInverts(x: Elem, k: Elem)
    ensures Sub(Add(x, k), k) == x
    ensures Add(Sub(x, k), k) == x
  {
    hide New;
    var i := NewSplit(x + k);
    NewShift(x, -i, Add(x, k) - k);
    var j := NewSplit(x - k);
    NewShift(x, -j, Sub(x, k) + k);
  }

  lemma HalfRoundUndone(s: State, i: nat)
    ensures HalfRoundInverse(HalfRound(s, i), i) == s
  {
    hide Mds, MdsInverse, Add, Sub, RoundConstant;
    var k, m := RoundConstants(i), Mds(s);
    AddInverts(m.a, k.a);
    AddInverts(m.b, k.b);
    AddInverts(m.c, k.c);
    MdsUndone(s);
  }

  lemma HalfRoundRedone(s: State, i: nat)
    ensures HalfRound(HalfRoundInverse(s, i), i) == s
  {
    hide Mds, MdsInverse, Add, Sub, RoundConstant;
    var k := RoundConstants(i);
    MdsRedone(SubConstants(s, k));
    AddInverts(s.a, k.a);
    AddInverts(s.b, k.b);
    AddInverts(s.c, k.c);
  }

  lemma SboxInverts(s: State)
    requires IsPrime(MODULUS)
    ensures InvSbox(Sbox(s)) == s
    ensures Sbox(InvSbox(s)) == s
  {
    hide Cube, CubeRootOf;
    CubeRootInverts(s.a);
    CubeRootInverts(s.b);
    CubeRootInverts(s.c);
  }

  lemma RoundInverts(s: State, r: nat)
    requires IsPrime(MODULUS)
    ensures RoundInverse(Round(s, r), r) == s
    ensures Round(RoundInverse(s, r), r) == s
  {
    hide HalfRound, HalfRoundInverse, Sbox, InvSbox;
    var mid := HalfRound(Sbox(s), 2 * r);
    HalfRoundUndone(InvSbox(mid), 2 * r + 1);
    SboxInverts(mid);
    HalfRoundUndone(Sbox(s), 2 * r);
    SboxInverts(s);

    var back := HalfRoundInverse(s, 2 * r + 1);
    HalfRoundRedone(s, 2 * r + 1);
    SboxInverts(back);
    HalfRoundRedone(Sbox(back), 2 * r);
    SboxInverts(HalfRoundInverse(Sbox(back), 2 * r));
  }

  lemma {:induction false} RoundsUndone(s: State, k: nat)
    requires IsPrime(MODULUS) && k <= NUM_ROUNDS
    ensures UndoRounds(Rounds(s, NUM_ROUNDS), k) == Rounds(s, NUM_ROUNDS - k)
  {
    hide Round, RoundInverse;
    if k > 0 {
      RoundsUndone(s, k - 1);
      RoundInverts(Rounds(s, NUM_ROUNDS - k), NUM_ROUNDS - k);
    }
  }

  lemma {:induction false} RoundsRedone(s: State, r: nat)
    requires IsPrime(MODULUS) && r <= NUM_ROUNDS
    ensures Rounds(UndoRounds(s, NUM_ROUNDS), r) == UndoRounds(s, NUM_ROUNDS - r)
  {
    hide Round, RoundInverse;
    if r > 0 {
      RoundsRedone(s, r - 1);
      RoundInverts(UndoRounds(s, NUM_ROUNDS - r), r - 1);
    }
  }

  /** The permutation is a bijection on triples of field elements. */
  lemma PermutationIsBijective(s: State)
    requires IsPrime(MODULUS)
    ensures PermutationInverse(Permutation(s)) == s
    ensures Permutation(PermutationInverse(s)) == s
  {
    RoundsUndone(s, NUM_ROUNDS);
    RoundsRedone(s, NUM_ROUNDS);
  }
}

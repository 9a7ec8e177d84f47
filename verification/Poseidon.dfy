/** The width-3 Poseidon permutation and the sponge built on it. */
module Poseidon {
  import opened ModArith
  import Fields

  const WIDTH := 3
  const RATE := 2
  const PARTIAL_ROUNDS := 60
  const HALF_FULL := 4
  const TOTAL_ROUNDS := 68

  datatype Vec = Vec(x: int, y: int, z: int) {
    function At(i: nat): int
      requires i < 3
    {
      if i == 0 then x else if i == 1 then y else z
    }
  }

  datatype Mat = Mat(r0: Vec, r1: Vec, r2: Vec) {
    function Row(i: nat): Vec
      requires i < 3
    {
      if i == 0 then r0 else if i == 1 then r1 else r2
    }
  }

  /** Modulus, mixing matrix and table of round constants. */
  datatype Params = Params(p: int, mds: Mat, constants: seq<Vec>)

  predicate Usable(q: Params) {
    q.p >= 2 && |q.constants| >= 1
  }

  function ToVec(s: seq<int>): Vec
    requires |s| == 3
  {
    Vec(s[0], s[1], s[2])
  }

  predicate InField(p: int, v: Vec) {
    Fields.InField(p, v.x) && Fields.InField(p, v.y) && Fields.InField(p, v.z)
  }

  function Dot(a: Vec, b: Vec): int {
    a.x * b.x + a.y * b.y + a.z * b.z
  }

  function Reduce(p: int, v: Vec): Vec
    requires p > 0
  {
    Vec(v.x % p, v.y % p, v.z % p)
  }

  function Plus(a: Vec, b: Vec): Vec {
    Vec(a.x + b.x, a.y + b.y, a.z + b.z)
  }

  function Minus(a: Vec, b: Vec): Vec {
    Vec(a.x - b.x, a.y - b.y, a.z - b.z)
  }

  function Apply(m: Mat, v: Vec): Vec {
    Vec(Dot(m.r0, v), Dot(m.r1, v), Dot(m.r2, v))
  }

  // ---------------------------------------------------------------- the permutation

  /** The constants added after round r: the next row, or zeros once the table is exhausted. */
  function NextConstants(q: Params, r: nat): Vec {
    if r + 1 < |q.constants| then q.constants[r + 1] else Vec(0, 0, 0)
  }

  function Sbox(p: int, x: int): int
    requires p > 0
  {
    Fields.PowMod(p, x, 5)
  }

  predicate IsFull(r: nat) {
    r < HALF_FULL || HALF_FULL + PARTIAL_ROUNDS <= r
  }

  /** All three elements in a full round, only the last one in a partial round. */
  function SboxLayer(p: int, r: nat, v: Vec): Vec
    requires p > 0
  {
    if IsFull(r) then Vec(Sbox(p, v.x), Sbox(p, v.y), Sbox(p, v.z)) else v.(z := Sbox(p, v.z))
  }

  function LinearLayer(q: Params, r: nat, v: Vec): Vec
    requires Usable(q)
  {
    Reduce(q.p, Plus(Apply(q.mds, v), NextConstants(q, r)))
  }

  function Round(q: Params, r: nat, v: Vec): Vec
    requires Usable(q)
  {
    LinearLayer(q, r, SboxLayer(q.p, r, v))
  }

  /** Rounds r up to but not including n. */
  function Rounds(q: Params, r: nat, n: nat, v: Vec): Vec
    requires Usable(q)
    decreases n - r
  {
    if r >= n then v else Rounds(q, r + 1, n, Round(q, r, v))
  }

  function AddConstants(q: Params, v: Vec): Vec
    requires Usable(q)
  {
    Reduce(q.p, Plus(v, q.constants[0]))
  }

  function Permutation(q: Params, v: Vec): Vec
    requires Usable(q)
  {
    Rounds(q, 0, TOTAL_ROUNDS, AddConstants(q, v))
  }

  // ---------------------------------------------------------------- the inverse permutation

  function Column(m: Mat, k: nat): Vec
    requires k < 3
  {
    Vec(m.r0.At(k), m.r1.At(k), m.r2.At(k))
  }

  /** m n is the identity matrix modulo p. */
  ghost predicate ProductIsIdentity(p: int, m: Mat, n: Mat)
    requires p > 0
  {
    forall i: nat, k: nat | i < 3 && k < 3 ::
      Cong(p, Dot(m.Row(i), Column(n, k)), if i == k then 1 else 0)
  }

  /** What inversion needs: a prime modulus, a root exponent for the S-box and an inverse of the
      mixing matrix. */
  ghost predicate Invertible(q: Params, e: nat, inv: Mat) {
    && Usable(q) && IsPrime(q.p) && e > 0
    && (5 * e) % (q.p - 1) == 1 % (q.p - 1)
    && ProductIsIdentity(q.p, inv, q.mds)
    && ProductIsIdentity(q.p, q.mds, inv)
  }

  const UNIT := Mat(Vec(1, 0, 0), Vec(0, 1, 0), Vec(0, 0, 1))

  lemma DotBasis(a: Vec)
    ensures Dot(a, Vec(1, 0, 0)) == a.x && Dot(a, Vec(0, 1, 0)) == a.y && Dot(a, Vec(0, 0, 1)) == a.z
  {
  }

  lemma UnitLines(k: nat)
    requires k < 3
    ensures var line := if k == 0 then Vec(1, 0, 0) else if k == 1 then Vec(0, 1, 0) else Vec(0, 0, 1);
            UNIT.Row(k) == line && Column(UNIT, k) == line
  {
  }

  lemma UnitDot(i: nat, k: nat)
    requires i < 3 && k < 3
    ensures Dot(UNIT.Row(i), Column(UNIT, k)) == if i == k then 1 else 0
  {
    hide Dot, UNIT, Column;
    UnitLines(i);
    UnitLines(k);
    DotBasis(UNIT.Row(i));
  }

  lemma UnitInverts(p: int)
    requires p > 0
    ensures ProductIsIdentity(p, UNIT, UNIT)
  {
    hide Cong, Dot, UNIT;
    CongRefl(p, 0);
    CongRefl(p, 1);
    forall i: nat, k: nat | i < 3 && k < 3
      ensures Cong(p, Dot(UNIT.Row(i), Column(UNIT, k)), if i == k then 1 else 0)
    {
      UnitDot(i, k);
    }
  }

  /** Such parameters exist: the identity matrix modulo 3. */
  lemma SmallPermutation()
    ensures Invertible(Params(3, UNIT, [Vec(1, 2, 0)]), 1, UNIT)
  {
    hide ProductIsIdentity, UNIT;
    UnitInverts(3);
    assert IsPrime(3);
  }

  function SboxInverse(p: int, e: nat, x: int): int
    requires p > 0
  {
    Fields.PowMod(p, x, e)
  }

  function SboxLayerInverse(p: int, e: nat, r: nat, v: Vec): Vec
    requires p > 0
  {
    if IsFull(r) then Vec(SboxInverse(p, e, v.x), SboxInverse(p, e, v.y), SboxInverse(p, e, v.z))
    else v.(z := SboxInverse(p, e, v.z))
  }

  function LinearLayerInverse(q: Params, inv: Mat, r: nat, v: Vec): Vec
    requires Usable(q)
  {
    Reduce(q.p, Apply(inv, Minus(v, NextConstants(q, r))))
  }

  function RoundInverse(q: Params, e: nat, inv: Mat, r: nat, v: Vec): Vec
    requires Usable(q)
  {
    SboxLayerInverse(q.p, e, r, LinearLayerInverse(q, inv, r, v))
  }

  function RoundsInverse(q: Params, e: nat, inv: Mat, r: nat, n: nat, v: Vec): Vec
    requires Usable(q)
    decreases n - r
  {
    if r >= n then v else RoundInverse(q, e, inv, r, RoundsInverse(q, e, inv, r + 1, n, v))
  }

  function PermutationInverse(q: Params, e: nat, inv: Mat, v: Vec): Vec
    requires Usable(q)
  {
    Reduce(q.p, Minus(RoundsInverse(q, e, inv, 0, TOTAL_ROUNDS, v), q.constants[0]))
  }

  lemma CongZeroShift(m: int, k: int)
    requires m > 0 && k % m == 1 % m
    ensures k - 1 == m * ((k - 1) / m)
  {
    var j := CongElim(m, k, 1);
    RemainderUnique(m, k - 1, j, 0);
  }

  lemma OrderOne(p: int, x: int, k: nat)
    requires IsPrime(p) && Fields.InField(p, x) && k > 0 && k % (p - 1) == 1 % (p - 1)
    ensures Cong(p, Pow(x, k), x)
  {
    if x == 0 {
      assert Pow(0, k) == 0;
    } else {
      RemainderUnique(p, x, 0, x);
      RemainderUnique(p, 0, 0, 0);
      Fermat(p, x);
      var q := (k - 1) / (p - 1);
      assert k == 1 + (p - 1) * q by {
        CongZeroShift(p - 1, k);
      }
      PowMul(x, p - 1, q);
      PowOne(q);
      assert Pow(x, k) == x * Pow(x, (p - 1) * q);
      hide Cong;
      CongPow(p, Pow(x, p - 1), 1, q);
      CongRefl(p, x);
      CongMul(p, x, x, Pow(Pow(x, p - 1), q), 1);
    }
  }

  /** x^(5e) = x for every x in the field. */
  lemma PowerRoundTrip(p: int, m: nat, n: nat, x: int)
    requires IsPrime(p) && Fields.InField(p, x) && m > 0 && n > 0 && (m * n) % (p - 1) == 1 % (p - 1)
    ensures Fields.PowMod(p, Fields.PowMod(p, x, m), n) == x
  {
    var y := Fields.PowMod(p, x, m);
    CongMod(p, Pow(x, m));
    PowMul(x, m, n);
    OrderOne(p, x, m * n);
    hide Cong;
    CongPow(p, y, Pow(x, m), n);
    CongMod(p, Pow(y, n));
    var z := Pow(y, n) % p;
    CongTrans(p, z, Pow(y, n), Pow(x, m * n));
    CongTrans(p, z, Pow(x, m * n), x);
    CongEqual(p, z, x);
  }

  // ---------------------------------------------------------------- vectors modulo p

  ghost predicate VecCong(p: int, a: Vec, b: Vec)
    requires p > 0
  {
    Cong(p, a.x, b.x) && Cong(p, a.y, b.y) && Cong(p, a.z, b.z)
  }

  lemma VecCongTrans(p: int, a: Vec, b: Vec, c: Vec)
    requires p > 0 && VecCong(p, a, b) && VecCong(p, b, c)
    ensures VecCong(p, a, c)
  {
  }

  lemma VecCongEqual(p: int, a: Vec, b: Vec)
    requires p > 0 && InField(p, a) && InField(p, b) && VecCong(p, a, b)
    ensures a == b
  {
    CongEqual(p, a.x, b.x);
    CongEqual(p, a.y, b.y);
    CongEqual(p, a.z, b.z);
  }

  lemma ReduceCong(p: int, v: Vec)
    requires p > 0
    ensures InField(p, Reduce(p, v)) && VecCong(p, Reduce(p, v), v)
    ensures InField(p, v) ==> Reduce(p, v) == v
  {
    CongMod(p, v.x);
    CongMod(p, v.y);
    CongMod(p, v.z);
    if InField(p, v) {
      VecCongEqual(p, Reduce(p, v), v);
    }
  }

  lemma PlusCong(p: int, a: Vec, b: Vec, c: Vec)
    requires p > 0 && VecCong(p, a, b)
    ensures VecCong(p, Plus(a, c), Plus(b, c)) && VecCong(p, Minus(a, c), Minus(b, c))
  {
    hide Cong;
    CongRefl(p, c.x);
    CongRefl(p, c.y);
    CongRefl(p, c.z);
    CongAdd(p, a.x, b.x, c.x, c.x);
    CongAdd(p, a.y, b.y, c.y, c.y);
    CongAdd(p, a.z, b.z, c.z, c.z);
    CongSub(p, a.x, b.x, c.x, c.x);
    CongSub(p, a.y, b.y, c.y, c.y);
    CongSub(p, a.z, b.z, c.z, c.z);
  }

  lemma DotCong(p: int, r: Vec, s: Vec, a: Vec, b: Vec)
    requires p > 0 && VecCong(p, r, s) && VecCong(p, a, b)
    ensures Cong(p, Dot(r, a), Dot(s, b))
  {
    hide Cong;
    CongMul(p, r.x, s.x, a.x, b.x);
    CongMul(p, r.y, s.y, a.y, b.y);
    CongMul(p, r.z, s.z, a.z, b.z);
    CongAdd(p, r.x * a.x, s.x * b.x, r.y * a.y, s.y * b.y);
    CongAdd(p, r.x * a.x + r.y * a.y, s.x * b.x + s.y * b.y, r.z * a.z, s.z * b.z);
  }

  lemma ApplyCong(p: int, m: Mat, a: Vec, b: Vec)
    requires p > 0 && VecCong(p, a, b)
    ensures VecCong(p, Apply(m, a), Apply(m, b))
  {
    DotCong(p, m.r0, m.r0, a, b);
    DotCong(p, m.r1, m.r1, a, b);
    DotCong(p, m.r2, m.r2, a, b);
  }

  function Scale(k: int, v: Vec): Vec {
    Vec(k * v.x, k * v.y, k * v.z)
  }

  lemma DotScale(k: int, a: Vec, v: Vec)
    ensures k * Dot(a, v) == Dot(Scale(k, a), v)
  {
    Distribute(k, a.x * v.x + a.y * v.y, a.z * v.z);
    Distribute(k, a.x * v.x, a.y * v.y);
    MulAssoc(k, a.x, v.x);
    MulAssoc(k, a.y, v.y);
    MulAssoc(k, a.z, v.z);
  }

  lemma DotPlus(a: Vec, b: Vec, v: Vec)
    ensures Dot(Plus(a, b), v) == Dot(a, v) + Dot(b, v)
  {
    Distribute(v.x, a.x, b.x);
    Distribute(v.y, a.y, b.y);
    Distribute(v.z, a.z, b.z);
  }

  /** Row r of a matrix product. */
  function RowTimes(r: Vec, m: Mat): Vec {
    Vec(Dot(r, Column(m, 0)), Dot(r, Column(m, 1)), Dot(r, Column(m, 2)))
  }

  lemma DotAssociates(r: Vec, m: Mat, v: Vec)
    ensures Dot(r, Apply(m, v)) == Dot(RowTimes(r, m), v)
  {
    DotScale(r.x, m.r0, v);
    DotScale(r.y, m.r1, v);
    DotScale(r.z, m.r2, v);
    var a, b, c := Scale(r.x, m.r0), Scale(r.y, m.r1), Scale(r.z, m.r2);
    DotPlus(a, b, v);
    DotPlus(Plus(a, b), c, v);
    assert RowTimes(r, m) == Plus(Plus(a, b), c);
  }

  lemma VecRefl(p: int, v: Vec)
    requires p > 0
    ensures VecCong(p, v, v)
  {
  }

  lemma RowOfIdentity(p: int, m: Mat, n: Mat, v: Vec, i: nat)
    requires p > 0 && ProductIsIdentity(p, m, n) && i < 3
    ensures Cong(p, Dot(m.Row(i), Apply(n, v)), v.At(i))
  {
    var unit := Vec(if i == 0 then 1 else 0, if i == 1 then 1 else 0, if i == 2 then 1 else 0);
    var r := m.Row(i);
    hide Cong;
    assert Cong(p, Dot(r, Column(n, 0)), unit.x);
    assert Cong(p, Dot(r, Column(n, 1)), unit.y);
    assert Cong(p, Dot(r, Column(n, 2)), unit.z);
    DotAssociates(r, n, v);
    VecRefl(p, v);
    DotCong(p, RowTimes(r, n), unit, v, v);
  }

  /** A matrix undoes its inverse. */
  lemma ApplyInverse(p: int, m: Mat, n: Mat, v: Vec)
    requires p > 0 && ProductIsIdentity(p, m, n)
    ensures VecCong(p, Apply(m, Apply(n, v)), v)
  {
    RowOfIdentity(p, m, n, v, 0);
    RowOfIdentity(p, m, n, v, 1);
    RowOfIdentity(p, m, n, v, 2);
  }

  // ---------------------------------------------------------------- bijectivity

  lemma Settle(p: int, a: Vec, b: Vec, v: Vec)
    requires p > 0 && VecCong(p, a, b) && VecCong(p, b, v) && InField(p, v)
    ensures Reduce(p, a) == v
  {
    ReduceCong(p, a);
    VecCongTrans(p, a, b, v);
    VecCongTrans(p, Reduce(p, a), a, v);
    VecCongEqual(p, Reduce(p, a), v);
  }

  lemma LinearRoundTrip(q: Params, e: nat, inv: Mat, r: nat, v: Vec)
    requires Invertible(q, e, inv) && InField(q.p, v)
    ensures InField(q.p, LinearLayer(q, r, v)) && InField(q.p, LinearLayerInverse(q, inv, r, v))
    ensures LinearLayerInverse(q, inv, r, LinearLayer(q, r, v)) == v
    ensures LinearLayer(q, r, LinearLayerInverse(q, inv, r, v)) == v
  {
    var p, c := q.p, NextConstants(q, r);
    hide VecCong, Apply, InField, Reduce;
    var w := Plus(Apply(q.mds, v), c);
    ReduceCong(p, w);
    PlusCong(p, Reduce(p, w), w, c);
    assert Minus(w, c) == Apply(q.mds, v);
    ApplyCong(p, inv, Minus(Reduce(p, w), c), Apply(q.mds, v));
    ApplyInverse(p, inv, q.mds, v);
    Settle(p, Apply(inv, Minus(Reduce(p, w), c)), Apply(inv, Apply(q.mds, v)), v);

    var u := Apply(inv, Minus(v, c));
    ReduceCong(p, u);
    ApplyCong(p, q.mds, Reduce(p, u), u);
    ApplyInverse(p, q.mds, inv, Minus(v, c));
    VecCongTrans(p, Apply(q.mds, Reduce(p, u)), Apply(q.mds, u), Minus(v, c));
    PlusCong(p, Apply(q.mds, Reduce(p, u)), Minus(v, c), c);
    assert Plus(Minus(v, c), c) == v;
    VecRefl(p, v);
    Settle(p, Plus(Apply(q.mds, Reduce(p, u)), c), v, v);
  }

  lemma SboxRoundTrip(q: Params, e: nat, inv: Mat, x: int)
    requires Invertible(q, e, inv) && Fields.InField(q.p, x)
    ensures Fields.InField(q.p, Sbox(q.p, x)) && Fields.InField(q.p, SboxInverse(q.p, e, x))
    ensures SboxInverse(q.p, e, Sbox(q.p, x)) == x
    ensures Sbox(q.p, SboxInverse(q.p, e, x)) == x
  {
    PowerRoundTrip(q.p, 5, e, x);
    PowerRoundTrip(q.p, e, 5, x);
    CongMod(q.p, Pow(x, 5));
    CongMod(q.p, Pow(x, e));
  }

  lemma SboxLayerRoundTrip(q: Params, e: nat, inv: Mat, r: nat, v: Vec)
    requires Invertible(q, e, inv) && InField(q.p, v)
    ensures InField(q.p, SboxLayer(q.p, r, v)) && InField(q.p, SboxLayerInverse(q.p, e, r, v))
    ensures SboxLayerInverse(q.p, e, r, SboxLayer(q.p, r, v)) == v
    ensures SboxLayer(q.p, r, SboxLayerInverse(q.p, e, r, v)) == v
  {
    hide Sbox, SboxInverse, Invertible;
    SboxRoundTrip(q, e, inv, v.x);
    SboxRoundTrip(q, e, inv, v.y);
    SboxRoundTrip(q, e, inv, v.z);
  }

  lemma RoundRoundTrip(q: Params, e: nat, inv: Mat, r: nat, v: Vec)
    requires Invertible(q, e, inv) && InField(q.p, v)
    ensures InField(q.p, Round(q, r, v)) && InField(q.p, RoundInverse(q, e, inv, r, v))
    ensures RoundInverse(q, e, inv, r, Round(q, r, v)) == v
    ensures Round(q, r, RoundInverse(q, e, inv, r, v)) == v
  {
    hide SboxLayer, SboxLayerInverse, LinearLayer, LinearLayerInverse, InField, IsPrime, ProductIsIdentity;
    SboxLayerRoundTrip(q, e, inv, r, v);
    LinearRoundTrip(q, e, inv, r, SboxLayer(q.p, r, v));
    LinearRoundTrip(q, e, inv, r, v);
    SboxLayerRoundTrip(q, e, inv, r, LinearLayerInverse(q, inv, r, v));
  }

  lemma {:induction false} RoundsRoundTrip(q: Params, e: nat, inv: Mat, r: nat, n: nat, v: Vec)
    requires Invertible(q, e, inv) && InField(q.p, v)
    ensures InField(q.p, Rounds(q, r, n, v)) && InField(q.p, RoundsInverse(q, e, inv, r, n, v))
    ensures RoundsInverse(q, e, inv, r, n, Rounds(q, r, n, v)) == v
    ensures Rounds(q, r, n, RoundsInverse(q, e, inv, r, n, v)) == v
    decreases n - r
  {
    hide Round, RoundInverse, InField, IsPrime, ProductIsIdentity;
    if r >= n {
    } else {
      RoundRoundTrip(q, e, inv, r, v);
      RoundsRoundTrip(q, e, inv, r + 1, n, Round(q, r, v));
      RoundsRoundTrip(q, e, inv, r + 1, n, v);
      RoundRoundTrip(q, e, inv, r, RoundsInverse(q, e, inv, r + 1, n, v));
    }
  }

  lemma ConstantsRoundTrip(p: int, v: Vec, c: Vec)
    requires p > 0 && InField(p, v)
    ensures InField(p, Reduce(p, Plus(v, c))) && InField(p, Reduce(p, Minus(v, c)))
    ensures Reduce(p, Minus(Reduce(p, Plus(v, c)), c)) == v
    ensures Reduce(p, Plus(Reduce(p, Minus(v, c)), c)) == v
  {
    hide VecCong, InField, Reduce;
    ReduceCong(p, Plus(v, c));
    ReduceCong(p, Minus(v, c));
    PlusCong(p, Reduce(p, Plus(v, c)), Plus(v, c), c);
    PlusCong(p, Reduce(p, Minus(v, c)), Minus(v, c), c);
    VecRefl(p, v);
    assert Minus(Plus(v, c), c) == v && Plus(Minus(v, c), c) == v;
    Settle(p, Minus(Reduce(p, Plus(v, c)), c), v, v);
    Settle(p, Plus(Reduce(p, Minus(v, c)), c), v, v);
  }

  /** The permutation is a bijection on triples of field elements: it has a two-sided inverse. */
  lemma PermutationBijective(q: Params, e: nat, inv: Mat, v: Vec)
    requires Invertible(q, e, inv) && InField(q.p, v)
    ensures InField(q.p, Permutation(q, v)) && InField(q.p, PermutationInverse(q, e, inv, v))
    ensures PermutationInverse(q, e, inv, Permutation(q, v)) == v
    ensures Permutation(q, PermutationInverse(q, e, inv, v)) == v
  {
    var c := q.constants[0];
    hide Rounds, RoundsInverse, InField, IsPrime, ProductIsIdentity, Reduce;
    ConstantsRoundTrip(q.p, v, c);
    RoundsRoundTrip(q, e, inv, 0, TOTAL_ROUNDS, AddConstants(q, v));
    RoundsRoundTrip(q, e, inv, 0, TOTAL_ROUNDS, v);
    ConstantsRoundTrip(q.p, RoundsInverse(q, e, inv, 0, TOTAL_ROUNDS, v), c);
  }

  // ---------------------------------------------------------------- the in-place code

  lemma MulAccumulate(p: int, val: int, m: int, s: int, total: int)
    requires p >= 2 && val == total % p
    ensures Fields.Add(p, val, Fields.Mul(p, m % p, s)) == (total + m * s) % p
  {
    hide Cong;
    var f := Fields.Mul(p, m % p, s);
    CongMod(p, total);
    CongMod(p, m);
    CongRefl(p, s);
    CongMul(p, m % p, m, s, s);
    Fields.Operations(p, m % p, s);
    CongTrans(p, f, (m % p) * s, m * s);
    CongAdd(p, val, total, f, m * s);
    Fields.Operations(p, val, f);
    CongMod(p, total + m * s);
    CongTrans(p, Fields.Add(p, val, f), val + f, total + m * s);
    CongTrans(p, Fields.Add(p, val, f), total + m * s, (total + m * s) % p);
    CongEqual(p, Fields.Add(p, val, f), (total + m * s) % p);
  }

  lemma AddReduced(p: int, val: int, c: int, total: int)
    requires p >= 2 && val == total % p
    ensures Fields.Add(p, val, c % p) == (total + c) % p
  {
    MulAccumulate(p, val, c, 1, total);
    CongMod(p, c);
    RemainderUnique(p, c % p, 0, c % p);
  }

  ghost function PartialDot(a: Vec, b: Vec, j: nat): int
    requires j <= 3
  {
    if j == 0 then 0 else PartialDot(a, b, j - 1) + a.At(j - 1) * b.At(j - 1)
  }

  lemma FullDot(a: Vec, b: Vec)
    ensures PartialDot(a, b, 3) == Dot(a, b)
  {
    assert PartialDot(a, b, 2) == PartialDot(a, b, 1) + a.y * b.y;
    assert PartialDot(a, b, 1) == PartialDot(a, b, 0) + a.x * b.x;
  }

  /** One row of the mixing: products accumulated in the field, then the round constant. */
  method MixRow(p: int, row: Vec, state: array<int>, constant: int) returns (val: int)
    requires p >= 2 && state.Length == WIDTH
    ensures val == (Dot(row, ToVec(state[..])) + constant) % p
  {
    ghost var v := ToVec(state[..]);
    hide Fields.Add, Fields.Mul, Dot;
    val := 0;
    RemainderUnique(p, 0, 0, 0);
    for j := 0 to WIDTH
      invariant val == PartialDot(row, v, j) % p
    {
      MulAccumulate(p, val, row.At(j), state[j], PartialDot(row, v, j));
      val := Fields.Add(p, val, Fields.Mul(p, row.At(j) % p, state[j]));
    }
    FullDot(row, v);
    AddReduced(p, val, constant, Dot(row, v));
    val := Fields.Add(p, val, constant % p);
  }

  /** Mixing reads the state and fills a fresh list. */
  method LinearLayerInto(q: Params, state: array<int>, r: nat) returns (newState: array<int>)
    requires Usable(q) && state.Length == WIDTH
    ensures fresh(newState) && newState.Length == WIDTH
    ensures ToVec(newState[..]) == LinearLayer(q, r, ToVec(state[..]))
  {
    ghost var v := ToVec(state[..]);
    hide Dot;
    var constants := if r + 1 < |q.constants| then q.constants[r + 1] else Vec(0, 0, 0);
    newState := new int[WIDTH](_ => 0);
    for i := 0 to WIDTH
      invariant ToVec(state[..]) == v
      invariant forall k :: 0 <= k < i ==> newState[k] == (Dot(q.mds.Row(k), v) + constants.At(k)) % q.p
    {
      var val := MixRow(q.p, q.mds.Row(i), state, constants.At(i));
      newState[i] := val;
    }
    assert newState[0] == (Dot(q.mds.Row(0), v) + constants.At(0)) % q.p;
  }

  /** The S-box of a full round, applied in place to every element. */
  method ApplySbox(p: int, state: array<int>)
    requires p >= 2 && state.Length == WIDTH
    modifies state
    ensures ToVec(state[..]) == SboxLayer(p, 0, old(ToVec(state[..])))
  {
    for i := 0 to WIDTH
      invariant forall k :: 0 <= k < i ==> state[k] == Sbox(p, old(state[k]))
      invariant forall k :: i <= k < WIDTH ==> state[k] == old(state[k])
    {
      state[i] := Sbox(p, state[i]);
    }
  }

  lemma {:induction false} RoundsSplit(q: Params, r: nat, m: nat, v: Vec)
    requires Usable(q) && r <= m
    ensures Rounds(q, r, m + 1, v) == Round(q, m, Rounds(q, r, m, v))
    decreases m - r
  {
    hide Round;
    if r < m {
      RoundsSplit(q, r + 1, m, Round(q, r, v));
    } else {
      assert Rounds(q, m + 1, m + 1, Round(q, m, v)) == Round(q, m, v);
    }
  }

  lemma FullRoundsAlike(p: int, v: Vec)
    requires p > 0
    ensures forall r: nat {:trigger SboxLayer(p, r, v)} :: IsFull(r) ==> SboxLayer(p, r, v) == SboxLayer(p, 0, v)
  {
  }

  lemma PartialRound(p: int, r: nat, v: Vec)
    requires p > 0 && !IsFull(r)
    ensures SboxLayer(p, r, v) == v.(z := Sbox(p, v.z))
  {
  }

  lemma RoundsEmpty(q: Params, v: Vec)
    requires Usable(q)
    ensures Rounds(q, 0, 0, v) == v
  {
  }

  lemma FifthPower(x: int)
    ensures Pow(x, 5) == x * x * x * x * x
  {
    assert Pow(x, 0) == 1 && Pow(x, 1) == x * Pow(x, 0) && Pow(x, 2) == x * Pow(x, 1);
    MulAssoc(x, x, x);
    MulAssoc(x, x, x * x);
    MulAssoc(x, x * x, x);
    MulAssoc(x, x * x * x, x);
    MulAssoc(x, x * x * x * x, x);
    assert Pow(x, 3) == x * (x * x) && Pow(x, 4) == x * Pow(x, 3) && Pow(x, 5) == x * Pow(x, 4);
  }

  /** Round r as plain arithmetic: x^5 of all three elements in the first four and the last four rounds and of
      the last element otherwise, then the matrix, then row r + 1 of the table. */
  ghost predicate IsRound(q: Params, r: nat, s: Vec, t: Vec)
    requires Usable(q)
  {
    var u := s.z * s.z * s.z * s.z * s.z % q.p;
    var y := if r < 4 || r >= 64 then Vec(s.x * s.x * s.x * s.x * s.x % q.p, s.y * s.y * s.y * s.y * s.y % q.p, u)
             else Vec(s.x, s.y, u);
    var c := if r + 1 < |q.constants| then q.constants[r + 1] else Vec(0, 0, 0);
    && t.x == (q.mds.r0.x * y.x + q.mds.r0.y * y.y + q.mds.r0.z * y.z + c.x) % q.p
    && t.y == (q.mds.r1.x * y.x + q.mds.r1.y * y.y + q.mds.r1.z * y.z + c.y) % q.p
    && t.z == (q.mds.r2.x * y.x + q.mds.r2.y * y.y + q.mds.r2.z * y.z + c.z) % q.p
  }

  lemma FullRoundNumbers(r: nat)
    ensures IsFull(r) <==> r < 4 || r >= 64
    ensures TOTAL_ROUNDS == 68
  {
  }

  lemma RoundIsRound(q: Params, r: nat, s: Vec)
    requires Usable(q)
    ensures IsRound(q, r, s, Round(q, r, s))
  {
    hide Pow, IsFull;
    FullRoundNumbers(r);
    FifthPower(s.x);
    FifthPower(s.y);
    FifthPower(s.z);
  }

  /** The permutation is the last of 69 states: the first adds row 0 of the table, each next one is a round. */
  lemma PermutationTrace(q: Params, v: Vec) returns (s: seq<Vec>)
    requires Usable(q)
    ensures |s| == 69 && s[68] == Permutation(q, v)
    ensures s[0].x == (v.x + q.constants[0].x) % q.p
    ensures s[0].y == (v.y + q.constants[0].y) % q.p
    ensures s[0].z == (v.z + q.constants[0].z) % q.p
    ensures forall r :: 0 <= r < 68 ==> IsRound(q, r, s[r], s[r + 1])
  {
    hide Rounds, Round, IsRound;
    var start := AddConstants(q, v);
    RoundsEmpty(q, start);
    s := seq(69, (k: int) requires 0 <= k < 69 => Rounds(q, 0, k, start));
    forall r: nat | r < 68 ensures IsRound(q, r, s[r], s[r + 1]) {
      RoundsSplit(q, 0, r, start);
      RoundIsRound(q, r, s[r]);
    }
  }

  /** The three runs of rounds. The list passed in is overwritten by the first constants and the
      first S-box layer only, because the first mixing rebinds the local name to a fresh list. */
  method Permute(q: Params, state: array<int>) returns (res: array<int>)
    requires Usable(q) && state.Length == WIDTH && InField(q.p, ToVec(state[..]))
    modifies state
    ensures fresh(res) && res.Length == WIDTH
    ensures ToVec(res[..]) == Permutation(q, old(ToVec(state[..])))
    ensures ToVec(state[..]) == SboxLayer(q.p, 0, AddConstants(q, old(ToVec(state[..]))))
  {
    hide SboxLayer, LinearLayer, Rounds;
    ghost var before := ToVec(state[..]);
    for i := 0 to WIDTH
      invariant forall k :: 0 <= k < i ==> state[k] == (old(state[k]) + q.constants[0].At(k)) % q.p
      invariant forall k :: i <= k < WIDTH ==> state[k] == old(state[k])
    {
      RemainderUnique(q.p, state[i], 0, state[i]);
      AddReduced(q.p, state[i], q.constants[0].At(i), state[i]);
      state[i] := Fields.Add(q.p, state[i], q.constants[0].At(i) % q.p);
    }
    ghost var start := AddConstants(q, before);
    assert ToVec(state[..]) == start by {
      assert state[0] == (before.x + q.constants[0].At(0)) % q.p;
    }
    RoundsEmpty(q, start);
    FullRoundsAlike(q.p, start);
    res := state;
    for r := 0 to HALF_FULL
      invariant res.Length == WIDTH
      invariant r == 0 ==> res == state && ToVec(state[..]) == start
      invariant r > 0 ==> fresh(res) && ToVec(state[..]) == SboxLayer(q.p, 0, start)
      invariant ToVec(res[..]) == Rounds(q, 0, r, start)
    {
      RoundsSplit(q, 0, r, start);
      FullRoundsAlike(q.p, ToVec(res[..]));
      ApplySbox(q.p, res);
      res := LinearLayerInto(q, res, r);
    }
    for r := HALF_FULL to HALF_FULL + PARTIAL_ROUNDS
      invariant fresh(res) && res.Length == WIDTH && ToVec(state[..]) == SboxLayer(q.p, 0, start)
      invariant ToVec(res[..]) == Rounds(q, 0, r, start)
    {
      RoundsSplit(q, 0, r, start);
      PartialRound(q.p, r, ToVec(res[..]));
      res[WIDTH - 1] := Sbox(q.p, res[WIDTH - 1]);
      res := LinearLayerInto(q, res, r);
    }
    for r := HALF_FULL + PARTIAL_ROUNDS to TOTAL_ROUNDS
      invariant fresh(res) && res.Length == WIDTH && ToVec(state[..]) == SboxLayer(q.p, 0, start)
      invariant ToVec(res[..]) == Rounds(q, 0, r, start)
    {
      RoundsSplit(q, 0, r, start);
      FullRoundsAlike(q.p, ToVec(res[..]));
      ApplySbox(q.p, res);
      res := LinearLayerInto(q, res, r);
    }
  }

  // ---------------------------------------------------------------- the sponge

  /** The chunk at the head of the input, added into the rate part of the register. */
  function AddChunk(p: int, register: Vec, inputs: seq<int>): Vec
    requires p >= 2
  {
    var a := if |inputs| > 0 then register.(x := Fields.Add(p, register.x, inputs[0])) else register;
    if |inputs| > 1 then a.(y := Fields.Add(p, a.y, inputs[1])) else a
  }

  function Tail(inputs: seq<int>): seq<int> {
    if |inputs| <= RATE then [] else inputs[RATE..]
  }

  /** Absorbing the remaining input, one chunk and one permutation at a time. */
  function Absorb(q: Params, register: Vec, inputs: seq<int>): Vec
    requires Usable(q)
    decreases |inputs|
  {
    if inputs == [] then register
    else Absorb(q, Permutation(q, AddChunk(q.p, register, inputs)), Tail(inputs))
  }

  /** The register at the end of a hash; its capacity part starts as the input length. */
  function FinalRegister(q: Params, inputs: seq<int>): Vec
    requires Usable(q)
  {
    Absorb(q, Vec(0, 0, |inputs| % q.p), inputs)
  }

  function HashOf(q: Params, inputs: seq<int>): int
    requires Usable(q)
  {
    FinalRegister(q, inputs).x
  }

  /** Chunk k as plain arithmetic: its one or two inputs are added in front, and the register is permuted. */
  ghost predicate IsChunk(q: Params, inputs: seq<int>, k: nat, s: Vec, t: Vec)
    requires Usable(q) && 2 * k < |inputs|
  {
    var x := (s.x + inputs[2 * k]) % q.p;
    var y := if 2 * k + 1 < |inputs| then (s.y + inputs[2 * k + 1]) % q.p else s.y;
    t == Permutation(q, Vec(x, y, s.z))
  }

  lemma FirstChunk(q: Params, register: Vec, inputs: seq<int>)
    requires Usable(q) && inputs != []
    ensures IsChunk(q, inputs, 0, register, Permutation(q, AddChunk(q.p, register, inputs)))
  {
    hide Permutation;
  }

  lemma ChunkOfTail(q: Params, inputs: seq<int>, k: nat, s: Vec, t: Vec)
    requires Usable(q) && 2 * k < |Tail(inputs)| && IsChunk(q, Tail(inputs), k, s, t)
    ensures |inputs| == |Tail(inputs)| + 2 && IsChunk(q, inputs, k + 1, s, t)
  {
    hide Permutation;
  }

  lemma {:induction false} AbsorbTrace(q: Params, register: Vec, inputs: seq<int>) returns (s: seq<Vec>)
    requires Usable(q)
    ensures |s| == (|inputs| + 1) / 2 + 1 && s[0] == register && s[|s| - 1] == Absorb(q, register, inputs)
    ensures forall k :: 0 <= k < |s| - 1 ==> IsChunk(q, inputs, k, s[k], s[k + 1])
    decreases |inputs|
  {
    hide Permutation, IsChunk, AddChunk;
    if inputs == [] {
      s := [register];
    } else {
      var rest := Tail(inputs);
      var tail := AbsorbTrace(q, Permutation(q, AddChunk(q.p, register, inputs)), rest);
      s := [register] + tail;
      FirstChunk(q, register, inputs);
      forall k: nat | k < |s| - 1 ensures IsChunk(q, inputs, k, s[k], s[k + 1]) {
        if k > 0 {
          ChunkOfTail(q, inputs, k - 1, tail[k - 1], tail[k]);
        }
      }
    }
  }

  /** The hash, chunk by chunk: the register starts as zeros with the input length behind them, and the first
      element of the last register is the digest. */
  lemma SpongeTrace(q: Params, inputs: seq<int>) returns (s: seq<Vec>)
    requires Usable(q)
    ensures |s| == (|inputs| + 1) / 2 + 1 && s[0] == Vec(0, 0, |inputs| % q.p)
    ensures forall k :: 0 <= k < |s| - 1 ==> IsChunk(q, inputs, k, s[k], s[k + 1])
    ensures s[|s| - 1] == FinalRegister(q, inputs) && s[|s| - 1].x == HashOf(q, inputs)
  {
    hide IsChunk, Permutation;
    s := AbsorbTrace(q, Vec(0, 0, |inputs| % q.p), inputs);
  }

  predicate AllInField(p: int, inputs: seq<int>) {
    forall k :: 0 <= k < |inputs| ==> Fields.InField(p, inputs[k])
  }

  lemma AddInjective(p: int, a: int, b: int, c: int)
    requires p >= 2 && Fields.InField(p, a) && Fields.InField(p, b)
    ensures Fields.Add(p, a, c) == Fields.Add(p, b, c) ==> a == b
    ensures Fields.Add(p, c, a) == Fields.Add(p, c, b) ==> a == b
  {
    if Fields.Add(p, a, c) == Fields.Add(p, b, c) {
      CongRefl(p, c);
      CongSub(p, a + c, b + c, c, c);
      CongEqual(p, a, b);
    }
  }

  lemma AddChunkInField(p: int, register: Vec, inputs: seq<int>)
    requires p >= 2 && InField(p, register)
    ensures InField(p, AddChunk(p, register, inputs))
  {
    if |inputs| > 0 { CongMod(p, register.x + inputs[0]); }
    if |inputs| > 1 { CongMod(p, register.y + inputs[1]); }
  }

  lemma AddChunkInjective(p: int, a: Vec, b: Vec, inputs: seq<int>)
    requires p >= 2 && InField(p, a) && InField(p, b) && a != b
    ensures AddChunk(p, a, inputs) != AddChunk(p, b, inputs)
  {
    hide Fields.Add;
    if |inputs| > 0 { AddInjective(p, a.x, b.x, inputs[0]); }
    if |inputs| > 1 { AddInjective(p, a.y, b.y, inputs[1]); }
  }

  lemma PermutationInjective(q: Params, e: nat, inv: Mat, a: Vec, b: Vec)
    requires Invertible(q, e, inv) && InField(q.p, a) && InField(q.p, b) && a != b
    ensures InField(q.p, Permutation(q, a)) && InField(q.p, Permutation(q, b))
    ensures Permutation(q, a) != Permutation(q, b)
  {
    PermutationBijective(q, e, inv, a);
    PermutationBijective(q, e, inv, b);
  }

  /** Different registers stay different however much common input follows. */
  lemma {:induction false} AbsorbInjective(q: Params, e: nat, inv: Mat, a: Vec, b: Vec, inputs: seq<int>)
    requires Invertible(q, e, inv) && InField(q.p, a) && InField(q.p, b) && a != b
    ensures Absorb(q, a, inputs) != Absorb(q, b, inputs)
    decreases |inputs|
  {
    hide Permutation, InField, AddChunk, IsPrime, ProductIsIdentity;
    if inputs == [] {
    } else {
      AddChunkInField(q.p, a, inputs);
      AddChunkInField(q.p, b, inputs);
      AddChunkInjective(q.p, a, b, inputs);
      PermutationInjective(q, e, inv, AddChunk(q.p, a, inputs), AddChunk(q.p, b, inputs));
      AbsorbInjective(q, e, inv, Permutation(q, AddChunk(q.p, a, inputs)), Permutation(q, AddChunk(q.p, b, inputs)), Tail(inputs));
    }
  }

  lemma FirstChunkDiffers(p: int, register: Vec, s: seq<int>, t: seq<int>)
    requires p >= 2 && |s| == |t| && AllInField(p, s) && AllInField(p, t) && s != t
    requires forall k :: 0 <= k < |s| && k / RATE != 0 ==> s[k] == t[k]
    ensures AddChunk(p, register, s) != AddChunk(p, register, t)
  {
    hide Fields.Add;
    var k :| 0 <= k < |s| && s[k] != t[k];
    AddInjective(p, s[k], t[k], if k == 0 then register.x else register.y);
  }

  lemma LaterChunk(p: int, s: seq<int>, t: seq<int>, c: nat)
    requires |s| == |t| && AllInField(p, s) && AllInField(p, t) && s != t && c > 0
    requires forall k :: 0 <= k < |s| && k / RATE != c ==> s[k] == t[k]
    ensures Tail(s) != Tail(t) && AllInField(p, Tail(s)) && AllInField(p, Tail(t))
    ensures forall k :: 0 <= k < |Tail(s)| && k / RATE != c - 1 ==> Tail(s)[k] == Tail(t)[k]
  {
    var m :| 0 <= m < |s| && s[m] != t[m];
    assert m / RATE == c && m >= RATE;
    assert Tail(s)[m - RATE] != Tail(t)[m - RATE];
    forall k | 0 <= k < |Tail(s)| && k / RATE != c - 1 ensures Tail(s)[k] == Tail(t)[k] {
      assert (k + RATE) / RATE == k / RATE + 1;
      assert s[k + RATE] == t[k + RATE];
    }
  }

  /** Inputs of equal length that differ, but only inside chunk c, leave different registers. */
  lemma {:induction false} OneChunkDiffers(q: Params, e: nat, inv: Mat, register: Vec, s: seq<int>, t: seq<int>, c: nat)
    requires Invertible(q, e, inv) && InField(q.p, register)
    requires |s| == |t| && AllInField(q.p, s) && AllInField(q.p, t) && s != t
    requires forall k :: 0 <= k < |s| && k / RATE != c ==> s[k] == t[k]
    ensures Absorb(q, register, s) != Absorb(q, register, t)
    decreases |s|
  {
    hide Permutation, InField, IsPrime, ProductIsIdentity, Fields.Add;
    var a, b := AddChunk(q.p, register, s), AddChunk(q.p, register, t);
    AddChunkInField(q.p, register, s);
    AddChunkInField(q.p, register, t);
    if c == 0 {
      FirstChunkDiffers(q.p, register, s, t);
      PermutationInjective(q, e, inv, a, b);
      assert Tail(s) == Tail(t);
      AbsorbInjective(q, e, inv, Permutation(q, a), Permutation(q, b), Tail(s));
    } else {
      assert a == b;
      PermutationBijective(q, e, inv, a);
      LaterChunk(q.p, s, t, c);
      OneChunkDiffers(q, e, inv, Permutation(q, a), Tail(s), Tail(t), c - 1);
    }
  }

  /** Two inputs of equal length that differ in exactly one rate chunk end with different registers. */
  lemma HashSeparatesOneChunk(q: Params, e: nat, inv: Mat, s: seq<int>, t: seq<int>, c: nat)
    requires Invertible(q, e, inv)
    requires |s| == |t| && AllInField(q.p, s) && AllInField(q.p, t) && s != t
    requires forall k :: 0 <= k < |s| && k / RATE != c ==> s[k] == t[k]
    ensures FinalRegister(q, s) != FinalRegister(q, t)
  {
    CongMod(q.p, |s|);
    OneChunkDiffers(q, e, inv, Vec(0, 0, |s| % q.p), s, t, c);
  }

  lemma {:induction false} RoundsStay(q: Params, r: nat, n: nat, v: Vec)
    requires Usable(q) && InField(q.p, v)
    ensures InField(q.p, Rounds(q, r, n, v))
    decreases n - r
  {
    if r >= n {
    } else {
      ReduceCong(q.p, Plus(Apply(q.mds, SboxLayer(q.p, r, v)), NextConstants(q, r)));
      RoundsStay(q, r + 1, n, Round(q, r, v));
    }
  }

  /** The permutation never leaves the field, whatever the table and the matrix. */
  lemma PermutationStays(q: Params, v: Vec)
    requires Usable(q)
    ensures InField(q.p, Permutation(q, v))
  {
    hide Rounds;
    ReduceCong(q.p, Plus(v, q.constants[0]));
    RoundsStay(q, 0, TOTAL_ROUNDS, AddConstants(q, v));
  }

  lemma PaddedChunk(q: Params, register: Vec, x: int)
    requires Usable(q) && InField(q.p, register)
    ensures Absorb(q, register, [x]) == Absorb(q, register, [x, 0])
  {
    hide Permutation;
    RemainderUnique(q.p, register.y, 0, register.y);
    assert AddChunk(q.p, register, [x]) == AddChunk(q.p, register, [x, 0]);
    assert Tail([x]) == [] && Tail([x, 0]) == [];
  }

  lemma AddChunkPadded(p: int, register: Vec, s: seq<int>)
    requires p >= 2 && |s| >= RATE
    ensures AddChunk(p, register, s + [0]) == AddChunk(p, register, s)
  {
  }

  /** A zero that completes the last chunk leaves no trace in the absorbing. */
  lemma {:induction false} PaddingIsAbsorbed(q: Params, register: Vec, s: seq<int>)
    requires Usable(q) && InField(q.p, register) && |s| % RATE == 1
    ensures Absorb(q, register, s) == Absorb(q, register, s + [0])
    decreases |s|
  {
    hide Permutation, InField, AddChunk;
    if |s| == 1 {
      assert s == [s[0]] && s + [0] == [s[0], 0];
      PaddedChunk(q, register, s[0]);
    } else {
      var next := Permutation(q, AddChunk(q.p, register, s));
      AddChunkPadded(q.p, register, s);
      PermutationStays(q, AddChunk(q.p, register, s));
      assert Tail(s + [0]) == Tail(s) + [0];
      PaddingIsAbsorbed(q, next, Tail(s));
    }
  }

  lemma NextResidue(p: int, n: int)
    requires p >= 2
    ensures n % p != (n + 1) % p
  {
    var q, r := n / p, n % p;
    assert n == q * p + r;
    if r + 1 < p {
      RemainderUnique(p, n + 1, q, r + 1);
    } else {
      RemainderUnique(p, n + 1, q + 1, 0);
    }
  }

  /** But the length in the capacity tells the padded input from the bare one: their registers differ. */
  lemma PaddingIsSeparated(q: Params, e: nat, inv: Mat, s: seq<int>)
    requires Invertible(q, e, inv) && |s| % RATE == 1
    ensures FinalRegister(q, s) != FinalRegister(q, s + [0])
  {
    hide Absorb, ProductIsIdentity, IsPrime;
    var n := |s|;
    CongMod(q.p, n);
    CongMod(q.p, n + 1);
    NextResidue(q.p, n);
    PaddingIsAbsorbed(q, Vec(0, 0, (n + 1) % q.p), s);
    AbsorbInjective(q, e, inv, Vec(0, 0, n % q.p), Vec(0, 0, (n + 1) % q.p), s);
  }

  /** The sponge loop: each chunk is added into the register list, which the permutation replaces. */
  method Hash(q: Params, inputs: seq<int>) returns (digest: int)
    requires Usable(q)
    ensures digest == HashOf(q, inputs)
  {
    hide Permutation;
    var register := new int[WIDTH](k => if k == 2 then |inputs| % q.p else 0);
    assert ToVec(register[..]) == Vec(0, 0, |inputs| % q.p);
    CongMod(q.p, |inputs|);
    var i := 0;
    while i < |inputs|
      invariant 0 <= i && fresh(register) && register.Length == WIDTH && InField(q.p, ToVec(register[..]))
      invariant Absorb(q, ToVec(register[..]), if i <= |inputs| then inputs[i..] else []) == FinalRegister(q, inputs)
      decreases |inputs| - i
    {
      ghost var rest, before := inputs[i..], ToVec(register[..]);
      var chunk := inputs[i..if i + RATE <= |inputs| then i + RATE else |inputs|];
      for j := 0 to |chunk|
        invariant forall k :: 0 <= k < j ==> register[k] == Fields.Add(q.p, before.At(k), chunk[k])
        invariant forall k :: j <= k < WIDTH ==> register[k] == before.At(k)
      {
        register[j] := Fields.Add(q.p, register[j], chunk[j]);
      }
      assert ToVec(register[..]) == AddChunk(q.p, before, rest);
      AddChunkInField(q.p, before, rest);
      PermutationStays(q, ToVec(register[..]));
      register := Permute(q, register);
      assert Tail(rest) == if i + RATE <= |inputs| then inputs[i + RATE..] else [];
      i := i + RATE;
    }
    digest := register[0];
  }
}

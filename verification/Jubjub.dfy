/** Scalar multiplication and compression of curve points. */
module Jubjub {
  import opened Basics
  import opened ModArith
  import opened Curves
  import Fields

  // ---------------------------------------------------------------- double-and-add

  /** add is associative with a neutral element on the carrier, which it does not leave. */
  ghost predicate Monoid<T(!new)>(add: (T, T) -> T, zero: T, on: T -> bool) {
    && on(zero)
    && (forall x, y :: on(x) && on(y) ==> on(add(x, y)))
    && (forall x :: on(x) ==> add(zero, x) == x && add(x, zero) == x)
    && (forall x, y, z :: on(x) && on(y) && on(z) ==> add(add(x, y), z) == add(x, add(y, z)))
  }

  lemma MonoidClosed<T(!new)>(add: (T, T) -> T, zero: T, on: T -> bool, x: T, y: T)
    requires Monoid(add, zero, on) && on(x) && on(y)
    ensures on(zero) && on(add(x, y)) && add(zero, x) == x && add(x, zero) == x
  {
  }

  lemma MonoidAssociates<T(!new)>(add: (T, T) -> T, zero: T, on: T -> bool, x: T, y: T, z: T)
    requires Monoid(add, zero, on) && on(x) && on(y) && on(z)
    ensures add(add(x, y), z) == add(x, add(y, z))
  {
  }

  /** x added to itself n times. */
  ghost function NFold<T>(add: (T, T) -> T, zero: T, x: T, n: nat): T {
    if n == 0 then zero else add(x, NFold(add, zero, x, n - 1))
  }

  lemma {:induction false} NFoldOn<T(!new)>(add: (T, T) -> T, zero: T, on: T -> bool, x: T, n: nat)
    requires Monoid(add, zero, on) && on(x)
    ensures on(NFold(add, zero, x, n))
  {
    hide Monoid;
    MonoidClosed(add, zero, on, x, x);
    if n == 0 {
    } else {
      NFoldOn(add, zero, on, x, n - 1);
      MonoidClosed(add, zero, on, x, NFold(add, zero, x, n - 1));
    }
  }

  /** Folding twice as often is folding the doubled element. */
  lemma {:induction false} NFoldDouble<T(!new)>(add: (T, T) -> T, zero: T, on: T -> bool, x: T, k: nat)
    requires Monoid(add, zero, on) && on(x)
    ensures NFold(add, zero, x, 2 * k) == NFold(add, zero, add(x, x), k)
  {
    hide Monoid;
    if k == 0 {
    } else {
      NFoldDouble(add, zero, on, x, k - 1);
      var rest := NFold(add, zero, x, 2 * (k - 1));
      NFoldOn(add, zero, on, x, 2 * (k - 1));
      MonoidAssociates(add, zero, on, x, x, rest);
      assert NFold(add, zero, x, 2 * k - 1) == add(x, rest);
    }
  }

  /** One round of the loop: the bit moves into res and temp doubles. */
  lemma DoubleAndAddStep<T(!new)>(add: (T, T) -> T, zero: T, on: T -> bool, res: T, temp: T, n: nat)
    requires Monoid(add, zero, on) && on(res) && on(temp) && n > 0
    ensures on(add(temp, temp)) && on(add(res, temp))
    ensures add(res, NFold(add, zero, temp, n))
         == add(if n % 2 == 1 then add(res, temp) else res, NFold(add, zero, add(temp, temp), n / 2))
  {
    hide Monoid;
    var k := n / 2;
    NFoldDouble(add, zero, on, temp, k);
    NFoldOn(add, zero, on, temp, 2 * k);
    MonoidClosed(add, zero, on, temp, temp);
    MonoidClosed(add, zero, on, res, temp);
    if n % 2 == 1 {
      MonoidAssociates(add, zero, on, res, temp, NFold(add, zero, temp, 2 * k));
    }
  }

  /** Double-and-add over the bits of the scalar computes the n-fold sum. */
  method DoubleAndAdd<T(!new)>(add: (T, T) -> T, zero: T, ghost on: T -> bool, x: T, scalar: nat) returns (res: T)
    requires Monoid(add, zero, on) && on(x)
    ensures on(res) && res == NFold(add, zero, x, scalar)
  {
    hide Monoid;
    res := zero;
    var temp, n := x, scalar;
    NFoldOn(add, zero, on, x, scalar);
    MonoidClosed(add, zero, on, NFold(add, zero, x, scalar), x);
    while n > 0
      invariant on(res) && on(temp)
      invariant add(res, NFold(add, zero, temp, n)) == NFold(add, zero, x, scalar)
    {
      DoubleAndAddStep(add, zero, on, res, temp, n);
      if n % 2 == 1 {
        res := add(res, temp);
      }
      temp := add(temp, temp);
      n := n / 2;
    }
    MonoidClosed(add, zero, on, res, res);
  }

  ghost predicate AddAssociates(p: int, d: int)
    requires p >= 2
  {
    forall a, b, c :: OnCurve(p, d, a) && OnCurve(p, d, b) && OnCurve(p, d, c) ==>
      Add(p, d, Add(p, d, a, b), c) == Add(p, d, a, Add(p, d, b, c))
  }

  /** The four points of the curve modulo 5 with coefficient 2, as a cycle. */
  function SmallPoint(i: nat): Point {
    if i % 4 == 0 then Point(0, 1) else if i % 4 == 1 then Point(2, 0) else if i % 4 == 2 then Point(0, 4) else Point(3, 0)
  }

  predicate SmallSquare(x: int) {
    x == 0 || x == 1 || x == 4 || x == 9 || x == 16
  }

  lemma SmallDefect(x: int, y: int)
    requires SmallSquare(x) && SmallSquare(y) && (y - x - (1 + 2 * (x * y))) % 5 == 0
    ensures (x == 0 && (y == 1 || y == 16)) || ((x == 4 || x == 9) && y == 0)
  {
    if x == 0 {} else if x == 1 {} else if x == 4 {} else if x == 9 {} else {}
  }

  lemma SmallRoot(u: int)
    requires 0 <= u < 5
    ensures SmallSquare(Square(u))
    ensures (Square(u) == 0 ==> u == 0) && (Square(u) == 1 ==> u == 1) && (Square(u) == 4 ==> u == 2)
         && (Square(u) == 9 ==> u == 3) && (Square(u) == 16 ==> u == 4)
  {
    if u == 0 {} else if u == 1 {} else if u == 2 {} else if u == 3 {} else {}
  }

  lemma DefectOfSquares(a: Point)
    requires OnCurve(5, 2, a)
    ensures (Square(a.v) - Square(a.u) - (1 + 2 * (Square(a.u) * Square(a.v)))) % 5 == 0
  {
    hide Square;
  }

  lemma SmallPoints(a: Point) returns (i: nat)
    requires OnCurve(5, 2, a)
    ensures i < 4 && a == SmallPoint(i)
  {
    hide Square, Cong, Defect;
    DefectOfSquares(a);
    SmallRoot(a.u);
    SmallRoot(a.v);
    SmallDefect(Square(a.u), Square(a.v));
    i := if a.u == 2 then 1 else if a.u == 3 then 3 else if a.v == 4 then 2 else 0;
  }

  lemma CommonOnAxis(a: Point, b: Point)
    requires a.u * a.v == 0
    ensures Common(5, 2, a, b) == 0
  {
    hide Common;
    CommonValue(5, 2, a, b);
  }

  lemma ProductsReduced(a: int, b: int, c: int, e: int)
    ensures Fields.Add(5, Fields.Mul(5, a, b), Fields.Mul(5, c, e)) == (a * b + c * e) % 5
  {
    SumOfProducts(5, a, b, c, e);
  }

  lemma SumOnAxis(a: Point, b: Point)
    requires a.u * a.v == 0
    ensures Add(5, 2, a, b) == Point((a.u * b.v + a.v * b.u) % 5, (a.v * b.v + a.u * b.u) % 5)
  {
    CommonOnAxis(a, b);
    ProductsReduced(a.u, b.v, a.v, b.u);
    ProductsReduced(a.v, b.v, a.u, b.u);
    hide Fields.Div, Fields.Mul, Common;
    Fields.DivOne(5, (a.u * b.v + a.v * b.u) % 5);
    Fields.DivOne(5, (a.v * b.v + a.u * b.u) % 5);
  }

  lemma SmallSum(i: nat, j: nat)
    requires i < 4 && j < 4
    ensures Add(5, 2, SmallPoint(i), SmallPoint(j)) == SmallPoint(i + j)
  {
    hide Add;
    SumOnAxis(SmallPoint(i), SmallPoint(j));
    if i == 0 {} else if i == 1 {} else if i == 2 {} else {}
  }

  lemma SmallCycle(i: nat, j: nat)
    ensures Add(5, 2, SmallPoint(i), SmallPoint(j)) == SmallPoint(i + j)
  {
    hide Add;
    SmallSum(i % 4, j % 4);
    assert (i % 4 + j % 4) % 4 == (i + j) % 4;
  }

  /** Addition does associate on a curve of the required kind: modulo 5 with coefficient 2. */
  lemma SmallCurveAssociates()
    ensures Parameters(5, 2, 2) && AddAssociates(5, 2)
  {
    SmallCurve();
    hide Add, OnCurve, Parameters, SmallPoint;
    forall a, b, c | OnCurve(5, 2, a) && OnCurve(5, 2, b) && OnCurve(5, 2, c)
      ensures Add(5, 2, Add(5, 2, a, b), c) == Add(5, 2, a, Add(5, 2, b, c))
    {
      var i := SmallPoints(a);
      var j := SmallPoints(b);
      var k := SmallPoints(c);
      SmallCycle(i, j);
      SmallCycle(j, k);
      SmallCycle(i + j, k);
      SmallCycle(i, j + k);
    }
  }

  function Adder(p: int, d: int): (Point, Point) -> Point
    requires p >= 2
  {
    (a, b) => Add(p, d, a, b)
  }

  ghost function Carrier(p: int, d: int): Point -> bool
    requires p >= 2
  {
    a => OnCurve(p, d, a)
  }

  /** The curve with its unified addition is such a monoid; only associativity is a hypothesis. */
  lemma CurveMonoid(p: int, d: int, i: int)
    requires Parameters(p, d, i) && AddAssociates(p, d)
    ensures Monoid(Adder(p, d), IDENTITY, Carrier(p, d))
  {
    var add, on := Adder(p, d), Carrier(p, d);
    IdentityOnCurve(p, d);
    forall a, b | on(a) && on(b) ensures on(add(a, b)) { AddClosed(p, d, i, a, b); }
    forall a | on(a) ensures add(IDENTITY, a) == a && add(a, IDENTITY) == a { AddIdentity(p, d, a); }
    forall a, b, c | on(a) && on(b) && on(c) ensures add(add(a, b), c) == add(a, add(b, c)) {
      assert OnCurve(p, d, a) && OnCurve(p, d, b) && OnCurve(p, d, c);
    }
  }

  method ScalarMul(p: int, d: int, ghost i: int, a: Point, scalar: nat) returns (r: Point)
    requires Parameters(p, d, i) && AddAssociates(p, d) && OnCurve(p, d, a)
    ensures OnCurve(p, d, r) && r == NFold(Adder(p, d), IDENTITY, a, scalar)
  {
    CurveMonoid(p, d, i);
    r := DoubleAndAdd(Adder(p, d), IDENTITY, Carrier(p, d), a, scalar);
  }

  // ---------------------------------------------------------------- compression

  /** Setting the top bit of a byte. */
  function SetTopBit(b: Byte): Byte {
    if b < 128 then b + 128 else b
  }

  /** v in little-endian order, with the parity of u in the highest bit. */
  function Compress(a: Point): Bytes {
    var vBytes := LeBytes(a.v, 32);
    if a.u % 2 == 1 then vBytes[31 := SetTopBit(vBytes[31])] else vBytes
  }

  method ToBytes(a: Point) returns (r: Bytes)
    ensures r == Compress(a)
  {
    hide LeBytes;
    var vBytes, uBytes := LeBytes(a.v, 32), LeBytes(a.u, 32);
    LowByteParity(a.u, 32);
    var buffer := new Byte[32](k requires 0 <= k < 32 => vBytes[k]);
    assert buffer[..] == vBytes;
    if uBytes[0] % 2 == 1 {
      buffer[31] := SetTopBit(buffer[31]);
    }
    r := buffer[..];
  }

  lemma {:induction false} LastByteValue(s: Bytes, b: Byte)
    requires s != []
    ensures LeValue(s[|s| - 1 := b]) == LeValue(s) + Pow2(8 * (|s| - 1)) * (b - s[|s| - 1])
  {
    if |s| == 1 {
      assert s[0 := b] == [b] && s == [s[0]] && [b][1..] == [] && s[1..] == [];
    } else {
      var t := s[1..];
      assert s[|s| - 1 := b][1..] == t[|t| - 1 := b];
      LastByteValue(t, b);
      Pow2Byte(|t| - 1);
      MulAssoc(256, Pow2(8 * (|t| - 1)), b - s[|s| - 1]);
      Distribute(256, LeValue(t), Pow2(8 * (|t| - 1)) * (b - s[|s| - 1]));
    }
  }

  lemma SeventhPower()
    ensures Pow2(7) == 128
  {
  }

  /** As a number, the compressed form is v plus 2^255 for an odd u. */
  lemma CompressValue(a: Point)
    requires 0 <= a.v < Pow2(255)
    ensures |Compress(a)| == 32 && LeValue(Compress(a)) == a.v + Pow2(255) * (a.u % 2)
  {
    hide LeBytes, LeValue, Pow2;
    var s := LeBytes(a.v, 32);
    TopBitFree(a.v, 32);
    Pow2Monotone(255, 256);
    LeValueOfBytes(a.v, 32);
    LastByteValue(s, SetTopBit(s[31]));
    Pow2Add(248, 7);
    SeventhPower();
  }

  /** The last byte carries the parity; the others, and the rest of the last one, carry v. */
  lemma CompressParts(a: Point, b: Point)
    requires Compress(a) == Compress(b)
    requires 0 <= a.v < Pow2(255) && 0 <= b.v < Pow2(255)
    ensures a.v == b.v && a.u % 2 == b.u % 2
  {
    hide LeBytes, Pow2;
    var av, bv := LeBytes(a.v, 32), LeBytes(b.v, 32);
    TopBitFree(a.v, 32);
    TopBitFree(b.v, 32);
    assert Compress(a)[31] == Compress(b)[31];
    assert forall k :: 0 <= k < 31 ==> Compress(a)[k] == av[k] && Compress(b)[k] == bv[k];
    assert av == bv;
    Pow2Monotone(255, 256);
    LeBytesInjective(a.v, b.v, 32);
  }

  lemma MinusOne(p: int)
    requires p >= 2
    ensures !Cong(p, 0, -1)
  {
    RemainderUnique(p, -1, -1, p - 1);
    RemainderUnique(p, 0, 0, 0);
  }

  /** 1 + d v^2 never vanishes: it would make d a square. */
  lemma VDenominator(p: int, d: int, i: int, v: int)
    requires Parameters(p, d, i)
    ensures !Cong(p, 1 + d * Square(v), 0)
  {
    if Cong(p, 1 + d * Square(v), 0) {
      hide Cong;
      CongZero(p, d * Square(v), -1);
      CongTrans(p, Square(i), -1, d * Square(v));
      NonSquare(p, d, i, i, v);
      ZeroMul(p, v, v);
      ZeroMul(p, Square(v), d);
      CongTrans(p, 0, d * Square(v), -1);
      CongSub(p, 0, -1, 0, 0);
      MinusOne(p);
    }
  }

  lemma SquareDifference(a: int, b: int)
    ensures (a - b) * (a + b) == Square(a) - Square(b)
  {
  }

  lemma DefectByU(d: int, u: int, v: int)
    ensures Defect(d, u, v) == Square(v) - 1 - (1 + d * Square(v)) * Square(u)
  {
    MulSwap(d, Square(u), Square(v));
    MulSwap(Square(u), d, Square(v));
  }

  /** On the curve v fixes u up to sign. */
  lemma SameVSameSquare(p: int, d: int, i: int, u1: int, u2: int, v: int)
    requires Parameters(p, d, i) && Cong(p, Defect(d, u1, v), 0) && Cong(p, Defect(d, u2, v), 0)
    ensures Cong(p, u1 - u2, 0) || Cong(p, u1 + u2, 0)
  {
    VDenominator(p, d, i, v);
    DefectByU(d, u1, v);
    DefectByU(d, u2, v);
    SquareDifference(u1, u2);
    hide Cong, Defect, Square;
    var w, s1, s2 := 1 + d * Square(v), Square(u1), Square(u2);
    CongSub(p, Defect(d, u2, v), 0, Defect(d, u1, v), 0);
    DistributeSub(w, s1, s2);
    NoZeroDivisors(p, w, s1 - s2);
    NoZeroDivisors(p, u1 - u2, u1 + u2);
  }

  /** In an odd field, parity tells an element from its negation. */
  lemma SignByParity(p: int, a: int, b: int)
    requires IsPrime(p) && p > 2 && 0 <= a < p && 0 <= b < p && a % 2 == b % 2
    requires Cong(p, a - b, 0) || Cong(p, a + b, 0)
    ensures a == b
  {
    assert p % 2 != 0;
    RemainderUnique(p, 0, 0, 0);
    if Cong(p, a - b, 0) {
      CongZero(p, a, b);
      CongEqual(p, a, b);
    } else if a + b < p {
      RemainderUnique(p, a + b, 0, a + b);
    } else {
      RemainderUnique(p, a + b, 1, a + b - p);
    }
  }

  /** Compression loses nothing: two points of the curve with the same bytes are the same point. */
  lemma CompressInjective(p: int, d: int, i: int, a: Point, b: Point)
    requires Parameters(p, d, i) && p < Pow2(255)
    requires OnCurve(p, d, a) && OnCurve(p, d, b)
    ensures Compress(a) == Compress(b) <==> a == b
  {
    hide Compress, Defect, Cong, Pow2;
    if Compress(a) == Compress(b) {
      CompressParts(a, b);
      SameVSameSquare(p, d, i, a.u, b.u, a.v);
      SignByParity(p, a.u, b.u);
    }
  }
}

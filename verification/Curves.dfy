/** The twisted Edwards curve -u^2 + v^2 = 1 + d u^2 v^2 and its addition. */
module Curves {
  import opened ModArith
  import Fields

  datatype Point = Point(u: int, v: int)

  const IDENTITY := Point(0, 1)

  function Square(x: int): int {
    x * x
  }

  /** What the curve parameters promise: p is an odd prime, i is a square root of -1, and d is
      not a square. */
  ghost predicate Parameters(p: int, d: int, i: int) {
    && IsPrime(p) && p > 2
    && Fields.InField(p, d)
    && Cong(p, i * i, -1)
    && forall x :: !Cong(p, Square(x), d)
  }

  predicate InPlane(p: int, a: Point) {
    Fields.InField(p, a.u) && Fields.InField(p, a.v)
  }

  /** The defect of the curve equation: zero modulo p exactly for the points of the curve. */
  function Defect(d: int, u: int, v: int): int {
    Square(v) - Square(u) - (1 + d * (Square(u) * Square(v)))
  }

  ghost predicate OnCurve(p: int, d: int, a: Point)
    requires p > 0
  {
    InPlane(p, a) && Cong(p, Defect(d, a.u, a.v), 0)
  }

  function Common(p: int, d: int, a: Point, b: Point): int
    requires p >= 2
  {
    Fields.Mul(p, Fields.Mul(p, Fields.Mul(p, Fields.Mul(p, d, a.u), b.u), a.v), b.v)
  }

  /** The unified addition, written as field operations. */
  function Add(p: int, d: int, a: Point, b: Point): Point
    requires p >= 2
  {
    var common := Common(p, d, a, b);
    var nu := Fields.Add(p, Fields.Mul(p, a.u, b.v), Fields.Mul(p, a.v, b.u));
    var nv := Fields.Add(p, Fields.Mul(p, a.v, b.v), Fields.Mul(p, a.u, b.u));
    Point(Fields.Div(p, nu, Fields.Add(p, 1, common)), Fields.Div(p, nv, Fields.Sub(p, 1, common)))
  }

  /** Such parameters exist: modulo 5, 2 squares to -1 and is no square itself. */
  lemma SmallCurve()
    ensures Parameters(5, 2, 2)
  {
    forall x ensures !Cong(5, Square(x), 2) {
      var r := x % 5;
      CongMod(5, x);
      CongMul(5, r, x, r, x);
      assert r == 0 || r == 1 || r == 2 || r == 3 || r == 4;
    }
  }

  // ---------------------------------------------------------------- ideal membership

  /** A multiple of something that vanishes vanishes. */
  lemma ZeroMul(p: int, a: int, k: int)
    requires p > 0 && Cong(p, a, 0)
    ensures Cong(p, a * k, 0) && Cong(p, k * a, 0)
  {
    CongRefl(p, k);
    CongMul(p, a, 0, k, k);
  }

  lemma CongZero(p: int, a: int, b: int)
    requires p > 0
    ensures Cong(p, a, b) <==> Cong(p, a - b, 0)
  {
    CongRefl(p, b);
    if Cong(p, a, b) {
      CongSub(p, a, b, b, b);
    }
    if Cong(p, a - b, 0) {
      CongAdd(p, a - b, 0, b, b);
    }
  }

  lemma OneIsNotZero(p: int)
    requires p >= 2
    ensures !Cong(p, 1, 0)
  {
    RemainderUnique(p, 1, 0, 1);
    RemainderUnique(p, 0, 0, 0);
  }

  lemma SquareOfProduct(a: int, b: int)
    ensures Square(a * b) == Square(a) * Square(b)
  {
    MulExchange(a, b, a, b);
  }

  lemma InverseOf(p: int, a: int) returns (x: int)
    requires IsPrime(p) && !Cong(p, a, 0)
    ensures Cong(p, a * x, 1)
  {
    CongMod(p, a);
    ResidueNonzero(p, a);
    x := Inverse(p, a % p);
    CongRefl(p, x);
    CongMul(p, a % p, a, x, x);
  }

  /** If n^2 = d m^2 for a non-square d, then m vanishes. */
  lemma NonSquare(p: int, d: int, i: int, n: int, m: int)
    requires Parameters(p, d, i) && Cong(p, Square(n), d * Square(m))
    ensures Cong(p, m, 0)
  {
    if !Cong(p, m, 0) {
      var w := InverseOf(p, m);
      hide Cong;
      CongMul(p, m * w, 1, m * w, 1);
      CongRefl(p, Square(w));
      CongMul(p, Square(n), d * Square(m), Square(w), Square(w));
      CongRefl(p, d);
      CongMul(p, d, d, Square(m * w), 1);
      SquareOfProduct(n, w);
      SquareOfProduct(m, w);
      MulAssoc(d, Square(m), Square(w));
      CongTrans(p, Square(n * w), d * Square(m * w), d);
    }
  }

  // ---------------------------------------------------------------- completeness

  lemma SquareOfSum(a: int, b: int)
    ensures Square(a + b) == Square(a) + Square(b) + 2 * (a * b)
  {
    Distribute(a + b, a, b);
    Distribute(a, a, b);
    Distribute(b, a, b);
  }

  /** (i x + s y)^2 = y^2 - x^2 + 2 i s x y when i^2 = -1 and s^2 = 1. */
  lemma RootSum(p: int, i: int, s: int, x: int, y: int)
    requires p > 0 && Cong(p, i * i, -1) && s * s == 1
    ensures Cong(p, Square(i * x + s * y), Square(y) - Square(x) + 2 * ((i * s) * (x * y)))
  {
    hide Cong;
    SquareOfSum(i * x, s * y);
    MulExchange(i, x, i, x);
    MulExchange(s, y, s, y);
    MulExchange(i, x, s, y);
    CongRefl(p, Square(x));
    CongMul(p, i * i, -1, Square(x), Square(x));
    var rest := Square(y) + 2 * ((i * s) * (x * y));
    CongRefl(p, rest);
    CongAdd(p, (i * i) * Square(x), -1 * Square(x), rest, rest);
  }

  lemma LeftSideSum(p: int, d: int, x: int, y: int, n: int, f: int, cross: int)
    requires p > 0 && Cong(p, Defect(d, x, y), 0)
    requires Cong(p, n, f - Square(x) + cross) && Cong(p, f, Square(y))
    ensures Cong(p, n, d * Square(x * y) + 1 + cross)
  {
    hide Cong, Square;
    SquareOfProduct(x, y);
    var rest := cross - Square(x);
    CongRefl(p, rest);
    CongAdd(p, f, Square(y), rest, rest);
    var left := d * Square(x * y) + 1 + cross;
    CongRefl(p, left);
    CongAdd(p, Defect(d, x, y), 0, left, left);
    CongTrans(p, n, f + rest, Square(y) + rest);
    CongTrans(p, n, Square(y) + rest, left);
  }

  lemma LeftSide(p: int, d: int, i: int, s: int, x: int, y: int, e: int)
    requires p > 0 && Cong(p, i * i, -1) && s * s == 1 && Cong(p, Square(e), 1)
    requires Cong(p, Defect(d, x, y), 0)
    ensures Cong(p, Square(i * x + s * (e * y)), d * Square(x * y) + 1 + 2 * (i * s) * (e * (x * y)))
  {
    hide Cong, Square;
    var ey, k, m := e * y, i * s, x * y;
    RootSum(p, i, s, x, ey);
    MulSwap(x, e, y);
    var cross := 2 * (k * (e * m));
    MulAssoc(2, k, e * m);
    SquareOfProduct(e, y);
    CongRefl(p, Square(y));
    CongMul(p, Square(e), 1, Square(y), Square(y));
    var n := Square(i * x + s * ey);
    LeftSideSum(p, d, x, y, n, Square(ey), cross);
  }

  lemma RightSide(d: int, m1: int, m2: int, t: int, e: int)
    requires e == d * (m1 * m2)
    ensures (d * Square(m1)) * (d * Square(m2) + 1 + t * m2) == d * Square(m1) + e * e + t * (e * m1)
  {
    var g1 := d * Square(m1);
    Distribute(g1, 1 + d * Square(m2), t * m2);
    Distribute(g1, 1, d * Square(m2));
    // g1 * (d m2^2) = e^2
    MulExchange(d, Square(m1), d, Square(m2));
    MulExchange(d, m1 * m2, d, m1 * m2);
    SquareOfProduct(m1, m2);
    // g1 * (t m2) = t e m1
    MulSwap(g1, t, m2);
    MulAssoc(d, Square(m1), m2);
    MulAssoc(m1, m1, m2);
    MulAssoc(d, m1 * m2, m1);
  }

  /** If e = d x1 x2 y1 y2 squares to one, then (i x1 + s e y1)^2 = d (x1 y1 (i x2 + s y2))^2. */
  lemma SquareIdentity(p: int, d: int, i: int, s: int, x1: int, y1: int, x2: int, y2: int, e: int)
    requires p > 0 && Cong(p, i * i, -1) && s * s == 1
    requires e == d * ((x1 * y1) * (x2 * y2)) && Cong(p, e * e, 1)
    requires Cong(p, Defect(d, x1, y1), 0) && Cong(p, Defect(d, x2, y2), 0)
    ensures Cong(p, Square(i * x1 + s * (e * y1)), d * Square((x1 * y1) * (i * x2 + s * y2)))
  {
    assert Square(1) == 1 && Square(e) == e * e;
    hide Cong, Square, Defect;
    var m1, m2, t := x1 * y1, x2 * y2, 2 * (i * s);
    var g, n1, n2 := d * Square(m1), i * x1 + s * (e * y1), i * x2 + s * y2;
    var r := d * Square(m2) + 1 + t * m2;
    CongRefl(p, 1);
    LeftSide(p, d, i, s, x1, y1, e);
    LeftSide(p, d, i, s, x2, y2, 1);
    CongRefl(p, g);
    CongMul(p, g, g, Square(n2), r);
    RightSide(d, m1, m2, t, e);
    var rest := g + t * (e * m1);
    CongRefl(p, rest);
    CongAdd(p, e * e, 1, rest, rest);
    CongTrans(p, g * Square(n2), rest + e * e, rest + 1);
    SquareOfProduct(m1, n2);
    MulAssoc(d, Square(m1), Square(n2));
    CongTrans(p, Square(n1), rest + 1, g * Square(n2));
  }

  /** m1 (w + y2) = m1 (w - y2) = 0 forces d m1 x2 y2 = 0 when 2 is invertible. */
  lemma BothRootsVanish(p: int, d: int, m1: int, w: int, x2: int, y2: int)
    requires IsPrime(p) && p > 2
    requires Cong(p, m1 * (w + y2), 0) && Cong(p, m1 * (w - y2), 0)
    ensures Cong(p, d * (m1 * (x2 * y2)), 0)
  {
    CongSub(p, m1 * (w + y2), 0, m1 * (w - y2), 0);
    Distribute(m1, w, y2);
    Distribute(m1, w, -y2);
    assert m1 * (w + y2) - m1 * (w - y2) == 2 * (m1 * y2);
    NoZeroDivisors(p, 2, m1 * y2);
    RemainderUnique(p, 2, 0, 2);
    RemainderUnique(p, 0, 0, 0);
    ZeroMul(p, m1 * y2, x2);
    MulSwap(m1, x2, y2);
    ZeroMul(p, m1 * (x2 * y2), d);
  }

  lemma UnitSquare(p: int, e: int)
    requires p >= 2 && (Cong(p, 1 + e, 0) || Cong(p, 1 - e, 0))
    ensures Cong(p, e * e, 1) && !Cong(p, e, 0)
  {
    assert 1 - e * e == (1 + e) * (1 - e);
    if Cong(p, 1 + e, 0) { ZeroMul(p, 1 + e, 1 - e); } else { ZeroMul(p, 1 - e, 1 + e); }
    CongZero(p, 1, e * e);
    OneIsNotZero(p);
    if Cong(p, e, 0) {
      ZeroMul(p, e, e);
    }
  }

  /** The addition law is complete: neither denominator can vanish. */
  lemma Complete(p: int, d: int, i: int, x1: int, y1: int, x2: int, y2: int)
    requires Parameters(p, d, i)
    requires Cong(p, Defect(d, x1, y1), 0) && Cong(p, Defect(d, x2, y2), 0)
    ensures !Cong(p, 1 + d * ((x1 * y1) * (x2 * y2)), 0) && !Cong(p, 1 - d * ((x1 * y1) * (x2 * y2)), 0)
  {
    var m1, m2 := x1 * y1, x2 * y2;
    var e := d * (m1 * m2);
    if Cong(p, 1 + e, 0) || Cong(p, 1 - e, 0) {
      hide Cong;
      UnitSquare(p, e);
      SquareIdentity(p, d, i, 1, x1, y1, x2, y2, e);
      NonSquare(p, d, i, i * x1 + e * y1, m1 * (i * x2 + y2));
      SquareIdentity(p, d, i, -1, x1, y1, x2, y2, e);
      NonSquare(p, d, i, i * x1 - e * y1, m1 * (i * x2 - y2));
      BothRootsVanish(p, d, m1, i * x2, x2, y2);
    }
  }

  // ---------------------------------------------------------------- closure

  function Spread(x: int, y: int): int {
    Square(y) - Square(x)
  }

  function Norm(x: int, y: int): int {
    Square(x) + Square(y)
  }

  /** Squares of the two numerators, by their difference and their sum. */
  lemma Numerators(x1: int, y1: int, x2: int, y2: int)
    ensures var m := (x1 * y1) * (x2 * y2); var X, Y := x1 * y2 + y1 * x2, y1 * y2 + x1 * x2;
            && Square(X) == Square(x1) * Square(y2) + Square(y1) * Square(x2) + 2 * m
            && Square(Y) == Square(y1) * Square(y2) + Square(x1) * Square(x2) + 2 * m
  {
    SquareOfSum(x1 * y2, y1 * x2);
    SquareOfSum(y1 * y2, x1 * x2);
    SquareOfProduct(x1, y2);
    SquareOfProduct(y1, x2);
    SquareOfProduct(y1, y2);
    SquareOfProduct(x1, x2);
    MulExchange(x1, y2, y1, x2);
    MulExchange(y1, y2, x1, x2);
    MulExchange(x1, y1, x2, y2);
  }

  lemma FourProducts(a: int, b: int, c: int, d: int)
    ensures (b - a) * (d - c) == b * d + a * c - (a * d + b * c)
    ensures (a + b) * (c + d) == b * d + a * c + (a * d + b * c)
  {
  }

  lemma CrossProduct(a: int, b: int, c: int, d: int)
    ensures (a * d + b * c) * (b * d + a * c)
         == (a * b) * Square(d - c) + (c * d) * Square(b - a) + 4 * ((a * b) * (c * d))
  {
    var f, g := a * b, c * d;
    assert (a * d + b * c) * (b * d + a * c) == f * (d * d) + (a * a) * g + (b * b) * g + f * (c * c) by {
      Distribute(a * d + b * c, b * d, a * c);
      MulExchange(a, d, b, d);
      MulExchange(a, d, a, c);
      MulExchange(b, c, b, d);
      MulExchange(b, c, a, c);
    }
    SquareOfSum(d, -c);
    SquareOfSum(b, -a);
    assert f * Square(d - c) == f * (d * d) + f * (c * c) - 2 * (f * g);
    assert g * Square(b - a) == (b * b) * g + (a * a) * g - 2 * (f * g);
  }

  lemma ShiftedProduct(al: int, be: int, m: int)
    ensures (al + 2 * m) * (be + 2 * m) == al * be + 2 * (m * (al + be)) + 4 * Square(m)
  {
    Distribute(al + 2 * m, be, 2 * m);
    Distribute(m, al, be);
  }

  lemma ScaleSum(d: int, s1: int, s2: int, m: int, n: int)
    ensures d * (s1 + s2 + 4 * Square(m) + 2 * (m * n) + 4 * Square(m))
         == d * s1 + d * s2 + 2 * ((d * m) * (n + 4 * m))
  {
    var k := Square(m);
    Distribute(d, s1 + s2, 8 * k + 2 * (m * n));
    Distribute(d, s1, s2);
    Distribute(d, 8 * k, 2 * (m * n));
    Distribute(d * m, n, 4 * m);
    MulAssoc(d, m, n);
    MulAssoc(d, m, m);
  }

  /** d X^2 Y^2 in terms of q = d x^2 y^2, the spreads and the norms. */
  lemma NumeratorProduct(d: int, x1: int, y1: int, x2: int, y2: int)
    ensures var m := (x1 * y1) * (x2 * y2); var e := d * m; var X, Y := x1 * y2 + y1 * x2, y1 * y2 + x1 * x2;
            d * (Square(X) * Square(Y)) ==
            (d * Square(x1 * y1)) * Square(Spread(x2, y2)) + (d * Square(x2 * y2)) * Square(Spread(x1, y1))
            + 2 * (e * (Norm(x1, y1) * Norm(x2, y2) + 4 * m))
  {
    var m := (x1 * y1) * (x2 * y2);
    var a, b, c, f := Square(x1), Square(y1), Square(x2), Square(y2);
    var al, be := a * f + b * c, b * f + a * c;
    Numerators(x1, y1, x2, y2);
    FourProducts(a, b, c, f);
    CrossProduct(a, b, c, f);
    SquareOfProduct(x1, y1);
    SquareOfProduct(x2, y2);
    SquareOfProduct(x1 * y1, x2 * y2);
    var s1, s2 := (a * b) * Square(f - c), (c * f) * Square(b - a);
    ShiftedProduct(al, be, m);
    ScaleSum(d, s1, s2, m, al + be);
    MulAssoc(d, a * b, Square(f - c));
    MulAssoc(d, c * f, Square(b - a));
  }

  lemma SquareFacts(q1: int, q2: int)
    ensures var k := q1 * q2;
            && q1 * Square(q2) == k * q2 && q2 * Square(q1) == k * q1
            && Square(1) == 1 && Square(-k) == Square(k) == k * k
  {
    MulAssoc(q1, q2, q2);
    MulSwap(q2, q1, q1);
  }

  lemma SumEquationExact(q1: int, q2: int)
    ensures (1 + q1) * (1 + q2) * (1 + q1 * q2) == Square(1 - q1 * q2) + q1 * Square(1 + q2) + q2 * Square(1 + q1)
  {
    var k := q1 * q2;
    SquareOfSum(1, -k);
    SquareOfSum(1, q1);
    SquareOfSum(1, q2);
    SquareFacts(q1, q2);
    hide Square;
    Distribute(q2, 1, q1);
    Distribute(1 + q1, 1, q2);
    var f := 1 + q1 + q2 + k;
    Distribute(f, 1, k);
    Distribute(k, 1 + q1, q2 + k);
    Distribute(k, 1, q1);
    Distribute(k, q2, k);
    Distribute(q1, 1 + 2 * q2, Square(q2));
    Distribute(q2, 1 + 2 * q1, Square(q1));
  }

  /** Once both spreads are 1 + q, the sum of the two points meets the curve equation with
      denominators cleared. */
  lemma SumEquation(p: int, q1: int, q2: int, d1: int, d2: int)
    requires p > 0 && Cong(p, d1, 1 + q1) && Cong(p, d2, 1 + q2)
    ensures Cong(p, (d1 * d2) * (1 + q1 * q2),
                 Square(1 - q1 * q2) + q1 * Square(d2) + q2 * Square(d1))
  {
    var k1, k2, w := 1 + q1, 1 + q2, 1 + q1 * q2;
    SumEquationExact(q1, q2);
    hide Cong;
    CongMul(p, d1, k1, d2, k2);
    CongRefl(p, w);
    CongMul(p, d1 * d2, k1 * k2, w, w);
    CongMul(p, d1, k1, d1, k1);
    CongMul(p, d2, k2, d2, k2);
    CongRefl(p, q1);
    CongRefl(p, q2);
    CongMul(p, q1, q1, Square(d2), Square(k2));
    CongMul(p, q2, q2, Square(d1), Square(k1));
    CongAdd(p, q1 * Square(d2), q1 * Square(k2), q2 * Square(d1), q2 * Square(k1));
    var c := Square(1 - q1 * q2);
    CongRefl(p, c);
    CongAdd(p, c, c, q1 * Square(d2) + q2 * Square(d1), q1 * Square(k2) + q2 * Square(k1));
    CongTrans(p, (d1 * d2) * w, (k1 * k2) * w, c + (q1 * Square(d2) + q2 * Square(d1)));
  }

  lemma MixedSquares(u: int, v: int, e: int)
    ensures u * Square(1 + e) - v * Square(1 - e) == (u - v) * (1 + Square(e)) + 2 * (e * (u + v))
  {
    SquareOfSum(1, e);
    SquareOfSum(1, -e);
    Distribute(u, 1 + Square(e), 2 * e);
    Distribute(v, 1 + Square(e), -2 * e);
    Distribute(1 + Square(e), u, -v);
    Distribute(e, u, v);
  }

  /** The curve equation for the sum, with both denominators cleared. */
  lemma ClearedEquation(p: int, d: int, x1: int, y1: int, x2: int, y2: int, e: int, X: int, Y: int)
    requires p > 0 && Cong(p, Defect(d, x1, y1), 0) && Cong(p, Defect(d, x2, y2), 0)
    requires e == d * ((x1 * y1) * (x2 * y2)) && X == x1 * y2 + y1 * x2 && Y == y1 * y2 + x1 * x2
    ensures Cong(p, Square(Y) * Square(1 + e) - Square(X) * Square(1 - e),
                 Square(1 - Square(e)) + d * (Square(X) * Square(Y)))
  {
    var m, q1, q2 := (x1 * y1) * (x2 * y2), d * Square(x1 * y1), d * Square(x2 * y2);
    var d1, d2 := Spread(x1, y1), Spread(x2, y2);
    SquareOfProduct(x1, y1);
    SquareOfProduct(x2, y2);
    CongZero(p, d1, 1 + q1);
    CongZero(p, d2, 1 + q2);
    assert q1 * q2 == Square(e) by {
      MulExchange(d, Square(x1 * y1), d, Square(x2 * y2));
      SquareOfProduct(d, m);
      SquareOfProduct(x1 * y1, x2 * y2);
    }
    Numerators(x1, y1, x2, y2);
    FourProducts(Square(x1), Square(y1), Square(x2), Square(y2));
    MixedSquares(Square(Y), Square(X), e);
    NumeratorProduct(d, x1, y1, x2, y2);
    hide *;
    SumEquation(p, q1, q2, d1, d2);
    var t := 2 * (e * (Norm(x1, y1) * Norm(x2, y2) + 4 * m));
    CongRefl(p, t);
    CongAdd(p, (d1 * d2) * (1 + q1 * q2), Square(1 - q1 * q2) + q1 * Square(d2) + q2 * Square(d1), t, t);
  }

  lemma DefectScaled(d: int, u: int, v: int, a: int, b: int)
    ensures Defect(d, u, v) * Square(a * b)
         == Square(v * b) * Square(a) - Square(u * a) * Square(b) - (Square(a * b) + d * (Square(u * a) * Square(v * b)))
  {
    SquareOfProduct(v, b);
    SquareOfProduct(u, a);
    SquareOfProduct(a, b);
    var A, B, U, V := Square(a), Square(b), Square(u), Square(v);
    MulExchange(U, A, V, B);
    MulAssoc(d, U * V, A * B);
    MulAssoc(V, B, A);
    MulAssoc(U, A, B);
    Distribute(A * B, V, -U - 1 - d * (U * V));
    Distribute(A * B, -U, -1 - d * (U * V));
    Distribute(A * B, -1, -(d * (U * V)));
  }

  /** Multiplying the curve equation of a quotient by both squared denominators. */
  lemma DefectOfQuotient(p: int, d: int, u: int, v: int, a: int, b: int, X: int, Y: int)
    requires p > 0 && Cong(p, u * a, X) && Cong(p, v * b, Y)
    ensures Cong(p, Defect(d, u, v) * Square(a * b),
                 Square(Y) * Square(a) - Square(X) * Square(b) - (Square(a * b) + d * (Square(X) * Square(Y))))
  {
    hide Cong;
    CongMul(p, u * a, X, u * a, X);
    CongMul(p, v * b, Y, v * b, Y);
    var ua, vb := Square(u * a), Square(v * b);
    CongRefl(p, Square(a));
    CongRefl(p, Square(b));
    CongRefl(p, d);
    CongRefl(p, Square(a * b));
    CongMul(p, vb, Square(Y), Square(a), Square(a));
    CongMul(p, ua, Square(X), Square(b), Square(b));
    CongMul(p, ua, Square(X), vb, Square(Y));
    CongMul(p, d, d, ua * vb, Square(X) * Square(Y));
    CongSub(p, vb * Square(a), Square(Y) * Square(a), ua * Square(b), Square(X) * Square(b));
    CongAdd(p, Square(a * b), Square(a * b), d * (ua * vb), d * (Square(X) * Square(Y)));
    CongSub(p, vb * Square(a) - ua * Square(b), Square(Y) * Square(a) - Square(X) * Square(b),
            Square(a * b) + d * (ua * vb), Square(a * b) + d * (Square(X) * Square(Y)));
    DefectScaled(d, u, v, a, b);
  }

  // ---------------------------------------------------------------- the addition of the code

  lemma FiveFactors(d: int, a: int, b: int, c: int, e: int)
    ensures d * a * b * c * e == d * ((a * c) * (b * e))
  {
    MulAssoc(d * a * b, c, e);
    MulAssoc(d, a, b);
    MulAssoc(d, a * b, c * e);
    MulExchange(a, b, c, e);
  }

  lemma CommonValue(p: int, d: int, a: Point, b: Point)
    requires p >= 2
    ensures Fields.InField(p, Common(p, d, a, b))
    ensures Cong(p, Common(p, d, a, b), d * ((a.u * a.v) * (b.u * b.v)))
  {
    var c1 := Fields.Mul(p, d, a.u);
    var c2 := Fields.Mul(p, c1, b.u);
    var c3 := Fields.Mul(p, c2, a.v);
    hide Cong;
    Fields.Operations(p, d, a.u);
    Fields.Operations(p, c1, b.u);
    Fields.Operations(p, c2, a.v);
    Fields.Operations(p, c3, b.v);
    CongRefl(p, b.u);
    CongRefl(p, a.v);
    CongRefl(p, b.v);
    CongMul(p, c1, d * a.u, b.u, b.u);
    CongTrans(p, c2, c1 * b.u, d * a.u * b.u);
    CongMul(p, c2, d * a.u * b.u, a.v, a.v);
    CongTrans(p, c3, c2 * a.v, d * a.u * b.u * a.v);
    CongMul(p, c3, d * a.u * b.u * a.v, b.v, b.v);
    CongTrans(p, Common(p, d, a, b), c3 * b.v, d * a.u * b.u * a.v * b.v);
    FiveFactors(d, a.u, b.u, a.v, b.v);
  }

  lemma CommonSymmetric(p: int, d: int, a: Point, b: Point)
    requires p >= 2
    ensures Common(p, d, a, b) == Common(p, d, b, a)
  {
    CommonValue(p, d, a, b);
    CommonValue(p, d, b, a);
    assert (a.u * a.v) * (b.u * b.v) == (b.u * b.v) * (a.u * a.v);
    CongEqual(p, Common(p, d, a, b), Common(p, d, b, a));
  }

  /** A sum of two reduced products. */
  lemma SumOfProducts(p: int, a: int, b: int, c: int, e: int)
    requires p >= 2
    ensures Cong(p, Fields.Add(p, Fields.Mul(p, a, b), Fields.Mul(p, c, e)), a * b + c * e)
  {
    hide Cong;
    var f, g := Fields.Mul(p, a, b), Fields.Mul(p, c, e);
    Fields.Operations(p, a, b);
    Fields.Operations(p, c, e);
    Fields.Operations(p, f, g);
    CongAdd(p, f, a * b, g, c * e);
    CongTrans(p, Fields.Add(p, f, g), f + g, a * b + c * e);
  }

  lemma QuotientBy(p: int, n: int, m: int, n': int, m': int)
    requires IsPrime(p) && Cong(p, n, n') && Cong(p, m, m') && !Cong(p, m', 0)
    ensures Fields.InField(p, Fields.Div(p, n, m)) && Cong(p, Fields.Div(p, n, m) * m', n')
  {
    hide Cong;
    if Cong(p, m, 0) {
      CongTrans(p, m', m, 0);
    }
    Fields.DivMul(p, n, m);
    var q := Fields.Div(p, n, m);
    CongRefl(p, q);
    CongMul(p, q, q, m, m');
    CongTrans(p, q * m', q * m, n);
    CongTrans(p, q * m', n, n');
  }

  /** Both coordinates of the sum really are the quotients of the addition formula. */
  lemma AddQuotients(p: int, d: int, i: int, a: Point, b: Point)
    requires Parameters(p, d, i) && OnCurve(p, d, a) && OnCurve(p, d, b)
    ensures var s := Add(p, d, a, b); var e := d * ((a.u * a.v) * (b.u * b.v));
            && InPlane(p, s)
            && !Cong(p, 1 + e, 0) && !Cong(p, 1 - e, 0)
            && Cong(p, s.u * (1 + e), a.u * b.v + a.v * b.u)
            && Cong(p, s.v * (1 - e), a.v * b.v + a.u * b.u)
  {
    var common, e := Common(p, d, a, b), d * ((a.u * a.v) * (b.u * b.v));
    Complete(p, d, i, a.u, a.v, b.u, b.v);
    CommonValue(p, d, a, b);
    hide Cong, Common;
    Fields.Operations(p, 1, common);
    CongRefl(p, 1);
    CongAdd(p, 1, 1, common, e);
    CongSub(p, 1, 1, common, e);
    var du, dv := Fields.Add(p, 1, common), Fields.Sub(p, 1, common);
    CongTrans(p, du, 1 + common, 1 + e);
    CongTrans(p, dv, 1 - common, 1 - e);
    SumOfProducts(p, a.u, b.v, a.v, b.u);
    SumOfProducts(p, a.v, b.v, a.u, b.u);
    QuotientBy(p, Fields.Add(p, Fields.Mul(p, a.u, b.v), Fields.Mul(p, a.v, b.u)), du, a.u * b.v + a.v * b.u, 1 + e);
    QuotientBy(p, Fields.Add(p, Fields.Mul(p, a.v, b.v), Fields.Mul(p, a.u, b.u)), dv, a.v * b.v + a.u * b.u, 1 - e);
  }

  lemma CancelSquare(p: int, f: int, a: int, b: int)
    requires IsPrime(p) && Cong(p, f * Square(a * b), 0) && !Cong(p, a, 0) && !Cong(p, b, 0)
    ensures Cong(p, f, 0)
  {
    var g := a * b;
    hide Cong;
    if !Cong(p, f, 0) {
      NoZeroDivisors(p, f, g * g);
      NoZeroDivisors(p, g, g);
      NoZeroDivisors(p, a, b);
    }
  }

  /** A quotient of the two numerators by nonzero denominators lies on the curve. */
  lemma QuotientOnCurve(p: int, d: int, u: int, v: int, x1: int, y1: int, x2: int, y2: int, e: int)
    requires IsPrime(p) && e == d * ((x1 * y1) * (x2 * y2)) && !Cong(p, 1 + e, 0) && !Cong(p, 1 - e, 0)
    requires Cong(p, Defect(d, x1, y1), 0) && Cong(p, Defect(d, x2, y2), 0)
    requires Cong(p, u * (1 + e), x1 * y2 + y1 * x2) && Cong(p, v * (1 - e), y1 * y2 + x1 * x2)
    ensures Cong(p, Defect(d, u, v), 0)
  {
    var X, Y, a, b := x1 * y2 + y1 * x2, y1 * y2 + x1 * x2, 1 + e, 1 - e;
    assert a * b == 1 - Square(e);
    hide Cong, Defect, Square;
    ClearedEquation(p, d, x1, y1, x2, y2, e, X, Y);
    DefectOfQuotient(p, d, u, v, a, b, X, Y);
    var l, r := Square(Y) * Square(a) - Square(X) * Square(b), Square(a * b) + d * (Square(X) * Square(Y));
    CongZero(p, l, r);
    CongTrans(p, Defect(d, u, v) * Square(a * b), l - r, 0);
    CancelSquare(p, Defect(d, u, v), a, b);
  }

  /** Addition is closed on the curve, for every pair of points. */
  lemma AddClosed(p: int, d: int, i: int, a: Point, b: Point)
    requires Parameters(p, d, i) && OnCurve(p, d, a) && OnCurve(p, d, b)
    ensures OnCurve(p, d, Add(p, d, a, b))
  {
    var s, e := Add(p, d, a, b), d * ((a.u * a.v) * (b.u * b.v));
    hide Cong, Defect, Add;
    AddQuotients(p, d, i, a, b);
    QuotientOnCurve(p, d, s.u, s.v, a.u, a.v, b.u, b.v, e);
  }

  /** Addition is commutative, on and off the curve. */
  lemma AddCommutes(p: int, d: int, a: Point, b: Point)
    requires p >= 2
    ensures Add(p, d, a, b) == Add(p, d, b, a)
  {
    CommonSymmetric(p, d, a, b);
    hide Common, Fields.Div;
    assert a.u * b.v == b.v * a.u && a.v * b.u == b.u * a.v && a.v * b.v == b.v * a.v && a.u * b.u == b.u * a.u;
  }

  /** The identity point is neutral for every point of the plane. */
  lemma AddIdentity(p: int, d: int, a: Point)
    requires p >= 2 && InPlane(p, a)
    ensures Add(p, d, a, IDENTITY) == a && Add(p, d, IDENTITY, a) == a
  {
    RemainderUnique(p, 0, 0, 0);
    RemainderUnique(p, 1, 0, 1);
    RemainderUnique(p, a.u, 0, a.u);
    RemainderUnique(p, a.v, 0, a.v);
    Fields.DivOne(p, a.u);
    Fields.DivOne(p, a.v);
    AddCommutes(p, d, a, IDENTITY);
  }

  lemma IdentityOnCurve(p: int, d: int)
    requires p >= 2
    ensures OnCurve(p, d, IDENTITY)
  {
  }
}

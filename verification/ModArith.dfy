/** Arithmetic modulo a prime: congruence, inverses, Euclid's lemma and Fermat's little theorem. */
module ModArith {

  // ---------------------------------------------------------------- congruence

  ghost predicate Cong(p: int, a: int, b: int)
    requires p > 0
  {
    a % p == b % p
  }

  /** The quotient and the remainder of a division are unique. */
  lemma RemainderUnique(p: int, a: int, q: int, r: int)
    requires 0 <= r < p && a == q * p + r
    ensures a % p == r && a / p == q
  {
    var k := a / p - q;
    assert a == (a / p) * p + a % p;
    assert k * p == r - a % p by {
      assert k * p == (a / p) * p - q * p;
    }
    assert k >= 1 ==> k * p >= p;
    assert k <= -1 ==> k * p <= -p;
  }

  lemma MulAssoc(a: int, b: int, c: int)
    ensures a * b * c == a * (b * c)
  {
  }

  lemma MulSwap(a: int, b: int, c: int)
    ensures a * (b * c) == b * (a * c)
  {
  }

  lemma MulExchange(a: int, b: int, c: int, d: int)
    ensures (a * b) * (c * d) == (a * c) * (b * d)
  {
    MulSwap(b, c, d);
    MulAssoc(a, b, c * d);
    MulAssoc(a, c, b * d);
  }

  lemma Distribute(a: int, b: int, c: int)
    ensures a * (b + c) == a * b + a * c && (b + c) * a == b * a + c * a
  {
  }

  lemma DistributeSub(a: int, b: int, c: int)
    ensures a * (b - c) == a * b - a * c && (b - c) * a == b * a - c * a
  {
  }

  lemma CongIntro(p: int, a: int, b: int, k: int)
    requires p > 0 && a == b + k * p
    ensures Cong(p, a, b)
  {
    var q := b / p;
    assert a == (q + k) * p + b % p by {
      assert (q + k) * p == q * p + k * p;
    }
    RemainderUnique(p, a, q + k, b % p);
  }

  lemma CongElim(p: int, a: int, b: int) returns (k: int)
    requires p > 0 && Cong(p, a, b)
    ensures a == b + k * p
  {
    k := a / p - b / p;
    assert k * p == (a / p) * p - (b / p) * p;
  }

  lemma CongMod(p: int, a: int)
    requires p > 0
    ensures Cong(p, a % p, a) && 0 <= a % p < p
  {
    RemainderUnique(p, a % p, 0, a % p);
  }

  lemma CongEqual(p: int, a: int, b: int)
    requires 0 <= a < p && 0 <= b < p && Cong(p, a, b)
    ensures a == b
  {
    RemainderUnique(p, a, 0, a);
    RemainderUnique(p, b, 0, b);
  }

  lemma CongTrans(p: int, a: int, b: int, c: int)
    requires p > 0 && (Cong(p, a, b) || Cong(p, b, a)) && (Cong(p, b, c) || Cong(p, c, b))
    ensures Cong(p, a, c) && Cong(p, c, a)
  {
  }

  lemma CongRefl(p: int, a: int)
    requires p > 0
    ensures Cong(p, a, a)
  {
  }

  lemma CongAdd(p: int, a: int, b: int, c: int, d: int)
    requires p > 0 && Cong(p, a, b) && Cong(p, c, d)
    ensures Cong(p, a + c, b + d)
  {
    var k := CongElim(p, a, b);
    var l := CongElim(p, c, d);
    assert (k + l) * p == k * p + l * p;
    CongIntro(p, a + c, b + d, k + l);
  }

  lemma CongSub(p: int, a: int, b: int, c: int, d: int)
    requires p > 0 && Cong(p, a, b) && Cong(p, c, d)
    ensures Cong(p, a - c, b - d)
  {
    var k := CongElim(p, a, b);
    var l := CongElim(p, c, d);
    assert (k - l) * p == k * p - l * p;
    CongIntro(p, a - c, b - d, k - l);
  }

  lemma CongMul(p: int, a: int, b: int, c: int, d: int)
    requires p > 0 && Cong(p, a, b) && Cong(p, c, d)
    ensures Cong(p, a * c, b * d)
  {
    var k := CongElim(p, a, b);
    var l := CongElim(p, c, d);
    // a*c - b*d = a*(c - d) + (a - b)*d
    MulAssoc(a, l, p);
    MulAssoc(d, k, p);
    Distribute(a, d, l * p);
    Distribute(d, b, k * p);
    Distribute(p, a * l, d * k);
    CongIntro(p, a * c, b * d, a * l + d * k);
  }

  // ---------------------------------------------------------------- powers

  function Pow(b: int, e: nat): int {
    if e == 0 then 1 else b * Pow(b, e - 1)
  }

  lemma {:induction false} PowAdd(b: int, m: nat, n: nat)
    ensures Pow(b, m + n) == Pow(b, m) * Pow(b, n)
  {
    if m == 0 {
    } else {
      PowAdd(b, m - 1, n);
      MulAssoc(b, Pow(b, m - 1), Pow(b, n));
    }
  }

  lemma {:induction false} PowMul(b: int, m: nat, n: nat)
    ensures m * n >= 0 && Pow(Pow(b, m), n) == Pow(b, m * n)
  {
    if n == 0 {
    } else {
      PowMul(b, m, n - 1);
      assert m * n == m + m * (n - 1);
      PowAdd(b, m, m * (n - 1));
    }
  }

  lemma {:induction false} CongPow(p: int, a: int, b: int, e: nat)
    requires p > 0 && Cong(p, a, b)
    ensures Cong(p, Pow(a, e), Pow(b, e))
  {
    if e == 0 {
    } else {
      CongPow(p, a, b, e - 1);
      CongMul(p, a, b, Pow(a, e - 1), Pow(b, e - 1));
    }
  }

  lemma {:induction false} PowOne(e: nat)
    ensures Pow(1, e) == 1
  {
    if e == 0 {
    } else {
      PowOne(e - 1);
    }
  }

  // ---------------------------------------------------------------- primes

  ghost predicate IsPrime(p: int) {
    2 <= p && forall m {:trigger p % m} :: 2 <= m < p ==> p % m != 0
  }

  /** Every residue that is not zero has an inverse (the extended Euclidean recursion). */
  lemma {:induction false} Inverse(p: int, a: int) returns (x: int)
    requires IsPrime(p) && 0 < a < p
    ensures Cong(p, a * x, 1)
    decreases a
  {
    if a == 1 {
      x := 1;
    } else {
      var q, r := p / a, p % a;
      var y := Inverse(p, r);
      x := -q * y;
      assert r == p - q * a;
      assert a * x == r * y - y * p by {
        assert r * y == p * y - (q * a) * y;
      }
      CongIntro(p, a * x, r * y, -y);
    }
  }

  lemma ResidueNonzero(p: int, a: int)
    requires p > 0
    ensures Cong(p, a, 0) <==> a % p == 0
  {
    RemainderUnique(p, 0, 0, 0);
  }

  lemma InverseCancels(p: int, a: int, x: int, b: int)
    requires p > 0 && Cong(p, a * x, 1) && Cong(p, a * b, 0)
    ensures Cong(p, b, 0)
  {
    hide Cong;
    MulAssoc(a, x, b);
    MulSwap(a, x, b);
    CongMul(p, a * x, 1, b, b);
    CongMul(p, x, x, a * b, 0);
    CongTrans(p, b, a * x * b, 0);
  }

  /** Euclid's lemma: a prime modulus has no zero divisors. */
  lemma NoZeroDivisors(p: int, a: int, b: int)
    requires IsPrime(p) && Cong(p, a * b, 0)
    ensures Cong(p, a, 0) || Cong(p, b, 0)
  {
    if !Cong(p, a, 0) {
      CongMod(p, a);
      ResidueNonzero(p, a);
      var r := a % p;
      var x := Inverse(p, r);
      CongMul(p, r, a, x, x);
      InverseCancels(p, a, x, b);
    }
  }

  lemma Cancel(p: int, a: int, b: int, c: int)
    requires IsPrime(p) && Cong(p, a * b, a * c) && !Cong(p, a, 0)
    ensures Cong(p, b, c)
  {
    CongSub(p, a * b, a * c, a * c, a * c);
    DistributeSub(a, b, c);
    NoZeroDivisors(p, a, b - c);
    CongAdd(p, b - c, 0, c, c);
  }

  // ---------------------------------------------------------------- Fermat's little theorem

  ghost function Prod(s: set<nat>): int {
    if s == {} then 1 else
      var x :| x in s; x * Prod(s - {x})
  }

  lemma Picked(s: set<nat>) returns (y: nat)
    requires s != {}
    ensures y in s && Prod(s) == y * Prod(s - {y})
  {
    y :| y in s && Prod(s) == y * Prod(s - {y});
  }

  lemma {:induction false} ProdPick(s: set<nat>, x: nat)
    requires x in s
    ensures Prod(s) == x * Prod(s - {x})
  {
    var y := Picked(s);
    if y == x {
    } else {
      ProdPick(s - {y}, x);
      ProdPick(s - {x}, y);
      assert s - {y} - {x} == s - {x} - {y};
      MulSwap(x, y, Prod(s - {x} - {y}));
    }
  }

  ghost function Residues(p: int): (s: set<nat>)
    requires p >= 1
    ensures |s| == p - 1
    ensures forall k :: k in s <==> 1 <= k < p
  {
    if p == 1 then {} else Residues(p - 1) + {p - 1}
  }

  ghost function Scaled(p: int, a: int, s: set<nat>): set<nat>
    requires p > 0
  {
    set k | k in s :: (a * k) % p
  }

  lemma ScaledDistinct(p: int, a: int, j: int, k: int)
    requires IsPrime(p) && !Cong(p, a, 0) && 0 < j < p && 0 < k < p
    ensures 0 < (a * k) % p < p
    ensures (a * j) % p == (a * k) % p ==> j == k
  {
    CongMod(p, a * k);
    if (a * k) % p == 0 {
      NoZeroDivisors(p, a, k);
      CongEqual(p, k, 0);
    }
    if (a * j) % p == (a * k) % p {
      Cancel(p, a, j, k);
      CongEqual(p, j, k);
    }
  }

  lemma ScaledSplit(p: int, a: int, s: set<nat>, k: nat)
    requires IsPrime(p) && !Cong(p, a, 0) && k in s && forall j :: j in s ==> 0 < j < p
    ensures (a * k) % p in Scaled(p, a, s)
    ensures Scaled(p, a, s) - {(a * k) % p} == Scaled(p, a, s - {k})
  {
    var h := (a * k) % p;
    var l, r := Scaled(p, a, s) - {h}, Scaled(p, a, s - {k});
    forall x | x in r ensures x in l {
      var j :| j in s - {k} && (a * j) % p == x;
      if x == h { ScaledDistinct(p, a, j, k); }
    }
    forall x | x in l ensures x in r {
      var j :| j in s && (a * j) % p == x;
      assert j in s - {k};
    }
  }

  lemma ScaledEmpty(p: int, a: int)
    requires p > 0
    ensures Scaled(p, a, {}) == {} && Cong(p, Prod({}), Pow(a, 0) * Prod({}))
  {
  }

  /** Multiplying every member of a set of residues by a multiplies their product by a^|s|. */
  lemma {:induction false} ProdScaled(p: int, a: int, s: set<nat>)
    requires IsPrime(p) && !Cong(p, a, 0) && forall k :: k in s ==> 0 < k < p
    ensures |Scaled(p, a, s)| == |s|
    ensures Cong(p, Prod(Scaled(p, a, s)), Pow(a, |s|) * Prod(s))
  {
    hide Cong, Scaled;
    if s == {} {
      ScaledEmpty(p, a);
    } else {
      var k :| k in s;
      var t, h := s - {k}, (a * k) % p;
      ProdScaled(p, a, t);
      ScaledSplit(p, a, s, k);
      ProdPick(Scaled(p, a, s), h);
      ProdPick(s, k);
      CongMod(p, a * k);
      CongMul(p, h, a * k, Prod(Scaled(p, a, t)), Pow(a, |t|) * Prod(t));
      MulExchange(a, k, Pow(a, |t|), Prod(t));
    }
  }

  lemma {:induction false} ProdNonzero(p: int, s: set<nat>)
    requires IsPrime(p) && forall k :: k in s ==> 0 < k < p
    ensures !Cong(p, Prod(s), 0)
  {
    if s == {} {
      RemainderUnique(p, 1, 0, 1);
    } else {
      var k :| k in s;
      ProdPick(s, k);
      ProdNonzero(p, s - {k});
      if Cong(p, Prod(s), 0) {
        NoZeroDivisors(p, k, Prod(s - {k}));
        CongEqual(p, k, 0);
      }
    }
  }

  lemma SubsetOfSameSize(s: set<nat>, t: set<nat>)
    requires s <= t && |s| == |t|
    ensures s == t
  {
    assert |t - s| == |t| - |s|;
  }

  /** Multiplication by a nonzero a permutes the residues. */
  lemma ScaledResidues(p: int, a: int)
    requires IsPrime(p) && !Cong(p, a, 0)
    ensures Scaled(p, a, Residues(p)) == Residues(p)
  {
    var all := Residues(p);
    ProdScaled(p, a, all);
    forall x | x in Scaled(p, a, all) ensures x in all {
      var k :| k in all && (a * k) % p == x;
      ScaledDistinct(p, a, k, k);
    }
    SubsetOfSameSize(Scaled(p, a, all), all);
  }

  lemma FermatCancel(p: int, m: int, x: int)
    requires IsPrime(p) && Cong(p, m, x * m) && !Cong(p, m, 0)
    ensures Cong(p, x, 1)
  {
    assert Cong(p, m * x, m * 1);
    Cancel(p, m, x, 1);
  }

  /** Fermat's little theorem. */
  lemma Fermat(p: int, a: int)
    requires IsPrime(p) && !Cong(p, a, 0)
    ensures Cong(p, Pow(a, p - 1), 1)
  {
    hide Cong, Pow, Scaled, Prod;
    var all := Residues(p);
    ProdScaled(p, a, all);
    ScaledResidues(p, a);
    ProdNonzero(p, all);
    FermatCancel(p, Prod(all), Pow(a, p - 1));
  }
}

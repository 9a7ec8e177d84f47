/** Elements of a prime field, kept as integers in [0, p). */
module Fields {
  import opened ModArith

  /** The BLS12-381 scalar field modulus. */
  const FR_MODULUS: int := 0x73EDA753299D7D483339D80809A1D80553BDA402FFFE5BFEFFFFFFFF00000001

  type Fr = x: int | 0 <= x < FR_MODULUS

  predicate InField(p: int, a: int) {
    0 <= a < p
  }

  function Add(p: int, a: int, b: int): int
    requires p > 0
  {
    (a + b) % p
  }

  function Sub(p: int, a: int, b: int): int
    requires p > 0
  {
    (a - b) % p
  }

  function Mul(p: int, a: int, b: int): int
    requires p > 0
  {
    (a * b) % p
  }

  /** Exponentiation with reduction, as the three-argument pow of the host language. */
  function PowMod(p: int, a: int, e: nat): int
    requires p > 0
  {
    Pow(a, e) % p
  }

  /** Division multiplies by the (p-2)-th power of the divisor; it never fails. */
  function Div(p: int, a: int, b: int): int
    requires p >= 2
  {
    Mul(p, a, PowMod(p, b, p - 2))
  }

  /** Every operation is the integer operation up to congruence, with its result in the field. */
  lemma Operations(p: int, a: int, b: int)
    requires p >= 2
    ensures InField(p, Add(p, a, b)) && Cong(p, Add(p, a, b), a + b)
    ensures InField(p, Sub(p, a, b)) && Cong(p, Sub(p, a, b), a - b)
    ensures InField(p, Mul(p, a, b)) && Cong(p, Mul(p, a, b), a * b)
  {
    CongMod(p, a + b);
    CongMod(p, a - b);
    CongMod(p, a * b);
  }

  lemma DivReduces(p: int, a: int, b: int)
    requires p >= 2
    ensures InField(p, Div(p, a, b)) && Cong(p, Div(p, a, b), a * Pow(b, p - 2))
  {
    hide Cong;
    var w := PowMod(p, b, p - 2);
    CongMod(p, Pow(b, p - 2));
    CongMod(p, a * w);
    CongRefl(p, a);
    CongMul(p, a, a, w, Pow(b, p - 2));
    CongTrans(p, Div(p, a, b), a * w, a * Pow(b, p - 2));
  }

  /** Over a prime modulus the Fermat power of a nonzero b is its inverse, so division undoes
      multiplication. */
  lemma DivMul(p: int, a: int, b: int)
    requires IsPrime(p) && !Cong(p, b, 0)
    ensures InField(p, Div(p, a, b)) && Cong(p, Div(p, a, b) * b, a)
  {
    hide Cong;
    var w, q := Pow(b, p - 2), Div(p, a, b);
    DivReduces(p, a, b);
    CongRefl(p, b);
    CongMul(p, q, a * w, b, b);
    Fermat(p, b);
    assert Pow(b, p - 1) == b * w;
    CongRefl(p, a);
    CongMul(p, a, a, b * w, 1);
    MulAssoc(a, b, w);
    MulAssoc(a, w, b);
    CongTrans(p, q * b, a * (b * w), a);
  }

  /** Division by zero yields zero, so it is an inverse exactly when the divisor is nonzero or
      there is nothing to divide. */
  lemma DivMulIff(p: int, a: int, b: int)
    requires IsPrime(p) && p > 2
    ensures Cong(p, Div(p, a, b) * b, a) <==> !Cong(p, b, 0) || Cong(p, a, 0)
  {
    hide Cong;
    if Cong(p, b, 0) {
      var q := Div(p, a, b);
      CongRefl(p, q);
      CongMul(p, q, q, b, 0);
      if Cong(p, q * b, a) {
        CongTrans(p, a, q * b, 0);
      }
      if Cong(p, a, 0) {
        CongTrans(p, q * b, 0, a);
      }
    } else {
      DivMul(p, a, b);
    }
  }

  lemma DivOne(p: int, a: int)
    requires p >= 2 && InField(p, a)
    ensures Div(p, a, 1) == a
  {
    PowOne(p - 2);
    RemainderUnique(p, 1, 0, 1);
    RemainderUnique(p, a, 0, a);
  }
}

/** Power-of-two base conversion, as digits of one big-endian number. */
module ConvertBits {
  import opened Basics
  import opened ModArith

  // ---------------------------------------------------------------- digits

  /** The number whose big-endian digits in base 2^w are s. */
  function Value(s: seq<int>, w: nat): int {
    if s == [] then 0 else Value(s[..|s| - 1], w) * Pow2(w) + s[|s| - 1]
  }

  /** The n low digits of v in base 2^w, most significant first. */
  function Digits(v: int, w: nat, n: nat): (r: seq<int>)
    ensures |r| == n
    decreases n, v
  {
    if n == 0 then [] else Digits(v / Pow2(w), w, n - 1) + [v % Pow2(w)]
  }

  predicate AreDigits(s: seq<int>, w: nat) {
    forall k :: 0 <= k < |s| ==> 0 <= s[k] < Pow2(w)
  }

  lemma QuotientRemainder(v: int, b: int)
    requires b > 0
    ensures v == (v / b) * b + v % b && 0 <= v % b < b
  {
  }

  lemma DigitsStep(v: int, w: nat, n: nat)
    ensures Digits(v, w, n + 1) == Digits(v / Pow2(w), w, n) + [v % Pow2(w)]
    ensures 0 <= v % Pow2(w) < Pow2(w)
  {
    hide Pow2;
    QuotientRemainder(v, Pow2(w));
  }

  lemma {:induction false} DigitsInRange(v: int, w: nat, n: nat)
    ensures AreDigits(Digits(v, w, n), w)
    decreases n
  {
    hide Pow2, Digits;
    if n > 0 {
      DigitsInRange(v / Pow2(w), w, n - 1);
      DigitsStep(v, w, n - 1);
    } else {
      assert |Digits(v, w, 0)| == 0;
    }
  }

  lemma MulNonNegative(a: nat, b: nat)
    ensures a * b >= 0
  {
  }

  lemma WidthStep(w: nat, n: nat)
    ensures w * n >= 0 && w * (n + 1) == w * n + w && Pow2(w * (n + 1)) == Pow2(w * n) * Pow2(w)
  {
    Distribute(w, n, 1);
    MulNonNegative(w, n);
    Pow2Add(w * n, w);
  }

  lemma Carry(v: int, d: int, b: int, top: int)
    requires 0 <= v < top && 0 <= d < b
    ensures 0 <= v * b + d < top * b
  {
    assert v * b <= (top - 1) * b;
    DistributeSub(b, top, 1);
    assert v * b >= 0;
  }

  lemma {:induction false} ValueBounds(s: seq<int>, w: nat)
    requires AreDigits(s, w)
    ensures w * |s| >= 0 && 0 <= Value(s, w) < Pow2(w * |s|)
  {
    if s == [] {
    } else {
      var n := |s| - 1;
      ValueBounds(s[..n], w);
      WidthStep(w, n);
      Carry(Value(s[..n], w), s[n], Pow2(w), Pow2(w * n));
    }
  }

  lemma MulCommutes(a: nat, b: nat)
    ensures a * b == b * a && a * b >= 0
  {
  }

  /** A number is determined by its digits, and digits by their number. */
  lemma {:induction false} DigitsOfValue(s: seq<int>, w: nat)
    requires AreDigits(s, w)
    ensures Digits(Value(s, w), w, |s|) == s
  {
    if s == [] {
    } else {
      var n := |s| - 1;
      RemainderUnique(Pow2(w), Value(s, w), Value(s[..n], w), s[n]);
      DigitsOfValue(s[..n], w);
      assert s == s[..n] + [s[n]];
    }
  }

  lemma MulZero(w: nat)
    ensures w * 0 == 0
  {
  }

  lemma QuotientBound(v: int, b: int, top: int)
    requires b > 0 && 0 <= v < top * b
    ensures 0 <= v / b < top
  {
    var q := v / b;
    assert q >= top ==> q * b >= top * b;
    assert q <= -1 ==> q * b <= -b;
  }

  lemma {:induction false} ValueOfDigits(v: int, w: nat, n: nat)
    requires w * n >= 0 && 0 <= v < Pow2(w * n)
    ensures Value(Digits(v, w, n), w) == v
    decreases n
  {
    if n > 0 {
      hide Pow2, Digits;
      var b, d := Pow2(w), Digits(v / Pow2(w), w, n - 1);
      WidthStep(w, n - 1);
      QuotientBound(v, b, Pow2(w * (n - 1)));
      ValueOfDigits(v / b, w, n - 1);
      DigitsStep(v, w, n - 1);
      QuotientRemainder(v, b);
      assert (d + [v % b])[..n - 1] == d;
    } else {
      MulZero(w);
    }
  }

  // ---------------------------------------------------------------- shifting

  lemma ScaledDivision(a: int, v: int, m: int, n: int)
    requires m > 0 && n > 0 && 0 <= v < n
    ensures m * n > 0
    ensures (a * n + v) % (m * n) == (a % m) * n + v
    ensures (a * n + v) / (m * n) == a / m
  {
    var q, r := a / m, a % m;
    QuotientRemainder(a, m);
    Carry(r, v, n, m);
    Distribute(n, q * m, r);
    MulAssoc(q, m, n);
    RemainderUnique(m * n, a * n + v, q, r * n + v);
  }

  /** (a 2^f + v) mod 2^(b+f) = (a mod 2^b) 2^f + v, and the quotient does not change. */
  lemma ShiftIn(a: int, v: int, b: nat, f: nat)
    requires 0 <= v < Pow2(f)
    ensures (a * Pow2(f) + v) % Pow2(b + f) == (a % Pow2(b)) * Pow2(f) + v
    ensures (a * Pow2(f) + v) / Pow2(b + f) == a / Pow2(b)
  {
    hide Pow2;
    Pow2Add(b, f);
    ScaledDivision(a, v, Pow2(b), Pow2(f));
  }

  lemma NestedDivision(a: int, m: int, n: int)
    requires m > 0 && n > 0
    ensures m * n > 0
    ensures (a / n) % m == (a % (m * n)) / n
    ensures (a / n) / m == a / (m * n)
    ensures (a % (m * n)) % n == a % n
  {
    var q, r := a / n, a % n;
    QuotientRemainder(a, n);
    ScaledDivision(q, r, m, n);
    RemainderUnique(n, (q % m) * n + r, q % m, r);
  }

  /** Digits t bits above the b low ones. */
  lemma ShiftOut(a: int, b: nat, t: nat)
    ensures (a / Pow2(b)) % Pow2(t) == (a % Pow2(b + t)) / Pow2(b)
    ensures (a / Pow2(b)) / Pow2(t) == a / Pow2(b + t)
  {
    hide Pow2;
    Pow2Add(t, b);
    NestedDivision(a, Pow2(t), Pow2(b));
  }

  /** Masking to more bits does not change the low ones. */
  lemma MaskKeepsLow(a: int, b: nat, c: nat)
    requires b <= c
    ensures (a % Pow2(c)) % Pow2(b) == a % Pow2(b)
  {
    hide Pow2;
    Pow2Add(c - b, b);
    NestedDivision(a, Pow2(c - b), Pow2(b));
  }

  // ---------------------------------------------------------------- the conversion

  /** Rounded up division. */
  function Ceil(total: nat, t: nat): nat
    requires t > 0
  {
    if total % t == 0 then total / t else total / t + 1
  }

  function BitCount(data: seq<int>, f: nat): (r: nat) {
    MulNonNegative(|data|, f);
    |data| * f
  }

  /** The output width may not leave a whole input digit, or a set bit, unused. */
  predicate BadPadding(data: seq<int>, f: nat, t: nat)
    requires t > 0
  {
    var bits := BitCount(data, f) % t;
    bits >= f || Value(data, f) % Pow2(bits) != 0
  }

  /** Regrouping read as arithmetic: the digits of the same number, shifted up to whole digits when
      padding, and shifted down over a zero remainder otherwise. */
  function Convert(data: seq<int>, f: nat, t: nat, pad: bool): Option<seq<int>>
    requires t > 0
  {
    var total := BitCount(data, f);
    var v, rest := Value(data, f), total % t;
    if !AreDigits(data, f) then None
    else if pad then
      Some(Digits(if rest == 0 then v else v * Pow2(t - rest), t, Ceil(total, t)))
    else if BadPadding(data, f, t) then None
    else Some(Digits(v / Pow2(rest), t, total / t))
  }

  lemma ValueSnoc(data: seq<int>, f: nat, i: nat)
    requires i < |data|
    ensures Value(data[..i + 1], f) == Value(data[..i], f) * Pow2(f) + data[i]
  {
    assert data[..i + 1][..i] == data[..i];
  }

  lemma DivisionStep(total: nat, t: nat, k: nat, bits: nat)
    requires t > 0 && total == k * t + bits && bits < t
    ensures total / t == k && total % t == bits
  {
    RemainderUnique(t, total, k, bits);
  }

  // ---------------------------------------------------------------- the loop

  /** What the loop variables mean: the output holds the high bits, the accumulator ends in the rest. */
  ghost predicate Splits(v: int, t: nat, ret: seq<int>, acc: int, bits: nat) {
    && acc % Pow2(bits) == v % Pow2(bits)
    && ret == Digits(v / Pow2(bits), t, |ret|)
  }

  lemma TakeValue(v: int, t: nat, ret: seq<int>, acc: int, bits: nat, d: int, f: nat)
    requires t > 0 && Splits(v, t, ret, acc, bits) && bits < t && 0 <= d < Pow2(f)
    ensures Splits(v * Pow2(f) + d, t, ret, (acc * Pow2(f) + d) % Pow2(f + t - 1), bits + f)
  {
    hide Pow2, Digits;
    MaskKeepsLow(acc * Pow2(f) + d, bits + f, f + t - 1);
    ShiftIn(acc, d, bits, f);
    ShiftIn(v, d, bits, f);
  }

  lemma EmitDigit(v: int, t: nat, ret: seq<int>, acc: int, bits: nat)
    requires t <= bits && Splits(v, t, ret, acc, bits)
    ensures Splits(v, t, ret + [(acc / Pow2(bits - t)) % Pow2(t)], acc, bits - t)
  {
    hide Pow2, Digits;
    var b := bits - t;
    ShiftOut(v, b, t);
    ShiftOut(acc, b, t);
    MaskKeepsLow(v, b, bits);
    MaskKeepsLow(acc, b, bits);
    DigitsStep(v / Pow2(b), t, |ret|);
  }

  lemma PadDigit(v: int, t: nat, ret: seq<int>, acc: int, bits: nat)
    requires bits <= t && Splits(v, t, ret, acc, bits)
    ensures ret + [(acc * Pow2(t - bits)) % Pow2(t)] == Digits(v * Pow2(t - bits), t, |ret| + 1)
    ensures (acc * Pow2(t - bits)) % Pow2(t) == (v % Pow2(bits)) * Pow2(t - bits)
  {
    hide Pow2, Digits;
    ShiftIn(acc, 0, bits, t - bits);
    ShiftIn(v, 0, bits, t - bits);
    DigitsStep(v * Pow2(t - bits), t, |ret|);
  }

  lemma ZeroProduct(a: int, b: int)
    requires b > 0
    ensures a * b == 0 <==> a == 0
  {
  }

  lemma SplitsStart(t: nat)
    ensures Splits(0, t, [], 0, 0)
  {
  }

  lemma OutOfRange(d: int, f: nat)
    ensures d < 0 || d / Pow2(f) != 0 <==> !(0 <= d < Pow2(f))
  {
    var b := Pow2(f);
    hide Pow2;
    if 0 <= d < b {
      RemainderUnique(b, d, 0, d);
    } else if d >= b && d / b == 0 {
      QuotientRemainder(d, b);
    }
  }

  lemma SplitsBody(v: int, t: nat, ret: seq<int>, acc: int, bits: nat)
    requires Splits(v, t, ret, acc, bits)
    ensures ret == Digits(v / Pow2(bits), t, |ret|)
    ensures bits == 0 ==> ret == Digits(v, t, |ret|)
  {
  }

  /** The accumulator loop of the code, for any two digit widths. */
  method ConvertBits(data: seq<int>, f: nat, t: nat, pad: bool) returns (r: Option<seq<int>>)
    requires f > 0 && t > 0
    ensures r == Convert(data, f, t, pad)
  {
    hide Pow2, Splits, Digits;
    var acc, bits: nat, ret := 0, 0, [];
    SplitsStart(t);
    ghost var total: nat := 0;
    for i := 0 to |data|
      invariant AreDigits(data[..i], f) && bits < t
      invariant total == i * f && total == |ret| * t + bits
      invariant Splits(Value(data[..i], f), t, ret, acc, bits)
    {
      var value := data[i];
      OutOfRange(value, f);
      if value < 0 || value / Pow2(f) != 0 {
        return None;
      }
      ghost var v := Value(data[..i + 1], f);
      ValueSnoc(data, f, i);
      TakeValue(Value(data[..i], f), t, ret, acc, bits, value, f);
      acc := (acc * Pow2(f) + value) % Pow2(f + t - 1);
      bits := bits + f;
      Distribute(f, i, 1);
      total := total + f;
      while bits >= t
        invariant total == |ret| * t + bits
        invariant Splits(v, t, ret, acc, bits)
        decreases bits
      {
        EmitDigit(v, t, ret, acc, bits);
        bits := bits - t;
        ret := ret + [(acc / Pow2(bits)) % Pow2(t)];
        Distribute(t, |ret| - 1, 1);
      }
    }
    assert data[..|data|] == data;
    ghost var v := Value(data, f);
    DivisionStep(total, t, |ret|, bits);
    PadDigit(v, t, ret, acc, bits);
    ZeroProduct(v % Pow2(bits), Pow2(t - bits));
    SplitsBody(v, t, ret, acc, bits);
    if pad {
      if bits > 0 {
        ret := ret + [(acc * Pow2(t - bits)) % Pow2(t)];
      }
    } else if bits >= f || (acc * Pow2(t - bits)) % Pow2(t) != 0 {
      return None;
    }
    r := Some(ret);
  }

  // ---------------------------------------------------------------- round trips

  lemma ExactQuotient(p: int, b: int)
    requires b > 0
    ensures (p * b) / b == p && (p * b) % b == 0
  {
    RemainderUnique(b, p * b, p, 0);
  }

  lemma ZeroPower()
    ensures Pow2(0) == 1
  {
  }

  lemma CeilSlack(total: nat, t: nat)
    requires t > 0
    ensures var e := if total % t == 0 then 0 else t - total % t;
            t * Ceil(total, t) == total + e == Ceil(total, t) * t
  {
    QuotientRemainder(total, t);
    Distribute(t, total / t, 1);
  }

  lemma WidenBound(v: int, b: int, top: int)
    requires 0 <= v < top && b > 0
    ensures 0 <= v * b < top * b
  {
  }

  /** Converting to narrower digits with padding and back without loses nothing. */
  lemma PadThenStrip(data: seq<int>, f: nat, t: nat)
    requires 0 < t <= f && AreDigits(data, f)
    ensures var d := Convert(data, f, t, true);
            && d.Some? && AreDigits(d.value, t)
            && Convert(d.value, t, f, false) == Some(data)
  {
    var total := BitCount(data, f);
    var v, rest := Value(data, f), total % t;
    var n := Ceil(total, t);
    var e := if rest == 0 then 0 else t - rest;
    var w := v * Pow2(e);
    ZeroPower();
    hide Pow2, Digits;
    var d := Digits(w, t, n);
    assert Convert(data, f, t, true) == Some(d);
    DigitsInRange(w, t, n);
    CeilSlack(total, t);
    assert t * n == total + e;
    ValueBounds(data, f);
    Pow2Add(total, e);
    WidenBound(v, Pow2(e), Pow2(total));
    ValueOfDigits(w, t, n);
    assert BitCount(d, t) == total + e;
    DivisionStep(total + e, f, |data|, e);
    ExactQuotient(v, Pow2(e));
    DigitsOfValue(data, f);
  }

  /** The stripped digits hold the number without its zero remainder. */
  lemma StripValue(v: int, total: nat, t: nat)
    requires t > 0 && 0 <= v < Pow2(total) && v % Pow2(total % t) == 0
    ensures var bits, n := total % t, total / t; var p := Digits(v / Pow2(bits), t, n);
            Value(p, t) * Pow2(bits) == v && BitCount(p, t) == total - bits && bits <= total
  {
    hide Pow2, Digits, Value;
    var bits, n := total % t, total / t;
    var b := Pow2(bits);
    QuotientRemainder(total, t);
    MulCommutes(n, t);
    var k := t * n;
    assert total == k + bits;
    Pow2Add(k, bits);
    QuotientRemainder(v, b);
    QuotientBound(v, b, Pow2(k));
    ValueOfDigits(v / b, t, n);
  }

  lemma MPositive(m: nat, f: nat, bits: nat)
    requires 0 < bits <= m * f
    ensures m > 0
  {
  }

  lemma PaddedBack(total: nat, m: nat, f: nat, bits: nat)
    requires f > 0 && total == m * f && bits < f && bits <= total
    ensures Ceil(total - bits, f) == m
    ensures (total - bits) % f == if bits == 0 then 0 else f - bits
  {
    if bits == 0 {
      DivisionStep(total, f, m, 0);
    } else {
      DistributeSub(f, m, 1);
      MPositive(m, f, bits);
      DivisionStep(total - bits, f, m - 1, f - bits);
    }
  }

  /** Whatever is accepted without padding is what padding produces: the wide form has one narrow form. */
  lemma StripThenPad(data: seq<int>, f: nat, t: nat)
    requires 0 < f <= t && AreDigits(data, f)
    requires Convert(data, f, t, false).Some?
    ensures var p := Convert(data, f, t, false).value;
            && AreDigits(p, t)
            && Convert(p, t, f, true) == Some(data)
  {
    hide Pow2, Digits, Value;
    var total, v := BitCount(data, f), Value(data, f);
    var bits, n := total % t, total / t;
    var p := Digits(v / Pow2(bits), t, n);
    ValueBounds(data, f);
    StripValue(v, total, t);
    DigitsInRange(v / Pow2(bits), t, n);
    DigitsOfValue(data, f);
    ZeroPower();
    PaddedBack(total, |data|, f, bits);
  }
}

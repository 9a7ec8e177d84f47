/** Failure-compatible results, powers of two and little-endian byte strings. */
module Basics {

  datatype Option<+T> = None | Some(value: T) {
    predicate IsFailure() {
      None?
    }

    function PropagateFailure<U>(): Option<U>
      requires None?
    {
      None
    }

    function Extract(): T
      requires Some?
    {
      value
    }
  }

  lemma AMember<T>(s: set<T>) returns (x: T)
    requires s != {}
    ensures x in s
  {
    x :| x in s;
  }

  type Byte = x: int | 0 <= x < 256

  type Bytes = seq<Byte>

  function Pow2(n: nat): (r: nat)
    ensures r >= 1
  {
    if n == 0 then 1 else 2 * Pow2(n - 1)
  }

  lemma Double(a: int, b: int)
    ensures 2 * a * b == 2 * (a * b)
  {
  }

  lemma {:induction false} Pow2Add(m: nat, n: nat)
    ensures Pow2(m + n) == Pow2(m) * Pow2(n)
  {
    if m == 0 {
    } else {
      Pow2Add(m - 1, n);
      Double(Pow2(m - 1), Pow2(n));
    }
  }

  lemma {:induction false} Pow2Monotone(m: nat, n: nat)
    requires m <= n
    ensures Pow2(m) <= Pow2(n)
  {
    if m >= n {
    } else {
      Pow2Monotone(m, n - 1);
    }
  }

  /** The n low bytes of v, least significant first. */
  function LeBytes(v: int, n: nat): (r: Bytes)
    ensures |r| == n
    decreases n, v
  {
    if n == 0 then [] else [v % 256] + LeBytes(v / 256, n - 1)
  }

  function LeValue(s: Bytes): nat {
    if s == [] then 0 else s[0] + 256 * LeValue(s[1..])
  }

  lemma Pow2Byte(n: nat)
    ensures Pow2(8 * (n + 1)) == 256 * Pow2(8 * n)
  {
    assert Pow2(8) == 256;
    Pow2Add(8, 8 * n);
  }

  lemma {:induction false} LeValueOfBytes(v: int, n: nat)
    requires 0 <= v < Pow2(8 * n)
    ensures LeValue(LeBytes(v, n)) == v
  {
    if n == 0 {
    } else {
      Pow2Byte(n - 1);
      LeValueOfBytes(v / 256, n - 1);
      assert LeBytes(v, n)[1..] == LeBytes(v / 256, n - 1);
    }
  }

  lemma {:induction false} LeBytesOfValue(s: Bytes)
    ensures LeValue(s) < Pow2(8 * |s|) && LeBytes(LeValue(s), |s|) == s
  {
    if s == [] {
    } else {
      LeBytesOfValue(s[1..]);
      Pow2Byte(|s| - 1);
    }
  }

  /** Fixed-width little-endian encoding is injective on values that fit. */
  lemma LeBytesInjective(v: int, w: int, n: nat)
    requires 0 <= v < Pow2(8 * n) && 0 <= w < Pow2(8 * n) && LeBytes(v, n) == LeBytes(w, n)
    ensures v == w
  {
    LeValueOfBytes(v, n);
    LeValueOfBytes(w, n);
  }

  /** A value below half the range leaves the highest bit of the last byte free. */
  lemma {:induction false} TopBitFree(v: int, n: nat)
    requires n > 0 && 0 <= v < Pow2(8 * n - 1)
    ensures LeBytes(v, n)[n - 1] < 128
  {
    if n == 1 {
      assert Pow2(7) == 128;
    } else {
      assert Pow2(8) == 256;
      Pow2Add(8, 8 * (n - 1) - 1);
      TopBitFree(v / 256, n - 1);
    }
  }

  lemma LowByteParity(v: int, n: nat)
    requires n > 0
    ensures LeBytes(v, n)[0] % 2 == v % 2
  {
    var low := v % 256;
    assert LeBytes(v, n)[0] == low;
    hide LeBytes;
    assert v == 2 * (128 * (v / 256)) + low;
  }
}

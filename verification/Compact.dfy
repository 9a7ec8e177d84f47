/** SCALE compact integers, fixed-width integers and vectors, with the decoder that inverts them. */
module Compact {
  import opened Basics
  import opened ModArith

  // ---------------------------------------------------------------- encoding

  /** Little-endian bytes without a leading zero. */
  function MinimalBytes(v: nat): Bytes {
    if v == 0 then [] else [v % 256] + MinimalBytes(v / 256)
  }

  /** The values that the compact form can hold. */
  predicate Encodable(v: int) {
    0 <= v < Pow2(536)
  }

  /** The four modes, told apart by the two low bits of the first byte. */
  function CompactBytes(v: int): Bytes {
    if v < 64 then [(4 * v) % 256]
    else if v < 16384 then LeBytes(4 * v + 1, 2)
    else if v < 1073741824 then LeBytes(4 * v + 2, 4)
    else
      var out := MinimalBytes(v);
      [((|out| - 4) * 4 + 3) % 256] + out
  }

  lemma {:induction false} MinimalLength(v: nat, n: nat)
    ensures |MinimalBytes(v)| <= n <==> v < Pow2(8 * n)
    decreases n
  {
    if n > 0 {
      Pow2Byte(n - 1);
      if v > 0 {
        MinimalLength(v / 256, n - 1);
      }
    } else {
      assert Pow2(0) == 1;
    }
  }

  lemma {:induction false} MinimalIsLe(v: nat)
    ensures MinimalBytes(v) == LeBytes(v, |MinimalBytes(v)|) && LeValue(MinimalBytes(v)) == v
  {
    if v == 0 {
    } else {
      MinimalIsLe(v / 256);
      assert MinimalBytes(v)[1..] == MinimalBytes(v / 256);
    }
  }

  lemma Pow2Of24()
    ensures Pow2(8 * 3) == 0x1000000
  {
    Pow2Byte(0);
    Pow2Byte(1);
    Pow2Byte(2);
    assert Pow2(8 * 0) == 1;
  }

  lemma BigLength(v: nat)
    requires v >= 1073741824
    ensures 4 <= |MinimalBytes(v)|
    ensures |MinimalBytes(v)| <= 67 <==> v < Pow2(536)
  {
    MinimalLength(v, 3);
    MinimalLength(v, 67);
    assert 8 * 67 == 536;
    Pow2Of24();
  }

  lemma MinimalStep(v: nat)
    ensures v > 0 ==> MinimalBytes(v) == [v % 256] + MinimalBytes(v / 256)
    ensures MinimalBytes(0) == []
  {
  }

  lemma SmallIsEncodable(v: int)
    ensures 0 <= v < 1073741824 ==> Encodable(v)
  {
    Pow2Of24();
    Pow2Byte(3);
    Pow2Monotone(32, 536);
  }

  /** The shortest mode is taken: one, two or four bytes as long as two bits are left for the mode, and then one
      byte more than the number itself needs. */
  lemma ShortestMode(v: nat)
    ensures var n := |CompactBytes(v)|;
            && (n == 1 <==> v < 64)
            && (n == 2 <==> 64 <= v < 0x4000)
            && (n == 4 <==> 0x4000 <= v < 0x4000_0000)
            && (v >= 0x4000_0000 ==> n >= 5 && Pow2(8 * (n - 2)) <= v < Pow2(8 * (n - 1)))
  {
    if v >= 0x4000_0000 {
      BigLength(v);
      var m := |MinimalBytes(v)|;
      MinimalLength(v, m);
      MinimalLength(v, m - 1);
    }
    hide LeBytes, MinimalBytes, Pow2;
  }

  /** The encoder of the code: it fails exactly outside the range, where a byte does not fit. */
  method EncodeScaleInt(val: int) returns (r: Option<Bytes>)
    ensures r == if Encodable(val) then Some(CompactBytes(val)) else None
  {
    hide Pow2, LeBytes, MinimalBytes;
    SmallIsEncodable(val);
    if val < 64 {
      return if val < 0 then None else Some([4 * val]);
    } else if val < 16384 {
      return Some(LeBytes(4 * val + 1, 2));
    } else if val < 1073741824 {
      return Some(LeBytes(4 * val + 2, 4));
    }
    var out: Bytes := [];
    var rest: nat := val;
    while rest > 0
      invariant out + MinimalBytes(rest) == MinimalBytes(val)
    {
      MinimalStep(rest);
      out := out + [rest % 256];
      rest := rest / 256;
    }
    MinimalStep(0);
    BigLength(val);
    assert out == MinimalBytes(val);
    var prefix := (|out| - 4) * 4 + 3;
    r := if prefix < 256 then Some([prefix] + out) else None;
  }

  // ---------------------------------------------------------------- decoding

  function Take(b: Bytes, n: nat): Option<(Bytes, Bytes)> {
    if |b| < n then None else Some((b[..n], b[n..]))
  }

  function TakeLe(b: Bytes, n: nat): Option<(nat, Bytes)> {
    var (x, rest) :- Take(b, n);
    Some((LeValue(x), rest))
  }

  function DecodeCompact(b: Bytes): Option<(nat, Bytes)> {
    if b == [] then None
    else if b[0] % 4 == 0 then Some((b[0] / 4, b[1..]))
    else if b[0] % 4 == 1 then var (v, rest) :- TakeLe(b, 2); Some((v / 4, rest))
    else if b[0] % 4 == 2 then var (v, rest) :- TakeLe(b, 4); Some((v / 4, rest))
    else TakeLe(b[1..], b[0] / 4 + 4)
  }

  lemma TakeFront(x: Bytes, rest: Bytes)
    ensures Take(x + rest, |x|) == Some((x, rest))
  {
    assert (x + rest)[..|x|] == x && (x + rest)[|x|..] == rest;
  }

  lemma TakeLeFront(v: int, n: nat, rest: Bytes)
    requires 0 <= v < Pow2(8 * n)
    ensures TakeLe(LeBytes(v, n) + rest, n) == Some((v, rest))
  {
    hide LeBytes, LeValue, Pow2;
    TakeFront(LeBytes(v, n), rest);
    LeValueOfBytes(v, n);
  }

  lemma FirstByte(v: int, n: nat)
    requires n > 0
    ensures LeBytes(v, n)[0] == v % 256
  {
  }

  lemma ModeBits(v: int, m: int)
    requires 0 <= m < 4
    ensures (4 * v + m) % 256 % 4 == m && (4 * v + m) / 4 == v
  {
  }

  lemma FixedModeRoundTrip(v: int, m: int, n: nat, rest: Bytes)
    requires (m == 1 && n == 2) || (m == 2 && n == 4)
    requires 0 <= 4 * v + m < Pow2(8 * n)
    ensures DecodeCompact(LeBytes(4 * v + m, n) + rest) == Some((v, rest))
  {
    hide LeBytes, LeValue, Pow2;
    var b := LeBytes(4 * v + m, n) + rest;
    FirstByte(4 * v + m, n);
    ModeBits(v, m);
    assert b[0] % 4 == m;
    TakeLeFront(4 * v + m, n, rest);
    hide TakeLe;
  }

  lemma BigPrefix(n: nat)
    requires 4 <= n <= 67
    ensures var x := (n - 4) * 4 + 3; x % 256 == x && x % 4 == 3 && x / 4 + 4 == n
  {
  }

  lemma BigModeRoundTrip(v: int, rest: Bytes)
    requires 1073741824 <= v < Pow2(536)
    ensures DecodeCompact(CompactBytes(v) + rest) == Some((v, rest))
  {
    hide LeBytes, LeValue, Pow2, MinimalBytes;
    var out := MinimalBytes(v);
    BigLength(v);
    MinimalIsLe(v);
    BigPrefix(|out|);
    var prefix := (|out| - 4) * 4 + 3;
    var b := CompactBytes(v) + rest;
    assert b == [prefix] + (out + rest);
    assert b[0] == prefix && b[1..] == out + rest;
    TakeFront(out, rest);
  }

  lemma SingleByteRoundTrip(v: int, rest: Bytes)
    requires 0 <= v < 64
    ensures DecodeCompact(CompactBytes(v) + rest) == Some((v, rest))
  {
    hide LeBytes, LeValue, Pow2, MinimalBytes, TakeLe;
    var b := [4 * v] + rest;
    assert CompactBytes(v) + rest == b;
    assert b[0] == 4 * v && b[1..] == rest;
  }

  lemma SixteenBits()
    ensures Pow2(8 * 2) == 0x10000
  {
    Pow2Byte(0);
    Pow2Byte(1);
    assert Pow2(8 * 0) == 1;
  }

  lemma ThirtyTwoBits()
    ensures Pow2(8 * 4) == 0x1_0000_0000
  {
    Pow2Of24();
    Pow2Byte(3);
  }

  /** The decoder recovers every value in range and leaves what follows untouched. */
  lemma CompactRoundTrip(v: int, rest: Bytes)
    requires Encodable(v)
    ensures DecodeCompact(CompactBytes(v) + rest) == Some((v, rest))
  {
    hide LeBytes, Pow2, MinimalBytes, DecodeCompact;
    if v < 64 {
      SingleByteRoundTrip(v, rest);
    } else if v < 16384 {
      SixteenBits();
      FixedModeRoundTrip(v, 1, 2, rest);
    } else if v < 1073741824 {
      ThirtyTwoBits();
      FixedModeRoundTrip(v, 2, 4, rest);
    } else {
      BigModeRoundTrip(v, rest);
    }
  }

  /** Compact integers are prefix-free: no encoding continues another. */
  lemma CompactPrefixFree(v: int, r: Bytes, w: int, s: Bytes)
    requires Encodable(v) && Encodable(w) && CompactBytes(v) + r == CompactBytes(w) + s
    ensures v == w && r == s
  {
    CompactRoundTrip(v, r);
    CompactRoundTrip(w, s);
  }

  // ---------------------------------------------------------------- fixed-width integers

  predicate IsU32(v: int) {
    0 <= v < 0x1_0000_0000
  }

  predicate IsU128(v: int) {
    0 <= v < 0x1_0000_0000_0000_0000_0000_0000_0000_0000
  }

  function U32Bytes(v: int): Bytes {
    LeBytes(v, 4)
  }

  /** Two little-endian words, the low one first. */
  function U128Bytes(v: int): Bytes {
    LeBytes(v % 0x1_0000_0000_0000_0000, 8) + LeBytes(v / 0x1_0000_0000_0000_0000, 8)
  }

  lemma U32RoundTrip(v: int, rest: Bytes)
    requires IsU32(v)
    ensures TakeLe(U32Bytes(v) + rest, 4) == Some((v, rest))
  {
    hide LeBytes;
    ThirtyTwoBits();
    TakeLeFront(v, 4, rest);
  }

  lemma {:induction false} LeValueConcat(x: Bytes, y: Bytes)
    ensures LeValue(x + y) == LeValue(x) + Pow2(8 * |x|) * LeValue(y)
  {
    if x == [] {
      assert x + y == y && Pow2(0) == 1;
    } else {
      assert (x + y)[1..] == x[1..] + y;
      LeValueConcat(x[1..], y);
      Pow2Byte(|x| - 1);
      var p, l := Pow2(8 * (|x| - 1)), LeValue(y);
      hide Pow2;
      MulAssoc(256, p, l);
    }
  }

  lemma SixtyFourBits()
    ensures Pow2(8 * 8) == 0x1_0000_0000_0000_0000
  {
    ThirtyTwoBits();
    hide Pow2;
    Pow2Byte(4);
    Pow2Byte(5);
    Pow2Byte(6);
    Pow2Byte(7);
  }

  lemma U128RoundTrip(v: int, rest: Bytes)
    requires IsU128(v)
    ensures TakeLe(U128Bytes(v) + rest, 16) == Some((v, rest))
  {
    hide LeBytes, LeValue, Pow2;
    var x, y := v % 0x1_0000_0000_0000_0000, v / 0x1_0000_0000_0000_0000;
    SixtyFourBits();
    LeValueOfBytes(x, 8);
    LeValueOfBytes(y, 8);
    LeValueConcat(LeBytes(x, 8), LeBytes(y, 8));
    TakeFront(U128Bytes(v), rest);
  }

  // ---------------------------------------------------------------- vectors

  function Concat<T>(enc: T -> Bytes, xs: seq<T>): Bytes {
    if xs == [] then [] else enc(xs[0]) + Concat(enc, xs[1..])
  }

  function VecBytes<T>(enc: T -> Bytes, xs: seq<T>): Bytes {
    CompactBytes(|xs|) + Concat(enc, xs)
  }

  function Many<T>(dec: Bytes -> Option<(T, Bytes)>, n: nat, b: Bytes): Option<(seq<T>, Bytes)> {
    if n == 0 then Some(([], b))
    else
      var (x, b1) :- dec(b);
      var (xs, b2) :- Many(dec, n - 1, b1);
      Some(([x] + xs, b2))
  }

  function DecodeVec<T>(dec: Bytes -> Option<(T, Bytes)>, b: Bytes): Option<(seq<T>, Bytes)> {
    var (n, b1) :- DecodeCompact(b);
    Many(dec, n, b1)
  }

  /** dec recovers x, whatever follows it. */
  ghost predicate Recovers<T>(enc: T -> Bytes, dec: Bytes -> Option<(T, Bytes)>, x: T) {
    forall r: Bytes {:trigger enc(x) + r} :: dec(enc(x) + r) == Some((x, r))
  }

  lemma ConcatAssoc(x: Bytes, y: Bytes, z: Bytes)
    ensures (x + y) + z == x + (y + z)
  {
  }

  lemma {:induction false} ManyRoundTrip<T>(enc: T -> Bytes, dec: Bytes -> Option<(T, Bytes)>, xs: seq<T>, rest: Bytes)
    requires forall x :: x in xs ==> Recovers(enc, dec, x)
    ensures Many(dec, |xs|, Concat(enc, xs) + rest) == Some((xs, rest))
  {
    if xs != [] {
      var tail := Concat(enc, xs[1..]) + rest;
      ConcatAssoc(enc(xs[0]), Concat(enc, xs[1..]), rest);
      assert Recovers(enc, dec, xs[0]);
      assert dec(enc(xs[0]) + tail) == Some((xs[0], tail));
      ManyRoundTrip(enc, dec, xs[1..], rest);
      assert [xs[0]] + xs[1..] == xs;
    } else {
      assert Concat(enc, xs) + rest == rest;
    }
  }

  lemma VecRoundTrip<T>(enc: T -> Bytes, dec: Bytes -> Option<(T, Bytes)>, xs: seq<T>, rest: Bytes)
    requires Encodable(|xs|) && forall x :: x in xs ==> Recovers(enc, dec, x)
    ensures DecodeVec(dec, VecBytes(enc, xs) + rest) == Some((xs, rest))
  {
    hide CompactBytes, DecodeCompact, Encodable;
    ConcatAssoc(CompactBytes(|xs|), Concat(enc, xs), rest);
    CompactRoundTrip(|xs|, Concat(enc, xs) + rest);
    ManyRoundTrip(enc, dec, xs, rest);
  }

  lemma {:induction false} ConcatSnoc<T>(enc: T -> Bytes, xs: seq<T>, i: nat)
    requires i < |xs|
    ensures Concat(enc, xs[..i + 1]) == Concat(enc, xs[..i]) + enc(xs[i])
    decreases i
  {
    if i > 0 {
      assert xs[..i + 1][1..] == xs[1..][..i] && xs[..i][1..] == xs[1..][..i - 1];
      ConcatSnoc(enc, xs[1..], i - 1);
      ConcatAssoc(enc(xs[0]), Concat(enc, xs[1..][..i - 1]), enc(xs[i]));
    } else {
      assert xs[..1][1..] == [];
    }
  }

  /** A byte string with its compact length in front. */
  function Prefixed(data: Bytes): Bytes {
    CompactBytes(|data|) + data
  }

  function DecodePrefixed(b: Bytes): Option<(Bytes, Bytes)> {
    var (n, b1) :- DecodeCompact(b);
    Take(b1, n)
  }

  lemma PrefixedRoundTrip(data: Bytes, rest: Bytes)
    requires Encodable(|data|)
    ensures DecodePrefixed(Prefixed(data) + rest) == Some((data, rest))
  {
    hide CompactBytes, DecodeCompact, Encodable;
    ConcatAssoc(CompactBytes(|data|), data, rest);
    CompactRoundTrip(|data|, data + rest);
    TakeFront(data, rest);
  }

  // ---------------------------------------------------------------- what a decoder can return

  lemma TakeLeFits(b: Bytes, n: nat)
    ensures var t := TakeLe(b, n); t.Some? ==> t.value.0 < Pow2(8 * n)
  {
    hide LeValue, Pow2;
    if |b| >= n {
      LeBytesOfValue(b[..n]);
    }
  }

  /** A decoded compact integer is one that can be encoded. */
  lemma DecodedEncodable(b: Bytes)
    ensures var t := DecodeCompact(b); t.Some? ==> Encodable(t.value.0)
  {
    SixteenBits();
    ThirtyTwoBits();
    hide Pow2, LeValue, TakeLe;
    if b != [] {
      var n: nat := b[0] / 4 + 4;
      TakeLeFits(b, 2);
      TakeLeFits(b, 4);
      TakeLeFits(b[1..], n);
      Pow2Monotone(8 * n, 536);
      Pow2Monotone(32, 536);
    }
  }

  lemma DecodedPrefixed(b: Bytes)
    ensures var t := DecodePrefixed(b); t.Some? ==> Encodable(|t.value.0|)
  {
    hide DecodeCompact;
    DecodedEncodable(b);
  }

  /** dec returns only values of which good holds. */
  ghost predicate Sound<T>(dec: Bytes -> Option<(T, Bytes)>, good: T -> bool) {
    forall b :: dec(b).Some? ==> good(dec(b).value.0)
  }

  lemma {:induction false} DecodedMany<T>(dec: Bytes -> Option<(T, Bytes)>, good: T -> bool, n: nat, b: Bytes)
    requires Sound(dec, good)
    ensures var t := Many(dec, n, b); t.Some? ==> |t.value.0| == n && forall x :: x in t.value.0 ==> good(x)
  {
    if n == 0 {
    } else if dec(b).Some? {
      DecodedMany(dec, good, n - 1, dec(b).value.1);
    }
  }

  lemma DecodedVec<T>(dec: Bytes -> Option<(T, Bytes)>, good: T -> bool, b: Bytes)
    requires Sound(dec, good)
    ensures var t := DecodeVec(dec, b); t.Some? ==> Encodable(|t.value.0|) && forall x :: x in t.value.0 ==> good(x)
  {
    hide DecodeCompact, Many, Sound;
    DecodedEncodable(b);
    var t := DecodeCompact(b);
    if t.Some? {
      DecodedMany(dec, good, t.value.0, t.value.1);
    }
  }

  lemma DecodedU32(b: Bytes)
    ensures var t := TakeLe(b, 4); t.Some? ==> IsU32(t.value.0)
  {
    ThirtyTwoBits();
    TakeLeFits(b, 4);
  }

  lemma DecodedU128(b: Bytes)
    ensures var t := TakeLe(b, 16); t.Some? ==> IsU128(t.value.0)
  {
    SixtyFourBits();
    hide Pow2;
    Pow2Add(64, 64);
    TakeLeFits(b, 16);
  }
}

/** The Bech32m checksum register, a linear map over GF(2). */
module Checksum {

  const CONST: bv30 := 0x2BC830A3
  const GENERATOR: seq<bv30> := [0x3B6A57B2, 0x26508E6D, 0x1EA119FA, 0x3D4233DD, 0x2A1462B3]

  // ---------------------------------------------------------------- symbols as bits

  function Bit(on: bool, weight: bv30): bv30 {
    if on then weight else 0
  }

  /** A number below 32 as bits. */
  function SymbolBits(n: nat): bv30 {
    Bit(n / 16 % 2 == 1, 16) | Bit(n / 8 % 2 == 1, 8) | Bit(n / 4 % 2 == 1, 4) | Bit(n / 2 % 2 == 1, 2) | Bit(n % 2 == 1, 1)
  }

  /** Any number as the bits of a 30-bit register. Numbers of 2^30 and more lose their high bits here; in an
      unbounded integer the next step would mask those bits off, and no caller passes such numbers. */
  function ToBits(n: nat): bv30 {
    if n < 32 then SymbolBits(n) else (ToBits(n / 32) << 5) | SymbolBits(n % 32)
  }

  /** The bits of a number are those of its base-32 digits, the low digit last. */
  lemma ToBitsSplit(high: nat, low: nat)
    requires low < 32
    ensures ToBits(32 * high + low) == (ToBits(high) << 5) | ToBits(low)
  {
    var n := 32 * high + low;
    assert n / 32 == high && n % 32 == low;
    if high == 0 {
      assert ToBits(0) == 0;
    }
    hide SymbolBits;
  }

  function Weight(on: bool, weight: nat): nat {
    if on then weight else 0
  }

  /** The low five bits as a number. */
  function FromBits(b: bv30): (n: nat)
    ensures n < 32
  {
    Weight(b & 16 != 0, 16) + Weight(b & 8 != 0, 8) + Weight(b & 4 != 0, 4) + Weight(b & 2 != 0, 2) + Weight(b & 1 != 0, 1)
  }

  lemma BitsRead(b4: bool, b3: bool, b2: bool, b1: bool, b0: bool)
    ensures var x := Bit(b4, 16) | Bit(b3, 8) | Bit(b2, 4) | Bit(b1, 2) | Bit(b0, 1);
            && x < 32
            && (x & 16 != 0) == b4 && (x & 8 != 0) == b3 && (x & 4 != 0) == b2 && (x & 2 != 0) == b1 && (x & 1 != 0) == b0
  {
  }

  lemma BitsRebuilt(b: bv30)
    requires b < 32
    ensures b == Bit(b & 16 != 0, 16) | Bit(b & 8 != 0, 8) | Bit(b & 4 != 0, 4) | Bit(b & 2 != 0, 2) | Bit(b & 1 != 0, 1)
  {
    assert b == b & 31;
    assert b & 31 == (b & 16) | (b & 8) | (b & 4) | (b & 2) | (b & 1);
    assert b & 16 != 0 ==> b & 16 == 16;
    assert b & 8 != 0 ==> b & 8 == 8;
    assert b & 4 != 0 ==> b & 4 == 4;
    assert b & 2 != 0 ==> b & 2 == 2;
    assert b & 1 != 0 ==> b & 1 == 1;
  }

  lemma NumberDigits(n: nat)
    requires n < 32
    ensures n == Weight(n / 16 % 2 == 1, 16) + Weight(n / 8 % 2 == 1, 8) + Weight(n / 4 % 2 == 1, 4)
               + Weight(n / 2 % 2 == 1, 2) + Weight(n % 2 == 1, 1)
  {
  }

  lemma DigitsOfSum(b4: bool, b3: bool, b2: bool, b1: bool, b0: bool)
    ensures var n := Weight(b4, 16) + Weight(b3, 8) + Weight(b2, 4) + Weight(b1, 2) + Weight(b0, 1);
            (n / 16 % 2 == 1) == b4 && (n / 8 % 2 == 1) == b3 && (n / 4 % 2 == 1) == b2 && (n / 2 % 2 == 1) == b1 && (n % 2 == 1) == b0
  {
  }

  /** Symbols and five-bit values correspond one to one. */
  lemma SymbolRoundTrip(n: nat)
    requires n < 32
    ensures ToBits(n) < 32 && FromBits(ToBits(n)) == n
  {
    BitsRead(n / 16 % 2 == 1, n / 8 % 2 == 1, n / 4 % 2 == 1, n / 2 % 2 == 1, n % 2 == 1);
    NumberDigits(n);
    hide Bit, Weight;
  }

  lemma BitsRoundTrip(b: bv30)
    requires b < 32
    ensures ToBits(FromBits(b)) == b
  {
    BitsRebuilt(b);
    DigitsOfSum(b & 16 != 0, b & 8 != 0, b & 4 != 0, b & 2 != 0, b & 1 != 0);
    hide Bit, Weight;
  }

  // ---------------------------------------------------------------- the register

  function Xor(a: bv30, b: bv30): bv30 {
    a ^ b
  }

  /** Bit i of the five bits shifted out of the register. */
  function BitOf(s: bv30, i: nat): bv30
    requires i < 5
  {
    if i == 0 then (s >> 0) & 1
    else if i == 1 then (s >> 1) & 1
    else if i == 2 then (s >> 2) & 1
    else if i == 3 then (s >> 3) & 1
    else (s >> 4) & 1
  }

  /** The generator word selected by bit i of the five bits shifted out. */
  function Feedback(top: bv30, i: nat): bv30
    requires i < 5
  {
    if BitOf(top, i) == 1 then GENERATOR[i] else 0
  }

  /** The register after the first i generator words were folded in. */
  function Folded(chk: bv30, top: bv30, i: nat): bv30
    requires i <= 5
  {
    if i == 0 then chk else Xor(Folded(chk, top, i - 1), Feedback(top, i - 1))
  }

  function Shifted(chk: bv30): bv30 {
    (chk & 0x1FFFFFF) << 5
  }

  /** One symbol absorbed. */
  function Step(chk: bv30, v: bv30): bv30 {
    Folded(Xor(Shifted(chk), v), chk >> 25, 5)
  }

  function Run(chk: bv30, symbols: seq<bv30>): bv30 {
    if symbols == [] then chk else Step(Run(chk, symbols[..|symbols| - 1]), symbols[|symbols| - 1])
  }

  function AllBits(values: seq<nat>): (r: seq<bv30>)
    ensures |r| == |values| && forall k :: 0 <= k < |r| ==> r[k] == ToBits(values[k])
  {
    seq(|values|, (k: int) requires 0 <= k < |values| => ToBits(values[k]))
  }

  function Polymod(values: seq<nat>): bv30 {
    Run(1, AllBits(values))
  }

  lemma ShiftAndAdd(chk: bv30, v: bv30)
    ensures ((chk & 0x1FFFFFF) << 5) ^ v == Xor(Shifted(chk), v)
  {
  }

  lemma FoldOne(chk: bv30, top: bv30, i: nat)
    requires i < 5
    ensures chk ^ (if (top >> i) & 1 == 1 then GENERATOR[i] else 0) == Xor(chk, Feedback(top, i))
  {
    if i == 0 {} else if i == 1 {} else if i == 2 {} else if i == 3 {} else {}
  }

  /** The register loop, with its inner loop over the generator. */
  method ComputePolymod(values: seq<nat>) returns (chk: bv30)
    ensures chk == Polymod(values)
  {
    hide Feedback, Shifted, Xor, ToBits;
    chk := 1;
    ghost var all := AllBits(values);
    for k := 0 to |values|
      invariant chk == Run(1, all[..k])
    {
      var top := chk >> 25;
      ghost var start := Xor(Shifted(chk), ToBits(values[k]));
      ShiftAndAdd(chk, ToBits(values[k]));
      chk := ((chk & 0x1FFFFFF) << 5) ^ ToBits(values[k]);
      for i := 0 to 5
        invariant chk == Folded(start, top, i)
      {
        FoldOne(chk, top, i);
        chk := chk ^ (if (top >> i) & 1 == 1 then GENERATOR[i] else 0);
      }
      assert all[..k + 1][..k] == all[..k];
    }
    assert all[..|values|] == all;
  }

  // ---------------------------------------------------------------- linearity

  lemma XorCommutes(a: bv30, b: bv30)
    ensures Xor(a, b) == Xor(b, a)
  {
  }

  lemma XorAssociates(a: bv30, b: bv30, c: bv30)
    ensures Xor(Xor(a, b), c) == Xor(a, Xor(b, c))
  {
  }

  lemma XorExchange(a: bv30, b: bv30, c: bv30, d: bv30)
    ensures Xor(Xor(a, b), Xor(c, d)) == Xor(Xor(a, c), Xor(b, d))
  {
    hide Xor;
    XorAssociates(a, b, Xor(c, d));
    XorAssociates(b, c, d);
    XorCommutes(b, c);
    XorAssociates(c, b, d);
    XorAssociates(a, c, Xor(b, d));
  }

  lemma XorSelf(a: bv30, b: bv30)
    ensures Xor(a, 0) == a && Xor(0, a) == a
    ensures Xor(a, b) == 0 <==> a == b
  {
    assert a ^ 0 == a && 0 ^ a == a && ((a ^ b == 0) <==> a == b);
  }

  lemma ShiftedLinear(a: bv30, b: bv30)
    ensures Shifted(Xor(a, b)) == Xor(Shifted(a), Shifted(b))
    ensures Xor(a, b) >> 25 == Xor(a >> 25, b >> 25)
  {
    assert ((a ^ b) & 0x1FFFFFF) << 5 == ((a & 0x1FFFFFF) << 5) ^ ((b & 0x1FFFFFF) << 5);
    assert (a ^ b) >> 25 == (a >> 25) ^ (b >> 25);
  }

  lemma BitsOfXor(s: bv30, t: bv30)
    ensures ((s ^ t) >> 0) & 1 == ((s >> 0) & 1) ^ ((t >> 0) & 1)
    ensures ((s ^ t) >> 1) & 1 == ((s >> 1) & 1) ^ ((t >> 1) & 1)
    ensures ((s ^ t) >> 2) & 1 == ((s >> 2) & 1) ^ ((t >> 2) & 1)
    ensures ((s ^ t) >> 3) & 1 == ((s >> 3) & 1) ^ ((t >> 3) & 1)
    ensures ((s ^ t) >> 4) & 1 == ((s >> 4) & 1) ^ ((t >> 4) & 1)
  {
  }

  lemma BitLinear(s: bv30, t: bv30, i: nat)
    requires i < 5
    ensures BitOf(Xor(s, t), i) == Xor(BitOf(s, i), BitOf(t, i))
  {
    BitsOfXor(s, t);
    if i == 0 {} else if i == 1 {} else if i == 2 {} else if i == 3 {} else {}
  }

  lemma BitIsBit(s: bv30, i: nat)
    requires i < 5
    ensures BitOf(s, i) == 0 || BitOf(s, i) == 1
  {
  }

  lemma SelectLinear(p: bv30, q: bv30, g: bv30)
    requires (p == 0 || p == 1) && (q == 0 || q == 1)
    ensures (if Xor(p, q) == 1 then g else 0) == Xor(if p == 1 then g else 0, if q == 1 then g else 0)
  {
    assert g ^ g == 0 && g ^ 0 == g && 0 ^ g == g;
  }

  lemma FeedbackByBit(s: bv30, i: nat)
    requires i < 5
    ensures Feedback(s, i) == if BitOf(s, i) == 1 then GENERATOR[i] else 0
  {
  }

  lemma FeedbackLinear(s: bv30, t: bv30, i: nat)
    requires i < 5
    ensures Feedback(Xor(s, t), i) == Xor(Feedback(s, i), Feedback(t, i))
  {
    hide Xor, Feedback, BitOf;
    FeedbackByBit(s, i);
    FeedbackByBit(t, i);
    FeedbackByBit(Xor(s, t), i);
    BitLinear(s, t, i);
    BitIsBit(s, i);
    BitIsBit(t, i);
    SelectLinear(BitOf(s, i), BitOf(t, i), GENERATOR[i]);
  }

  lemma {:induction false} FoldedLinear(a: bv30, b: bv30, s: bv30, t: bv30, i: nat)
    requires i <= 5
    ensures Folded(Xor(a, b), Xor(s, t), i) == Xor(Folded(a, s, i), Folded(b, t, i))
  {
    hide Xor, Feedback;
    if i == 0 {
    } else {
      FoldedLinear(a, b, s, t, i - 1);
      FeedbackLinear(s, t, i - 1);
      XorExchange(Folded(a, s, i - 1), Folded(b, t, i - 1), Feedback(s, i - 1), Feedback(t, i - 1));
    }
  }

  lemma StepLinear(a: bv30, b: bv30, u: bv30, v: bv30)
    ensures Step(Xor(a, b), Xor(u, v)) == Xor(Step(a, u), Step(b, v))
  {
    hide Xor, Feedback, Folded, Shifted;
    ShiftedLinear(a, b);
    XorExchange(Shifted(a), Shifted(b), u, v);
    FoldedLinear(Xor(Shifted(a), u), Xor(Shifted(b), v), a >> 25, b >> 25, 5);
  }

  // ---------------------------------------------------------------- the kernel of a step

  lemma {:induction false} FoldedFromZero(a: bv30, s: bv30, i: nat)
    requires i <= 5
    ensures Folded(a, s, i) == Xor(a, Folded(0, s, i))
  {
    hide Xor, Feedback;
    XorSelf(a, a);
    if i == 0 {
    } else {
      FoldedFromZero(a, s, i - 1);
      XorAssociates(a, Folded(0, s, i - 1), Feedback(s, i - 1));
    }
  }

  function Low(a: bv30): bv30 {
    a & 31
  }

  lemma LowLinear(a: bv30, b: bv30)
    ensures Low(Xor(a, b)) == Xor(Low(a), Low(b))
  {
    assert (a ^ b) & 31 == (a & 31) ^ (b & 31);
  }

  lemma FeedbackLow(s: bv30)
    ensures Low(Feedback(s, 0)) == Bit(BitOf(s, 0) == 1, 0x12)
    ensures Low(Feedback(s, 1)) == Bit(BitOf(s, 1) == 1, 0x0D)
    ensures Low(Feedback(s, 2)) == Bit(BitOf(s, 2) == 1, 0x1A)
    ensures Low(Feedback(s, 3)) == Bit(BitOf(s, 3) == 1, 0x1D)
    ensures Low(Feedback(s, 4)) == Bit(BitOf(s, 4) == 1, 0x13)
    ensures Low(0) == 0
  {
  }

  predicate NoBits(s: bv30) {
    BitOf(s, 0) != 1 && BitOf(s, 1) != 1 && BitOf(s, 2) != 1 && BitOf(s, 3) != 1 && BitOf(s, 4) != 1
  }

  /** The low five bits of the generator words are linearly independent. */
  lemma LowIndependent(b0: bool, b1: bool, b2: bool, b3: bool, b4: bool)
    requires Xor(Xor(Xor(Xor(Xor(0, Bit(b0, 0x12)), Bit(b1, 0x0D)), Bit(b2, 0x1A)), Bit(b3, 0x1D)), Bit(b4, 0x13)) == 0
    ensures !b0 && !b1 && !b2 && !b3 && !b4
  {
  }

  lemma FoldedLow(s: bv30)
    requires Low(Folded(0, s, 5)) == 0
    ensures NoBits(s)
  {
    hide Xor, Feedback, BitOf, Bit, Low;
    FeedbackLow(s);
    assert Folded(0, s, 1) == Xor(0, Feedback(s, 0));
    assert Folded(0, s, 2) == Xor(Folded(0, s, 1), Feedback(s, 1));
    assert Folded(0, s, 3) == Xor(Folded(0, s, 2), Feedback(s, 2));
    assert Folded(0, s, 4) == Xor(Folded(0, s, 3), Feedback(s, 3));
    LowLinear(0, Feedback(s, 0));
    LowLinear(Folded(0, s, 1), Feedback(s, 1));
    LowLinear(Folded(0, s, 2), Feedback(s, 2));
    LowLinear(Folded(0, s, 3), Feedback(s, 3));
    LowLinear(Folded(0, s, 4), Feedback(s, 4));
    LowIndependent(BitOf(s, 0) == 1, BitOf(s, 1) == 1, BitOf(s, 2) == 1, BitOf(s, 3) == 1, BitOf(s, 4) == 1);
  }

  lemma TopVanishes(c: bv30)
    requires NoBits(c >> 25)
    ensures c < 0x2000000
  {
  }

  lemma ShiftedLow(c: bv30)
    ensures Low(Shifted(c)) == 0
    ensures c < 0x2000000 && Shifted(c) == 0 ==> c == 0
    ensures c < 0x2000000 ==> c >> 25 == 0 && Shifted(c) == c << 5
  {
  }

  lemma FeedbackOfZero(i: nat)
    requires i < 5
    ensures Feedback(0, i) == 0
  {
  }

  lemma {:induction false} FoldedByZero(a: bv30, i: nat)
    requires i <= 5
    ensures Folded(a, 0, i) == a
  {
    if i == 0 {
    } else {
      FoldedByZero(a, i - 1);
      FeedbackOfZero(i - 1);
      hide Feedback, Xor;
      XorSelf(a, a);
    }
  }

  lemma ShiftOr(c: bv30, v: bv30)
    requires v < 32
    ensures Xor(c << 5, v) == (c << 5) | v
  {
  }

  /** While fewer than six symbols are in the register nothing is folded back. */
  lemma StepLow(c: bv30, v: bv30)
    requires c < 0x2000000 && v < 32
    ensures Step(c, v) == (c << 5) | v
  {
    ShiftedLow(c);
    FoldedByZero(Xor(Shifted(c), v), 0 + 5);
    ShiftOr(c, v);
    hide Folded;
  }

  /** Only the zero register is shifted to zero by a zero symbol. */
  lemma StepKernel(c: bv30)
    requires Step(c, 0) == 0
    ensures c == 0
  {
    var f := Folded(0, c >> 25, 5);
    hide Xor, Shifted, Feedback, BitOf, Low, NoBits;
    XorSelf(Shifted(c), f);
    XorSelf(Shifted(c), 0);
    FoldedFromZero(Shifted(c), c >> 25, 5);
    ShiftedLow(c);
    FoldedLow(c >> 25);
    TopVanishes(c);
    FoldedByZero(0, 5);
  }

  // ---------------------------------------------------------------- runs of symbols

  lemma {:induction false} RunConcat(chk: bv30, x: seq<bv30>, y: seq<bv30>)
    ensures Run(chk, x + y) == Run(Run(chk, x), y)
  {
    if y == [] {
      assert x + y == x;
    } else {
      var n := |y| - 1;
      assert (x + y)[..|x + y| - 1] == x + y[..n];
      RunConcat(chk, x, y[..n]);
      hide Step;
    }
  }

  function XorAll(x: seq<bv30>, y: seq<bv30>): (r: seq<bv30>)
    requires |x| == |y|
    ensures |r| == |x| && forall k :: 0 <= k < |x| ==> r[k] == Xor(x[k], y[k])
  {
    seq(|x|, (k: int) requires 0 <= k < |x| => Xor(x[k], y[k]))
  }

  /** The whole register is linear in its start and in its symbols. */
  lemma {:induction false} RunLinear(a: bv30, b: bv30, x: seq<bv30>, y: seq<bv30>)
    requires |x| == |y|
    ensures Run(Xor(a, b), XorAll(x, y)) == Xor(Run(a, x), Run(b, y))
  {
    hide Xor, Step;
    if x == [] {
    } else {
      var n := |x| - 1;
      RunLinear(a, b, x[..n], y[..n]);
      assert XorAll(x, y)[..n] == XorAll(x[..n], y[..n]);
      StepLinear(Run(a, x[..n]), Run(b, y[..n]), x[n], y[n]);
    }
  }

  /** No number of zero symbols brings a nonzero register back to zero. */
  lemma {:induction false} ZerosKernel(c: bv30, z: seq<bv30>)
    requires (forall k :: 0 <= k < |z| ==> z[k] == 0) && Run(c, z) == 0
    ensures c == 0
  {
    hide Step;
    if z == [] {
    } else {
      var n := |z| - 1;
      StepKernel(Run(c, z[..n]));
      ZerosKernel(c, z[..n]);
    }
  }

  /** A common suffix preserves the difference of two registers. */
  lemma CommonSuffix(c: bv30, d: bv30, s: seq<bv30>)
    requires Run(c, s) == Run(d, s)
    ensures c == d
  {
    hide Xor, Step;
    RunLinear(c, d, s, s);
    XorSelf(Run(c, s), Run(d, s));
    forall k | 0 <= k < |s| ensures XorAll(s, s)[k] == 0 { XorSelf(s[k], s[k]); }
    ZerosKernel(Xor(c, d), XorAll(s, s));
    XorSelf(c, d);
  }

  /** A symbol pushed into a register that is not yet full. */
  function Push(c: bv30, v: bv30): bv30 {
    (c << 5) | v
  }

  function Bound(n: nat): bv30
    requires n <= 5
  {
    if n == 0 then 1 else if n == 1 then 0x20 else if n == 2 then 0x400
    else if n == 3 then 0x8000 else if n == 4 then 0x100000 else 0x2000000
  }

  /** At most n symbols are in the register. */
  predicate Fits(c: bv30, n: nat)
    requires n <= 5
  {
    c < Bound(n)
  }

  predicate IsSymbol(b: bv30) {
    b < 32
  }

  lemma PushFits(c: bv30, v: bv30, n: nat)
    requires n < 5 && Fits(c, n) && IsSymbol(v)
    ensures Fits(Push(c, v), n + 1)
  {
    if n == 0 {} else if n == 1 {} else if n == 2 {} else if n == 3 {} else {}
  }

  lemma FitsBelow(c: bv30, n: nat)
    requires n <= 5 && Fits(c, n)
    ensures c < 0x2000000
  {
  }

  lemma PushZero(c: bv30, v: bv30, n: nat)
    requires n <= 5 && Fits(c, n)
    ensures Push(c, v) == 0 ==> c == 0 && v == 0
  {
    FitsBelow(c, n);
  }

  lemma StepPushes(c: bv30, v: bv30, n: nat)
    requires n <= 5 && Fits(c, n) && IsSymbol(v)
    ensures Step(c, v) == Push(c, v)
  {
    hide Step;
    FitsBelow(c, n);
    StepLow(c, v);
  }

  predicate Small(d: seq<bv30>) {
    forall k :: 0 <= k < |d| ==> IsSymbol(d[k])
  }

  lemma FitsAtZero()
    ensures Fits(0, 0)
  {
  }

  /** Up to six symbols fill the register without loss. */
  lemma {:induction false} SmallRun(d: seq<bv30>)
    requires Small(d) && |d| <= 6
    ensures |d| <= 5 ==> Fits(Run(0, d), |d|)
    ensures Run(0, d) == 0 ==> forall k :: 0 <= k < |d| ==> d[k] == 0
  {
    hide Step, Fits, Push, IsSymbol;
    if d == [] {
      FitsAtZero();
    } else {
      var n := |d| - 1;
      var c := Run(0, d[..n]);
      SmallRun(d[..n]);
      StepPushes(c, d[n], n);
      PushZero(c, d[n], n);
      if n < 5 {
        PushFits(c, d[n], n);
      }
      assert d == d[..n] + [d[n]];
    }
  }

  lemma XorSmall(a: bv30, b: bv30)
    requires IsSymbol(a) && IsSymbol(b)
    ensures IsSymbol(Xor(a, b))
  {
  }

  /** At most six symbols are determined by the register they lead to. */
  lemma SixSymbols(c: bv30, m: seq<bv30>, n: seq<bv30>)
    requires |m| == |n| <= 6 && Small(m) && Small(n) && Run(c, m) == Run(c, n)
    ensures m == n
  {
    hide Xor, Step, IsSymbol;
    var d := XorAll(m, n);
    RunLinear(c, c, m, n);
    XorSelf(c, c);
    XorSelf(Run(c, m), Run(c, n));
    forall k | 0 <= k < |d| ensures IsSymbol(d[k]) { XorSmall(m[k], n[k]); }
    SmallRun(d);
    forall k | 0 <= k < |d| ensures m[k] == n[k] { XorSelf(m[k], n[k]); }
  }

  predicate IsSymbols(s: seq<nat>) {
    forall k :: 0 <= k < |s| ==> s[k] < 32
  }

  lemma BitsOfSymbols(s: seq<nat>)
    requires IsSymbols(s)
    ensures Small(AllBits(s))
  {
    hide ToBits;
    forall k | 0 <= k < |s| ensures IsSymbol(AllBits(s)[k]) { SymbolRoundTrip(s[k]); }
  }

  lemma AllBitsInjective(s: seq<nat>, t: seq<nat>)
    requires IsSymbols(s) && IsSymbols(t) && AllBits(s) == AllBits(t)
    ensures s == t
  {
    hide ToBits, FromBits;
    assert |s| == |AllBits(s)| == |t|;
    forall k | 0 <= k < |s| ensures s[k] == t[k] {
      SymbolRoundTrip(s[k]);
      SymbolRoundTrip(t[k]);
      assert AllBits(s)[k] == AllBits(t)[k];
    }
  }

  // ---------------------------------------------------------------- creation and verification

  predicate Verify(h: seq<nat>, data: seq<nat>) {
    Polymod(h + data) == CONST
  }

  function SixFold(p: bv30): (r: seq<nat>)
    ensures |r| == 6 && IsSymbols(r)
  {
    [FromBits((p >> 25) & 31), FromBits((p >> 20) & 31), FromBits((p >> 15) & 31),
     FromBits((p >> 10) & 31), FromBits((p >> 5) & 31), FromBits((p >> 0) & 31)]
  }

  /** The six symbols that bring the register to the Bech32m constant. */
  function CreateChecksum(h: seq<nat>, data: seq<nat>): (r: seq<nat>)
    ensures |r| == 6 && IsSymbols(r)
  {
    SixFold(Xor(Polymod(h + data + [0, 0, 0, 0, 0, 0]), CONST))
  }

  lemma AllBitsConcat(x: seq<nat>, y: seq<nat>)
    ensures AllBits(x + y) == AllBits(x) + AllBits(y)
  {
    hide ToBits;
  }

  /** At most six symbols are fixed by the register, whatever surrounds them. */
  lemma BurstBits(c: bv30, p: seq<bv30>, m: seq<bv30>, n: seq<bv30>, s: seq<bv30>)
    requires |m| == |n| <= 6 && Small(m) && Small(n) && Run(c, p + m + s) == Run(c, p + n + s)
    ensures m == n
  {
    hide Run;
    var d := Run(c, p);
    RunConcat(c, p + m, s);
    RunConcat(c, p + n, s);
    RunConcat(c, p, m);
    RunConcat(c, p, n);
    CommonSuffix(Run(d, m), Run(d, n), s);
    SixSymbols(d, m, n);
  }

  /** At most six symbols, between a common prefix and a common suffix, are fixed by the register. */
  lemma WindowFixed(p: seq<nat>, m: seq<nat>, n: seq<nat>, s: seq<nat>)
    requires IsSymbols(m) && IsSymbols(n) && |m| == |n| <= 6 && Polymod(p + m + s) == Polymod(p + n + s)
    ensures m == n
  {
    hide Run, AllBits, Small;
    AllBitsConcat(p + m, s);
    AllBitsConcat(p + n, s);
    AllBitsConcat(p, m);
    AllBitsConcat(p, n);
    BitsOfSymbols(m);
    BitsOfSymbols(n);
    BurstBits(1, AllBits(p), AllBits(m), AllBits(n), AllBits(s));
    AllBitsInjective(m, n);
  }

  lemma SplitAt(x: seq<nat>, lo: nat, hi: nat)
    requires lo <= hi <= |x|
    ensures x == x[..lo] + x[lo..hi] + x[hi..]
  {
  }

  /** A change of symbols within any six consecutive positions never keeps the register, at any length. */
  lemma BurstChangesRegister(h: seq<nat>, x: seq<nat>, y: seq<nat>, k: nat)
    requires IsSymbols(x) && IsSymbols(y) && |x| == |y|
    requires forall i :: 0 <= i < |x| && !(k <= i < k + 6) ==> x[i] == y[i]
    requires Polymod(h + x) == Polymod(h + y)
    ensures x == y
  {
    hide Polymod;
    var lo := if k <= |x| then k else |x|;
    var hi := if k + 6 <= |x| then k + 6 else |x|;
    var m, n, s := x[lo..hi], y[lo..hi], x[hi..];
    assert y[..lo] == x[..lo] && y[hi..] == s;
    SplitAt(x, lo, hi);
    SplitAt(y, lo, hi);
    assert h + x == h + x[..lo] + m + s && h + y == h + x[..lo] + n + s;
    WindowFixed(h + x[..lo], m, n, s);
  }

  /** A burst of changes within six consecutive data or checksum symbols is always detected: two symbol
      lists that both pass and differ only inside such a window are the same list. */
  lemma BurstDetected(h: seq<nat>, x: seq<nat>, y: seq<nat>, k: nat)
    requires IsSymbols(x) && IsSymbols(y) && |x| == |y|
    requires forall i :: 0 <= i < |x| && !(k <= i < k + 6) ==> x[i] == y[i]
    requires Verify(h, x) && Verify(h, y)
    ensures x == y
  {
    BurstChangesRegister(h, x, y, k);
  }

  function Split(p: bv30): (r: seq<bv30>)
    ensures |r| == 6
  {
    [(p >> 25) & 31, (p >> 20) & 31, (p >> 15) & 31, (p >> 10) & 31, (p >> 5) & 31, (p >> 0) & 31]
  }

  lemma Masked(b: bv30)
    ensures IsSymbol(b & 31)
  {
  }

  lemma SplitSmall(p: bv30)
    ensures Small(Split(p))
  {
    hide IsSymbol;
    Masked(p >> 25);
    Masked(p >> 20);
    Masked(p >> 15);
    Masked(p >> 10);
    Masked(p >> 5);
    Masked(p >> 0);
  }

  lemma JoinSplit(p: bv30)
    ensures var s := Split(p);
            Push(Push(Push(Push(Push(Push(0, s[0]), s[1]), s[2]), s[3]), s[4]), s[5]) == p
  {
  }

  lemma SixPrefix(s: seq<bv30>, n: nat)
    requires |s| == 6 && Small(s) && n < 6
    ensures Run(0, s[..n + 1]) == Push(Run(0, s[..n]), s[n])
  {
    hide Step, Fits, Push, IsSymbol;
    SmallRun(s[..n]);
    StepPushes(Run(0, s[..n]), s[n], n);
    assert s[..n + 1][..n] == s[..n];
  }

  /** Six symbols read off a register value lead the zero register back to that value. */
  lemma SplitRun(p: bv30)
    ensures Run(0, Split(p)) == p
  {
    hide Step, Push, Split, Small;
    var s := Split(p);
    SplitSmall(p);
    SixPrefix(s, 0);
    SixPrefix(s, 1);
    SixPrefix(s, 2);
    SixPrefix(s, 3);
    SixPrefix(s, 4);
    SixPrefix(s, 5);
    assert s[..6] == s && s[..0] == [];
    JoinSplit(p);
  }

  lemma SixFoldBits(p: bv30)
    ensures AllBits(SixFold(p)) == Split(p)
  {
    hide ToBits, FromBits;
    SplitSmall(p);
    forall k | 0 <= k < 6 ensures AllBits(SixFold(p))[k] == Split(p)[k] { BitsRoundTrip(Split(p)[k]); }
  }

  lemma XorCancel(a: bv30, b: bv30)
    ensures Xor(a, Xor(a, b)) == b
  {
    hide Xor;
    XorAssociates(a, a, b);
    XorSelf(a, a);
    XorSelf(b, b);
  }

  /** Six symbols after a register add, bit by bit, to the register after six zeros. */
  lemma SixAfterZeros(c: bv30, z: seq<bv30>, six: seq<bv30>)
    requires |z| == |six| && forall k :: 0 <= k < |z| ==> z[k] == 0
    ensures Run(c, six) == Xor(Run(c, z), Run(0, six))
  {
    hide Step, Xor;
    RunLinear(c, 0, z, six);
    XorSelf(c, c);
    forall k | 0 <= k < |six| ensures XorAll(z, six)[k] == six[k] { XorSelf(six[k], six[k]); }
    assert XorAll(z, six) == six;
  }

  lemma ZeroSymbols()
    ensures var z := AllBits([0, 0, 0, 0, 0, 0]); |z| == 6 && forall k :: 0 <= k < 6 ==> z[k] == 0
  {
    assert ToBits(0) == 0;
  }

  /** The created checksum passes. */
  lemma CreateVerifies(h: seq<nat>, data: seq<nat>)
    ensures Verify(h, data + CreateChecksum(h, data))
  {
    hide Run, Xor, SixFold, AllBits;
    var zeros: seq<nat> := [0, 0, 0, 0, 0, 0];
    var p := Xor(Polymod(h + data + zeros), CONST);
    var sum := SixFold(p);
    var c := Run(1, AllBits(h + data));
    ZeroSymbols();
    AllBitsConcat(h + data, zeros);
    AllBitsConcat(h + data, sum);
    assert h + (data + sum) == (h + data) + sum;
    RunConcat(1, AllBits(h + data), AllBits(zeros));
    RunConcat(1, AllBits(h + data), AllBits(sum));
    SixFoldBits(p);
    SplitRun(p);
    SixAfterZeros(c, AllBits(zeros), AllBits(sum));
    XorCancel(Run(c, AllBits(zeros)), CONST);
  }

  /** No other six symbols pass: the checksum of given data is unique. */
  lemma ChecksumUnique(h: seq<nat>, data: seq<nat>, s: seq<nat>)
    requires |s| == 6 && IsSymbols(s)
    ensures Verify(h, data + s) <==> s == CreateChecksum(h, data)
  {
    hide Polymod, CreateChecksum;
    CreateVerifies(h, data);
    if Verify(h, data + s) {
      var t := CreateChecksum(h, data);
      assert h + (data + s) == (h + data) + s + [] && h + (data + t) == (h + data) + t + [];
      WindowFixed(h + data, s, t, []);
    }
  }

  // ---------------------------------------------------------------- the window is as wide as it can be

  /** A nonzero difference of seven symbols that the register does not see. */
  function Escape(): (r: seq<bv30>)
    ensures |r| == 7 && r[0] == 1
  {
    [1] + Split(Run(1, [0, 0, 0, 0, 0, 0]))
  }

  lemma OneIsSymbol()
    ensures IsSymbol(1)
  {
  }

  lemma XorOne(a: bv30)
    ensures Xor(a, 1) != a
  {
  }

  lemma RunOne()
    ensures Run(0, [1]) == 1
  {
    assert Run(0, []) == 0;
    StepLow(0, 1);
    hide Step;
  }

  /** Every run of seven symbols can be changed without changing the register. */
  lemma SevenBitsEscape(c: bv30, m: seq<bv30>)
    requires |m| == 7 && Small(m)
    ensures Small(XorAll(m, Escape())) && XorAll(m, Escape()) != m
    ensures Run(c, XorAll(m, Escape())) == Run(c, m)
  {
    hide Run, Xor, Split, IsSymbol;
    var z: seq<bv30> := [0, 0, 0, 0, 0, 0];
    var p := Run(1, z);
    var d := Escape();
    SplitSmall(p);
    OneIsSymbol();
    assert Small(d);
    forall k | 0 <= k < 7 ensures IsSymbol(XorAll(m, d)[k]) { XorSmall(m[k], d[k]); }
    XorOne(m[0]);
    RunConcat(0, [1], Split(p));
    RunOne();
    SplitRun(p);
    SixAfterZeros(1, z, Split(p));
    XorSelf(p, p);
    RunLinear(c, 0, m, d);
    XorSelf(c, c);
    XorSelf(Run(c, m), 0);
  }

  function FromAllBits(b: seq<bv30>): (r: seq<nat>)
    ensures |r| == |b| && IsSymbols(r)
  {
    seq(|b|, (k: int) requires 0 <= k < |b| => FromBits(b[k]))
  }

  lemma AllBitsOfNumbers(b: seq<bv30>)
    requires Small(b)
    ensures AllBits(FromAllBits(b)) == b
  {
    hide FromBits, ToBits;
    forall k | 0 <= k < |b| ensures AllBits(FromAllBits(b))[k] == b[k] {
      assert IsSymbol(b[k]);
      BitsRoundTrip(b[k]);
    }
  }

  lemma WindowEscapes(p: seq<nat>, m: seq<nat>, s: seq<nat>) returns (n: seq<nat>)
    requires IsSymbols(m) && |m| == 7
    ensures IsSymbols(n) && |n| == 7 && n != m && Polymod(p + n + s) == Polymod(p + m + s)
  {
    hide Run, AllBits, Small, Escape, XorAll;
    BitsOfSymbols(m);
    var c, b := Run(1, AllBits(p)), AllBits(m);
    SevenBitsEscape(c, b);
    var d := XorAll(b, Escape());
    n := FromAllBits(d);
    AllBitsOfNumbers(d);
    AllBitsConcat(p + m, s);
    AllBitsConcat(p + n, s);
    AllBitsConcat(p, m);
    AllBitsConcat(p, n);
    RunConcat(1, AllBits(p) + b, AllBits(s));
    RunConcat(1, AllBits(p) + d, AllBits(s));
    RunConcat(1, AllBits(p), b);
    RunConcat(1, AllBits(p), d);
  }

  /** Six is the limit, wherever the window lies: in every symbol list, any seven consecutive symbols can be
      changed so that the verdict of the checksum stays what it was. */
  lemma SevenSymbolsEscape(h: seq<nat>, x: seq<nat>, k: nat) returns (y: seq<nat>)
    requires IsSymbols(x) && k + 7 <= |x|
    ensures IsSymbols(y) && |y| == |x| && y != x
    ensures forall i :: 0 <= i < |x| && !(k <= i < k + 7) ==> y[i] == x[i]
    ensures Polymod(h + y) == Polymod(h + x) && (Verify(h, y) <==> Verify(h, x))
  {
    hide Polymod;
    var m, s := x[k..k + 7], x[k + 7..];
    var n := WindowEscapes(h + x[..k], m, s);
    y := x[..k] + n + s;
    SplitAt(x, k, k + 7);
    assert h + y == h + x[..k] + n + s && h + x == h + x[..k] + m + s;
    assert y[k..k + 7] == n;
  }
}

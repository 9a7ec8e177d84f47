/** The Bech32m test strings of BIP-350: they pin the constant, the generator and the alphabet. */
module Vectors {
  import opened Basics
  import opened Checksum
  import opened Address

  // ---------------------------------------------------------------- one step as bit arithmetic

  function Word(on: bool, w: bv30): bv30 {
    if on then w else 0
  }

  /** One symbol absorbed, with the five generator words spelled out. */
  function PlainStep(chk: bv30, v: bv30): bv30 {
    Xor(Xor(Xor(Xor(Xor(Xor((chk & 0x1FFFFFF) << 5, v),
      Word((chk >> 25) & 1 == 1, 0x3B6A57B2)),
      Word((chk >> 26) & 1 == 1, 0x26508E6D)),
      Word((chk >> 27) & 1 == 1, 0x1EA119FA)),
      Word((chk >> 28) & 1 == 1, 0x3D4233DD)),
      Word((chk >> 29) & 1 == 1, 0x2A1462B3))
  }

  lemma WordsOfFeedback(chk: bv30)
    ensures Feedback(chk >> 25, 0) == Word((chk >> 25) & 1 == 1, 0x3B6A57B2)
    ensures Feedback(chk >> 25, 1) == Word((chk >> 26) & 1 == 1, 0x26508E6D)
    ensures Feedback(chk >> 25, 2) == Word((chk >> 27) & 1 == 1, 0x1EA119FA)
    ensures Feedback(chk >> 25, 3) == Word((chk >> 28) & 1 == 1, 0x3D4233DD)
    ensures Feedback(chk >> 25, 4) == Word((chk >> 29) & 1 == 1, 0x2A1462B3)
  {
  }

  lemma FoldedOut(a: bv30, top: bv30)
    ensures Folded(a, top, 5)
         == Xor(Xor(Xor(Xor(Xor(a, Feedback(top, 0)), Feedback(top, 1)), Feedback(top, 2)), Feedback(top, 3)), Feedback(top, 4))
  {
    hide Xor, Feedback;
    assert Folded(a, top, 0) == a;
    assert Folded(a, top, 1) == Xor(a, Feedback(top, 0));
    assert Folded(a, top, 2) == Xor(Folded(a, top, 1), Feedback(top, 1));
    assert Folded(a, top, 3) == Xor(Folded(a, top, 2), Feedback(top, 2));
    assert Folded(a, top, 4) == Xor(Folded(a, top, 3), Feedback(top, 3));
  }

  /** The step of the register is that arithmetic, for every register and symbol. */
  lemma StepIsPlain(chk: bv30, v: bv30)
    ensures Step(chk, v) == PlainStep(chk, v)
  {
    hide Xor, Feedback, Folded, Word;
    WordsOfFeedback(chk);
    FoldedOut(Xor(Shifted(chk), v), chk >> 25);
  }

  // ---------------------------------------------------------------- running over symbols

  /** The symbols take the register from c to d. */
  predicate Feeds(c: bv30, s: seq<nat>, d: bv30) {
    Run(c, AllBits(s)) == d
  }

  lemma FeedNext(c: bv30, s: seq<nat>, k: nat, d: bv30, e: bv30)
    requires k < |s| && Feeds(c, s[..k], d) && PlainStep(d, ToBits(s[k])) == e
    ensures Feeds(c, s[..k + 1], e)
  {
    StepIsPlain(d, ToBits(s[k]));
    hide Step, PlainStep, ToBits;
    var b := AllBits(s[..k + 1]);
    assert b[..k] == AllBits(s[..k]) && b[k] == ToBits(s[k]);
  }

  lemma FeedSlice(v: seq<nat>, i: nat, j: nat, d: bv30, e: bv30)
    requires i <= j <= |v| && Feeds(1, v[..i], d) && Feeds(d, v[i..j], e)
    ensures Feeds(1, v[..j], e)
  {
    hide Run, ToBits;
    AllBitsConcat(v[..i], v[i..j]);
    RunConcat(1, AllBits(v[..i]), AllBits(v[i..j]));
    assert v[..j] == v[..i] + v[i..j];
  }

  lemma FeedNone(c: bv30)
    ensures Feeds(c, [], c)
  {
  }

  /** Up to five symbols, one register after each. */
  lemma Feed(c: bv30, s: seq<nat>, t: seq<bv30>)
    requires 1 <= |s| == |t| <= 5 && PlainStep(c, ToBits(s[0])) == t[0]
    requires |s| > 1 ==> PlainStep(t[0], ToBits(s[1])) == t[1]
    requires |s| > 2 ==> PlainStep(t[1], ToBits(s[2])) == t[2]
    requires |s| > 3 ==> PlainStep(t[2], ToBits(s[3])) == t[3]
    requires |s| > 4 ==> PlainStep(t[3], ToBits(s[4])) == t[4]
    ensures Feeds(c, s, t[|s| - 1])
  {
    hide Feeds, PlainStep, ToBits;
    FeedNone(c);
    assert s[..0] == [] && s[..|s|] == s;
    FeedNext(c, s, 0, c, t[0]);
    if |s| > 1 { FeedNext(c, s, 1, t[0], t[1]); }
    if |s| > 2 { FeedNext(c, s, 2, t[1], t[2]); }
    if |s| > 3 { FeedNext(c, s, 3, t[2], t[3]); }
    if |s| > 4 { FeedNext(c, s, 4, t[3], t[4]); }
  }

  lemma RunOfFeeds(s: seq<nat>, d: bv30)
    requires Feeds(1, s, d)
    ensures Polymod(s) == d
  {
  }

  // ---------------------------------------------------------------- a1lqfn3a

  lemma Shortest0()
    ensures Feeds(0x1, [3, 0, 1, 31, 0], 0x23007E0)
  {
    Feed(0x1, [3, 0, 1, 31, 0], [0x23, 0x460, 0x8C01, 0x11803F, 0x23007E0]);
  }

  lemma Shortest1()
    ensures Feeds(0x23007E0, [9, 19, 17, 29], 0x2BC830A3)
  {
    Feed(0x23007E0, [9, 19, 17, 29], [0x3D6AABBB, 0x2F2B18A, 0x253C66E3, 0x2BC830A3]);
  }

  lemma ShortestRuns()
    ensures Polymod([3, 0, 1, 31, 0, 9, 19, 17, 29]) == 0x2BC830A3
  {
    hide Feeds;
    var v: seq<nat> := [3, 0, 1, 31, 0, 9, 19, 17, 29];
    FeedNone(1);
    assert v[..0] == [] && v[..9] == v;
    Shortest0();
    assert v[0..5] == [3, 0, 1, 31, 0];
    FeedSlice(v, 0, 5, 0x1, 0x23007E0);
    Shortest1();
    assert v[5..9] == [9, 19, 17, 29];
    FeedSlice(v, 5, 9, 0x23007E0, 0x2BC830A3);
    RunOfFeeds(v, 0x2BC830A3);
  }

  /** Symbol k of the expansion of abcdef, of the data 31, 30, ..., 0, and of their checksum. */
  function CountdownSymbol(k: nat): nat {
    if k < 6 then 3
    else if k < 13 then k - 6
    else if k < 45 then 44 - k
    else if k == 45 then 2 else if k == 46 then 13 else if k == 47 then 17
    else if k == 48 then 3 else if k == 49 then 4 else 6
  }

  function CountdownSymbols(): (r: seq<nat>)
    ensures |r| == 51 && forall k :: 0 <= k < 51 ==> r[k] == CountdownSymbol(k)
  {
    seq(51, (k: int) requires 0 <= k < 51 => CountdownSymbol(k))
  }

  // ---------------------------------------------------------------- abcdef1l7aum6echk45nj3s0wdvt2fg8x9yrzpqzd3ryx

  lemma Countdown0()
    ensures Feeds(0x1, [3, 3, 3, 3, 3], 0x2318C63)
  {
    Feed(0x1, [3, 3, 3, 3, 3], [0x23, 0x463, 0x8C63, 0x118C63, 0x2318C63]);
  }

  lemma Countdown1()
    ensures Feeds(0x2318C63, [3, 0, 1, 2, 3], 0x8D50561)
  {
    Feed(0x2318C63, [3, 0, 1, 2, 3], [0x3D5BDBD1, 0x4DCBCD9, 0x3DC7154C, 0x17456F7B, 0x8D50561]);
  }

  lemma Countdown2()
    ensures Feeds(0x8D50561, [4, 5, 6, 31, 30], 0x30018F1B)
  {
    Feed(0x8D50561, [4, 5, 6, 31, 30], [0x401B5DE, 0x266635A8, 0x3BE80E6A, 0xF9CD279, 0x30018F1B]);
  }

  lemma Countdown3()
    ensures Feeds(0x30018F1B, [29, 28, 27, 26, 25], 0x398C69A4)
  {
    Feed(0x30018F1B, [29, 28, 27, 26, 25], [0x1767B213, 0xC8EA87E, 0x2924984C, 0x102672D3, 0x398C69A4]);
  }

  lemma Countdown4()
    ensures Feeds(0x398C69A4, [24, 23, 22, 21, 20], 0x1C9B0D07)
  {
    Feed(0x398C69A4, [24, 23, 22, 21, 20], [0x387A7C0C, 0x6B8C903, 0xA23F9A9, 0x21B47B7D, 0x1C9B0D07]);
  }

  lemma Countdown5()
    ensures Feeds(0x1C9B0D07, [19, 18, 17, 16, 15], 0x115569DD)
  {
    Feed(0x1C9B0D07, [19, 18, 17, 16, 15], [0x16D204B9, 0x3A387D30, 0x3592B937, 0x351F9F3, 0x115569DD]);
  }

  lemma Countdown6()
    ensures Feeds(0x115569DD, [14, 13, 12, 11, 10], 0x29BEF2DF)
  {
    Feed(0x115569DD, [14, 13, 12, 11, 10], [0x17EF0873, 0x1D99E46F, 0x368F29A6, 0x1B89BC7A, 0x29BEF2DF]);
  }

  lemma Countdown7()
    ensures Feeds(0x29BEF2DF, [9, 8, 7, 6, 5], 0x54AE6EF)
  {
    Feed(0x29BEF2DF, [9, 8, 7, 6, 5], [0x36B20A0, 0x160E43BA, 0x21B09D45, 0x1C07CA15, 0x54AE6EF]);
  }

  lemma Countdown8()
    ensures Feeds(0x54AE6EF, [4, 3, 2, 1, 0], 0xCD42356)
  {
    Feed(0x54AE6EF, [4, 3, 2, 1, 0], [0xF0C5389, 0x2211B106, 0x134815C3, 0x2F2ADC0E, 0xCD42356]);
  }

  lemma Countdown9()
    ensures Feeds(0xCD42356, [2, 13, 17, 3, 4], 0xF429F84)
  {
    Feed(0xCD42356, [2, 13, 17, 3, 4], [0x2275FD55, 0x1FC19FAC, 0x6EA0669, 0x7A14FC, 0xF429F84]);
  }

  lemma Countdown10()
    ensures Feeds(0xF429F84, [6], 0x2BC830A3)
  {
    Feed(0xF429F84, [6], [0x2BC830A3]);
  }

  lemma CountdownRuns()
    ensures Polymod(CountdownSymbols()) == 0x2BC830A3
  {
    hide Feeds;
    var v: seq<nat> := CountdownSymbols();
    FeedNone(1);
    assert v[..0] == [] && v[..51] == v;
    Countdown0();
    assert v[0..5] == [3, 3, 3, 3, 3];
    FeedSlice(v, 0, 5, 0x1, 0x2318C63);
    Countdown1();
    assert v[5..10] == [3, 0, 1, 2, 3];
    FeedSlice(v, 5, 10, 0x2318C63, 0x8D50561);
    Countdown2();
    assert v[10..15] == [4, 5, 6, 31, 30];
    FeedSlice(v, 10, 15, 0x8D50561, 0x30018F1B);
    Countdown3();
    assert v[15..20] == [29, 28, 27, 26, 25];
    FeedSlice(v, 15, 20, 0x30018F1B, 0x398C69A4);
    Countdown4();
    assert v[20..25] == [24, 23, 22, 21, 20];
    FeedSlice(v, 20, 25, 0x398C69A4, 0x1C9B0D07);
    Countdown5();
    assert v[25..30] == [19, 18, 17, 16, 15];
    FeedSlice(v, 25, 30, 0x1C9B0D07, 0x115569DD);
    Countdown6();
    assert v[30..35] == [14, 13, 12, 11, 10];
    FeedSlice(v, 30, 35, 0x115569DD, 0x29BEF2DF);
    Countdown7();
    assert v[35..40] == [9, 8, 7, 6, 5];
    FeedSlice(v, 35, 40, 0x29BEF2DF, 0x54AE6EF);
    Countdown8();
    assert v[40..45] == [4, 3, 2, 1, 0];
    FeedSlice(v, 40, 45, 0x54AE6EF, 0xCD42356);
    Countdown9();
    assert v[45..50] == [2, 13, 17, 3, 4];
    FeedSlice(v, 45, 50, 0xCD42356, 0xF429F84);
    Countdown10();
    assert v[50..51] == [6];
    FeedSlice(v, 50, 51, 0xF429F84, 0x2BC830A3);
    RunOfFeeds(v, 0x2BC830A3);
  }

  // ---------------------------------------------------------------- a12uel5l

  lemma Older0()
    ensures Feeds(0x1, [3, 0, 1, 10, 28], 0x230055C)
  {
    Feed(0x1, [3, 0, 1, 10, 28], [0x23, 0x460, 0x8C01, 0x11802A, 0x230055C]);
  }

  lemma Older1()
    ensures Feeds(0x230055C, [25, 31, 20, 31], 0x1)
  {
    Feed(0x230055C, [25, 31, 20, 31], [0x3D6AFC2B, 0x2F84386, 0x24622766, 0x1]);
  }

  lemma OlderRuns()
    ensures Polymod([3, 0, 1, 10, 28, 25, 31, 20, 31]) == 0x1
  {
    hide Feeds;
    var v: seq<nat> := [3, 0, 1, 10, 28, 25, 31, 20, 31];
    FeedNone(1);
    assert v[..0] == [] && v[..9] == v;
    Older0();
    assert v[0..5] == [3, 0, 1, 10, 28];
    FeedSlice(v, 0, 5, 0x1, 0x230055C);
    Older1();
    assert v[5..9] == [25, 31, 20, 31];
    FeedSlice(v, 5, 9, 0x230055C, 0x1);
    RunOfFeeds(v, 0x1);
  }

  // ---------------------------------------------------------------- the strings

  lemma GoodParts()
    ensures GoodHrp("a") && GoodHrp("abcdef")
  {
  }

  lemma ShortestChars()
    ensures ToChars([31, 0, 9, 19, 17, 29]) == "lqfn3a" && ToChars([10, 28, 25, 31, 20, 31]) == "2uel5l"
  {
  }

  lemma ShortestExpands(all: seq<nat>)
    ensures HrpExpand("a") + all == [3, 0, 1] + all
  {
    var h := HrpExpand("a");
    assert |h| == 3 && h[0] == 3 && h[1] == 0 && h[2] == 1;
  }

  lemma SixSymbols(a: nat, b: nat, c: nat, d: nat, e: nat, f: nat)
    requires a < 32 && b < 32 && c < 32 && d < 32 && e < 32 && f < 32
    ensures Checksum.IsSymbols([a, b, c, d, e, f])
    ensures [3, 0, 1] + [a, b, c, d, e, f] == [3, 0, 1, a, b, c, d, e, f]
  {
  }

  /** The shortest of the valid strings: no data at all. */
  lemma ShortestDecodes()
    ensures Decode("a1lqfn3a") == Ok(("a", []))
  {
    hide Polymod, GoodHrp, HrpExpand, ToChars, Decode, Checksum.IsSymbols;
    var all: seq<nat> := [31, 0, 9, 19, 17, 29];
    ShortestRuns();
    ShortestChars();
    ShortestExpands(all);
    SixSymbols(31, 0, 9, 19, 17, 29);
    GoodParts();
    DecodeJoined("a", all);
    assert "a" + "1" + "lqfn3a" == "a1lqfn3a" && all[..0] == [];
  }

  /** And in upper case. */
  lemma ShoutedDecodes()
    ensures Decode("A1LQFN3A") == Ok(("a", []))
  {
    var s := "A1LQFN3A";
    assert LowerAll(s) == "a1lqfn3a" && UpperAll(s) == s;
    hide Decode, LowerAll, UpperAll;
    ShortestDecodes();
    DecodeOneCase(s);
  }

  /** A string of the older Bech32, whose register ends in 1, is refused for its checksum. */
  lemma OlderIsRefused()
    ensures Decode("a12uel5l") == Err(InvalidChecksum)
  {
    hide Polymod, GoodHrp, HrpExpand, ToChars, Decode, Checksum.IsSymbols;
    var all: seq<nat> := [10, 28, 25, 31, 20, 31];
    OlderRuns();
    ShortestChars();
    ShortestExpands(all);
    SixSymbols(10, 28, 25, 31, 20, 31);
    GoodParts();
    DecodeJoined("a", all);
    assert "a" + "1" + "2uel5l" == "a12uel5l";
  }

  function CountdownAll(): (r: seq<nat>)
    ensures |r| == 38 && Checksum.IsSymbols(r) && forall k :: 0 <= k < 38 ==> r[k] == CountdownSymbol(13 + k)
  {
    seq(38, (k: int) requires 0 <= k < 38 => CountdownSymbol(13 + k))
  }

  lemma CountdownExpands()
    ensures HrpExpand("abcdef") + CountdownAll() == CountdownSymbols()
  {
    hide CountdownSymbols, CountdownAll;
    var h := HrpExpand("abcdef");
    assert |h| == 13;
    assert h[0] == 3 && h[1] == 3 && h[2] == 3 && h[3] == 3 && h[4] == 3 && h[5] == 3 && h[6] == 0;
    assert h[7] == 1 && h[8] == 2 && h[9] == 3 && h[10] == 4 && h[11] == 5 && h[12] == 6;
  }

  /** Character k of the data part. */
  lemma CountdownChar(k: nat)
    requires k < 38
    ensures CHARSET[CountdownSymbol(13 + k)] == "l7aum6echk45nj3s0wdvt2fg8x9yrzpqzd3ryx"[k]
  {
  }

  lemma CountdownChars()
    ensures ToChars(CountdownAll()) == "l7aum6echk45nj3s0wdvt2fg8x9yrzpqzd3ryx"
  {
    hide CHARSET;
    var c := ToChars(CountdownAll());
    assert |"l7aum6echk45nj3s0wdvt2fg8x9yrzpqzd3ryx"| == 38;
    forall k: nat | k < 38 ensures c[k] == "l7aum6echk45nj3s0wdvt2fg8x9yrzpqzd3ryx"[k] { CountdownChar(k); }
  }

  lemma CountdownData()
    ensures CountdownAll()[..32] == seq(32, (k: int) requires 0 <= k < 32 => 31 - k)
  {
  }

  /** The valid string whose data counts down from 31 to 0, every character of the alphabet once. */
  lemma CountdownDecodes()
    ensures var data := seq(32, (k: int) requires 0 <= k < 32 => 31 - k);
            Decode("abcdef" + "1" + "l7aum6echk45nj3s0wdvt2fg8x9yrzpqzd3ryx") == Ok(("abcdef", data))
  {
    hide Polymod, GoodHrp, HrpExpand, ToChars, Decode, CHARSET, CountdownSymbol, Checksum.IsSymbols;
    CountdownRuns();
    CountdownExpands();
    CountdownChars();
    CountdownData();
    GoodParts();
    DecodeJoined("abcdef", CountdownAll());
  }
}

/** Bech32m strings and the address codec built on them. */
module Address {
  import opened Basics
  import Checksum
  import ConvertBits

  datatype AddressError =
    | InvalidCharacter | MixedCase | InvalidSeparator | InvalidDataCharacter | InvalidChecksum
    | UnknownType | UnknownHrp | InvalidBits

  datatype Result<+T> = Ok(value: T) | Err(error: AddressError) {
    predicate IsFailure() {
      Err?
    }

    function PropagateFailure<U>(): Result<U>
      requires Err?
    {
      Err(error)
    }

    function Extract(): T
      requires Ok?
    {
      value
    }
  }

  datatype Network = Mainnet | Testnet | Preprod | Preview | Devnet | Local | Undeployed

  /** What decoding an address yields: its type, its network and its payload. */
  type Decoded = Result<(string, Network, Bytes)>

  // ---------------------------------------------------------------- characters

  const CHARSET: string := "qpzry9x8gf2tvdw0s3jn54khce6mua7l"

  /** The first index of a character in the alphabet, or -1. */
  function FindFrom(c: char, i: nat): int
    requires i <= 32
    decreases 32 - i
  {
    if i == 32 then -1 else if CHARSET[i] == c then i else FindFrom(c, i + 1)
  }

  function Find(c: char): int {
    FindFrom(c, 0)
  }

  function Lower(c: char): char {
    if 'A' <= c <= 'Z' then (c as int + 32) as char else c
  }

  function Upper(c: char): char {
    if 'a' <= c <= 'z' then (c as int - 32) as char else c
  }

  lemma LettersAreRuns(k: nat)
    requires k < 26
    ensures "ABCDEFGHIJKLMNOPQRSTUVWXYZ"[k] as int == 65 + k
    ensures "abcdefghijklmnopqrstuvwxyz"[k] as int == 97 + k
  {
  }

  /** The 26 letters change case and nothing else does. */
  lemma CaseOfLetters(k: nat)
    requires k < 26
    ensures Lower("ABCDEFGHIJKLMNOPQRSTUVWXYZ"[k]) == "abcdefghijklmnopqrstuvwxyz"[k]
    ensures Upper("abcdefghijklmnopqrstuvwxyz"[k]) == "ABCDEFGHIJKLMNOPQRSTUVWXYZ"[k]
  {
    var l, u := "abcdefghijklmnopqrstuvwxyz"[k], "ABCDEFGHIJKLMNOPQRSTUVWXYZ"[k];
    LettersAreRuns(k);
    assert Lower(u) == (u as int + 32) as char && Upper(l) == (l as int - 32) as char;
  }

  lemma CaseOfOthers(c: char)
    ensures c !in "ABCDEFGHIJKLMNOPQRSTUVWXYZ" ==> Lower(c) == c
    ensures c !in "abcdefghijklmnopqrstuvwxyz" ==> Upper(c) == c
  {
    if 'A' <= c <= 'Z' {
      assert c == "ABCDEFGHIJKLMNOPQRSTUVWXYZ"[c as int - 65];
    } else if 'a' <= c <= 'z' {
      assert c == "abcdefghijklmnopqrstuvwxyz"[c as int - 97];
    }
  }

  function LowerAll(s: string): (r: string)
    ensures |r| == |s| && forall k :: 0 <= k < |s| ==> r[k] == Lower(s[k])
  {
    seq(|s|, (k: int) requires 0 <= k < |s| => Lower(s[k]))
  }

  function UpperAll(s: string): (r: string)
    ensures |r| == |s| && forall k :: 0 <= k < |s| ==> r[k] == Upper(s[k])
  {
    seq(|s|, (k: int) requires 0 <= k < |s| => Upper(s[k]))
  }

  predicate Printable(s: string) {
    forall k :: 0 <= k < |s| ==> 33 <= s[k] as int <= 126
  }

  lemma CharsetDistinct(i: nat, j: nat)
    requires i < j < 32
    ensures CHARSET[i] != CHARSET[j]
  {
  }

  lemma CharsetLower(i: nat)
    requires i < 32
    ensures 33 <= CHARSET[i] as int <= 126 && Lower(CHARSET[i]) == CHARSET[i] && CHARSET[i] != '1'
  {
  }

  lemma {:induction false} FindFromFinds(c: char, i: nat)
    requires i <= 32
    ensures var r := FindFrom(c, i);
            if r == -1 then forall k :: i <= k < 32 ==> CHARSET[k] != c else i <= r < 32 && CHARSET[r] == c
    decreases 32 - i
  {
    if i >= 32 {
    } else {
      FindFromFinds(c, i + 1);
    }
  }

  lemma FindSymbol(d: nat)
    requires d < 32
    ensures Find(CHARSET[d]) == d
  {
    var c := CHARSET[d];
    FindFromFinds(c, 0);
    var r := FindFrom(c, 0);
    hide FindFrom;
    if -1 < r < d {
      CharsetDistinct(r, d);
    } else if d < r {
      CharsetDistinct(d, r);
    }
  }

  /** The alphabet and the indices correspond one to one. */
  lemma FindInverse(c: char, d: nat)
    ensures d < 32 ==> Find(CHARSET[d]) == d
    ensures Find(c) != -1 ==> 0 <= Find(c) < 32 && CHARSET[Find(c)] == c
  {
    FindFromFinds(c, 0);
    if d < 32 {
      FindSymbol(d);
    }
  }

  // ---------------------------------------------------------------- Bech32m strings

  function HrpExpand(hrp: string): seq<nat> {
    seq(|hrp|, (k: int) requires 0 <= k < |hrp| => hrp[k] as int / 32)
    + [0]
    + seq(|hrp|, (k: int) requires 0 <= k < |hrp| => hrp[k] as int % 32)
  }

  function ToChars(data: seq<nat>): (r: string)
    requires Checksum.IsSymbols(data)
    ensures |r| == |data| && forall k :: 0 <= k < |data| ==> r[k] == CHARSET[data[k]]
  {
    seq(|data|, (k: int) requires 0 <= k < |data| => CHARSET[data[k]])
  }

  function Encode(hrp: string, data: seq<nat>): string
    requires Checksum.IsSymbols(data)
  {
    hrp + "1" + ToChars(data + Checksum.CreateChecksum(HrpExpand(hrp), data))
  }

  /** The position of the last separator, or -1. */
  function LastOne(s: string): (r: int)
    ensures -1 <= r < |s|
  {
    if s == "" then -1 else if s[|s| - 1] == '1' then |s| - 1 else LastOne(s[..|s| - 1])
  }

  predicate AllInCharset(s: string) {
    forall k :: 0 <= k < |s| ==> Find(s[k]) != -1
  }

  lemma FindsInRange(s: string)
    requires AllInCharset(s)
    ensures forall k :: 0 <= k < |s| ==> 0 <= Find(s[k]) < 32
  {
    hide Find;
    forall k | 0 <= k < |s| ensures 0 <= Find(s[k]) < 32 { FindInverse(s[k], 0); }
  }

  function FromChars(s: string): (r: seq<nat>)
    requires AllInCharset(s)
    ensures |r| == |s| && Checksum.IsSymbols(r) && forall k :: 0 <= k < |s| ==> r[k] == Find(s[k])
  {
    FindsInRange(s);
    seq(|s|, (k: int) requires 0 <= k < |s| => Find(s[k]))
  }

  /** The checks in the order of the code. */
  function Decode(bech: string): Result<(string, seq<nat>)> {
    if !Printable(bech) then Err(InvalidCharacter)
    else if LowerAll(bech) != bech && UpperAll(bech) != bech then Err(MixedCase)
    else
      var s := LowerAll(bech);
      var pos := LastOne(s);
      if pos < 1 || pos + 7 > |s| then Err(InvalidSeparator)
      else
        var hrp, dataPart := s[..pos], s[pos + 1..];
        if !AllInCharset(dataPart) then Err(InvalidDataCharacter)
        else
          var data := FromChars(dataPart);
          if !Checksum.Verify(HrpExpand(hrp), data) then Err(InvalidChecksum)
          else Ok((hrp, data[..|data| - 6]))
  }

  /** Human-readable parts that survive decoding. */
  predicate GoodHrp(hrp: string) {
    |hrp| >= 1 && Printable(hrp) && LowerAll(hrp) == hrp
  }

  lemma CharsOfSymbols(data: seq<nat>)
    requires Checksum.IsSymbols(data)
    ensures var c := ToChars(data);
            && Printable(c) && LowerAll(c) == c && (forall k :: 0 <= k < |c| ==> c[k] != '1')
            && AllInCharset(c) && FromChars(c) == data
  {
    hide Find, CHARSET;
    var c := ToChars(data);
    forall k | 0 <= k < |c|
      ensures 33 <= c[k] as int <= 126 && Lower(c[k]) == c[k] && c[k] != '1' && Find(c[k]) == data[k]
    {
      CharsetLower(data[k]);
      FindInverse(c[k], data[k]);
    }
  }

  lemma {:induction false} LastOneOf(a: string, b: string)
    requires forall k :: 0 <= k < |b| ==> b[k] != '1'
    ensures LastOne(a + "1" + b) == |a|
  {
    var s := a + "1" + b;
    if |b| == 0 {
    } else {
      assert s[..|s| - 1] == a + "1" + b[..|b| - 1];
      LastOneOf(a, b[..|b| - 1]);
    }
  }

  lemma {:induction false} LastOneIsOne(s: string)
    requires LastOne(s) != -1
    ensures s[LastOne(s)] == '1'
  {
    if s[|s| - 1] == '1' {
    } else {
      LastOneIsOne(s[..|s| - 1]);
    }
  }

  lemma SeparatorIsLower()
    ensures Lower('1') == '1' && 33 <= '1' as int <= 126
  {
  }

  lemma JoinedCase(a: string, b: string)
    requires Printable(a) && Printable(b) && LowerAll(a) == a && LowerAll(b) == b
    ensures Printable(a + "1" + b) && LowerAll(a + "1" + b) == a + "1" + b
  {
    var s := a + "1" + b;
    SeparatorIsLower();
    hide Lower;
    forall k | 0 <= k < |s| ensures Lower(s[k]) == s[k] && 33 <= s[k] as int <= 126 {
      if k < |a| {
        assert LowerAll(a)[k] == a[k];
      } else if k > |a| {
        assert LowerAll(b)[k - |a| - 1] == b[k - |a| - 1];
      }
    }
  }

  /** A proper human-readable part, the separator and any symbols decode to the symbols before the last six,
      or fail on their checksum alone. */
  lemma DecodeJoined(hrp: string, all: seq<nat>)
    requires GoodHrp(hrp) && Checksum.IsSymbols(all) && |all| >= 6
    ensures Decode(hrp + "1" + ToChars(all))
         == if Checksum.Verify(HrpExpand(hrp), all) then Ok((hrp, all[..|all| - 6])) else Err(InvalidChecksum)
  {
    hide Find, Checksum.Verify, Lower, Upper;
    hide Printable, LowerAll, UpperAll, LastOne, AllInCharset, FromChars, ToChars;
    var c := ToChars(all);
    var s := hrp + "1" + c;
    CharsOfSymbols(all);
    LastOneOf(hrp, c);
    JoinedCase(hrp, c);
    assert s[..|hrp|] == hrp && s[|hrp| + 1..] == c;
  }

  /** Decoding undoes encoding, for every proper human-readable part and all five-bit data. */
  lemma EncodeThenDecode(hrp: string, data: seq<nat>)
    requires GoodHrp(hrp) && Checksum.IsSymbols(data)
    ensures Decode(Encode(hrp, data)) == Ok((hrp, data))
  {
    hide Decode, GoodHrp, Checksum.Verify, Checksum.CreateChecksum;
    var all := data + Checksum.CreateChecksum(HrpExpand(hrp), data);
    DecodeJoined(hrp, all);
    Checksum.CreateVerifies(HrpExpand(hrp), data);
    assert all[..|data|] == data;
  }

  lemma CharsOfString(s: string)
    requires AllInCharset(s)
    ensures ToChars(FromChars(s)) == s
  {
    hide Find, CHARSET;
    forall k | 0 <= k < |s| ensures ToChars(FromChars(s))[k] == s[k] { FindInverse(s[k], 0); }
  }

  lemma LowerPrefix(s: string, n: nat)
    requires n <= |s| && Printable(s)
    ensures Printable(LowerAll(s)[..n]) && LowerAll(LowerAll(s)[..n]) == LowerAll(s)[..n]
  {
  }

  /** Whatever is accepted is, in lower case, the encoding of what it decodes to. */
  lemma DecodeThenEncode(bech: string)
    requires Decode(bech).Ok?
    ensures var (hrp, data) := Decode(bech).value;
            GoodHrp(hrp) && Checksum.IsSymbols(data) && Encode(hrp, data) == LowerAll(bech)
  {
    hide CHARSET, Find, Checksum.Verify, Checksum.CreateChecksum, HrpExpand, Lower, Upper;
    hide Printable, LowerAll, UpperAll, LastOne, AllInCharset, FromChars, ToChars;
    var s := LowerAll(bech);
    var pos := LastOne(s);
    var hrp, dataPart := s[..pos], s[pos + 1..];
    var all := FromChars(dataPart);
    var data, sum := all[..|all| - 6], all[|all| - 6..];
    LastOneIsOne(s);
    LowerPrefix(bech, pos);
    assert data + sum == all;
    Checksum.ChecksumUnique(HrpExpand(hrp), data, sum);
    CharsOfString(dataPart);
    assert s == hrp + "1" + dataPart;
  }

  // ---------------------------------------------------------------- addresses

  /** The table of human-readable parts; the other networks have none. */
  function Hrp(addrType: string, network: Network): Option<string> {
    if addrType == "unshielded" then
      match network
      case Mainnet => Some("mn_addr")
      case Preprod => Some("mn_addr_preprod")
      case Preview => Some("mn_addr_preview")
      case Undeployed => Some("mn_addr_undeployed")
      case _ => None
    else if addrType == "shielded" then
      match network
      case Mainnet => Some("mn_shield-addr")
      case Preprod => Some("mn_shield-addr_preprod")
      case Preview => Some("mn_shield-addr_preview")
      case Undeployed => Some("mn_shield-addr_undeployed")
      case _ => None
    else if addrType == "dust" then
      match network
      case Mainnet => Some("mn_dust")
      case Preprod => Some("mn_dust_preprod")
      case Preview => Some("mn_dust_preview")
      case Undeployed => Some("mn_dust_undeployed")
      case _ => None
    else None
  }

  /** The reversed table. */
  function HrpReverse(hrp: string): Option<(string, Network)> {
    if hrp == "mn_addr" then Some(("unshielded", Mainnet))
    else if hrp == "mn_addr_preprod" then Some(("unshielded", Preprod))
    else if hrp == "mn_addr_preview" then Some(("unshielded", Preview))
    else if hrp == "mn_addr_undeployed" then Some(("unshielded", Undeployed))
    else if hrp == "mn_shield-addr" then Some(("shielded", Mainnet))
    else if hrp == "mn_shield-addr_preprod" then Some(("shielded", Preprod))
    else if hrp == "mn_shield-addr_preview" then Some(("shielded", Preview))
    else if hrp == "mn_shield-addr_undeployed" then Some(("shielded", Undeployed))
    else if hrp == "mn_dust" then Some(("dust", Mainnet))
    else if hrp == "mn_dust_preprod" then Some(("dust", Preprod))
    else if hrp == "mn_dust_preview" then Some(("dust", Preview))
    else if hrp == "mn_dust_undeployed" then Some(("dust", Undeployed))
    else None
  }

  lemma ReverseTable(hrp: string)
    ensures HrpReverse(hrp).Some? ==> Hrp(HrpReverse(hrp).value.0, HrpReverse(hrp).value.1) == Some(hrp)
  {
  }

  lemma TableReverse(addrType: string, network: Network)
    ensures Hrp(addrType, network).Some? ==> HrpReverse(Hrp(addrType, network).value) == Some((addrType, network))
  {
    if addrType == "unshielded" {
      match network case Mainnet => case Preprod => case Preview => case Undeployed => case _ =>
    } else if addrType == "shielded" {
      match network case Mainnet => case Preprod => case Preview => case Undeployed => case _ =>
    } else if addrType == "dust" {
      match network case Mainnet => case Preprod => case Preview => case Undeployed => case _ =>
    }
  }

  lemma JoinGood(a: string, b: string)
    requires GoodHrp(a) && GoodHrp(b)
    ensures GoodHrp(a + b)
  {
    hide Lower;
    assert Printable(a + b);
    forall k | 0 <= k < |a + b| ensures LowerAll(a + b)[k] == (a + b)[k] {
      if k < |a| {
        assert LowerAll(a)[k] == a[k];
      } else {
        assert LowerAll(b)[k - |a|] == b[k - |a|];
      }
    }
  }

  lemma GoodPrefixes()
    ensures GoodHrp("mn_addr") && GoodHrp("mn_shield-addr") && GoodHrp("mn_dust")
  {
  }

  lemma GoodSuffixes()
    ensures GoodHrp("_preprod") && GoodHrp("_preview") && GoodHrp("_undeployed")
  {
  }

  function Suffix(network: Network): string {
    match network
    case Preprod => "_preprod"
    case Preview => "_preview"
    case Undeployed => "_undeployed"
    case _ => ""
  }

  lemma SuffixGood(base: string, network: Network)
    requires GoodHrp(base)
    ensures GoodHrp(base + Suffix(network))
  {
    GoodSuffixes();
    hide GoodHrp;
    if Suffix(network) == "" {
      assert base + Suffix(network) == base;
    } else {
      JoinGood(base, Suffix(network));
    }
  }

  lemma TableSpelling()
    ensures "mn_addr_preprod" == "mn_addr" + "_preprod"
    ensures "mn_addr_preview" == "mn_addr" + "_preview"
    ensures "mn_addr_undeployed" == "mn_addr" + "_undeployed"
    ensures "mn_shield-addr_preprod" == "mn_shield-addr" + "_preprod"
    ensures "mn_shield-addr_preview" == "mn_shield-addr" + "_preview"
    ensures "mn_shield-addr_undeployed" == "mn_shield-addr" + "_undeployed"
    ensures "mn_dust_preprod" == "mn_dust" + "_preprod"
    ensures "mn_dust_preview" == "mn_dust" + "_preview"
    ensures "mn_dust_undeployed" == "mn_dust" + "_undeployed"
  {
  }

  /** Every human-readable part of the table is one of three words with the suffix of its network. */
  lemma TableForm(addrType: string, network: Network) returns (base: string)
    requires Hrp(addrType, network).Some?
    ensures base == "mn_addr" || base == "mn_shield-addr" || base == "mn_dust"
    ensures Hrp(addrType, network).value == base + Suffix(network)
  {
    TableSpelling();
    base := if addrType == "unshielded" then "mn_addr" else if addrType == "shielded" then "mn_shield-addr" else "mn_dust";
    assert base + "" == base;
  }

  lemma TableGood(addrType: string, network: Network)
    requires Hrp(addrType, network).Some?
    ensures GoodHrp(Hrp(addrType, network).value)
  {
    hide GoodHrp, Hrp;
    GoodPrefixes();
    var base := TableForm(addrType, network);
    SuffixGood(base, network);
  }

  // ---------------------------------------------------------------- the codec

  lemma ConvertDigits(data: seq<int>, f: nat, t: nat, pad: bool)
    requires t > 0
    ensures var r := ConvertBits.Convert(data, f, t, pad); r.Some? ==> ConvertBits.AreDigits(r.value, t)
  {
    hide ConvertBits.Digits, ConvertBits.Value, Pow2, ConvertBits.AreDigits;
    var total, v := ConvertBits.BitCount(data, f), ConvertBits.Value(data, f);
    var rest := total % t;
    ConvertBits.DigitsInRange(if rest == 0 then v else v * Pow2(t - rest), t, ConvertBits.Ceil(total, t));
    ConvertBits.DigitsInRange(v / Pow2(rest), t, total / t);
  }

  lemma Widths()
    ensures Pow2(5) == 32 && Pow2(8) == 256
  {
  }

  lemma BytesAreDigits(payload: Bytes)
    ensures ConvertBits.AreDigits(payload, 8)
  {
    Widths();
  }

  /** Five-bit digits as symbols. */
  function AsSymbols(s: seq<int>): (r: seq<nat>)
    requires ConvertBits.AreDigits(s, 5)
    ensures r == s && Checksum.IsSymbols(r)
  {
    Widths();
    s
  }

  function AsBytes(s: seq<int>): (r: Bytes)
    requires ConvertBits.AreDigits(s, 8)
    ensures r == s
  {
    Widths();
    s
  }

  function EncodeAddress(payload: Bytes, addrType: string, network: Network): Result<string> {
    var hrp := Hrp(addrType, network);
    if hrp.None? then Err(UnknownType)
    else
      var data := ConvertBits.Convert(payload, 8, 5, true);
      if data.None? then Err(InvalidBits)
      else
        ConvertDigits(payload, 8, 5, true);
        Ok(Encode(hrp.value, AsSymbols(data.value)))
  }

  function DecodeAddress(address: string): Decoded {
    var (hrp, data) :- Decode(address);
    var info := HrpReverse(hrp);
    if info.None? then Err(UnknownHrp)
    else
      var payload := ConvertBits.Convert(data, 5, 8, false);
      if payload.None? then Err(InvalidBits)
      else
        ConvertDigits(data, 5, 8, false);
        Ok((info.value.0, info.value.1, AsBytes(payload.value)))
  }

  /** Encoding fails exactly for a type and network outside the table. */
  lemma EncodeSucceeds(payload: Bytes, addrType: string, network: Network)
    ensures EncodeAddress(payload, addrType, network).Ok? <==> Hrp(addrType, network).Some?
  {
    hide Hrp, ConvertBits.Convert, Encode;
    BytesAreDigits(payload);
    ConvertBits.PadThenStrip(payload, 8, 5);
  }

  /** Every payload under every table entry decodes back to itself. */
  lemma EncodeDecodeAddress(payload: Bytes, addrType: string, network: Network)
    requires Hrp(addrType, network).Some?
    ensures EncodeAddress(payload, addrType, network).Ok?
    ensures DecodeAddress(EncodeAddress(payload, addrType, network).value) == Ok((addrType, network, payload))
  {
    hide Hrp, HrpReverse, GoodHrp, ConvertBits.Convert, Encode, Decode;
    BytesAreDigits(payload);
    ConvertBits.PadThenStrip(payload, 8, 5);
    TableGood(addrType, network);
    TableReverse(addrType, network);
    ConvertDigits(payload, 8, 5, true);
    EncodeThenDecode(Hrp(addrType, network).value, AsSymbols(ConvertBits.Convert(payload, 8, 5, true).value));
  }

  lemma SymbolsAreDigits(data: seq<nat>)
    requires Checksum.IsSymbols(data)
    ensures ConvertBits.AreDigits(data, 5)
  {
    Widths();
  }

  /** Every accepted string is, in lower case, the encoding of its decoded payload. */
  lemma DecodeEncodeAddress(address: string)
    requires DecodeAddress(address).Ok?
    ensures var (addrType, network, payload) := DecodeAddress(address).value;
            EncodeAddress(payload, addrType, network) == Ok(LowerAll(address))
  {
    hide Hrp, HrpReverse, GoodHrp, ConvertBits.Convert, Encode, Decode;
    var (hrp, data) := Decode(address).value;
    DecodeThenEncode(address);
    ReverseTable(hrp);
    SymbolsAreDigits(data);
    ConvertBits.StripThenPad(data, 5, 8);
  }

  /** Decoding is injective up to case. */
  lemma SameAddress(a: string, b: string)
    requires DecodeAddress(a).Ok? && DecodeAddress(a) == DecodeAddress(b)
    ensures LowerAll(a) == LowerAll(b)
  {
    hide DecodeAddress, EncodeAddress;
    DecodeEncodeAddress(a);
    DecodeEncodeAddress(b);
  }

  lemma LowerCharFacts(c: char)
    ensures 33 <= Lower(c) as int <= 126 <==> 33 <= c as int <= 126
    ensures Lower(Lower(c)) == Lower(c)
  {
  }

  /** A string in one case decodes as its lower-case form does. */
  lemma DecodeOneCase(s: string)
    requires LowerAll(s) == s || UpperAll(s) == s
    ensures Decode(s) == Decode(LowerAll(s))
  {
    hide Lower, Upper, Find, Checksum.Verify;
    var t := LowerAll(s);
    forall k | 0 <= k < |s| ensures (33 <= s[k] as int <= 126 <==> 33 <= t[k] as int <= 126) && Lower(t[k]) == t[k] {
      LowerCharFacts(s[k]);
    }
    assert Printable(s) <==> Printable(t) by {
      if !Printable(s) {
        var k :| 0 <= k < |s| && !(33 <= s[k] as int <= 126);
        assert !(33 <= t[k] as int <= 126);
      }
    }
    assert LowerAll(t) == t;
  }

  lemma AcceptedIsOneCase(s: string)
    ensures DecodeAddress(s).Ok? ==> LowerAll(s) == s || UpperAll(s) == s
    ensures LowerAll(s) == s || UpperAll(s) == s ==> DecodeAddress(s) == DecodeAddress(LowerAll(s))
  {
    hide HrpReverse, ConvertBits.Convert, LowerAll, UpperAll, Checksum.Verify, Printable, LastOne;
    if LowerAll(s) == s || UpperAll(s) == s {
      DecodeOneCase(s);
    }
  }

  /** The accepted strings are exactly the encodings, each in all lower or all upper case. */
  lemma AcceptedExactly(s: string, payload: Bytes, addrType: string, network: Network)
    ensures DecodeAddress(s) == Ok((addrType, network, payload)) <==>
      EncodeAddress(payload, addrType, network) == Ok(LowerAll(s)) && (LowerAll(s) == s || UpperAll(s) == s)
  {
    hide Hrp, EncodeAddress, DecodeAddress, LowerAll, UpperAll;
    AcceptedIsOneCase(s);
    EncodeSucceeds(payload, addrType, network);
    if DecodeAddress(s).Ok? {
      DecodeEncodeAddress(s);
    }
    if Hrp(addrType, network).Some? {
      EncodeDecodeAddress(payload, addrType, network);
    }
  }

  /** Within one human-readable part, changing characters inside a window of six is always detected. */
  lemma StringBurstDetected(a: string, b: string, k: nat)
    requires Decode(a).Ok? && Decode(b).Ok? && |a| == |b|
    requires LastOne(LowerAll(a)) == LastOne(LowerAll(b)) < k
    requires forall i :: 0 <= i < |a| && !(k <= i < k + 6) ==> LowerAll(a)[i] == LowerAll(b)[i]
    ensures LowerAll(a) == LowerAll(b)
  {
    hide Find, Checksum.Verify, Lower, Upper, Checksum.IsSymbols;
    var s, t := LowerAll(a), LowerAll(b);
    var pos := LastOne(s);
    var x, y := FromChars(s[pos + 1..]), FromChars(t[pos + 1..]);
    assert s[..pos] == t[..pos];
    var j := k - pos - 1;
    forall i | 0 <= i < |x| && !(j <= i < j + 6) ensures x[i] == y[i] {
      assert s[pos + 1..][i] == s[pos + 1 + i] && t[pos + 1..][i] == t[pos + 1 + i];
    }
    Checksum.BurstDetected(HrpExpand(s[..pos]), x, y, j);
    CharsOfString(s[pos + 1..]);
    CharsOfString(t[pos + 1..]);
    LastOneIsOne(s);
    LastOneIsOne(t);
    assert s == s[..pos] + [s[pos]] + s[pos + 1..];
    assert t == t[..pos] + [t[pos]] + t[pos + 1..];
  }

  lemma {:induction false} LastOneIsLast(s: string, i: nat)
    requires i < |s| && s[i] == '1'
    ensures i <= LastOne(s)
  {
    if s[|s| - 1] == '1' {
    } else {
      LastOneIsLast(s[..|s| - 1], i);
    }
  }

  lemma WordsHaveNoSeparator(network: Network)
    ensures '1' !in "mn_addr" && '1' !in "mn_shield-addr" && '1' !in "mn_dust" && '1' !in Suffix(network)
  {
  }

  lemma TableHasNoSeparator(hrp: string)
    requires HrpReverse(hrp).Some?
    ensures '1' !in hrp
  {
    ReverseTable(hrp);
    hide HrpReverse, Hrp, Suffix;
    var (addrType, network) := HrpReverse(hrp).value;
    var base := TableForm(addrType, network);
    WordsHaveNoSeparator(network);
  }

  // ---------------------------------------------------------------- bursts anywhere in an address

  /** Strings whose characters agree in their high bits, which come first in the expansion. */
  predicate SameHighs(a: string, b: string) {
    |a| == |b| && forall i :: 0 <= i < |a| ==> a[i] as int / 32 == b[i] as int / 32
  }

  lemma WordHighs()
    ensures SameHighs("mn_addr", "mn_dust") && SameHighs("_preprod", "_preview")
  {
  }

  lemma WordFacts()
    ensures |"mn_addr"| == 7 && |"mn_dust"| == 7 && |"mn_shield-addr"| == 14
    ensures "mn_addr"[3] == 'a' && "mn_dust"[3] == 'd' && "mn_shield-addr"[3] == 's'
  {
  }

  lemma SuffixFacts(network: Network)
    ensures var x := Suffix(network);
            || x == ""
            || (|x| == 8 && x[1] == 'p' && (x == "_preprod" || x == "_preview"))
            || (|x| == 11 && x[1] == 'u' && x == "_undeployed")
  {
  }

  lemma SuffixHighs(m: Network, n: Network)
    requires |Suffix(m)| == |Suffix(n)|
    ensures SameHighs(Suffix(m), Suffix(n))
  {
    hide Suffix;
    WordHighs();
    SuffixFacts(m);
    SuffixFacts(n);
  }

  lemma SameHighsJoin(a: string, b: string, c: string, d: string)
    requires SameHighs(a, c) && SameHighs(b, d)
    ensures SameHighs(a + b, c + d)
  {
  }

  lemma HighsSymmetric(a: string, b: string)
    ensures SameHighs(a, b) ==> SameHighs(b, a)
  {
  }

  lemma HighsReflexive(a: string)
    ensures SameHighs(a, a)
  {
  }

  /** Entries of the table of one length agree in all high bits. */
  lemma TableHighs(x: string, y: string)
    requires HrpReverse(x).Some? && HrpReverse(y).Some? && |x| == |y|
    ensures SameHighs(x, y)
  {
    ReverseTable(x);
    ReverseTable(y);
    var (s, m) := HrpReverse(x).value;
    var (t, n) := HrpReverse(y).value;
    hide HrpReverse, Hrp, Suffix, SameHighs;
    var a := TableForm(s, m);
    var b := TableForm(t, n);
    WordFacts();
    WordHighs();
    SuffixFacts(m);
    SuffixFacts(n);
    SuffixHighs(m, n);
    HighsSymmetric("mn_addr", "mn_dust");
    HighsReflexive(a);
    SameHighsJoin(a, Suffix(m), b, Suffix(n));
  }

  /** Entries of different length, by five characters at most, differ long before their ends. */
  lemma TableDiffers(x: string, y: string) returns (i: nat)
    requires HrpReverse(x).Some? && HrpReverse(y).Some? && |x| < |y| <= |x| + 5
    ensures i < |x| && x[i] != y[i] && i + 6 <= |y|
  {
    ReverseTable(x);
    ReverseTable(y);
    var (s, m) := HrpReverse(x).value;
    var (t, n) := HrpReverse(y).value;
    hide HrpReverse, Hrp, Suffix;
    var a := TableForm(s, m);
    var b := TableForm(t, n);
    WordFacts();
    SuffixFacts(m);
    SuffixFacts(n);
    if a == b {
      i := |a| + 1;
      assert x[i] == Suffix(m)[1] && y[i] == Suffix(n)[1];
    } else {
      i := 3;
      assert x[3] == a[3] && y[3] == b[3];
    }
  }

  /** The symbols of a string behind the high bits of its prefix: the low bits, then the data. */
  function LowsAndData(hrp: string, data: seq<nat>): (r: seq<nat>)
    requires Checksum.IsSymbols(data)
    ensures Checksum.IsSymbols(r) && |r| == |hrp| + |data|
  {
    seq(|hrp|, (k: int) requires 0 <= k < |hrp| => hrp[k] as int % 32) + data
  }

  function Highs(hrp: string): seq<nat> {
    seq(|hrp|, (k: int) requires 0 <= k < |hrp| => hrp[k] as int / 32) + [0]
  }

  lemma VerifyByHighs(hrp: string, data: seq<nat>)
    requires Checksum.IsSymbols(data)
    ensures Checksum.Verify(HrpExpand(hrp), data) <==> Checksum.Verify(Highs(hrp), LowsAndData(hrp, data))
  {
    hide Checksum.Polymod;
    assert HrpExpand(hrp) + data == Highs(hrp) + LowsAndData(hrp, data);
  }

  lemma SymbolAt(g: string, x: seq<nat>, i: nat)
    requires Checksum.IsSymbols(x) && i < |g| + |x|
    ensures LowsAndData(g, x)[i] == if i < |g| then g[i] as int % 32 else x[i - |g|]
  {
  }

  lemma BurstInSymbols(g: string, x: seq<nat>, h: string, y: seq<nat>, k: nat) returns (j: nat)
    requires |g| == |h| && Checksum.IsSymbols(x) && Checksum.IsSymbols(y) && |x| == |y|
    requires forall i :: 0 <= i < |g| && !(k <= i < k + 6) ==> g[i] == h[i]
    requires forall i :: 0 <= i < |x| && !(k <= |g| + 1 + i < k + 6) ==> x[i] == y[i]
    ensures var v, w := LowsAndData(g, x), LowsAndData(h, y);
            |v| == |w| && forall i :: 0 <= i < |v| && !(j <= i < j + 6) ==> v[i] == w[i]
  {
    hide Checksum.IsSymbols, LowsAndData;
    j := if k <= |g| then k else k - 1;
    forall i: nat | i < |g| + |x| && !(j <= i < j + 6) ensures LowsAndData(g, x)[i] == LowsAndData(h, y)[i] {
      SymbolAt(g, x, i);
      SymbolAt(h, y, i);
      if i >= |g| {
        assert x[i - |g|] == y[i - |g|];
      }
    }
  }

  lemma CharParts(c: char)
    ensures c as int == 32 * (c as int / 32) + c as int % 32
  {
  }

  lemma LowsFix(g: string, x: seq<nat>, h: string, y: seq<nat>)
    requires SameHighs(g, h) && Checksum.IsSymbols(x) && Checksum.IsSymbols(y) && |x| == |y|
    requires LowsAndData(g, x) == LowsAndData(h, y)
    ensures g == h && x == y
  {
    hide Checksum.IsSymbols, LowsAndData;
    forall i | 0 <= i < |g| ensures g[i] == h[i] {
      SymbolAt(g, x, i);
      SymbolAt(h, y, i);
      CharParts(g[i]);
      CharParts(h[i]);
    }
    forall i | 0 <= i < |x| ensures x[i] == y[i] {
      SymbolAt(g, x, |g| + i);
      SymbolAt(h, y, |g| + i);
    }
  }

  lemma HighsAgree(g: string, h: string)
    requires SameHighs(g, h)
    ensures Highs(g) == Highs(h)
  {
  }

  /** With prefixes of equal high bits, a burst is one for the register even where it spans the separator,
      which the register does not see. */
  lemma BurstAcrossSeparator(g: string, x: seq<nat>, h: string, y: seq<nat>, k: nat)
    requires SameHighs(g, h) && |g| == |h| && Checksum.IsSymbols(x) && Checksum.IsSymbols(y) && |x| == |y|
    requires Checksum.Verify(HrpExpand(g), x) && Checksum.Verify(HrpExpand(h), y)
    requires forall i :: 0 <= i < |g| && !(k <= i < k + 6) ==> g[i] == h[i]
    requires forall i :: 0 <= i < |x| && !(k <= |g| + 1 + i < k + 6) ==> x[i] == y[i]
    ensures g == h && x == y
  {
    hide Checksum.Verify, Checksum.IsSymbols, Highs, LowsAndData, HrpExpand, SameHighs;
    VerifyByHighs(g, x);
    VerifyByHighs(h, y);
    HighsAgree(g, h);
    var j := BurstInSymbols(g, x, h, y, k);
    Checksum.BurstDetected(Highs(g), LowsAndData(g, x), LowsAndData(h, y), j);
    LowsFix(g, x, h, y);
  }

  /** Accepted strings whose separators differ, differ at two places that are at least six characters apart. */
  lemma MovedSeparator(s: string, t: string) returns (i: nat, j: nat)
    requires |s| == |t| && -1 < LastOne(s) < LastOne(t)
    requires HrpReverse(s[..LastOne(s)]).Some? && HrpReverse(t[..LastOne(t)]).Some?
    ensures i + 6 <= j < |s| && s[i] != t[i] && s[j] != t[j]
  {
    hide HrpReverse, LastOne;
    var p, q := LastOne(s), LastOne(t);
    LastOneIsOne(s);
    LastOneIsOne(t);
    TableHasNoSeparator(t[..q]);
    assert t[..q][p] in t[..q];
    assert s[p] != t[p];
    j := q;
    if s[q] == '1' {
      LastOneIsLast(s, q);
      assert false;
    }
    if q <= p + 5 {
      i := TableDiffers(s[..p], t[..q]);
      assert s[..p][i] == s[i] && t[..q][i] == t[i];
    } else {
      i := p;
    }
  }

  lemma SameSeparator(s: string, t: string, k: nat)
    requires |s| == |t| && LastOne(s) != -1 && LastOne(t) != -1
    requires HrpReverse(s[..LastOne(s)]).Some? && HrpReverse(t[..LastOne(t)]).Some?
    requires forall i :: 0 <= i < |s| && !(k <= i < k + 6) ==> s[i] == t[i]
    ensures LastOne(s) == LastOne(t)
  {
    hide HrpReverse, LastOne;
    if LastOne(s) < LastOne(t) {
      var i, j := MovedSeparator(s, t);
      assert false;
    } else if LastOne(t) < LastOne(s) {
      var i, j := MovedSeparator(t, s);
      assert false;
    }
  }

  /** The burst of two strings, seen from their data parts. */
  lemma DataBurst(s: string, t: string, p: nat, k: nat)
    requires |s| == |t| && p < |s|
    requires forall i :: 0 <= i < |s| && !(k <= i < k + 6) ==> s[i] == t[i]
    requires AllInCharset(s[p + 1..]) && AllInCharset(t[p + 1..])
    ensures var x, y := FromChars(s[p + 1..]), FromChars(t[p + 1..]);
            |x| == |y| && forall i :: 0 <= i < |x| && !(k <= p + 1 + i < k + 6) ==> x[i] == y[i]
  {
    hide Find, Checksum.IsSymbols, AllInCharset;
    var d, e := s[p + 1..], t[p + 1..];
    forall i | 0 <= i < |d| && !(k <= p + 1 + i < k + 6) ensures FromChars(d)[i] == FromChars(e)[i] {
      assert d[i] == s[p + 1 + i] && e[i] == t[p + 1 + i];
    }
  }

  lemma Rejoin(s: string, t: string, p: nat)
    requires |s| == |t| && p < |s| && s[p] == t[p] && s[..p] == t[..p] && s[p + 1..] == t[p + 1..]
    ensures s == t
  {
    assert s == s[..p] + [s[p]] + s[p + 1..] && t == t[..p] + [t[p]] + t[p + 1..];
  }

  lemma SameSeparatorSame(s: string, t: string, p: nat, k: nat)
    requires |s| == |t| && p < |s| && s[p] == t[p] && SameHighs(s[..p], t[..p])
    requires AllInCharset(s[p + 1..]) && AllInCharset(t[p + 1..])
    requires Checksum.Verify(HrpExpand(s[..p]), FromChars(s[p + 1..]))
    requires Checksum.Verify(HrpExpand(t[..p]), FromChars(t[p + 1..]))
    requires forall i :: 0 <= i < |s| && !(k <= i < k + 6) ==> s[i] == t[i]
    ensures s == t
  {
    hide Find, Checksum.Verify, Checksum.IsSymbols, SameHighs, AllInCharset, HrpExpand, FromChars;
    var x, y := FromChars(s[p + 1..]), FromChars(t[p + 1..]);
    DataBurst(s, t, p, k);
    BurstAcrossSeparator(s[..p], x, t[..p], y, k);
    CharsOfString(s[p + 1..]);
    CharsOfString(t[p + 1..]);
    Rejoin(s, t, p);
  }

  /** Two addresses of equal length that decode and differ only inside six consecutive characters, wherever
      these lie, are the same address: no such burst reaches another type, network or payload. */
  lemma AddressBurstDetected(a: string, b: string, k: nat)
    requires DecodeAddress(a).Ok? && DecodeAddress(b).Ok? && |a| == |b|
    requires forall i :: 0 <= i < |a| && !(k <= i < k + 6) ==> LowerAll(a)[i] == LowerAll(b)[i]
    ensures LowerAll(a) == LowerAll(b) && DecodeAddress(a) == DecodeAddress(b)
  {
    var s, t := LowerAll(a), LowerAll(b);
    hide HrpReverse, ConvertBits.Convert, LowerAll, LastOne, Checksum.Verify, AllInCharset, FromChars, SameHighs, HrpExpand;
    SameSeparator(s, t, k);
    var p := LastOne(s);
    LastOneIsOne(s);
    LastOneIsOne(t);
    TableHighs(s[..p], t[..p]);
    SameSeparatorSame(s, t, p, k);
    AcceptedIsOneCase(a);
    AcceptedIsOneCase(b);
  }
}

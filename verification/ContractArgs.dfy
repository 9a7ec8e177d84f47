/** Contract arguments: a self-describing value is encoded, and read back by its shape. */
module ContractArgs {
  import opened Basics
  import opened Compact

  /** The host values that can be passed; a dictionary keeps its names and values in insertion order. */
  datatype Value =
    | NoneValue
    | BytesValue(data: Bytes)
    | StrValue(utf8: Bytes)
    | BoolValue(flag: bool)
    | IntValue(n: int)
    | ListValue(items: seq<Value>)
    | DictValue(names: seq<string>, values: seq<Value>)
    | OtherValue

  datatype Shape =
    | NoneShape
    | BytesShape
    | StrShape
    | BoolShape
    | NatShape
    | ListShape(elem: Shape)
    | StructShape(names: seq<string>, members: seq<Shape>)

  // ---------------------------------------------------------------- encoding

  predicate ArgsOk(v: Value)
    decreases v, 1
  {
    match v
    case BytesValue(data) => Encodable(|data|)
    case StrValue(utf8) => Encodable(|utf8|)
    case IntValue(n) => Encodable(n)
    case ListValue(items) => Encodable(|items|) && ItemsOk(items)
    case DictValue(_, values) => ItemsOk(values)
    case _ => true
  }

  predicate ItemsOk(items: seq<Value>)
    decreases items, 0
  {
    items == [] || (ArgsOk(items[0]) && ItemsOk(items[1..]))
  }

  /** Structs carry neither names nor a length; None and unknown values carry nothing. */
  function ArgsBytes(v: Value): Bytes
    decreases v, 1
  {
    match v
    case NoneValue => []
    case BytesValue(data) => Prefixed(data)
    case StrValue(utf8) => Prefixed(utf8)
    case BoolValue(flag) => if flag then [1] else [0]
    case IntValue(n) => CompactBytes(n)
    case ListValue(items) => CompactBytes(|items|) + ItemsBytes(items)
    case DictValue(_, values) => ItemsBytes(values)
    case OtherValue => []
  }

  function ItemsBytes(items: seq<Value>): Bytes
    decreases items, 0
  {
    if items == [] then [] else ArgsBytes(items[0]) + ItemsBytes(items[1..])
  }

  // ---------------------------------------------------------------- shapes

  predicate HasShape(v: Value, s: Shape)
    decreases s, 1
  {
    match s
    case NoneShape => v.NoneValue?
    case BytesShape => v.BytesValue?
    case StrShape => v.StrValue?
    case BoolShape => v.BoolValue?
    case NatShape => v.IntValue?
    case ListShape(elem) => v.ListValue? && forall x :: x in v.items ==> HasShape(x, elem)
    case StructShape(names, members) => v.DictValue? && v.names == names && HasMembers(v.values, members)
  }

  predicate HasMembers(values: seq<Value>, members: seq<Shape>)
    decreases members, 0
  {
    if members == [] then values == []
    else values != [] && HasShape(values[0], members[0]) && HasMembers(values[1..], members[1..])
  }

  // ---------------------------------------------------------------- decoding by shape

  function DecodeArgs(s: Shape, b: Bytes): Option<(Value, Bytes)>
    decreases s, 1, 0
  {
    match s
    case NoneShape => Some((NoneValue, b))
    case BytesShape => var (x, r) :- DecodePrefixed(b); Some((BytesValue(x), r))
    case StrShape => var (x, r) :- DecodePrefixed(b); Some((StrValue(x), r))
    case BoolShape =>
      var (x, r) :- TakeLe(b, 1);
      if x == 0 then Some((BoolValue(false), r)) else if x == 1 then Some((BoolValue(true), r)) else None
    case NatShape => var (n, r) :- DecodeCompact(b); Some((IntValue(n), r))
    case ListShape(elem) =>
      var (n, b1) :- DecodeCompact(b);
      var (xs, r) :- DecodeItems(elem, n, b1);
      Some((ListValue(xs), r))
    case StructShape(names, members) =>
      var (xs, r) :- DecodeMembers(members, b);
      Some((DictValue(names, xs), r))
  }

  function DecodeItems(elem: Shape, n: nat, b: Bytes): Option<(seq<Value>, Bytes)>
    decreases elem, 2, n
  {
    if n == 0 then Some(([], b))
    else
      var (x, b1) :- DecodeArgs(elem, b);
      var (xs, r) :- DecodeItems(elem, n - 1, b1);
      Some(([x] + xs, r))
  }

  function DecodeMembers(members: seq<Shape>, b: Bytes): Option<(seq<Value>, Bytes)>
    decreases members, 0, 0
  {
    if members == [] then Some(([], b))
    else
      var (x, b1) :- DecodeArgs(members[0], b);
      var (xs, r) :- DecodeMembers(members[1..], b1);
      Some(([x] + xs, r))
  }

  // ---------------------------------------------------------------- round trip

  lemma BoolRoundTrip(flag: bool, rest: Bytes)
    ensures TakeLe((if flag then [1] else [0]) + rest, 1) == Some((if flag then 1 else 0, rest))
  {
    var b: Bytes := if flag then [1] else [0];
    assert b[1..] == [];
    assert LeValue(b) == b[0];
    TakeFront(b, rest);
  }

  /** A shape-directed decoder recovers every encodable value of the shape, with what follows it. */
  lemma {:induction false} ArgsRoundTrip(v: Value, s: Shape, rest: Bytes)
    requires ArgsOk(v) && HasShape(v, s)
    ensures DecodeArgs(s, ArgsBytes(v) + rest) == Some((v, rest))
    decreases s, 1, 0
  {
    hide TakeLe, DecodeCompact, CompactBytes, Prefixed, DecodePrefixed, Encodable;
    match s
    case NoneShape => assert [] + rest == rest;
    case BytesShape => PrefixedRoundTrip(v.data, rest);
    case StrShape => PrefixedRoundTrip(v.utf8, rest);
    case BoolShape => BoolRoundTrip(v.flag, rest);
    case NatShape => CompactRoundTrip(v.n, rest);
    case ListShape(elem) =>
      ConcatAssoc(CompactBytes(|v.items|), ItemsBytes(v.items), rest);
      CompactRoundTrip(|v.items|, ItemsBytes(v.items) + rest);
      ItemsRoundTrip(v.items, elem, rest);
    case StructShape(_, members) => MembersRoundTrip(v.values, members, rest);
  }

  lemma {:induction false} ItemsRoundTrip(items: seq<Value>, elem: Shape, rest: Bytes)
    requires ItemsOk(items) && forall x :: x in items ==> HasShape(x, elem)
    ensures DecodeItems(elem, |items|, ItemsBytes(items) + rest) == Some((items, rest))
    decreases elem, 2, |items|
  {
    if items == [] {
      assert [] + rest == rest;
    } else {
      var tail := ItemsBytes(items[1..]) + rest;
      ConcatAssoc(ArgsBytes(items[0]), ItemsBytes(items[1..]), rest);
      ArgsRoundTrip(items[0], elem, tail);
      ItemsRoundTrip(items[1..], elem, rest);
      assert [items[0]] + items[1..] == items;
    }
  }

  lemma {:induction false} MembersRoundTrip(values: seq<Value>, members: seq<Shape>, rest: Bytes)
    requires ItemsOk(values) && HasMembers(values, members)
    ensures DecodeMembers(members, ItemsBytes(values) + rest) == Some((values, rest))
    decreases members, 0, 0
  {
    if members == [] {
      assert [] + rest == rest;
    } else {
      var tail := ItemsBytes(values[1..]) + rest;
      ConcatAssoc(ArgsBytes(values[0]), ItemsBytes(values[1..]), rest);
      ArgsRoundTrip(values[0], members[0], tail);
      MembersRoundTrip(values[1..], members[1..], rest);
      assert [values[0]] + values[1..] == values;
    }
  }

  /** Two values of one shape with the same bytes are the same value. */
  lemma ArgsInjective(v: Value, w: Value, s: Shape)
    requires ArgsOk(v) && ArgsOk(w) && HasShape(v, s) && HasShape(w, s) && ArgsBytes(v) == ArgsBytes(w)
    ensures v == w
  {
    ArgsRoundTrip(v, s, []);
    ArgsRoundTrip(w, s, []);
    hide ArgsBytes, DecodeArgs;
  }

  /** Without the shape the bytes do not determine the value. */
  lemma ShapeIsNeeded()
    ensures ArgsBytes(BoolValue(false)) == ArgsBytes(IntValue(0)) && BoolValue(false) != IntValue(0)
  {
  }

  // ---------------------------------------------------------------- exactly the values of the shape are recovered

  /** Decoding by a shape returns encodable values of that shape only. */
  lemma {:induction false} DecodedArgs(s: Shape, b: Bytes)
    ensures var t := DecodeArgs(s, b); t.Some? ==> HasShape(t.value.0, s) && ArgsOk(t.value.0)
    decreases s, 1, 0
  {
    hide TakeLe, DecodeCompact, DecodePrefixed, Encodable;
    match s
    case NoneShape =>
    case BytesShape => DecodedPrefixed(b);
    case StrShape => DecodedPrefixed(b);
    case BoolShape =>
    case NatShape => DecodedEncodable(b);
    case ListShape(elem) =>
      DecodedEncodable(b);
      var n := DecodeCompact(b);
      if n.Some? {
        DecodedItems(elem, n.value.0, n.value.1);
      }
    case StructShape(_, members) => DecodedMembers(members, b);
  }

  lemma {:induction false} DecodedItems(elem: Shape, n: nat, b: Bytes)
    ensures var t := DecodeItems(elem, n, b);
            t.Some? ==> |t.value.0| == n && ItemsOk(t.value.0) && forall x :: x in t.value.0 ==> HasShape(x, elem)
    decreases elem, 2, n
  {
    if n == 0 {
    } else {
      DecodedArgs(elem, b);
      var x := DecodeArgs(elem, b);
      if x.Some? {
        DecodedItems(elem, n - 1, x.value.1);
      }
    }
  }

  lemma {:induction false} DecodedMembers(members: seq<Shape>, b: Bytes)
    ensures var t := DecodeMembers(members, b); t.Some? ==> ItemsOk(t.value.0) && HasMembers(t.value.0, members)
    decreases members, 0, 0
  {
    if members == [] {
    } else {
      DecodedArgs(members[0], b);
      var x := DecodeArgs(members[0], b);
      if x.Some? {
        DecodedMembers(members[1..], x.value.1);
      }
    }
  }

  /** A shape recovers a value from its bytes, whatever follows them, exactly when the value has the shape and
      can be encoded. */
  lemma ArgsRecovered(v: Value, s: Shape, rest: Bytes)
    ensures DecodeArgs(s, ArgsBytes(v) + rest) == Some((v, rest)) <==> HasShape(v, s) && ArgsOk(v)
  {
    hide DecodeArgs, ArgsBytes, HasShape, ArgsOk;
    DecodedArgs(s, ArgsBytes(v) + rest);
    if HasShape(v, s) && ArgsOk(v) {
      ArgsRoundTrip(v, s, rest);
    }
  }

  /** No shape fits a value of an unknown type, nor a list of two items that share none, such as a bool and
      an integer: what the encoder writes for them is never read back. */
  lemma SomeFitNoShape(items: seq<Value>, i: nat, j: nat, s: Shape)
    requires i < |items| && j < |items|
    requires forall elem :: !(HasShape(items[i], elem) && HasShape(items[j], elem))
    ensures !HasShape(OtherValue, s) && !HasShape(ListValue(items), s)
  {
    if s.ListShape? && HasShape(ListValue(items), s) {
      assert items[i] in items && items[j] in items;
    }
  }

  lemma MixedListHasNoShape(flag: bool, n: int, rest: Bytes, s: Shape)
    requires Encodable(n)
    ensures var v := ListValue([BoolValue(flag), IntValue(n)]); ArgsOk(v) && DecodeArgs(s, ArgsBytes(v) + rest) != Some((v, rest))
  {
    var items := [BoolValue(flag), IntValue(n)];
    SmallIsEncodable(2);
    assert ArgsOk(items[0]) && ArgsOk(items[1]);
    assert ItemsOk(items[2..]) && ItemsOk(items[1..]) by { assert items[1..][1..] == items[2..]; }
    hide ArgsBytes, DecodeArgs, Encodable;
    forall elem ensures !(HasShape(items[0], elem) && HasShape(items[1], elem)) {}
    SomeFitNoShape(items, 0, 1, s);
    ArgsRecovered(ListValue(items), s, rest);
  }

  // ---------------------------------------------------------------- the recursive serializer

  lemma ItemsAt(items: seq<Value>, i: nat, front: Bytes)
    requires i < |items|
    ensures ItemsOk(items[i..]) <==> ArgsOk(items[i]) && ItemsOk(items[i + 1..])
    ensures front + ItemsBytes(items[i..]) == front + ArgsBytes(items[i]) + ItemsBytes(items[i + 1..])
  {
    assert items[i..][1..] == items[i + 1..];
    ConcatAssoc(front, ArgsBytes(items[i]), ItemsBytes(items[i + 1..]));
  }

  /** The recursive encoder; it fails exactly on integers and lengths outside the compact range. */
  method SerializeContractArgs(args: Value) returns (r: Option<Bytes>)
    ensures r == if ArgsOk(args) then Some(ArgsBytes(args)) else None
    decreases args
  {
    hide Encodable, CompactBytes;
    match args
    case NoneValue => r := Some([]);
    case BytesValue(data) =>
      var n := EncodeScaleInt(|data|);
      r := if n.Some? then Some(n.value + data) else None;
    case StrValue(utf8) =>
      var n := EncodeScaleInt(|utf8|);
      r := if n.Some? then Some(n.value + utf8) else None;
    case BoolValue(flag) => r := Some(if flag then [1] else [0]);
    case IntValue(n) => r := EncodeScaleInt(n);
    case ListValue(items) =>
      var n := EncodeScaleInt(|items|);
      if n.None? { return None; }
      var buf := n.value;
      assert items[0..] == items;
      for i := 0 to |items|
        invariant buf + ItemsBytes(items[i..]) == n.value + ItemsBytes(items)
        invariant ItemsOk(items[i..]) <==> ItemsOk(items)
      {
        ItemsAt(items, i, buf);
        var b := SerializeContractArgs(items[i]);
        if b.None? { return None; }
        buf := buf + b.value;
      }
      assert buf + [] == buf;
      r := Some(buf);
    case DictValue(_, values) =>
      var buf: Bytes := [];
      assert values[0..] == values && [] + ItemsBytes(values) == ItemsBytes(values);
      for i := 0 to |values|
        invariant buf + ItemsBytes(values[i..]) == ItemsBytes(values)
        invariant ItemsOk(values[i..]) <==> ItemsOk(values)
      {
        ItemsAt(values, i, buf);
        var b := SerializeContractArgs(values[i]);
        if b.None? { return None; }
        buf := buf + b.value;
      }
      assert buf + [] == buf;
      r := Some(buf);
    case OtherValue => r := Some([]);
  }
}

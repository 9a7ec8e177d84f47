/** The serializer as it runs: byte buffers grown piece by piece, failing where a value does not fit. */
module Serializer {
  import opened Basics
  import opened Compact
  import opened Scale
  import Selection

  method SerializeU32(val: int) returns (r: Option<Bytes>)
    ensures r == if IsU32(val) then Some(U32Bytes(val)) else None
  {
    r := if 0 <= val < 0x1_0000_0000 then Some(LeBytes(val, 4)) else None;
  }

  /** Both words must fit; the low one always does. */
  method SerializeU128(val: int) returns (r: Option<Bytes>)
    ensures r == if IsU128(val) then Some(U128Bytes(val)) else None
  {
    hide LeBytes;
    var low, high := val % 0x1_0000_0000_0000_0000, val / 0x1_0000_0000_0000_0000;
    r := if 0 <= high < 0x1_0000_0000_0000_0000 then Some(LeBytes(low, 8) + LeBytes(high, 8)) else None;
  }

  method SerializeByte(val: int) returns (r: Option<Bytes>)
    ensures r == if IsByte(val) then Some(ByteOf(val)) else None
  {
    r := if 0 <= val < 256 then Some([val]) else None;
  }

  method SerializeBytes(data: Bytes) returns (r: Option<Bytes>)
    ensures r == if Encodable(|data|) then Some(Prefixed(data)) else None
  {
    var n := EncodeScaleInt(|data|);
    r := if n.Some? then Some(n.value + data) else None;
  }

  method SerializeUtxoSpend(spend: UtxoSpend) returns (r: Option<Bytes>)
    ensures r == if SpendOk(spend) then Some(SpendBytes(spend)) else None
  {
    hide U128Bytes, U32Bytes, ByteOf;
    var payload: Bytes := [];
    var value := SerializeU128(spend.value);
    if value.None? { return None; }
    payload := payload + value.value;
    payload := payload + spend.owner;
    var tag := SerializeByte(spend.typeTag);
    if tag.None? { return None; }
    payload := payload + tag.value;
    payload := payload + spend.intentHash;
    var no := SerializeU32(spend.outputNo);
    if no.None? { return None; }
    r := Some(payload + no.value);
    assert [] + value.value == value.value;
  }

  method SerializeUtxoOutput(output: UtxoOutput) returns (r: Option<Bytes>)
    ensures r == if OutputOk(output) then Some(OutputBytes(output)) else None
  {
    hide U128Bytes, ByteOf;
    var payload: Bytes := [];
    var value := SerializeU128(output.value);
    if value.None? { return None; }
    payload := payload + value.value;
    payload := payload + output.owner;
    var tag := SerializeByte(output.typeTag);
    if tag.None? { return None; }
    r := Some(payload + tag.value);
    assert [] + value.value == value.value;
  }

  lemma ConcatEmpty<T>(enc: T -> Bytes, xs: seq<T>, front: Bytes)
    ensures front + Concat(enc, xs[..0]) == front
  {
  }

  lemma ConcatNext<T>(enc: T -> Bytes, xs: seq<T>, i: nat, front: Bytes)
    requires i < |xs|
    ensures front + Concat(enc, xs[..i]) + enc(xs[i]) == front + Concat(enc, xs[..i + 1])
  {
    hide Concat;
    ConcatSnoc(enc, xs, i);
    ConcatAssoc(front, Concat(enc, xs[..i]), enc(xs[i]));
  }

  method SerializeSpends(spends: seq<UtxoSpend>) returns (r: Option<Bytes>)
    ensures r == if Encodable(|spends|) && forall s :: s in spends ==> SpendOk(s) then Some(VecBytes(SpendBytes, spends)) else None
  {
    hide Encodable, SpendOk, SpendBytes, CompactBytes, Concat;
    var n := EncodeScaleInt(|spends|);
    if n.None? { return None; }
    var payload := n.value;
    ConcatEmpty(SpendBytes, spends, n.value);
    for i := 0 to |spends|
      invariant payload == n.value + Concat(SpendBytes, spends[..i])
      invariant forall k :: 0 <= k < i ==> SpendOk(spends[k])
    {
      var b := SerializeUtxoSpend(spends[i]);
      if b.None? { return None; }
      ConcatNext(SpendBytes, spends, i, n.value);
      payload := payload + b.value;
    }
    assert spends[..|spends|] == spends;
    r := Some(payload);
  }

  method SerializeOutputs(outputs: seq<UtxoOutput>) returns (r: Option<Bytes>)
    ensures r == if Encodable(|outputs|) && forall o :: o in outputs ==> OutputOk(o) then Some(VecBytes(OutputBytes, outputs)) else None
  {
    hide Encodable, OutputOk, OutputBytes, CompactBytes, Concat;
    var n := EncodeScaleInt(|outputs|);
    if n.None? { return None; }
    var payload := n.value;
    ConcatEmpty(OutputBytes, outputs, n.value);
    for i := 0 to |outputs|
      invariant payload == n.value + Concat(OutputBytes, outputs[..i])
      invariant forall k :: 0 <= k < i ==> OutputOk(outputs[k])
    {
      var b := SerializeUtxoOutput(outputs[i]);
      if b.None? { return None; }
      ConcatNext(OutputBytes, outputs, i, n.value);
      payload := payload + b.value;
    }
    assert outputs[..|outputs|] == outputs;
    r := Some(payload);
  }

  /** Signatures, proofs and memos are appended as they are. */
  method SerializeRaws(items: seq<Bytes>) returns (r: Option<Bytes>)
    ensures r == if Encodable(|items|) then Some(VecBytes(Raw, items)) else None
  {
    hide Encodable, CompactBytes, Concat;
    var n := EncodeScaleInt(|items|);
    if n.None? { return None; }
    var payload := n.value;
    ConcatEmpty(Raw, items, n.value);
    for i := 0 to |items|
      invariant payload == n.value + Concat(Raw, items[..i])
    {
      ConcatNext(Raw, items, i, n.value);
      payload := payload + items[i];
    }
    assert items[..|items|] == items;
    r := Some(payload);
  }

  method SerializeUnshieldedOffer(offer: UnshieldedOffer) returns (r: Option<Bytes>)
    ensures r == if OfferOk(offer) then Some(OfferBytes(offer)) else None
  {
    hide Encodable, SpendOk, OutputOk, VecBytes;
    var inputs := SerializeSpends(offer.inputs);
    if inputs.None? { return None; }
    var outputs := SerializeOutputs(offer.outputs);
    if outputs.None? { return None; }
    var signatures := SerializeRaws(offer.signatures);
    if signatures.None? { return None; }
    r := Some(inputs.value + outputs.value + signatures.value);
  }

  method SerializeContractAction(action: ContractAction) returns (r: Option<Bytes>)
    ensures r == if ActionOk(action) then Some(ActionBytes(action)) else None
  {
    hide Encodable, Prefixed;
    match action
    case Deploy(bytecode, state) =>
      var x := SerializeBytes(bytecode);
      if x.None? { return None; }
      var y := SerializeBytes(state);
      if y.None? { return None; }
      r := Some([0] + x.value + y.value);
    case Call(address, entryPoint, args) =>
      var x := SerializeBytes(entryPoint);
      if x.None? { return None; }
      var y := SerializeBytes(args);
      if y.None? { return None; }
      r := Some([1] + address + x.value + y.value);
  }

  method SerializeActions(actions: seq<ContractAction>) returns (r: Option<Bytes>)
    ensures r == if Encodable(|actions|) && forall a :: a in actions ==> ActionOk(a) then Some(VecBytes(ActionBytes, actions)) else None
  {
    hide Encodable, ActionOk, ActionBytes, CompactBytes, Concat;
    var n := EncodeScaleInt(|actions|);
    if n.None? { return None; }
    var payload := n.value;
    ConcatEmpty(ActionBytes, actions, n.value);
    for i := 0 to |actions|
      invariant payload == n.value + Concat(ActionBytes, actions[..i])
      invariant forall k :: 0 <= k < i ==> ActionOk(actions[k])
    {
      var b := SerializeContractAction(actions[i]);
      if b.None? { return None; }
      ConcatNext(ActionBytes, actions, i, n.value);
      payload := payload + b.value;
    }
    assert actions[..|actions|] == actions;
    r := Some(payload);
  }

  method SerializeOptionalOffer(offer: Option<UnshieldedOffer>) returns (r: Option<Bytes>)
    ensures r == if offer.Some? && !OfferOk(offer.value) then None else Some(OptionBytes(offer))
  {
    hide OfferOk, OfferBytes;
    if offer.None? { return Some([0]); }
    var b := SerializeUnshieldedOffer(offer.value);
    r := if b.Some? then Some([1] + b.value) else None;
  }

  method SerializeIntent(intent: Intent) returns (r: Option<Bytes>)
    ensures r == if IntentOk(intent) then Some(IntentBytes(intent)) else None
  {
    hide OfferOk, Encodable, ActionOk, IsU32, OptionBytes, U32Bytes, VecBytes;
    var guaranteed := SerializeOptionalOffer(intent.guaranteed);
    if guaranteed.None? { return None; }
    var fallible := SerializeOptionalOffer(intent.fallible);
    if fallible.None? { return None; }
    var ttl := SerializeU32(intent.ttl);
    if ttl.None? { return None; }
    var actions := SerializeActions(intent.actions);
    if actions.None? { return None; }
    r := Some(guaranteed.value + fallible.value + ttl.value + actions.value + intent.bindingCommitment);
  }

  method TaggedSerialize(tag: Bytes, payload: Bytes) returns (r: Option<Bytes>)
    ensures r == if Encodable(|tag|) then Some(Tagged(tag, payload)) else None
  {
    hide Encodable, CompactBytes;
    var n := EncodeScaleInt(|tag|);
    r := if n.Some? then Some(n.value + tag + payload) else None;
  }

  method SerializeZswapOffer(offer: ZswapOffer) returns (r: Option<Bytes>)
    ensures r == if ZswapOk(offer) then Some(ZswapBytes(offer)) else None
  {
    hide Encodable, VecBytes, Root32, Tagged;
    var spends := SerializeRaws(offer.spendProofs);
    if spends.None? { return None; }
    var outputs := SerializeRaws(offer.outputProofs);
    if outputs.None? { return None; }
    var memos := SerializeRaws(offer.memos);
    if memos.None? { return None; }
    SmallIsEncodable(|ZSWAP_TAG|);
    r := TaggedSerialize(ZSWAP_TAG, spends.value + outputs.value + memos.value + Root32(offer.merkleRoot));
  }

  method SerializeIntents(items: seq<(int, Intent)>) returns (r: Option<Bytes>)
    ensures r == if Encodable(|items|) && forall e :: e in items ==> IsU32(e.0) && IntentOk(e.1)
                 then Some(VecBytes(IntentEntryBytes, SortByKey(items))) else None
  {
    hide Encodable, IntentOk, IsU32, IntentBytes, U32Bytes, CompactBytes, Concat, SortByKey;
    var n := EncodeScaleInt(|items|);
    if n.None? { return None; }
    var sorted := SortByKey(items);
    Selection.SameItems(sorted, items);
    var payload := n.value;
    ConcatEmpty(IntentEntryBytes, sorted, n.value);
    for i := 0 to |sorted|
      invariant payload == n.value + Concat(IntentEntryBytes, sorted[..i])
      invariant forall k :: 0 <= k < i ==> IsU32(sorted[k].0) && IntentOk(sorted[k].1)
    {
      assert sorted[i] in sorted && sorted[i] in items;
      var k := SerializeU32(sorted[i].0);
      if k.None? { return None; }
      var b := SerializeIntent(sorted[i].1);
      if b.None? { return None; }
      ConcatNext(IntentEntryBytes, sorted, i, n.value);
      ConcatAssoc(payload, k.value, b.value);
      payload := payload + k.value;
      payload := payload + b.value;
    }
    assert sorted[..|sorted|] == sorted;
    r := Some(payload);
  }

  method SerializeFallibleCoins(items: seq<(int, ZswapOffer)>) returns (r: Option<Bytes>)
    ensures r == if Encodable(|items|) && forall e :: e in items ==> IsU32(e.0) && ZswapOk(e.1)
                 then Some(VecBytes(ZswapEntryBytes, SortByKey(items))) else None
  {
    hide Encodable, ZswapOk, IsU32, ZswapBytes, U32Bytes, CompactBytes, Concat, SortByKey;
    var n := EncodeScaleInt(|items|);
    if n.None? { return None; }
    var sorted := SortByKey(items);
    Selection.SameItems(sorted, items);
    var payload := n.value;
    ConcatEmpty(ZswapEntryBytes, sorted, n.value);
    for i := 0 to |sorted|
      invariant payload == n.value + Concat(ZswapEntryBytes, sorted[..i])
      invariant forall k :: 0 <= k < i ==> IsU32(sorted[k].0) && ZswapOk(sorted[k].1)
    {
      assert sorted[i] in sorted && sorted[i] in items;
      var k := SerializeU32(sorted[i].0);
      if k.None? { return None; }
      var b := SerializeZswapOffer(sorted[i].1);
      if b.None? { return None; }
      ConcatNext(ZswapEntryBytes, sorted, i, n.value);
      ConcatAssoc(payload, k.value, b.value);
      payload := payload + k.value;
      payload := payload + b.value;
    }
    assert sorted[..|sorted|] == sorted;
    r := Some(payload);
  }

  /** The serializer fails exactly on values that do not fit their fields. Sizes of keys, hashes and proofs
      are not among them: what it writes can be read back exactly for the well-formed transactions. */
  method SerializeStandardTransaction(tx: StandardTx) returns (r: Option<Bytes>)
    ensures r == if TxOk(tx) then Some(TxBytes(tx)) else None
  {
    hide Encodable, IntentOk, ZswapOk, IsU32, VecBytes, Prefixed, Tagged, SortByKey;
    var network := SerializeBytes(tx.networkId);
    if network.None? { return None; }
    var intents := SerializeIntents(tx.intents);
    if intents.None? { return None; }
    var coins := SerializeFallibleCoins(tx.fallibleCoins);
    if coins.None? { return None; }
    SmallIsEncodable(|TX_TAG|);
    r := TaggedSerialize(TX_TAG, network.value + intents.value + coins.value + tx.bindingRandomness);
  }

  method SerializeRawMidnightTx(midnight: Bytes) returns (r: Option<Bytes>)
    ensures r == if Encodable(|midnight|) then Some(ExtrinsicBytes(midnight)) else None
  {
    hide Encodable, CompactBytes;
    var n := EncodeScaleInt(|midnight|);
    if n.None? { return None; }
    var payload: Bytes := [5, 0];
    payload := payload + n.value;
    payload := payload + midnight;
    ConcatAssoc([5, 0], n.value, midnight);
    r := Some(payload);
  }

  method GetUnshieldedSigningPayload(segment: int, intent: Intent) returns (r: Option<Bytes>)
    ensures r == if IsU32(segment) && IntentOk(intent) then Some(SigningPayload(segment, intent)) else None
  {
    hide IsU32, IntentOk, U32Bytes, IntentBytes;
    var k := SerializeU32(segment);
    if k.None? { return None; }
    var b := SerializeIntent(intent);
    if b.None? { return None; }
    r := Some(SIGNING_DOMAIN + k.value + b.value);
  }
}

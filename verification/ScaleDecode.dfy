/** A decoder for serialized transactions: serialization is uniquely decodable. */
module ScaleDecode {
  import opened Basics
  import opened Compact
  import opened Scale
  import Selection

  /** The fixed sizes of proofs and memos, which the bytes do not carry. */
  datatype Sizes = Sizes(spend: nat, output: nat, memo: nat)

  // ---------------------------------------------------------------- well-formed structures

  predicate SpendWf(s: UtxoSpend) {
    SpendOk(s) && |s.owner| == 32 && |s.intentHash| == 32
  }

  predicate OutputWf(o: UtxoOutput) {
    OutputOk(o) && |o.owner| == 32
  }

  predicate AllSized(xs: seq<Bytes>, n: nat) {
    forall x :: x in xs ==> |x| == n
  }

  predicate OfferWf(o: UnshieldedOffer) {
    && OfferOk(o) && (forall s :: s in o.inputs ==> SpendWf(s)) && (forall x :: x in o.outputs ==> OutputWf(x))
    && AllSized(o.signatures, 64)
  }

  predicate ActionWf(a: ContractAction) {
    ActionOk(a) && (a.Call? ==> |a.address| == 32)
  }

  predicate IntentWf(i: Intent) {
    && IntentOk(i) && |i.bindingCommitment| == 32
    && (i.guaranteed.Some? ==> OfferWf(i.guaranteed.value))
    && (i.fallible.Some? ==> OfferWf(i.fallible.value))
    && (forall a :: a in i.actions ==> ActionWf(a))
  }

  predicate ZswapWf(z: ZswapOffer, n: Sizes) {
    && ZswapOk(z) && AllSized(z.spendProofs, n.spend) && AllSized(z.outputProofs, n.output) && AllSized(z.memos, n.memo)
    && |z.merkleRoot| == 32
  }

  predicate TxWf(tx: StandardTx, n: Sizes) {
    && TxOk(tx) && |tx.bindingRandomness| == 32
    && (forall e :: e in tx.intents ==> IntentWf(e.1))
    && (forall e :: e in tx.fallibleCoins ==> ZswapWf(e.1, n))
  }

  // ---------------------------------------------------------------- the decoder

  function DecodeSpend(b: Bytes): Option<(UtxoSpend, Bytes)> {
    var (value, b1) :- TakeLe(b, 16);
    var (owner, b2) :- Take(b1, 32);
    var (tag, b3) :- TakeLe(b2, 1);
    var (hash, b4) :- Take(b3, 32);
    var (no, b5) :- TakeLe(b4, 4);
    Some((UtxoSpend(value, owner, tag, hash, no), b5))
  }

  function DecodeOutput(b: Bytes): Option<(UtxoOutput, Bytes)> {
    var (value, b1) :- TakeLe(b, 16);
    var (owner, b2) :- Take(b1, 32);
    var (tag, b3) :- TakeLe(b2, 1);
    Some((UtxoOutput(value, owner, tag), b3))
  }

  function TakeSized(n: nat): Bytes -> Option<(Bytes, Bytes)> {
    (b: Bytes) => Take(b, n)
  }

  function DecodeOffer(b: Bytes): Option<(UnshieldedOffer, Bytes)> {
    var (inputs, b1) :- DecodeVec(DecodeSpend, b);
    var (outputs, b2) :- DecodeVec(DecodeOutput, b1);
    var (signatures, b3) :- DecodeVec(TakeSized(64), b2);
    Some((UnshieldedOffer(inputs, outputs, signatures), b3))
  }

  function DecodeAction(b: Bytes): Option<(ContractAction, Bytes)> {
    var (kind, b1) :- TakeLe(b, 1);
    if kind == 0 then
      var (bytecode, b2) :- DecodePrefixed(b1);
      var (state, b3) :- DecodePrefixed(b2);
      Some((Deploy(bytecode, state), b3))
    else if kind == 1 then
      var (address, b2) :- Take(b1, 32);
      var (entryPoint, b3) :- DecodePrefixed(b2);
      var (args, b4) :- DecodePrefixed(b3);
      Some((Call(address, entryPoint, args), b4))
    else None
  }

  function DecodeOption(b: Bytes): Option<(Option<UnshieldedOffer>, Bytes)> {
    var (some, b1) :- TakeLe(b, 1);
    if some == 0 then Some((None, b1))
    else if some == 1 then var (o, b2) :- DecodeOffer(b1); Some((Some(o), b2))
    else None
  }

  function DecodeIntent(b: Bytes): Option<(Intent, Bytes)> {
    var (guaranteed, b1) :- DecodeOption(b);
    var (fallible, b2) :- DecodeOption(b1);
    var (ttl, b3) :- TakeLe(b2, 4);
    var (actions, b4) :- DecodeVec(DecodeAction, b3);
    var (commitment, b5) :- Take(b4, 32);
    Some((Intent(guaranteed, fallible, ttl, actions, commitment), b5))
  }

  /** Checks a tag and returns what follows it. */
  function Untag(tag: Bytes, b: Bytes): Option<Bytes> {
    var (t, b1) :- DecodePrefixed(b);
    if t == tag then Some(b1) else None
  }

  function DecodeZswap(n: Sizes, b: Bytes): Option<(ZswapOffer, Bytes)> {
    var b0 :- Untag(ZSWAP_TAG, b);
    var (spends, b1) :- DecodeVec(TakeSized(n.spend), b0);
    var (outputs, b2) :- DecodeVec(TakeSized(n.output), b1);
    var (memos, b3) :- DecodeVec(TakeSized(n.memo), b2);
    var (root, b4) :- Take(b3, 32);
    Some((ZswapOffer(spends, outputs, memos, root), b4))
  }

  function DecodeIntentEntry(b: Bytes): Option<((int, Intent), Bytes)> {
    var (k, b1) :- TakeLe(b, 4);
    var (i, b2) :- DecodeIntent(b1);
    Some(((k, i), b2))
  }

  function DecodeZswapEntryAt(n: Sizes, b: Bytes): Option<((int, ZswapOffer), Bytes)> {
    var (k, b1) :- TakeLe(b, 4);
    var (z, b2) :- DecodeZswap(n, b1);
    Some(((k, z), b2))
  }

  function DecodeZswapEntry(n: Sizes): Bytes -> Option<((int, ZswapOffer), Bytes)> {
    (b: Bytes) => DecodeZswapEntryAt(n, b)
  }

  function DecodeTx(n: Sizes, b: Bytes): Option<(StandardTx, Bytes)> {
    var b0 :- Untag(TX_TAG, b);
    var (network, b1) :- DecodePrefixed(b0);
    var (intents, b2) :- DecodeVec(DecodeIntentEntry, b1);
    var (coins, b3) :- DecodeVec(DecodeZswapEntry(n), b2);
    var (randomness, b4) :- Take(b3, 32);
    Some((StandardTx(network, intents, coins, randomness), b4))
  }

  function DecodeExtrinsic(b: Bytes): Option<(Bytes, Bytes)> {
    if |b| >= 2 && b[0] == 5 && b[1] == 0 then DecodePrefixed(b[2..]) else None
  }

  // ---------------------------------------------------------------- round trips

  lemma Assoc4(a: Bytes, b: Bytes, c: Bytes, r: Bytes)
    ensures a + b + c + r == a + (b + (c + r))
  {
  }

  lemma Assoc5(a: Bytes, b: Bytes, c: Bytes, d: Bytes, r: Bytes)
    ensures a + b + c + d + r == a + (b + (c + (d + r)))
  {
  }

  lemma Assoc6(a: Bytes, b: Bytes, c: Bytes, d: Bytes, e: Bytes, r: Bytes)
    ensures a + b + c + d + e + r == a + (b + (c + (d + (e + r))))
  {
  }

  lemma ByteRoundTrip(v: int, rest: Bytes)
    requires IsByte(v)
    ensures TakeLe(ByteOf(v) + rest, 1) == Some((v, rest))
  {
    assert LeValue(ByteOf(v)) == v by {
      assert ByteOf(v)[1..] == [];
    }
    TakeFront(ByteOf(v), rest);
    hide LeValue;
  }

  lemma SpendRoundTrip(s: UtxoSpend)
    requires SpendWf(s)
    ensures Recovers(SpendBytes, DecodeSpend, s)
  {
    forall r: Bytes ensures DecodeSpend(SpendBytes(s) + r) == Some((s, r)) {
      hide TakeLe, Take, U128Bytes, U32Bytes, ByteOf;
      var a, c, e := U128Bytes(s.value), ByteOf(s.typeTag), U32Bytes(s.outputNo);
      Assoc6(a, s.owner, c, s.intentHash, e, r);
      U128RoundTrip(s.value, s.owner + (c + (s.intentHash + (e + r))));
      TakeFront(s.owner, c + (s.intentHash + (e + r)));
      ByteRoundTrip(s.typeTag, s.intentHash + (e + r));
      TakeFront(s.intentHash, e + r);
      U32RoundTrip(s.outputNo, r);
    }
  }

  lemma OutputRoundTrip(o: UtxoOutput)
    requires OutputWf(o)
    ensures Recovers(OutputBytes, DecodeOutput, o)
  {
    forall r: Bytes ensures DecodeOutput(OutputBytes(o) + r) == Some((o, r)) {
      hide TakeLe, Take, U128Bytes, ByteOf;
      var a, c := U128Bytes(o.value), ByteOf(o.typeTag);
      Assoc4(a, o.owner, c, r);
      U128RoundTrip(o.value, o.owner + (c + r));
      TakeFront(o.owner, c + r);
      ByteRoundTrip(o.typeTag, r);
    }
  }

  lemma RawRoundTrip(x: Bytes, n: nat)
    requires |x| == n
    ensures Recovers(Raw, TakeSized(n), x)
  {
    forall r: Bytes ensures TakeSized(n)(Raw(x) + r) == Some((x, r)) {
      TakeFront(x, r);
    }
  }

  lemma RawVec(xs: seq<Bytes>, n: nat, rest: Bytes)
    requires AllSized(xs, n) && Encodable(|xs|)
    ensures DecodeVec(TakeSized(n), VecBytes(Raw, xs) + rest) == Some((xs, rest))
  {
    forall x | x in xs ensures Recovers(Raw, TakeSized(n), x) { RawRoundTrip(x, n); }
    hide Recovers, DecodeVec, VecBytes;
    VecRoundTrip(Raw, TakeSized(n), xs, rest);
  }

  lemma OfferRoundTrip(o: UnshieldedOffer, rest: Bytes)
    requires OfferWf(o)
    ensures DecodeOffer(OfferBytes(o) + rest) == Some((o, rest))
  {
    forall s | s in o.inputs ensures Recovers(SpendBytes, DecodeSpend, s) { SpendRoundTrip(s); }
    forall x | x in o.outputs ensures Recovers(OutputBytes, DecodeOutput, x) { OutputRoundTrip(x); }
    hide DecodeVec, VecBytes, Recovers, Encodable;
    var a, b, c := VecBytes(SpendBytes, o.inputs), VecBytes(OutputBytes, o.outputs), VecBytes(Raw, o.signatures);
    Assoc4(a, b, c, rest);
    VecRoundTrip(SpendBytes, DecodeSpend, o.inputs, b + (c + rest));
    VecRoundTrip(OutputBytes, DecodeOutput, o.outputs, c + rest);
    RawVec(o.signatures, 64, rest);
  }

  lemma ActionRoundTrip(a: ContractAction)
    requires ActionWf(a)
    ensures Recovers(ActionBytes, DecodeAction, a)
  {
    forall r: Bytes ensures DecodeAction(ActionBytes(a) + r) == Some((a, r)) {
      hide TakeLe, Take, Prefixed, DecodePrefixed, Encodable;
      match a
      case Deploy(bytecode, state) =>
        var x, y := Prefixed(bytecode), Prefixed(state);
        Assoc4([0], x, y, r);
        ByteRoundTrip(0, x + (y + r));
        PrefixedRoundTrip(bytecode, y + r);
        PrefixedRoundTrip(state, r);
      case Call(address, entryPoint, args) =>
        var x, y := Prefixed(entryPoint), Prefixed(args);
        Assoc5([1], address, x, y, r);
        ByteRoundTrip(1, address + (x + (y + r)));
        TakeFront(address, x + (y + r));
        PrefixedRoundTrip(entryPoint, y + r);
        PrefixedRoundTrip(args, r);
    }
  }

  lemma OptionRoundTrip(o: Option<UnshieldedOffer>, rest: Bytes)
    requires o.Some? ==> OfferWf(o.value)
    ensures DecodeOption(OptionBytes(o) + rest) == Some((o, rest))
  {
    hide TakeLe, OfferBytes, DecodeOffer, OfferWf;
    if o.Some? {
      ConcatAssoc([1], OfferBytes(o.value), rest);
      ByteRoundTrip(1, OfferBytes(o.value) + rest);
      OfferRoundTrip(o.value, rest);
    } else {
      ByteRoundTrip(0, rest);
    }
  }

  lemma IntentRoundTrip(i: Intent, rest: Bytes)
    requires IntentWf(i)
    ensures DecodeIntent(IntentBytes(i) + rest) == Some((i, rest))
  {
    forall a | a in i.actions ensures Recovers(ActionBytes, DecodeAction, a) { ActionRoundTrip(a); }
    hide TakeLe, Take, DecodeVec, VecBytes, U32Bytes, OptionBytes, DecodeOption, OfferWf, OfferOk, Recovers, Encodable;
    var a, b, c, d := OptionBytes(i.guaranteed), OptionBytes(i.fallible), U32Bytes(i.ttl), VecBytes(ActionBytes, i.actions);
    Assoc6(a, b, c, d, i.bindingCommitment, rest);
    OptionRoundTrip(i.guaranteed, b + (c + (d + (i.bindingCommitment + rest))));
    OptionRoundTrip(i.fallible, c + (d + (i.bindingCommitment + rest)));
    U32RoundTrip(i.ttl, d + (i.bindingCommitment + rest));
    VecRoundTrip(ActionBytes, DecodeAction, i.actions, i.bindingCommitment + rest);
    TakeFront(i.bindingCommitment, rest);
  }

  lemma UntagTagged(tag: Bytes, payload: Bytes, rest: Bytes)
    requires Encodable(|tag|)
    ensures Untag(tag, Tagged(tag, payload) + rest) == Some(payload + rest)
  {
    hide Prefixed, DecodePrefixed, Encodable;
    ConcatAssoc(Prefixed(tag), payload, rest);
    PrefixedRoundTrip(tag, payload + rest);
  }

  lemma TagsEncodable()
    ensures Encodable(|ZSWAP_TAG|) && Encodable(|TX_TAG|)
  {
    SmallIsEncodable(15);
    hide Encodable;
  }

  lemma ZswapRoundTrip(z: ZswapOffer, n: Sizes, rest: Bytes)
    requires ZswapWf(z, n)
    ensures DecodeZswap(n, ZswapBytes(z) + rest) == Some((z, rest))
  {
    hide Take, DecodeVec, VecBytes, Encodable, Root32, Tagged, Untag, AllSized;
    var a, b, c := VecBytes(Raw, z.spendProofs), VecBytes(Raw, z.outputProofs), VecBytes(Raw, z.memos);
    TagsEncodable();
    UntagTagged(ZSWAP_TAG, ZswapPayload(z), rest);
    Assoc5(a, b, c, z.merkleRoot, rest);
    RawVec(z.spendProofs, n.spend, b + (c + (z.merkleRoot + rest)));
    RawVec(z.outputProofs, n.output, c + (z.merkleRoot + rest));
    RawVec(z.memos, n.memo, z.merkleRoot + rest);
    TakeFront(z.merkleRoot, rest);
  }

  lemma IntentEntryRoundTrip(e: (int, Intent))
    requires IsU32(e.0) && IntentWf(e.1)
    ensures Recovers(IntentEntryBytes, DecodeIntentEntry, e)
  {
    forall r: Bytes ensures DecodeIntentEntry(IntentEntryBytes(e) + r) == Some((e, r)) {
      hide TakeLe, U32Bytes, IntentBytes, DecodeIntent, IntentWf;
      ConcatAssoc(U32Bytes(e.0), IntentBytes(e.1), r);
      U32RoundTrip(e.0, IntentBytes(e.1) + r);
      IntentRoundTrip(e.1, r);
    }
  }

  lemma ZswapEntryAtRoundTrip(e: (int, ZswapOffer), n: Sizes, r: Bytes)
    requires IsU32(e.0) && ZswapWf(e.1, n)
    ensures DecodeZswapEntryAt(n, ZswapEntryBytes(e) + r) == Some((e, r))
  {
    hide TakeLe, U32Bytes, ZswapBytes, DecodeZswap, ZswapWf;
    ConcatAssoc(U32Bytes(e.0), ZswapBytes(e.1), r);
    U32RoundTrip(e.0, ZswapBytes(e.1) + r);
    ZswapRoundTrip(e.1, n, r);
  }

  lemma ZswapEntryRoundTrip(e: (int, ZswapOffer), n: Sizes)
    requires IsU32(e.0) && ZswapWf(e.1, n)
    ensures Recovers(ZswapEntryBytes, DecodeZswapEntry(n), e)
  {
    forall r: Bytes ensures DecodeZswapEntry(n)(ZswapEntryBytes(e) + r) == Some((e, r)) {
      ZswapEntryAtRoundTrip(e, n, r);
      hide DecodeZswapEntryAt, ZswapEntryBytes;
    }
  }

  /** The transaction with its dictionaries in key order, which is what the bytes hold. */
  function Canonical(tx: StandardTx): StandardTx {
    tx.(intents := SortByKey(tx.intents), fallibleCoins := SortByKey(tx.fallibleCoins))
  }

  lemma IntentVec(items: seq<(int, Intent)>, rest: Bytes)
    requires Encodable(|items|) && forall e :: e in items ==> IsU32(e.0) && IntentWf(e.1)
    ensures DecodeVec(DecodeIntentEntry, VecBytes(IntentEntryBytes, SortByKey(items)) + rest) == Some((SortByKey(items), rest))
  {
    hide SortByKey, Encodable, DecodeVec, VecBytes;
    var s := SortByKey(items);
    Selection.SameItems(s, items);
    forall e | e in s ensures Recovers(IntentEntryBytes, DecodeIntentEntry, e) { IntentEntryRoundTrip(e); }
    VecRoundTrip(IntentEntryBytes, DecodeIntentEntry, s, rest);
  }

  lemma ZswapVec(items: seq<(int, ZswapOffer)>, n: Sizes, rest: Bytes)
    requires Encodable(|items|) && forall e :: e in items ==> IsU32(e.0) && ZswapWf(e.1, n)
    ensures DecodeVec(DecodeZswapEntry(n), VecBytes(ZswapEntryBytes, SortByKey(items)) + rest) == Some((SortByKey(items), rest))
  {
    hide SortByKey, Encodable, DecodeVec, VecBytes, DecodeZswapEntry, ZswapWf;
    var s := SortByKey(items);
    Selection.SameItems(s, items);
    forall e | e in s ensures Recovers(ZswapEntryBytes, DecodeZswapEntry(n), e) { ZswapEntryRoundTrip(e, n); }
    VecRoundTrip(ZswapEntryBytes, DecodeZswapEntry(n), s, rest);
  }

  /** Every well-formed transaction is recovered, in key order, with the untouched remainder. */
  lemma TxRoundTrip(tx: StandardTx, n: Sizes, rest: Bytes)
    requires TxWf(tx, n)
    ensures DecodeTx(n, TxBytes(tx) + rest) == Some((Canonical(tx), rest))
  {
    hide Take, DecodeVec, VecBytes, Encodable, Tagged, Untag, Prefixed, DecodePrefixed, SortByKey, IntentWf, ZswapWf, IntentOk, ZswapOk;
    var a := Prefixed(tx.networkId);
    var b := VecBytes(IntentEntryBytes, SortByKey(tx.intents));
    var c := VecBytes(ZswapEntryBytes, SortByKey(tx.fallibleCoins));
    TagsEncodable();
    UntagTagged(TX_TAG, TxPayload(tx), rest);
    Assoc5(a, b, c, tx.bindingRandomness, rest);
    PrefixedRoundTrip(tx.networkId, b + (c + (tx.bindingRandomness + rest)));
    IntentVec(tx.intents, c + (tx.bindingRandomness + rest));
    ZswapVec(tx.fallibleCoins, n, tx.bindingRandomness + rest);
    TakeFront(tx.bindingRandomness, rest);
  }

  /** Two well-formed transactions with the same bytes differ in dictionary order at most, and with
      distinct segment ids the bytes agree exactly when the contents do. */
  lemma TxInjective(x: StandardTx, y: StandardTx, n: Sizes)
    requires TxWf(x, n) && TxWf(y, n) && DistinctKeys(x.intents) && DistinctKeys(x.fallibleCoins)
    ensures TxBytes(x) == TxBytes(y) <==>
      && x.networkId == y.networkId && x.bindingRandomness == y.bindingRandomness
      && multiset(x.intents) == multiset(y.intents) && multiset(x.fallibleCoins) == multiset(y.fallibleCoins)
  {
    hide TxBytes, DecodeTx, TxWf;
    if TxBytes(x) == TxBytes(y) {
      TxRoundTrip(x, n, []);
      TxRoundTrip(y, n, []);
      assert Canonical(x) == Canonical(y);
      assert multiset(SortByKey(x.intents)) == multiset(SortByKey(y.intents));
      assert multiset(SortByKey(x.fallibleCoins)) == multiset(SortByKey(y.fallibleCoins));
    }
    if x.networkId == y.networkId && x.bindingRandomness == y.bindingRandomness
       && multiset(x.intents) == multiset(y.intents) && multiset(x.fallibleCoins) == multiset(y.fallibleCoins) {
      TxOrderFree(x, y);
    }
  }

  /** The extrinsic wrapper gives the transaction bytes back. */
  lemma ExtrinsicRoundTrip(midnight: Bytes, rest: Bytes)
    requires Encodable(|midnight|)
    ensures DecodeExtrinsic(ExtrinsicBytes(midnight) + rest) == Some((midnight, rest))
  {
    hide Prefixed, DecodePrefixed, Encodable;
    assert (ExtrinsicBytes(midnight) + rest)[2..] == Prefixed(midnight) + rest;
    PrefixedRoundTrip(midnight, rest);
  }

  /** A signature over well-formed intents covers one segment and one intent: payloads are equal exactly when
      their parts are. */
  lemma SigningPayloadInjective(s: int, i: Intent, t: int, j: Intent)
    requires IsU32(s) && IsU32(t) && IntentWf(i) && IntentWf(j)
    ensures SigningPayload(s, i) == SigningPayload(t, j) <==> s == t && i == j
  {
    if SigningPayload(s, i) == SigningPayload(t, j) {
      hide U32Bytes, IntentBytes, DecodeIntent, IntentWf, TakeLe;
      var a, b := U32Bytes(s) + IntentBytes(i), U32Bytes(t) + IntentBytes(j);
      ConcatAssoc(SIGNING_DOMAIN, U32Bytes(s), IntentBytes(i));
      ConcatAssoc(SIGNING_DOMAIN, U32Bytes(t), IntentBytes(j));
      assert (SIGNING_DOMAIN + a)[|SIGNING_DOMAIN|..] == a;
      assert (SIGNING_DOMAIN + b)[|SIGNING_DOMAIN|..] == b;
      U32RoundTrip(s, IntentBytes(i));
      U32RoundTrip(t, IntentBytes(j));
      IntentRoundTrip(i, []);
      IntentRoundTrip(j, []);
      assert IntentBytes(i) + [] == IntentBytes(i) && IntentBytes(j) + [] == IntentBytes(j);
    }
  }

  // ---------------------------------------------------------------- exactly the well-formed values are recovered

  lemma DecodedByte(b: Bytes)
    ensures var t := TakeLe(b, 1); t.Some? ==> IsByte(t.value.0)
  {
    assert Pow2(8 * 1) == 256;
    TakeLeFits(b, 1);
  }

  /** Decoding returns well-formed spends only. */
  lemma DecodedSpend(b: Bytes)
    ensures var t := DecodeSpend(b); t.Some? ==> SpendWf(t.value.0)
  {
    hide TakeLe, IsU128, IsU32, IsByte;
    forall x ensures TakeLe(x, 16).Some? ==> IsU128(TakeLe(x, 16).value.0) { DecodedU128(x); }
    forall x ensures TakeLe(x, 4).Some? ==> IsU32(TakeLe(x, 4).value.0) { DecodedU32(x); }
    forall x ensures TakeLe(x, 1).Some? ==> IsByte(TakeLe(x, 1).value.0) { DecodedByte(x); }
  }

  lemma DecodedOutput(b: Bytes)
    ensures var t := DecodeOutput(b); t.Some? ==> OutputWf(t.value.0)
  {
    hide TakeLe, IsU128, IsByte;
    forall x ensures TakeLe(x, 16).Some? ==> IsU128(TakeLe(x, 16).value.0) { DecodedU128(x); }
    forall x ensures TakeLe(x, 1).Some? ==> IsByte(TakeLe(x, 1).value.0) { DecodedByte(x); }
  }

  function IsSized(n: nat): Bytes -> bool {
    (x: Bytes) => |x| == n
  }

  lemma SizedVec(n: nat, b: Bytes)
    ensures var t := DecodeVec(TakeSized(n), b); t.Some? ==> Encodable(|t.value.0|) && AllSized(t.value.0, n)
  {
    hide Encodable, DecodeVec;
    assert Sound(TakeSized(n), IsSized(n));
    DecodedVec(TakeSized(n), IsSized(n), b);
  }

  lemma SpendVec(b: Bytes)
    ensures var t := DecodeVec(DecodeSpend, b);
            t.Some? ==> Encodable(|t.value.0|) && forall s :: s in t.value.0 ==> SpendOk(s) && SpendWf(s)
  {
    hide Encodable, DecodeVec, SpendOk;
    forall x ensures DecodeSpend(x).Some? ==> SpendWf(DecodeSpend(x).value.0) { DecodedSpend(x); }
    DecodedVec(DecodeSpend, SpendWf, b);
  }

  lemma OutputVec(b: Bytes)
    ensures var t := DecodeVec(DecodeOutput, b);
            t.Some? ==> Encodable(|t.value.0|) && forall x :: x in t.value.0 ==> OutputOk(x) && OutputWf(x)
  {
    hide Encodable, DecodeVec, OutputOk;
    forall x ensures DecodeOutput(x).Some? ==> OutputWf(DecodeOutput(x).value.0) { DecodedOutput(x); }
    DecodedVec(DecodeOutput, OutputWf, b);
  }

  lemma DecodedOffer(b: Bytes)
    ensures var t := DecodeOffer(b); t.Some? ==> OfferWf(t.value.0)
  {
    hide DecodeVec, SpendWf, SpendOk, OutputWf, OutputOk, Encodable, AllSized;
    SpendVec(b);
    var inputs := DecodeVec(DecodeSpend, b);
    if inputs.Some? {
      OutputVec(inputs.value.1);
      var outputs := DecodeVec(DecodeOutput, inputs.value.1);
      if outputs.Some? {
        SizedVec(64, outputs.value.1);
      }
    }
  }

  lemma DecodedAction(b: Bytes)
    ensures var t := DecodeAction(b); t.Some? ==> ActionOk(t.value.0) && ActionWf(t.value.0)
  {
    hide TakeLe, DecodePrefixed, Encodable;
    var kind := TakeLe(b, 1);
    if kind.Some? {
      var start := if kind.value.0 == 0 || |kind.value.1| < 32 then kind.value.1 else kind.value.1[32..];
      DecodedPrefixed(start);
      var first := DecodePrefixed(start);
      if first.Some? {
        DecodedPrefixed(first.value.1);
      }
    }
  }

  lemma DecodedOption(b: Bytes)
    ensures var t := DecodeOption(b); t.Some? && t.value.0.Some? ==> OfferOk(t.value.0.value) && OfferWf(t.value.0.value)
  {
    hide TakeLe, DecodeOffer, OfferOk;
    var flag := TakeLe(b, 1);
    if flag.Some? {
      DecodedOffer(flag.value.1);
    }
  }

  lemma ActionVec(b: Bytes)
    ensures var t := DecodeVec(DecodeAction, b);
            t.Some? ==> Encodable(|t.value.0|) && forall a :: a in t.value.0 ==> ActionOk(a) && ActionWf(a)
  {
    hide Encodable, DecodeVec, ActionOk;
    forall x ensures DecodeAction(x).Some? ==> ActionWf(DecodeAction(x).value.0) { DecodedAction(x); }
    DecodedVec(DecodeAction, ActionWf, b);
  }

  lemma DecodedIntent(b: Bytes)
    ensures var t := DecodeIntent(b); t.Some? ==> IntentWf(t.value.0)
  {
    hide DecodeVec, DecodeOption, TakeLe, OfferOk, OfferWf, ActionOk, ActionWf, Encodable, IsU32;
    DecodedOption(b);
    var guaranteed := DecodeOption(b);
    if guaranteed.Some? {
      DecodedOption(guaranteed.value.1);
      var fallible := DecodeOption(guaranteed.value.1);
      if fallible.Some? {
        DecodedU32(fallible.value.1);
        var ttl := TakeLe(fallible.value.1, 4);
        if ttl.Some? {
          ActionVec(ttl.value.1);
        }
      }
    }
  }

  lemma DecodedZswap(n: Sizes, b: Bytes)
    ensures var t := DecodeZswap(n, b); t.Some? ==> ZswapWf(t.value.0, n)
  {
    hide DecodeVec, AllSized, Encodable, Untag;
    var b0 := Untag(ZSWAP_TAG, b);
    if b0.Some? {
      SizedVec(n.spend, b0.value);
      var spends := DecodeVec(TakeSized(n.spend), b0.value);
      if spends.Some? {
        SizedVec(n.output, spends.value.1);
        var outputs := DecodeVec(TakeSized(n.output), spends.value.1);
        if outputs.Some? {
          SizedVec(n.memo, outputs.value.1);
        }
      }
    }
  }

  predicate IntentEntryWf(e: (int, Intent)) {
    IsU32(e.0) && IntentOk(e.1) && IntentWf(e.1)
  }

  function ZswapEntryWf(n: Sizes): ((int, ZswapOffer)) -> bool {
    (e: (int, ZswapOffer)) => IsU32(e.0) && ZswapOk(e.1) && ZswapWf(e.1, n)
  }

  lemma DecodedIntentEntry(b: Bytes)
    ensures var t := DecodeIntentEntry(b); t.Some? ==> IntentEntryWf(t.value.0)
  {
    hide TakeLe, DecodeIntent, IntentOk, IsU32;
    DecodedU32(b);
    var k := TakeLe(b, 4);
    if k.Some? {
      DecodedIntent(k.value.1);
    }
  }

  lemma DecodedZswapEntry(n: Sizes, b: Bytes)
    ensures var t := DecodeZswapEntry(n)(b); t.Some? ==> ZswapEntryWf(n)(t.value.0)
  {
    hide TakeLe, DecodeZswap, ZswapOk, IsU32;
    DecodedU32(b);
    var k := TakeLe(b, 4);
    if k.Some? {
      DecodedZswap(n, k.value.1);
    }
  }

  lemma IntentEntryVec(b: Bytes)
    ensures var t := DecodeVec(DecodeIntentEntry, b);
            t.Some? ==> Encodable(|t.value.0|) && forall e :: e in t.value.0 ==> IsU32(e.0) && IntentOk(e.1) && IntentWf(e.1)
  {
    hide Encodable, DecodeVec, IntentOk, IntentWf, IsU32, DecodeIntentEntry;
    forall x ensures DecodeIntentEntry(x).Some? ==> IntentEntryWf(DecodeIntentEntry(x).value.0) { DecodedIntentEntry(x); }
    DecodedVec(DecodeIntentEntry, IntentEntryWf, b);
  }

  lemma ZswapEntryVec(n: Sizes, b: Bytes)
    ensures var t := DecodeVec(DecodeZswapEntry(n), b);
            t.Some? ==> Encodable(|t.value.0|) && forall e :: e in t.value.0 ==> IsU32(e.0) && ZswapOk(e.1) && ZswapWf(e.1, n)
  {
    hide Encodable, DecodeVec, ZswapOk, ZswapWf, IsU32, DecodeZswapEntry;
    forall x ensures DecodeZswapEntry(n)(x).Some? ==> ZswapEntryWf(n)(DecodeZswapEntry(n)(x).value.0) { DecodedZswapEntry(n, x); }
    DecodedVec(DecodeZswapEntry(n), ZswapEntryWf(n), b);
  }

  lemma DecodedTx(n: Sizes, b: Bytes)
    ensures var t := DecodeTx(n, b); t.Some? ==> TxWf(t.value.0, n)
  {
    hide DecodeVec, DecodePrefixed, Untag, Encodable, IsU32, IntentOk, IntentWf, ZswapOk, ZswapWf, DecodeZswapEntry;
    var b0 := Untag(TX_TAG, b);
    if b0.Some? {
      DecodedPrefixed(b0.value);
      var network := DecodePrefixed(b0.value);
      if network.Some? {
        IntentEntryVec(network.value.1);
        var intents := DecodeVec(DecodeIntentEntry, network.value.1);
        if intents.Some? {
          ZswapEntryVec(n, intents.value.1);
        }
      }
    }
  }

  /** A spend is recovered, whatever follows it, exactly when it is well formed: its numbers fit, and its
      owner and its hash have the 32 bytes that the code presumes and never checks. */
  lemma SpendRecovered(s: UtxoSpend, rest: Bytes)
    ensures DecodeSpend(SpendBytes(s) + rest) == Some((s, rest)) <==> SpendWf(s)
  {
    DecodedSpend(SpendBytes(s) + rest);
    hide SpendBytes, DecodeSpend;
    if SpendWf(s) {
      SpendRoundTrip(s);
      assert Recovers(SpendBytes, DecodeSpend, s);
    }
  }

  lemma OutputRecovered(o: UtxoOutput, rest: Bytes)
    ensures DecodeOutput(OutputBytes(o) + rest) == Some((o, rest)) <==> OutputWf(o)
  {
    DecodedOutput(OutputBytes(o) + rest);
    hide OutputBytes, DecodeOutput;
    if OutputWf(o) {
      OutputRoundTrip(o);
      assert Recovers(OutputBytes, DecodeOutput, o);
    }
  }

  lemma OfferRecovered(o: UnshieldedOffer, rest: Bytes)
    ensures DecodeOffer(OfferBytes(o) + rest) == Some((o, rest)) <==> OfferWf(o)
  {
    hide OfferBytes, DecodeOffer, OfferWf;
    DecodedOffer(OfferBytes(o) + rest);
    if OfferWf(o) {
      OfferRoundTrip(o, rest);
    }
  }

  lemma ActionRecovered(a: ContractAction, rest: Bytes)
    ensures DecodeAction(ActionBytes(a) + rest) == Some((a, rest)) <==> ActionWf(a)
  {
    hide ActionBytes, DecodeAction, ActionWf;
    DecodedAction(ActionBytes(a) + rest);
    if ActionWf(a) {
      ActionRoundTrip(a);
      assert Recovers(ActionBytes, DecodeAction, a);
    }
  }

  lemma IntentRecovered(i: Intent, rest: Bytes)
    ensures DecodeIntent(IntentBytes(i) + rest) == Some((i, rest)) <==> IntentWf(i)
  {
    hide IntentBytes, DecodeIntent, IntentWf;
    DecodedIntent(IntentBytes(i) + rest);
    if IntentWf(i) {
      IntentRoundTrip(i, rest);
    }
  }

  lemma ZswapRecovered(z: ZswapOffer, n: Sizes, rest: Bytes)
    ensures DecodeZswap(n, ZswapBytes(z) + rest) == Some((z, rest)) <==> ZswapWf(z, n)
  {
    hide ZswapBytes, DecodeZswap, ZswapWf;
    DecodedZswap(n, ZswapBytes(z) + rest);
    if ZswapWf(z, n) {
      ZswapRoundTrip(z, n, rest);
    }
  }

  lemma CanonicalWf(tx: StandardTx, n: Sizes)
    ensures TxWf(Canonical(tx), n) <==> TxWf(tx, n)
  {
    hide SortByKey, Encodable, IntentWf, IntentOk, ZswapWf, ZswapOk, IsU32;
    Selection.SameItems(SortByKey(tx.intents), tx.intents);
    Selection.SameItems(SortByKey(tx.fallibleCoins), tx.fallibleCoins);
  }

  /** A transaction is recovered, in key order and whatever follows it, exactly when it is well formed. */
  lemma TxRecovered(tx: StandardTx, n: Sizes, rest: Bytes)
    ensures DecodeTx(n, TxBytes(tx) + rest) == Some((Canonical(tx), rest)) <==> TxWf(tx, n)
  {
    hide TxBytes, DecodeTx, TxWf, Canonical;
    DecodedTx(n, TxBytes(tx) + rest);
    CanonicalWf(tx, n);
    if TxWf(tx, n) {
      TxRoundTrip(tx, n, rest);
    }
  }

  /** Unchecked sizes lose the boundary: 65 bytes with zeros around the middle are 32 + 32 or 31 + 33 bytes
      around the type tag, and both spends serialize to the same bytes. */
  lemma SpendSizesAreNeeded(value: int, x: Bytes, no: int)
    requires IsU128(value) && IsU32(no) && |x| == 65 && x[31] == 0 && x[32] == 0
    ensures var s := UtxoSpend(value, x[..32], 0, x[33..], no);
            var t := UtxoSpend(value, x[..31], 0, x[32..], no);
            s != t && SpendOk(s) && SpendOk(t) && SpendBytes(s) == SpendBytes(t)
  {
    hide U128Bytes, U32Bytes;
    var a, e := U128Bytes(value), U32Bytes(no);
    assert x[..32] + [0] + x[33..] == x && x[..31] + [0] + x[32..] == x;
    Assoc6(a, x[..32], [0], x[33..], e, []);
    Assoc6(a, x[..31], [0], x[32..], e, []);
  }

  function IntentOf(s: UtxoSpend, ttl: int, commitment: Bytes): Intent {
    Intent(Some(UnshieldedOffer([s], [], [])), None, ttl, [], commitment)
  }

  lemma IntentOfBytes(s: UtxoSpend, t: UtxoSpend, ttl: int, commitment: Bytes)
    requires SpendOk(s) && SpendOk(t) && SpendBytes(s) == SpendBytes(t) && IsU32(ttl)
    ensures IntentOk(IntentOf(s, ttl, commitment)) && IntentBytes(IntentOf(s, ttl, commitment)) == IntentBytes(IntentOf(t, ttl, commitment))
  {
    hide SpendOk, SpendBytes, CompactBytes, U32Bytes, Encodable, IsU32;
    SmallIsEncodable(0);
    SmallIsEncodable(1);
    assert Concat(SpendBytes, [s]) == Concat(SpendBytes, [t]) by {
      assert [s][1..] == [] && [t][1..] == [];
    }
  }

  /** Nor does a signature then cover one intent: two different intents that the code serializes have one
      payload to sign, under every segment. */
  lemma SigningSizesAreNeeded(segment: int, value: int, x: Bytes, no: int, ttl: int, commitment: Bytes)
    requires IsU128(value) && IsU32(no) && IsU32(ttl) && |x| == 65 && x[31] == 0 && x[32] == 0
    ensures var i := IntentOf(UtxoSpend(value, x[..32], 0, x[33..], no), ttl, commitment);
            var j := IntentOf(UtxoSpend(value, x[..31], 0, x[32..], no), ttl, commitment);
            i != j && IntentOk(i) && IntentOk(j) && SigningPayload(segment, i) == SigningPayload(segment, j)
  {
    hide SpendOk, SpendBytes, IntentOk, IntentBytes, U32Bytes, IsU32, IsU128;
    SpendSizesAreNeeded(value, x, no);
    var s, t := UtxoSpend(value, x[..32], 0, x[33..], no), UtxoSpend(value, x[..31], 0, x[32..], no);
    IntentOfBytes(s, t, ttl, commitment);
    IntentOfBytes(t, s, ttl, commitment);
    var i, j := IntentOf(s, ttl, commitment), IntentOf(t, ttl, commitment);
    assert i.guaranteed.value.inputs[0] == s && j.guaranteed.value.inputs[0] == t;
  }

  /** Without the proof sizes the bytes do not determine an offer: one and three bytes, or twice two. */
  lemma ProofSizesAreNeeded(root: Bytes)
    ensures var z := ZswapOffer([[0], [0, 0, 0]], [], [], root);
            var w := ZswapOffer([[0, 0], [0, 0]], [], [], root);
            z != w && ZswapBytes(z) == ZswapBytes(w)
  {
    hide CompactBytes, Root32, Prefixed;
    var x: seq<Bytes>, y: seq<Bytes> := [[0], [0, 0, 0]], [[0, 0], [0, 0]];
    assert x[0] != y[0];
    assert Concat(Raw, x) == [0, 0, 0, 0] by { assert x[1..] == [[0, 0, 0]] && x[1..][1..] == []; }
    assert Concat(Raw, y) == [0, 0, 0, 0] by { assert y[1..] == [[0, 0]] && y[1..][1..] == []; }
  }
}

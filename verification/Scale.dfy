/** The transaction structures of the SCALE serializer and their bytes. */
module Scale {
  import opened Basics
  import opened Compact
  import opened Selection

  datatype UtxoSpend = UtxoSpend(value: int, owner: Bytes, typeTag: int, intentHash: Bytes, outputNo: int)

  datatype UtxoOutput = UtxoOutput(value: int, owner: Bytes, typeTag: int)

  datatype UnshieldedOffer = UnshieldedOffer(inputs: seq<UtxoSpend>, outputs: seq<UtxoOutput>, signatures: seq<Bytes>)

  /** Strings appear as their UTF-8 bytes. */
  datatype ContractAction =
    | Deploy(bytecode: Bytes, initialState: Bytes)
    | Call(address: Bytes, entryPoint: Bytes, args: Bytes)

  datatype Intent = Intent(guaranteed: Option<UnshieldedOffer>, fallible: Option<UnshieldedOffer>, ttl: int,
                           actions: seq<ContractAction>, bindingCommitment: Bytes)

  datatype ZswapOffer = ZswapOffer(spendProofs: seq<Bytes>, outputProofs: seq<Bytes>, memos: seq<Bytes>, merkleRoot: Bytes)

  /** A dictionary is the list of its items in insertion order. */
  datatype StandardTx = StandardTx(networkId: Bytes, intents: seq<(int, Intent)>, fallibleCoins: seq<(int, ZswapOffer)>,
                                   bindingRandomness: Bytes)

  // ---------------------------------------------------------------- which values serialize at all

  predicate IsByte(v: int) {
    0 <= v < 256
  }

  predicate SpendOk(s: UtxoSpend) {
    IsU128(s.value) && IsByte(s.typeTag) && IsU32(s.outputNo)
  }

  predicate OutputOk(o: UtxoOutput) {
    IsU128(o.value) && IsByte(o.typeTag)
  }

  predicate OfferOk(o: UnshieldedOffer) {
    && Encodable(|o.inputs|) && (forall s :: s in o.inputs ==> SpendOk(s))
    && Encodable(|o.outputs|) && (forall x :: x in o.outputs ==> OutputOk(x))
    && Encodable(|o.signatures|)
  }

  predicate ActionOk(a: ContractAction) {
    match a
    case Deploy(bytecode, state) => Encodable(|bytecode|) && Encodable(|state|)
    case Call(_, entryPoint, args) => Encodable(|entryPoint|) && Encodable(|args|)
  }

  predicate IntentOk(i: Intent) {
    && (i.guaranteed.Some? ==> OfferOk(i.guaranteed.value))
    && (i.fallible.Some? ==> OfferOk(i.fallible.value))
    && IsU32(i.ttl) && Encodable(|i.actions|) && forall a :: a in i.actions ==> ActionOk(a)
  }

  predicate ZswapOk(z: ZswapOffer) {
    Encodable(|z.spendProofs|) && Encodable(|z.outputProofs|) && Encodable(|z.memos|)
  }

  predicate TxOk(tx: StandardTx) {
    && Encodable(|tx.networkId|)
    && Encodable(|tx.intents|) && (forall e :: e in tx.intents ==> IsU32(e.0) && IntentOk(e.1))
    && Encodable(|tx.fallibleCoins|) && (forall e :: e in tx.fallibleCoins ==> IsU32(e.0) && ZswapOk(e.1))
  }

  // ---------------------------------------------------------------- bytes

  function ByteOf(v: int): Bytes {
    [v % 256]
  }

  function SpendBytes(s: UtxoSpend): Bytes {
    U128Bytes(s.value) + s.owner + ByteOf(s.typeTag) + s.intentHash + U32Bytes(s.outputNo)
  }

  function OutputBytes(o: UtxoOutput): Bytes {
    U128Bytes(o.value) + o.owner + ByteOf(o.typeTag)
  }

  function Raw(b: Bytes): Bytes {
    b
  }

  function OfferBytes(o: UnshieldedOffer): Bytes {
    VecBytes(SpendBytes, o.inputs) + VecBytes(OutputBytes, o.outputs) + VecBytes(Raw, o.signatures)
  }

  function ActionBytes(a: ContractAction): Bytes {
    match a
    case Deploy(bytecode, state) => [0] + Prefixed(bytecode) + Prefixed(state)
    case Call(address, entryPoint, args) => [1] + address + Prefixed(entryPoint) + Prefixed(args)
  }

  function OptionBytes(o: Option<UnshieldedOffer>): Bytes {
    if o.Some? then [1] + OfferBytes(o.value) else [0]
  }

  function IntentBytes(i: Intent): Bytes {
    OptionBytes(i.guaranteed) + OptionBytes(i.fallible) + U32Bytes(i.ttl) + VecBytes(ActionBytes, i.actions) + i.bindingCommitment
  }

  function Tagged(tag: Bytes, payload: Bytes): Bytes {
    Prefixed(tag) + payload
  }

  /** "zswap-offer[v1]" and "standard-tx[v1]" as bytes. */
  const ZSWAP_TAG: Bytes := [122, 115, 119, 97, 112, 45, 111, 102, 102, 101, 114, 91, 118, 49, 93]
  const TX_TAG: Bytes := [115, 116, 97, 110, 100, 97, 114, 100, 45, 116, 120, 91, 118, 49, 93]

  /** The root cut or zero-filled to 32 bytes. */
  function Root32(root: Bytes): (r: Bytes)
    ensures |r| == 32 && (|root| == 32 ==> r == root)
    ensures forall k :: 0 <= k < 32 ==> r[k] == if k < |root| then root[k] else 0
  {
    if |root| >= 32 then root[..32] else root + seq(32 - |root|, _ => 0)
  }

  function ZswapPayload(z: ZswapOffer): Bytes {
    VecBytes(Raw, z.spendProofs) + VecBytes(Raw, z.outputProofs) + VecBytes(Raw, z.memos) + Root32(z.merkleRoot)
  }

  function ZswapBytes(z: ZswapOffer): Bytes {
    Tagged(ZSWAP_TAG, ZswapPayload(z))
  }

  // ---------------------------------------------------------------- sorted dictionaries

  predicate SortedByKey<T>(items: seq<(int, T)>) {
    forall i, j :: 0 <= i < j < |items| ==> items[i].0 <= items[j].0
  }

  /** The stable sort by key: descending in the negated key. */
  function SortByKey<T>(items: seq<(int, T)>): (r: seq<(int, T)>)
    ensures multiset(r) == multiset(items)
  {
    SortDesc((e: (int, T)) => -e.0, items)
  }

  lemma SortSorts<T>(items: seq<(int, T)>)
    ensures SortedByKey(SortByKey(items))
  {
    var v := (e: (int, T)) => -e.0;
    SortDescends(v, items);
    forall i, j | 0 <= i < j < |SortByKey(items)| ensures SortByKey(items)[i].0 <= SortByKey(items)[j].0 {
      assert v(SortDesc(v, items)[i]) >= v(SortDesc(v, items)[j]);
    }
  }

  ghost predicate DistinctKeys<T>(items: seq<(int, T)>) {
    forall i, j :: 0 <= i < j < |items| ==> items[i].0 != items[j].0
  }

  /** A key determines its item. */
  ghost predicate UniqueByKey<T>(a: seq<(int, T)>) {
    forall e, f :: e in a && f in a && e.0 == f.0 ==> e == f
  }

  lemma UniqueSameItems<T>(a: seq<(int, T)>, b: seq<(int, T)>)
    requires multiset(a) == multiset(b) && UniqueByKey(a)
    ensures UniqueByKey(b)
  {
    SameItems(a, b);
  }

  lemma SameHead<T>(a: seq<(int, T)>, b: seq<(int, T)>)
    requires SortedByKey(a) && SortedByKey(b) && multiset(a) == multiset(b) && UniqueByKey(a) && a != []
    ensures b != [] && a[0] == b[0]
  {
    SameItems(a, b);
    assert a[0] in b && b[0] in a;
    var i :| 0 <= i < |b| && b[i] == a[0];
    var j :| 0 <= j < |a| && a[j] == b[0];
  }

  lemma TailMultiset<T>(a: seq<(int, T)>)
    requires a != []
    ensures multiset(a[1..]) == multiset(a) - multiset([a[0]])
  {
    assert a == [a[0]] + a[1..];
  }

  /** Two strictly sorted lists of the same items are the same list. */
  lemma {:induction false} SortedUnique<T>(a: seq<(int, T)>, b: seq<(int, T)>)
    requires SortedByKey(a) && SortedByKey(b) && multiset(a) == multiset(b) && UniqueByKey(a)
    ensures a == b
  {
    if a == [] {
      SameItems(a, b);
    } else {
      SameHead(a, b);
      TailMultiset(a);
      TailMultiset(b);
      SortedUnique(a[1..], b[1..]);
      assert a == [a[0]] + a[1..] && b == [b[0]] + b[1..];
    }
  }

  lemma DistinctIsUnique<T>(items: seq<(int, T)>)
    requires DistinctKeys(items)
    ensures UniqueByKey(items)
  {
    forall e, f | e in items && f in items && e.0 == f.0 ensures e == f {
      var i :| 0 <= i < |items| && items[i] == e;
      var j :| 0 <= j < |items| && items[j] == f;
    }
  }

  /** Sorting forgets the insertion order. */
  lemma SortOrderFree<T>(a: seq<(int, T)>, b: seq<(int, T)>)
    requires DistinctKeys(a) && multiset(a) == multiset(b)
    ensures SortByKey(a) == SortByKey(b)
  {
    DistinctIsUnique(a);
    SortSorts(a);
    SortSorts(b);
    UniqueSameItems(a, SortByKey(a));
    SortedUnique(SortByKey(a), SortByKey(b));
  }

  // ---------------------------------------------------------------- the whole transaction

  function IntentEntryBytes(e: (int, Intent)): Bytes {
    U32Bytes(e.0) + IntentBytes(e.1)
  }

  function ZswapEntryBytes(e: (int, ZswapOffer)): Bytes {
    U32Bytes(e.0) + ZswapBytes(e.1)
  }

  function TxPayload(tx: StandardTx): Bytes {
    Prefixed(tx.networkId) + VecBytes(IntentEntryBytes, SortByKey(tx.intents))
    + VecBytes(ZswapEntryBytes, SortByKey(tx.fallibleCoins)) + tx.bindingRandomness
  }

  function TxBytes(tx: StandardTx): Bytes {
    Tagged(TX_TAG, TxPayload(tx))
  }

  /** Pallet 5, call 0, and the transaction with its length. */
  function ExtrinsicBytes(midnight: Bytes): Bytes {
    [5, 0] + Prefixed(midnight)
  }

  /** The payload that is signed: a domain string, the segment and the intent. */
  const SIGNING_DOMAIN: Bytes := [109, 105, 100, 110, 105, 103, 104, 116, 58, 117, 110, 115, 104, 105, 101, 108, 100, 101, 100,
                                  45, 115, 105, 103, 91, 118, 49, 93]

  function SigningPayload(segment: int, intent: Intent): Bytes {
    SIGNING_DOMAIN + U32Bytes(segment) + IntentBytes(intent)
  }

  /** Dictionary order does not reach the bytes. */
  lemma TxOrderFree(x: StandardTx, y: StandardTx)
    requires x.networkId == y.networkId && x.bindingRandomness == y.bindingRandomness
    requires DistinctKeys(x.intents) && multiset(x.intents) == multiset(y.intents)
    requires DistinctKeys(x.fallibleCoins) && multiset(x.fallibleCoins) == multiset(y.fallibleCoins)
    ensures TxBytes(x) == TxBytes(y)
  {
    SortOrderFree(x.intents, y.intents);
    SortOrderFree(x.fallibleCoins, y.fallibleCoins);
  }

  /** The tags and the signing domain, letter by letter. */
  lemma TagsSpelled()
    ensures |ZSWAP_TAG| == 15 && forall k :: 0 <= k < 15 ==> ZSWAP_TAG[k] == "zswap-offer[v1]"[k] as int
    ensures |TX_TAG| == 15 && forall k :: 0 <= k < 15 ==> TX_TAG[k] == "standard-tx[v1]"[k] as int
    ensures |SIGNING_DOMAIN| == 27 && forall k :: 0 <= k < 27 ==> SIGNING_DOMAIN[k] == "midnight:unshielded-sig[v1]"[k] as int
  {
  }

  lemma FifteenInOneByte()
    ensures CompactBytes(15) == [60]
  {
  }

  lemma TagFront(tag: Bytes, payload: Bytes)
    requires |tag| == 15
    ensures var b := Tagged(tag, payload); |b| >= 16 && b[0] == 60 && forall k :: 0 <= k < 15 ==> b[k + 1] == tag[k]
  {
    hide CompactBytes;
    FifteenInOneByte();
  }

  /** A serialized transaction starts with the length of its tag, 15 in compact form, and the tag. */
  lemma TxStartsWithTag(tx: StandardTx)
    ensures var b := TxBytes(tx);
            |b| >= 16 && b[0] == 60 && forall k :: 0 <= k < 15 ==> b[k + 1] == "standard-tx[v1]"[k] as int
  {
    hide Tagged, TX_TAG, TxPayload;
    TagsSpelled();
    TagFront(TX_TAG, TxPayload(tx));
  }

  /** And so does a shielded offer inside it. */
  lemma ZswapStartsWithTag(z: ZswapOffer)
    ensures var b := ZswapBytes(z);
            |b| >= 16 && b[0] == 60 && forall k :: 0 <= k < 15 ==> b[k + 1] == "zswap-offer[v1]"[k] as int
  {
    hide Tagged, ZSWAP_TAG, ZswapPayload;
    TagsSpelled();
    TagFront(ZSWAP_TAG, ZswapPayload(z));
  }

  /** What is signed: the domain, the segment in four bytes, the intent. */
  lemma PayloadStartsWithDomain(segment: int, intent: Intent)
    ensures var b := SigningPayload(segment, intent);
            && |b| >= 31 && (forall k :: 0 <= k < 27 ==> b[k] == "midnight:unshielded-sig[v1]"[k] as int)
            && b[27..31] == LeBytes(segment, 4) && b[31..] == IntentBytes(intent)
  {
    TagsSpelled();
    hide SIGNING_DOMAIN, LeBytes, IntentBytes;
    var b := SigningPayload(segment, intent);
    assert b[..27] == SIGNING_DOMAIN;
  }
}

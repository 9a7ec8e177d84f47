/** Building an unshielded transfer. */
module Builder {
  import opened Basics
  import opened Compact
  import opened Scale
  import opened Selection
  import opened ScaleDecode
  import Address

  /** A normalised UTXO record of the indexer. */
  datatype Utxo = Utxo(value: int, token: Bytes, intentHash: Bytes, outputNo: int)

  /** What the builder reads of a wallet: the two UTXO sets and the keys that own them. */
  datatype Wallet = Wallet(unshieldedUtxos: seq<Utxo>, unshieldedPk: Bytes, dustUtxos: seq<Utxo>, dustPk: Bytes)

  datatype BuildError = InvalidRecipient | InsufficientBalance(have: int, need: int)

  datatype BuildResult<+T> = Built(value: T) | Failed(error: BuildError)

  /** What the builder reads besides the wallet: the network, its least fee, 32 random bytes, and the
      binding commitment to randomness and fee, an arbitrary function here. */
  datatype Context = Context(networkId: Bytes, minFee: int, randomness: Bytes, commit: (Bytes, int) -> Bytes)

  /** The offer of the guaranteed segment, its envelope, and the fee that is returned with it. */
  datatype Transfer = Transfer(networkId: Bytes, offer: UnshieldedOffer, ttl: int, commitment: Bytes, randomness: Bytes, fee: int) {
    /** The transaction that is serialized: the offer is all of intent 0. */
    function Standard(): StandardTx {
      StandardTx(networkId, [(0, Intent(Some(offer), None, ttl, [], commitment))], [], randomness)
    }
  }

  const DUST_THRESHOLD := 1000

  /** 01 00 01 and 29 zeros. */
  function DustToken(): Bytes {
    [1, 0, 1] + seq(29, _ => 0)
  }

  function ValueOf(u: Utxo): int {
    u.value
  }

  function Fits(u: Utxo, token: Bytes): seq<Utxo> {
    if u.token == token then [u] else []
  }

  function Eligible(utxos: seq<Utxo>, token: Bytes): (r: seq<Utxo>)
    ensures forall u :: u in r <==> u in utxos && u.token == token
  {
    if utxos == [] then []
    else Fits(utxos[0], token) + Eligible(utxos[1..], token)
  }

  /** The first UTXO of exactly the required value. */
  function ExactMatch(utxos: seq<Utxo>, required: int): Option<Utxo> {
    if utxos == [] then None
    else if utxos[0].value == required then Some(utxos[0])
    else ExactMatch(utxos[1..], required)
  }

  /** An exact match alone, or else the largest first. */
  function Select(eligible: seq<Utxo>, required: int): seq<Utxo> {
    var exact := ExactMatch(eligible, required);
    if exact.Some? then [exact.value] else Largest(ValueOf, eligible, required)
  }

  lemma {:induction false} ExactMatchFinds(utxos: seq<Utxo>, required: int)
    ensures var m := ExactMatch(utxos, required);
            if m.Some? then m.value in utxos && m.value.value == required
            else forall u :: u in utxos ==> u.value != required
  {
    if utxos == [] {
    } else {
      ExactMatchFinds(utxos[1..], required);
    }
  }

  lemma SumOfOne<T>(v: T -> int, x: T)
    ensures Sum(v, [x]) == v(x)
  {
    assert Sum(v, [x]) == v(x) + Sum(v, [x][1..]);
  }

  /** Selection succeeds exactly when the eligible total covers the requirement. */
  lemma SelectCovers(eligible: seq<Utxo>, required: int)
    requires NonNegative(ValueOf, eligible)
    ensures Sum(ValueOf, Select(eligible, required)) >= required <==> Sum(ValueOf, eligible) >= required
  {
    ExactMatchFinds(eligible, required);
    LargestCovers(ValueOf, eligible, required);
    var m := ExactMatch(eligible, required);
    if m.Some? {
      SumOfOne(ValueOf, m.value);
      MemberAtMostSum(ValueOf, eligible, m.value);
    }
  }

  /** And for a positive requirement no sub-collection with fewer UTXOs covers it, on the shortcut too. */
  lemma SelectIsFewest(eligible: seq<Utxo>, required: int, t: seq<Utxo>)
    requires NonNegative(ValueOf, eligible) && required > 0
    requires multiset(t) <= multiset(eligible) && |t| < |Select(eligible, required)|
    ensures Sum(ValueOf, t) < required
  {
    if ExactMatch(eligible, required).None? {
      LargestIsFewest(ValueOf, eligible, required, t);
    }
  }

  /** The selection as it runs: the scan for an exact match, then the sorted loop. */
  method SelectUtxos(eligible: seq<Utxo>, required: int) returns (selected: seq<Utxo>, total: int)
    ensures selected == Select(eligible, required) && total == Sum(ValueOf, selected)
  {
    var i := 0;
    assert eligible[0..] == eligible;
    while i < |eligible|
      invariant 0 <= i <= |eligible|
      invariant ExactMatch(eligible[i..], required) == ExactMatch(eligible, required)
    {
      assert eligible[i..][1..] == eligible[i + 1..];
      if eligible[i].value == required {
        SumOfOne(ValueOf, eligible[i]);
        return [eligible[i]], required;
      }
      i := i + 1;
    }
    var sorted := SortDesc(ValueOf, eligible);
    selected, total := TakeUntil(ValueOf, sorted, required);
  }

  // ---------------------------------------------------------------- the transfer

  function SpendOf(u: Utxo, owner: Bytes): UtxoSpend {
    UtxoSpend(u.value, owner, 0, u.intentHash, u.outputNo)
  }

  function SpendsOf(us: seq<Utxo>, owner: Bytes): (r: seq<UtxoSpend>)
    ensures |r| == |us| && forall k :: 0 <= k < |us| ==> r[k] == SpendOf(us[k], owner)
  {
    seq(|us|, (k: int) requires 0 <= k < |us| => SpendOf(us[k], owner))
  }

  function SpendValue(s: UtxoSpend): int {
    s.value
  }

  function OutputValue(o: UtxoOutput): int {
    o.value
  }

  lemma {:induction false} SpendsKeepValue(us: seq<Utxo>, owner: Bytes)
    ensures Sum(SpendValue, SpendsOf(us, owner)) == Sum(ValueOf, us)
  {
    if us == [] {
    } else {
      SpendsKeepValue(us[1..], owner);
      assert SpendsOf(us, owner)[1..] == SpendsOf(us[1..], owner);
    }
  }

  /** The UTXOs to select from: those of the token in the wallet's set, or the DUST ones of the other set. */
  function Offered(wallet: Wallet, tokenType: Bytes, useDust: bool): seq<Utxo> {
    if useDust then Eligible(wallet.dustUtxos, DustToken()) else Eligible(wallet.unshieldedUtxos, tokenType)
  }

  function Payment(recipient: Bytes, amount: int): seq<UtxoOutput> {
    if amount > 0 then [UtxoOutput(amount, recipient, 0)] else []
  }

  function Enveloped(ctx: Context, inputs: seq<UtxoSpend>, outputs: seq<UtxoOutput>, ttl: int, fee: int): Transfer {
    Transfer(ctx.networkId, UnshieldedOffer(inputs, outputs, []), ttl, ctx.commit(ctx.randomness, fee), ctx.randomness, fee)
  }

  /** The outcome for given selected UTXOs. */
  function Assemble(ctx: Context, recipient: Address.Decoded, selected: seq<Utxo>, owner: Bytes, amount: int, fee: int, ttl: int)
    : BuildResult<Transfer>
  {
    var total, required := Sum(ValueOf, selected), amount + fee;
    var change := total - required;
    if recipient.Err? then Failed(InvalidRecipient)
    else if change < 0 then Failed(InsufficientBalance(total, required))
    else
      var inputs, paid := SpendsOf(selected, owner), Payment(recipient.value.2, amount);
      if change < DUST_THRESHOLD then Built(Enveloped(ctx, inputs, paid, ttl, fee + change))
      else Built(Enveloped(ctx, inputs, paid + [UtxoOutput(change, owner, 0)], ttl, fee))
  }

  lemma EligibleSteps(utxos: seq<Utxo>, token: Bytes)
    ensures Eligible([], token) == []
    ensures utxos != [] ==> Eligible(utxos, token) == Fits(utxos[0], token) + Eligible(utxos[1..], token)
  {
  }

  lemma {:induction false} EligibleSnoc(utxos: seq<Utxo>, i: nat, token: Bytes)
    requires i < |utxos|
    ensures Eligible(utxos[..i + 1], token) == Eligible(utxos[..i], token) + Fits(utxos[i], token)
    decreases i
  {
    hide Eligible, Fits;
    EligibleSteps(utxos[..i + 1], token);
    if i == 0 {
      assert utxos[..1][1..] == [] && utxos[..0] == [];
    } else {
      EligibleSteps(utxos[..i], token);
      assert utxos[..i + 1][1..] == utxos[1..][..i] && utxos[..i][1..] == utxos[1..][..i - 1];
      EligibleSnoc(utxos[1..], i - 1, token);
    }
  }

  /** The filter as it runs. */
  method FilterByToken(utxos: seq<Utxo>, token: Bytes) returns (eligible: seq<Utxo>)
    ensures eligible == Eligible(utxos, token)
  {
    hide Eligible;
    eligible := [];
    EligibleSteps([], token);
    assert utxos[..0] == [];
    for i := 0 to |utxos|
      invariant eligible == Eligible(utxos[..i], token)
    {
      EligibleSnoc(utxos, i, token);
      if utxos[i].token == token {
        eligible := eligible + [utxos[i]];
      }
    }
    assert utxos[..|utxos|] == utxos;
  }

  /** The steps of the code: decode, filter, select, spend, pay, and keep or fold the change. */
  method BuildUnshieldedTransfer(wallet: Wallet, ctx: Context, toAddress: string, amount: int, fee: Option<int>, ttl: int,
                                 tokenType: Bytes, useDust: bool) returns (r: BuildResult<Transfer>)
    ensures var asked := if fee.Some? then fee.value else ctx.minFee;
            r == Assemble(ctx, Address.DecodeAddress(toAddress), Select(Offered(wallet, tokenType, useDust), amount + asked),
                          if useDust then wallet.dustPk else wallet.unshieldedPk, amount, asked, ttl)
  {
    hide DustToken, Eligible, Select, Address.DecodeAddress, Sum;
    var token := if useDust then DustToken() else tokenType;
    var utxos := if useDust then wallet.dustUtxos else wallet.unshieldedUtxos;
    var owner := if useDust then wallet.dustPk else wallet.unshieldedPk;
    var realFee := if fee.Some? then fee.value else ctx.minFee;
    var required := amount + realFee;
    var eligible := FilterByToken(utxos, token);
    assert eligible == Offered(wallet, tokenType, useDust);
    var recipient := Address.DecodeAddress(toAddress);
    if recipient.Err? {
      return Failed(InvalidRecipient);
    }
    var selected, total := SelectUtxos(eligible, required);
    if total < required {
      return Failed(InsufficientBalance(total, required));
    }
    var inputs: seq<UtxoSpend> := [];
    for i := 0 to |selected|
      invariant inputs == SpendsOf(selected, owner)[..i]
    {
      var utxo := selected[i];
      inputs := inputs + [UtxoSpend(utxo.value, owner, 0, utxo.intentHash, utxo.outputNo)];
    }
    assert inputs == SpendsOf(selected, owner);
    var outputs: seq<UtxoOutput> := [];
    if amount > 0 {
      outputs := outputs + [UtxoOutput(amount, recipient.value.2, 0)];
    }
    assert outputs == Payment(recipient.value.2, amount);
    if total > required {
      var change := total - required;
      if change < DUST_THRESHOLD {
        realFee := realFee + change;
      } else {
        outputs := outputs + [UtxoOutput(change, owner, 0)];
      }
    }
    var commitment := ctx.commit(ctx.randomness, realFee);
    r := Built(Transfer(ctx.networkId, UnshieldedOffer(inputs, outputs, []), ttl, commitment, ctx.randomness, realFee));
  }

  /** Who is offered, in full: of the wallet's DUST set the UTXOs of the token 01 00 01 and 29 zeros, of its
      unshielded set those of the token asked for. */
  lemma OfferedExactly(wallet: Wallet, tokenType: Bytes, useDust: bool, u: Utxo)
    ensures u in Offered(wallet, tokenType, useDust) <==>
      if useDust then
        && u in wallet.dustUtxos && |u.token| == 32 && u.token[0] == 1 && u.token[1] == 0 && u.token[2] == 1
        && forall k :: 3 <= k < 32 ==> u.token[k] == 0
      else u in wallet.unshieldedUtxos && u.token == tokenType
  {
    var dust := DustToken();
    assert u.token == dust <==> |u.token| == 32 && forall k :: 0 <= k < 32 ==> u.token[k] == dust[k];
  }

  /** What a built transfer consists of, in full: each input spends its selected UTXO for the given key, the
      payment goes to the decoded payload, change of 1000 and more goes back to the key, and less becomes fee. */
  lemma BuiltTransfer(ctx: Context, recipient: Address.Decoded, selected: seq<Utxo>, owner: Bytes, amount: int, fee: int, ttl: int)
    requires Assemble(ctx, recipient, selected, owner, amount, fee, ttl).Built?
    ensures var t := Assemble(ctx, recipient, selected, owner, amount, fee, ttl).value;
            var change := Sum(ValueOf, selected) - amount - fee;
            var paid := if amount > 0 then [UtxoOutput(amount, recipient.value.2, 0)] else [];
            && |t.offer.inputs| == |selected|
            && (forall k :: 0 <= k < |selected| ==>
                  t.offer.inputs[k] == UtxoSpend(selected[k].value, owner, 0, selected[k].intentHash, selected[k].outputNo))
            && t.offer.outputs == paid + (if change >= 1000 then [UtxoOutput(change, owner, 0)] else [])
            && t.fee == (if change < 1000 then fee + change else fee)
            && t.offer.signatures == [] && t.ttl == ttl && t.networkId == ctx.networkId
            && t.randomness == ctx.randomness && t.commitment == ctx.commit(ctx.randomness, t.fee)
            && t.Standard() == StandardTx(ctx.networkId, [(0, Intent(Some(t.offer), None, ttl, [], t.commitment))], [], ctx.randomness)
  {
    hide Sum;
  }

  lemma SelectFrom(eligible: seq<Utxo>, required: int)
    ensures forall u :: u in Select(eligible, required) ==> u in eligible
  {
    ExactMatchFinds(eligible, required);
    LargestFrom(ValueOf, eligible, required);
  }

  /** Every input of a call names the wallet's key for the set it was offered from. */
  lemma BuiltInputsOwned(wallet: Wallet, ctx: Context, recipient: Address.Decoded, amount: int, fee: int, ttl: int,
                         tokenType: Bytes, useDust: bool)
    ensures var key := if useDust then wallet.dustPk else wallet.unshieldedPk;
            var r := Assemble(ctx, recipient, Select(Offered(wallet, tokenType, useDust), amount + fee), key, amount, fee, ttl);
            r.Built? ==> forall s :: s in r.value.offer.inputs ==>
              && s.owner == (if useDust then wallet.dustPk else wallet.unshieldedPk)
              && exists u :: u in Offered(wallet, tokenType, useDust) && s == UtxoSpend(u.value, s.owner, 0, u.intentHash, u.outputNo)
  {
    hide Offered, Select, Sum;
    var offered := Offered(wallet, tokenType, useDust);
    var selected := Select(offered, amount + fee);
    SelectFrom(offered, amount + fee);
    forall k | 0 <= k < |selected| ensures selected[k] in offered {}
  }

  /** Value is conserved exactly when the amount is not negative: inputs pay the outputs and the fee. The
      returned fee exceeds the asked one by less than the dust threshold, and every output but the payment,
      which comes first, is change of at least that threshold. */
  lemma BuildConserves(ctx: Context, recipient: Address.Decoded, selected: seq<Utxo>, owner: Bytes, amount: int, fee: int, ttl: int)
    requires Assemble(ctx, recipient, selected, owner, amount, fee, ttl).Built?
    ensures var t := Assemble(ctx, recipient, selected, owner, amount, fee, ttl).value;
            var paid := if amount > 0 then 1 else 0;
            && (Sum(SpendValue, t.offer.inputs) == Sum(OutputValue, t.offer.outputs) + t.fee <==> amount >= 0)
            && fee <= t.fee < fee + DUST_THRESHOLD && t.commitment == ctx.commit(t.randomness, t.fee)
            && paid <= |t.offer.outputs| <= paid + 1
            && (amount > 0 ==> t.offer.outputs[0] == UtxoOutput(amount, recipient.value.2, 0))
            && (forall k :: paid <= k < |t.offer.outputs| ==>
                  t.offer.outputs[k].owner == owner && t.offer.outputs[k].value >= DUST_THRESHOLD && t.fee == fee)
  {
    var total := Sum(ValueOf, selected);
    SpendsKeepValue(selected, owner);
    var paid := Payment(recipient.value.2, amount);
    var change := UtxoOutput(total - amount - fee, owner, 0);
    if amount > 0 {
      SumOfOne(OutputValue, UtxoOutput(amount, recipient.value.2, 0));
    }
    SumOfOne(OutputValue, change);
    SumConcat(OutputValue, paid, [change]);
  }

  /** The whole build succeeds exactly when the address decodes and the eligible UTXOs cover amount and fee. */
  lemma BuildSucceeds(ctx: Context, recipient: Address.Decoded, eligible: seq<Utxo>, owner: Bytes, amount: int, fee: int, ttl: int)
    requires NonNegative(ValueOf, eligible)
    ensures Assemble(ctx, recipient, Select(eligible, amount + fee), owner, amount, fee, ttl).Built? <==>
      recipient.Ok? && Sum(ValueOf, eligible) >= amount + fee
  {
    hide Select, NonNegative, Sum;
    SelectCovers(eligible, amount + fee);
  }

  // ---------------------------------------------------------------- no outpoint twice

  type Outpoint = (Bytes, int)

  function OutpointOf(s: UtxoSpend): Outpoint {
    (s.intentHash, s.outputNo)
  }

  function UtxoOutpoint(u: Utxo): Outpoint {
    (u.intentHash, u.outputNo)
  }

  ghost predicate DistinctInputs(inputs: seq<UtxoSpend>) {
    forall i, j :: 0 <= i < j < |inputs| ==> OutpointOf(inputs[i]) != OutpointOf(inputs[j])
  }

  ghost predicate DistinctUtxos(us: seq<Utxo>) {
    forall i, j :: 0 <= i < j < |us| ==> UtxoOutpoint(us[i]) != UtxoOutpoint(us[j])
  }

  lemma {:induction false} EligibleDistinct(utxos: seq<Utxo>, token: Bytes)
    requires DistinctUtxos(utxos)
    ensures DistinctUtxos(Eligible(utxos, token))
  {
    if utxos == [] {
    } else {
      EligibleDistinct(utxos[1..], token);
      var r := Eligible(utxos[1..], token);
      forall j | 0 <= j < |r| ensures UtxoOutpoint(utxos[0]) != UtxoOutpoint(r[j]) {
        assert r[j] in utxos[1..];
      }
    }
  }

  lemma {:induction false} InsertDistinct(x: Utxo, us: seq<Utxo>)
    requires DistinctUtxos(us) && forall u :: u in us ==> UtxoOutpoint(u) != UtxoOutpoint(x)
    ensures DistinctUtxos(Insert(ValueOf, x, us))
  {
    if us == [] || us[0].value <= x.value {
    } else {
      InsertDistinct(x, us[1..]);
      var r := Insert(ValueOf, x, us[1..]);
      forall j | 0 <= j < |r| ensures UtxoOutpoint(us[0]) != UtxoOutpoint(r[j]) {
        assert r[j] in multiset(r);
        if r[j] != x {
          assert r[j] in us[1..];
        }
      }
    }
  }

  lemma {:induction false} SortDistinct(us: seq<Utxo>)
    requires DistinctUtxos(us)
    ensures DistinctUtxos(SortDesc(ValueOf, us))
  {
    if us == [] {
    } else {
      SortDistinct(us[1..]);
      SameItems(SortDesc(ValueOf, us[1..]), us[1..]);
      forall u | u in us[1..] ensures UtxoOutpoint(u) != UtxoOutpoint(us[0]) {
        var j :| 0 <= j < |us[1..]| && us[1..][j] == u;
        assert us[j + 1] == u;
      }
      InsertDistinct(us[0], SortDesc(ValueOf, us[1..]));
    }
  }

  lemma SelectDistinct(eligible: seq<Utxo>, required: int)
    requires DistinctUtxos(eligible)
    ensures DistinctUtxos(Select(eligible, required))
  {
    SortDistinct(eligible);
  }

  /** When the offered UTXOs have distinct outpoints, no built transfer spends an outpoint twice. */
  lemma BuiltInputsDistinct(wallet: Wallet, ctx: Context, recipient: Address.Decoded, amount: int, fee: int, ttl: int,
                            tokenType: Bytes, useDust: bool, owner: Bytes)
    requires DistinctUtxos(wallet.dustUtxos) && DistinctUtxos(wallet.unshieldedUtxos)
    ensures var r := Assemble(ctx, recipient, Select(Offered(wallet, tokenType, useDust), amount + fee), owner, amount, fee, ttl);
            r.Built? ==> DistinctInputs(r.value.offer.inputs)
  {
    hide DustToken, Select, Sum, Eligible;
    EligibleDistinct(wallet.dustUtxos, DustToken());
    EligibleDistinct(wallet.unshieldedUtxos, tokenType);
    SelectDistinct(Offered(wallet, tokenType, useDust), amount + fee);
  }

  // ---------------------------------------------------------------- whether the built bytes can be read back

  /** The builder pays whatever payload the address decodes to. With keys and hashes of 32 bytes, an offer that
      serializes is well formed exactly when nothing is paid or that payload has 32 bytes. */
  lemma BuiltOfferWf(ctx: Context, recipient: Address.Decoded, selected: seq<Utxo>, owner: Bytes, amount: int, fee: int, ttl: int)
    requires Assemble(ctx, recipient, selected, owner, amount, fee, ttl).Built?
    requires |owner| == 32 && forall u :: u in selected ==> |u.intentHash| == 32
    requires OfferOk(Assemble(ctx, recipient, selected, owner, amount, fee, ttl).value.offer)
    ensures OfferWf(Assemble(ctx, recipient, selected, owner, amount, fee, ttl).value.offer)
       <==> amount <= 0 || |recipient.value.2| == 32
  {
    hide Encodable, Sum, IsU128, IsU32;
    var offer := Assemble(ctx, recipient, selected, owner, amount, fee, ttl).value.offer;
    assert offer.inputs == SpendsOf(selected, owner);
    if amount > 0 {
      assert offer.outputs[0] in offer.outputs && offer.outputs[0].owner == recipient.value.2;
    }
    forall o | o in offer.outputs ensures |o.owner| == 32 || (amount > 0 && o.owner == recipient.value.2) {}
  }

  lemma OneItemSorted(e: (int, Intent))
    ensures SortByKey([e]) == [e]
  {
    var one := [e];
    assert one[1..] == [];
  }

  /** So the transaction that is submitted can be read back from its bytes exactly then. */
  lemma BuiltTxRecovered(ctx: Context, recipient: Address.Decoded, selected: seq<Utxo>, owner: Bytes, amount: int, fee: int, ttl: int,
                         n: Sizes, rest: Bytes)
    requires Assemble(ctx, recipient, selected, owner, amount, fee, ttl).Built?
    requires |owner| == 32 && |ctx.randomness| == 32 && forall u :: u in selected ==> |u.intentHash| == 32
    requires var t := Assemble(ctx, recipient, selected, owner, amount, fee, ttl).value; TxOk(t.Standard()) && |t.commitment| == 32
    ensures var tx := Assemble(ctx, recipient, selected, owner, amount, fee, ttl).value.Standard();
            DecodeTx(n, TxBytes(tx) + rest) == Some((tx, rest)) <==> amount <= 0 || |recipient.value.2| == 32
  {
    hide TxBytes, DecodeTx, OfferWf, OfferOk, Encodable, IsU32;
    var t := Assemble(ctx, recipient, selected, owner, amount, fee, ttl).value;
    var tx := t.Standard();
    var e := tx.intents[0];
    assert e in tx.intents;
    BuiltOfferWf(ctx, recipient, selected, owner, amount, fee, ttl);
    OneItemSorted(e);
    TxRecovered(tx, n, rest);
  }
}

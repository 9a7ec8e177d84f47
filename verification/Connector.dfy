/** Balancing an offer in place on behalf of a DApp. */
module Connector {
  import opened Basics
  import opened Compact
  import opened Scale
  import opened Selection
  import opened Builder

  /** NIGHT, the native token. */
  function Night(): Bytes {
    seq(32, _ => 0)
  }

  // ---------------------------------------------------------------- one call as a function

  /** The mutable part of an offer. */
  datatype OfferState = OfferState(inputs: seq<UtxoSpend>, outputs: seq<UtxoOutput>)

  /** An indexer answer, the configured fee and the lifetime of one call. */
  datatype Request = Request(utxos: seq<Utxo>, owner: Bytes, fee: int, ttl: int)

  function UsedOutpoints(inputs: seq<UtxoSpend>): set<Outpoint> {
    set s | s in inputs :: OutpointOf(s)
  }

  function Free(u: Utxo, used: set<Outpoint>): seq<Utxo> {
    if UtxoOutpoint(u) !in used && u.token == Night() then [u] else []
  }

  /** Native UTXOs that the offer does not spend yet. */
  function Unused(utxos: seq<Utxo>, used: set<Outpoint>): (r: seq<Utxo>)
    ensures forall u :: u in r <==> u in utxos && UtxoOutpoint(u) !in used && u.token == Night()
  {
    if utxos == [] then []
    else
      Free(utxos[0], used) + Unused(utxos[1..], used)
  }

  function InputTotal(o: OfferState): int {
    Sum(SpendValue, o.inputs)
  }

  function Required(o: OfferState, fee: int): int {
    Sum(OutputValue, o.outputs) + fee
  }

  /** The inputs that are added: none if the offer is covered, else the largest first. */
  function Added(o: OfferState, q: Request): seq<Utxo> {
    var missing := Required(o, q.fee) - InputTotal(o);
    if missing <= 0 then []
    else Largest(ValueOf, Unused(q.utxos, UsedOutpoints(o.inputs)), missing)
  }

  /** The offer after a call, and whether the call succeeded. A failed call keeps the added inputs. */
  function Balance(o: OfferState, q: Request): (OfferState, bool) {
    var inputs := o.inputs + SpendsOf(Added(o, q), q.owner);
    var surplus := Sum(SpendValue, inputs) - Required(o, q.fee);
    if surplus < 0 then (OfferState(inputs, o.outputs), false)
    else if surplus == 0 then (OfferState(inputs, o.outputs), true)
    else (OfferState(inputs, o.outputs + [UtxoOutput(surplus, q.owner, 0)]), true)
  }

  // ---------------------------------------------------------------- the call on the heap

  class Offer {
    var inputs: seq<UtxoSpend>
    var outputs: seq<UtxoOutput>
    var signatures: seq<Bytes>

    constructor ()
      ensures inputs == [] && outputs == [] && signatures == []
    {
      inputs, outputs, signatures := [], [], [];
    }

    function State(): OfferState
      reads this
    {
      OfferState(inputs, outputs)
    }
  }

  class IntentCell {
    var ttl: int
    var offer: Offer?

    /** What the intent offers; an absent offer is an empty one. */
    function State(): OfferState
      reads this, offer
    {
      if offer == null then OfferState([], []) else offer.State()
    }
  }

  lemma AddedValue(o: OfferState, added: seq<Utxo>, owner: Bytes)
    ensures Sum(SpendValue, o.inputs + SpendsOf(added, owner)) == InputTotal(o) + Sum(ValueOf, added)
    ensures Sum(ValueOf, []) == 0
  {
    SumConcat(SpendValue, o.inputs, SpendsOf(added, owner));
    SpendsKeepValue(added, owner);
  }

  lemma UnusedSteps(utxos: seq<Utxo>, used: set<Outpoint>)
    ensures utxos != [] ==> Unused(utxos, used) == Free(utxos[0], used) + Unused(utxos[1..], used)
  {
  }

  lemma NoneUnused(used: set<Outpoint>)
    ensures Unused([], used) == []
  {
  }

  lemma {:induction false} UnusedSnoc(utxos: seq<Utxo>, i: nat, used: set<Outpoint>)
    requires i < |utxos|
    ensures Unused(utxos[..i + 1], used) == Unused(utxos[..i], used) + Free(utxos[i], used)
    decreases i
  {
    hide Unused, Free;
    UnusedSteps(utxos[..i + 1], used);
    if i == 0 {
      NoneUnused(used);
      assert utxos[..1][1..] == [] && utxos[..0] == [];
    } else {
      UnusedSteps(utxos[..i], used);
      assert utxos[..i + 1][1..] == utxos[1..][..i] && utxos[..i][1..] == utxos[1..][..i - 1];
      UnusedSnoc(utxos[1..], i - 1, used);
    }
  }

  /** The filter as it runs. */
  method FilterUnused(utxos: seq<Utxo>, used: set<Outpoint>) returns (eligible: seq<Utxo>)
    ensures eligible == Unused(utxos, used)
  {
    hide Unused, Night;
    eligible := [];
    NoneUnused(used);
    assert utxos[..0] == [];
    for i := 0 to |utxos|
      invariant eligible == Unused(utxos[..i], used)
    {
      UnusedSnoc(utxos, i, used);
      if (utxos[i].intentHash, utxos[i].outputNo) !in used && utxos[i].token == Night() {
        eligible := eligible + [utxos[i]];
      }
    }
    assert utxos[..|utxos|] == utxos;
  }

  /** Balancing appends to the offer's lists in place, creates the offer if there is none, and sets the
      lifetime only when it succeeds. */
  method BalanceTransaction(intent: IntentCell, q: Request) returns (ok: bool)
    modifies intent, intent.offer
    ensures intent.offer != null && (old(intent.offer) != null ==> intent.offer == old(intent.offer))
    ensures old(intent.offer) == null ==> fresh(intent.offer)
    ensures (intent.State(), ok) == Balance(old(intent.State()), q)
    ensures intent.ttl == if ok then q.ttl else old(intent.ttl)
    ensures old(intent.offer) != null ==> intent.offer.signatures == old(intent.offer.signatures)
  {
    hide Unused, Sum, SortDesc, Taken;
    if intent.offer == null {
      intent.offer := new Offer();
    }
    var offer := intent.offer;
    ghost var o := offer.State();
    assert o == old(intent.State());
    var inputsVal := Sum(SpendValue, offer.inputs);
    var required := Sum(OutputValue, offer.outputs) + q.fee;
    ghost var added := Added(o, q);
    AddedValue(o, added, q.owner);
    assert offer.inputs + SpendsOf([], q.owner) == offer.inputs;
    if inputsVal < required {
      var eligible := FilterUnused(q.utxos, UsedOutpoints(offer.inputs));
      var sorted := SortDesc(ValueOf, eligible);
      var chosen, addedVal := TakeUntil(ValueOf, sorted, required - inputsVal);
      assert chosen == added;
      for i := 0 to |chosen|
        invariant offer.inputs == o.inputs + SpendsOf(chosen, q.owner)[..i] && offer.outputs == o.outputs
        invariant intent.offer == offer && intent.ttl == old(intent.ttl)
        invariant old(intent.offer) != null ==> offer.signatures == old(intent.offer.signatures)
      {
        var utxo := chosen[i];
        offer.inputs := offer.inputs + [UtxoSpend(utxo.value, q.owner, 0, utxo.intentHash, utxo.outputNo)];
      }
      assert SpendsOf(chosen, q.owner)[..|chosen|] == SpendsOf(chosen, q.owner);
      inputsVal := inputsVal + addedVal;
      if inputsVal < required {
        return false;
      }
    }
    if inputsVal > required {
      offer.outputs := offer.outputs + [UtxoOutput(inputsVal - required, q.owner, 0)];
    }
    intent.ttl := q.ttl;
    ok := true;
  }

  // ---------------------------------------------------------------- what one call achieves

  lemma AddedAreUnused(o: OfferState, q: Request)
    ensures forall u :: u in Added(o, q) ==> u in Unused(q.utxos, UsedOutpoints(o.inputs))
  {
    hide Unused, Sum, Largest;
    var eligible := Unused(q.utxos, UsedOutpoints(o.inputs));
    var missing := Required(o, q.fee) - InputTotal(o);
    LargestFrom(ValueOf, eligible, missing);
  }

  /** What a call appends, in full: spends of unused UTXOs of the all-zero token for the wallet's key, and, when
      more is covered than required, the rest as an output for that key. */
  lemma BalanceAppends(o: OfferState, q: Request)
    ensures var (p, ok) := Balance(o, q);
            var surplus := InputTotal(p) - Required(o, q.fee);
            && |p.inputs| == |o.inputs| + |Added(o, q)| && p.inputs[..|o.inputs|] == o.inputs
            && (forall k :: 0 <= k < |Added(o, q)| ==>
                  var u := Added(o, q)[k];
                  && p.inputs[|o.inputs| + k] == UtxoSpend(u.value, q.owner, 0, u.intentHash, u.outputNo)
                  && u in q.utxos && |u.token| == 32 && (forall j :: 0 <= j < 32 ==> u.token[j] == 0)
                  && forall s :: s in o.inputs ==> s.intentHash != u.intentHash || s.outputNo != u.outputNo)
            && (ok <==> surplus >= 0)
            && p.outputs == o.outputs + (if surplus > 0 then [UtxoOutput(surplus, q.owner, 0)] else [])
  {
    hide Unused, Sum, Largest;
    var p, added := Balance(o, q).0, Added(o, q);
    assert p.inputs == o.inputs + SpendsOf(added, q.owner);
    AddedAreUnused(o, q);
    forall k | 0 <= k < |added|
      ensures var u := added[k];
              && u in q.utxos && u.token == Night()
              && forall s :: s in o.inputs ==> s.intentHash != u.intentHash || s.outputNo != u.outputNo
    {
      assert added[k] in Unused(q.utxos, UsedOutpoints(o.inputs));
      forall s | s in o.inputs ensures OutpointOf(s) != UtxoOutpoint(added[k]) {
        assert OutpointOf(s) in UsedOutpoints(o.inputs);
      }
    }
  }

  /** After a success the inputs pay the outputs and the fee exactly. */
  lemma BalanceExact(o: OfferState, q: Request)
    requires Balance(o, q).1
    ensures var p := Balance(o, q).0; InputTotal(p) == Required(p, q.fee)
  {
    var p := Balance(o, q).0;
    var surplus := Sum(SpendValue, p.inputs) - Required(o, q.fee);
    SumConcat(OutputValue, o.outputs, [UtxoOutput(surplus, q.owner, 0)]);
    SumOfOne(OutputValue, UtxoOutput(surplus, q.owner, 0));
  }

  /** A further call with the same fee succeeds and leaves the offer alone, whatever the indexer answers. */
  lemma BalanceIdempotent(o: OfferState, q: Request, again: Request)
    requires Balance(o, q).1 && again.fee == q.fee
    ensures Balance(Balance(o, q).0, again) == (Balance(o, q).0, true)
  {
    BalanceExact(o, q);
    var p := Balance(o, q).0;
    assert SpendsOf([], again.owner) == [];
    assert p.inputs + [] == p.inputs;
  }

  /** A call succeeds exactly when the offer's inputs and the unused UTXOs together cover what is required. */
  lemma BalanceSucceeds(o: OfferState, q: Request)
    requires NonNegative(ValueOf, q.utxos)
    ensures Balance(o, q).1 <==>
      InputTotal(o) + Sum(ValueOf, Unused(q.utxos, UsedOutpoints(o.inputs))) >= Required(o, q.fee)
  {
    hide Unused, Sum, Largest;
    var eligible := Unused(q.utxos, UsedOutpoints(o.inputs));
    var missing := Required(o, q.fee) - InputTotal(o);
    AddedValue(o, Added(o, q), q.owner);
    LargestCovers(ValueOf, eligible, missing);
    SumNonNegative(ValueOf, eligible);
  }

  /** No smaller set of unused UTXOs would have covered what was missing. */
  lemma BalanceAddsFewest(o: OfferState, q: Request, t: seq<Utxo>)
    requires NonNegative(ValueOf, q.utxos)
    requires multiset(t) <= multiset(Unused(q.utxos, UsedOutpoints(o.inputs))) && |t| < |Added(o, q)|
    ensures InputTotal(o) + Sum(ValueOf, t) < Required(o, q.fee)
  {
    hide Unused, Sum, Largest;
    var missing := Required(o, q.fee) - InputTotal(o);
    LargestIsFewest(ValueOf, Unused(q.utxos, UsedOutpoints(o.inputs)), missing, t);
  }

  lemma EmptySum<T>(v: T -> int)
    ensures Sum(v, []) == 0
  {
  }

  lemma AllAreAdded(o: OfferState, q: Request)
    requires InputTotal(o) + Sum(ValueOf, Added(o, q)) < Required(o, q.fee)
    ensures multiset(Added(o, q)) == multiset(Unused(q.utxos, UsedOutpoints(o.inputs)))
  {
    hide Unused, Sum, SortDesc;
    var missing := Required(o, q.fee) - InputTotal(o);
    var s := SortDesc(ValueOf, Unused(q.utxos, UsedOutpoints(o.inputs)));
    EmptySum(ValueOf);
    TakenFirst(ValueOf, s, missing);
    assert s[..|s|] == s;
  }

  lemma AddedAreUsed(inputs: seq<UtxoSpend>, added: seq<Utxo>, owner: Bytes)
    ensures UsedOutpoints(inputs) <= UsedOutpoints(inputs + SpendsOf(added, owner))
    ensures forall u :: u in added ==> UtxoOutpoint(u) in UsedOutpoints(inputs + SpendsOf(added, owner))
  {
    forall u | u in added ensures UtxoOutpoint(u) in UsedOutpoints(inputs + SpendsOf(added, owner)) {
      var k :| 0 <= k < |added| && added[k] == u;
      assert SpendsOf(added, owner)[k] in inputs + SpendsOf(added, owner);
    }
  }

  lemma HeadIsMember<T>(s: seq<T>)
    ensures s != [] ==> s[0] in s
  {
  }

  lemma NoneLeft(utxos: seq<Utxo>, inputs: seq<UtxoSpend>, added: seq<Utxo>, owner: Bytes)
    requires forall u :: u in Unused(utxos, UsedOutpoints(inputs)) ==> u in added
    ensures Unused(utxos, UsedOutpoints(inputs + SpendsOf(added, owner))) == []
  {
    hide UsedOutpoints;
    AddedAreUsed(inputs, added, owner);
    var left := Unused(utxos, UsedOutpoints(inputs + SpendsOf(added, owner)));
    assert forall u :: u !in left;
    HeadIsMember(left);
  }

  lemma NothingToAdd(o: OfferState, q: Request)
    requires Unused(q.utxos, UsedOutpoints(o.inputs)) == []
    ensures Added(o, q) == [] && Balance(o, q).0.inputs == o.inputs
  {
    SameItems(SortDesc(ValueOf, []), []);
    assert SpendsOf([], q.owner) == [];
  }

  lemma AddedOnFailure(o: OfferState, q: Request)
    requires !Balance(o, q).1
    ensures Balance(o, q).0 == OfferState(o.inputs + SpendsOf(Added(o, q), q.owner), o.outputs)
    ensures InputTotal(o) + Sum(ValueOf, Added(o, q)) < Required(o, q.fee)
    ensures InputTotal(Balance(o, q).0) < Required(o, q.fee)
  {
    hide Added, Sum;
    AddedValue(o, Added(o, q), q.owner);
  }

  /** A call that fails has added every unused UTXO, so it leaves the offer alone exactly when there was none,
      and repeating it fails again without adding anything. */
  lemma BalanceFailure(o: OfferState, q: Request)
    requires !Balance(o, q).1
    ensures multiset(Added(o, q)) == multiset(Unused(q.utxos, UsedOutpoints(o.inputs)))
    ensures Balance(o, q).0 == o <==> Unused(q.utxos, UsedOutpoints(o.inputs)) == []
    ensures Balance(Balance(o, q).0, q) == (Balance(o, q).0, false)
  {
    var added, p := Added(o, q), Balance(o, q).0;
    AddedOnFailure(o, q);
    AllAreAdded(o, q);
    SameItems(added, Unused(q.utxos, UsedOutpoints(o.inputs)));
    NoneLeft(q.utxos, o.inputs, added, q.owner);
    NothingToAdd(p, q);
    hide Unused, UsedOutpoints, Added, Sum;
    assert |p.inputs| == |o.inputs| + |added|;
    AddedValue(p, [], q.owner);
  }

  // ---------------------------------------------------------------- no outpoint twice, over any run

  lemma {:induction false} UnusedDistinct(utxos: seq<Utxo>, used: set<Outpoint>)
    requires DistinctUtxos(utxos)
    ensures DistinctUtxos(Unused(utxos, used))
  {
    if utxos == [] {
    } else {
      UnusedDistinct(utxos[1..], used);
      var r := Unused(utxos[1..], used);
      forall j | 0 <= j < |r| ensures UtxoOutpoint(utxos[0]) != UtxoOutpoint(r[j]) {
        assert r[j] in utxos[1..];
      }
    }
  }

  lemma AddedAreNew(o: OfferState, q: Request)
    requires DistinctUtxos(q.utxos)
    ensures DistinctUtxos(Added(o, q))
    ensures forall u :: u in Added(o, q) ==> UtxoOutpoint(u) !in UsedOutpoints(o.inputs)
  {
    var eligible := Unused(q.utxos, UsedOutpoints(o.inputs));
    UnusedDistinct(q.utxos, UsedOutpoints(o.inputs));
    SortDistinct(eligible);
    SameItems(SortDesc(ValueOf, eligible), eligible);
  }

  /** One call, failed or not, never makes the offer spend an outpoint twice. */
  lemma BalanceKeepsDistinct(o: OfferState, q: Request)
    requires DistinctInputs(o.inputs) && DistinctUtxos(q.utxos)
    ensures DistinctInputs(Balance(o, q).0.inputs)
  {
    hide Added, Unused;
    AddedAreNew(o, q);
    var added := SpendsOf(Added(o, q), q.owner);
    forall i, j | 0 <= i < |o.inputs| && 0 <= j < |added| ensures OutpointOf(o.inputs[i]) != OutpointOf(added[j]) {
      assert OutpointOf(o.inputs[i]) in UsedOutpoints(o.inputs);
      assert OutpointOf(added[j]) == UtxoOutpoint(Added(o, q)[j]);
    }
    assert DistinctInputs(added);
  }

  /** The offer after a run of calls, failed ones included. */
  function Run(o: OfferState, calls: seq<Request>): OfferState
    decreases |calls|
  {
    if calls == [] then o else Run(Balance(o, calls[0]).0, calls[1..])
  }

  lemma BalanceGrows(o: OfferState, q: Request)
    ensures o.inputs <= Balance(o, q).0.inputs && o.outputs <= Balance(o, q).0.outputs
  {
  }

  /** Over any run of calls with any indexer answers, no outpoint is ever spent twice, and what the offer
      held at the start is still there, in front. */
  lemma {:induction false} RunKeepsDistinct(o: OfferState, calls: seq<Request>)
    requires DistinctInputs(o.inputs) && forall q :: q in calls ==> DistinctUtxos(q.utxos)
    ensures DistinctInputs(Run(o, calls).inputs)
    ensures o.inputs <= Run(o, calls).inputs && o.outputs <= Run(o, calls).outputs
    decreases |calls|
  {
    hide Balance, DistinctInputs, DistinctUtxos;
    if calls == [] {
    } else {
      BalanceKeepsDistinct(o, calls[0]);
      BalanceGrows(o, calls[0]);
      RunKeepsDistinct(Balance(o, calls[0]).0, calls[1..]);
    }
  }

  /** The run as method calls on one intent. */
  method RunBalances(intent: IntentCell, calls: seq<Request>)
    requires DistinctInputs(intent.State().inputs)
    requires forall q :: q in calls ==> DistinctUtxos(q.utxos)
    modifies intent, intent.offer
    ensures old(intent.offer) != null ==> intent.offer == old(intent.offer)
    ensures intent.State() == Run(old(intent.State()), calls)
    ensures DistinctInputs(intent.State().inputs)
  {
    hide Balance, DistinctInputs, DistinctUtxos;
    ghost var start := intent.State();
    assert calls[0..] == calls;
    for i := 0 to |calls|
      invariant intent.offer == old(intent.offer) || (old(intent.offer) == null && fresh(intent.offer))
      invariant Run(intent.State(), calls[i..]) == Run(start, calls)
    {
      assert calls[i..][1..] == calls[i + 1..];
      var ok := BalanceTransaction(intent, calls[i]);
    }
    RunKeepsDistinct(start, calls);
  }
}

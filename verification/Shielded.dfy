/** Building a shielded transfer from the coins of a local state. */
module Shielded {
  import opened Basics
  import opened Fields
  import opened MerkleSpec
  import opened Merkle
  import opened Selection
  import opened Zswap
  import Address
  import ModArith

  /** What the builder reads of the wallet's shielded keys. */
  datatype Keys = Keys(secret: Bytes, publicKey: Bytes, address: string)

  datatype Circuit =
    | Spend(coin: CoinNote, secret: Bytes, path: seq<Bytes>, nullifier: Bytes, root: Bytes)
    | Output(value: int, recipient: string, nonce: Bytes, commitment: Bytes)

  datatype ShieldedError = InsufficientShielded(have: int, need: int) | IndexOutOfBounds | NoRoot | InvalidRecipient

  datatype Result<+T> = Ok(value: T) | Err(error: ShieldedError)

  /** The path of an index, as the byte strings that a proof lists. */
  function PathBytes(h: NodeHash, leaves: Leaves, depth: nat, index: int): (r: seq<Bytes>)
    ensures |r| == depth
    ensures forall k :: 0 <= k < depth ==> r[k] == ToBytes(Path(h, leaves, depth, index)[k])
  {
    seq(depth, (k: int) requires 0 <= k < depth => ToBytes(Path(h, leaves, depth, index)[k]))
  }

  function RootBytes(h: NodeHash, leaves: Leaves, depth: nat): Bytes {
    ToBytes(Node(h, leaves, depth, 0))
  }

  function SpendOf(th: Sponge, leaves: Leaves, depth: nat, secret: Bytes, coin: CoinNote): Circuit {
    Spend(coin, secret, PathBytes(NodeHashOf(th), leaves, depth, coin.index),
          Nullifier(th, coin, LeValue(secret)), RootBytes(NodeHashOf(th), leaves, depth))
  }

  function SpendsOf(th: Sponge, leaves: Leaves, depth: nat, secret: Bytes, coins: seq<CoinNote>): (r: seq<Circuit>)
    ensures |r| == |coins|
    ensures forall k :: 0 <= k < |coins| ==> r[k] == SpendOf(th, leaves, depth, secret, coins[k])
  {
    seq(|coins|, (k: int) requires 0 <= k < |coins| => SpendOf(th, leaves, depth, secret, coins[k]))
  }

  /** A tree that can state its root. */
  ghost predicate HasRoot(leaves: Leaves) {
    leaves == map[] || HasLeafInRange(leaves)
  }

  /** What stops the spend of a coin: the path is asked for before the root. */
  ghost function SpendFault(leaves: Leaves, depth: nat, coin: CoinNote): Option<ShieldedError> {
    if coin.index >= Pow2(depth) then Some(IndexOutOfBounds)
    else if !HasRoot(leaves) then Some(NoRoot)
    else None
  }

  /** The first fault of the coins, in order. */
  ghost function FirstFault(leaves: Leaves, depth: nat, coins: seq<CoinNote>): Option<ShieldedError> {
    if coins == [] then None
    else
      var fault := SpendFault(leaves, depth, coins[0]);
      if fault.Some? then fault else FirstFault(leaves, depth, coins[1..])
  }

  function OutputOf(th: Sponge, token: Bytes, value: int, recipient: string, pk: Bytes, nonce: Bytes): Circuit {
    Output(value, recipient, nonce, CommitmentOf(th, token, value, pk, nonce))
  }

  /** The first 32 bytes of a recipient's payload. */
  function CoinKey(payload: Bytes): Bytes {
    if |payload| <= 32 then payload else payload[..32]
  }

  function Outputs(th: Sponge, keys: Keys, payload: Bytes, toAddress: string, amount: int, change: int, token: Bytes,
                   outNonce: Bytes, changeNonce: Bytes): seq<Circuit>
  {
    [OutputOf(th, token, amount, toAddress, CoinKey(payload), outNonce)]
    + if change > 0 then [OutputOf(th, token, change, keys.address, keys.publicKey, changeNonce)] else []
  }

  /** The selection of the builder: the coins of the token, largest first. */
  function Chosen(coins: seq<CoinNote>, token: Bytes, amount: int): seq<CoinNote> {
    Largest(CoinValue, OfToken(coins, token), amount)
  }

  /** The outcome for given selected coins. */
  ghost function Assemble(th: Sponge, leaves: Leaves, depth: nat, keys: Keys, selected: seq<CoinNote>, recipient: Address.Decoded,
                          toAddress: string, amount: int, token: Bytes, outNonce: Bytes, changeNonce: Bytes)
    : Result<seq<Circuit>>
  {
    var total := Sum(CoinValue, selected);
    var fault := FirstFault(leaves, depth, selected);
    if total < amount then Err(InsufficientShielded(total, amount))
    else if fault.Some? then Err(fault.value)
    else if recipient.Err? then Err(InvalidRecipient)
    else
      Ok(SpendsOf(th, leaves, depth, keys.secret, selected)
         + Outputs(th, keys, recipient.value.2, toAddress, amount, total - amount, token, outNonce, changeNonce))
  }

  lemma PathBytesUnique(h: NodeHash, leaves: Leaves, depth: nat, index: int, path: seq<Bytes>)
    requires |path| == depth
    requires forall k :: 0 <= k < depth ==> path[k] == ToBytes(Path(h, leaves, depth, index)[k])
    ensures path == PathBytes(h, leaves, depth, index)
  {
  }

  /** One spend circuit a selected coin, each with a fresh path and root of the tree. */
  method SpendCircuits(state: ZswapState, secret: Bytes, selected: seq<CoinNote>) returns (r: Result<seq<Circuit>>)
    requires state.Valid()
    ensures var leaves, depth := state.tree.leaves, state.tree.depth;
            var fault := FirstFault(leaves, depth, selected);
            r == if fault.Some? then Err(fault.value) else Ok(SpendsOf(state.th, leaves, depth, secret, selected))
  {
    hide ToBytes, Node, Path, PathBytes, Nullifier, NodeHashOf, Pow2, HasLeafInRange, LeValue;
    var circuits: seq<Circuit> := [];
    ghost var all := SpendsOf(state.th, state.tree.leaves, state.tree.depth, secret, selected);
    assert selected[0..] == selected;
    for i := 0 to |selected|
      invariant circuits == all[..i]
      invariant FirstFault(state.tree.leaves, state.tree.depth, selected)
             == FirstFault(state.tree.leaves, state.tree.depth, selected[i..])
    {
      var coin := selected[i];
      assert selected[i..][1..] == selected[i + 1..];
      var path := state.tree.Proof(coin.index);
      if path.None? {
        return Err(IndexOutOfBounds);
      }
      var root, hashes := state.tree.Root();
      if root.None? {
        return Err(NoRoot);
      }
      PathBytesUnique(state.tree.h, state.tree.leaves, state.tree.depth, coin.index, path.value);
      circuits := circuits + [Spend(coin, secret, path.value, Nullifier(state.th, coin, LeValue(secret)), root.value)];
    }
    assert all[..|all|] == all;
    r := Ok(circuits);
  }

  /** The steps of the code: filter, sort and select, prove each spend, decode, pay, and return the change. */
  method BuildShieldedTransfer(state: ZswapState, keys: Keys, toAddress: string, amount: int, token: Bytes,
                               outNonce: Bytes, changeNonce: Bytes) returns (r: Result<seq<Circuit>>)
    requires state.Valid()
    ensures r == Assemble(state.th, state.tree.leaves, state.tree.depth, keys, Chosen(state.unspentCoins, token, amount),
                          Address.DecodeAddress(toAddress), toAddress, amount, token, outNonce, changeNonce)
  {
    hide OfToken, Address.DecodeAddress, Sum, SortDesc, Taken, SpendsOf, FirstFault, CommitmentOf;
    var eligible := SortDesc(CoinValue, OfToken(state.unspentCoins, token));
    var selected, total := TakeUntil(CoinValue, eligible, amount);
    if total < amount {
      return Err(InsufficientShielded(total, amount));
    }
    var spends := SpendCircuits(state, keys.secret, selected);
    if spends.Err? {
      return spends;
    }
    var circuits := spends.value;
    var recipient := Address.DecodeAddress(toAddress);
    if recipient.Err? {
      return Err(InvalidRecipient);
    }
    var payload := recipient.value.2;
    var recipientPk := if |payload| > 32 then payload[..32] else payload;
    assert recipientPk == CoinKey(payload);
    var outCommitment := CommitmentOf(state.th, token, amount, recipientPk, outNonce);
    circuits := circuits + [Output(amount, toAddress, outNonce, outCommitment)];
    if total > amount {
      var changeVal := total - amount;
      var changeCommitment := CommitmentOf(state.th, token, changeVal, keys.publicKey, changeNonce);
      circuits := circuits + [Output(changeVal, keys.address, changeNonce, changeCommitment)];
    }
    assert circuits == spends.value + Outputs(state.th, keys, recipient.value.2, toAddress, amount, total - amount, token,
                                              outNonce, changeNonce);
    r := Ok(circuits);
  }

  // ---------------------------------------------------------------- what a built transfer guarantees

  function SpentValue(c: Circuit): int {
    if c.Spend? then c.coin.value else 0
  }

  function OutputValue(c: Circuit): int {
    if c.Output? then c.value else 0
  }

  lemma {:induction false} SpendsKeepValue(th: Sponge, leaves: Leaves, depth: nat, secret: Bytes, coins: seq<CoinNote>)
    ensures Sum(SpentValue, SpendsOf(th, leaves, depth, secret, coins)) == Sum(CoinValue, coins)
    ensures Sum(OutputValue, SpendsOf(th, leaves, depth, secret, coins)) == 0
  {
    hide PathBytes, RootBytes, Nullifier;
    if coins == [] {
    } else {
      SpendsKeepValue(th, leaves, depth, secret, coins[1..]);
      assert SpendsOf(th, leaves, depth, secret, coins)[1..] == SpendsOf(th, leaves, depth, secret, coins[1..]);
    }
  }

  lemma SumOfTwo<T>(v: T -> int, x: T, more: seq<T>)
    ensures Sum(v, [x] + more) == v(x) + Sum(v, more)
  {
    assert ([x] + more)[1..] == more;
  }

  /** Spent coins pay the outputs exactly, for every amount. */
  lemma ShieldedConserves(th: Sponge, leaves: Leaves, depth: nat, keys: Keys, selected: seq<CoinNote>, recipient: Address.Decoded,
                          toAddress: string, amount: int, token: Bytes, outNonce: Bytes, changeNonce: Bytes)
    requires Assemble(th, leaves, depth, keys, selected, recipient, toAddress, amount, token, outNonce, changeNonce).Ok?
    ensures var circuits := Assemble(th, leaves, depth, keys, selected, recipient, toAddress, amount, token, outNonce, changeNonce).value;
            Sum(SpentValue, circuits) == Sum(OutputValue, circuits)
  {
    hide FirstFault, CommitmentOf, SpendsOf, CoinKey;
    SpendsKeepValue(th, leaves, depth, keys.secret, selected);
    var spends := SpendsOf(th, leaves, depth, keys.secret, selected);
    var change := Sum(CoinValue, selected) - amount;
    var outputs := Outputs(th, keys, recipient.value.2, toAddress, amount, change, token, outNonce, changeNonce);
    var first := OutputOf(th, token, amount, toAddress, CoinKey(recipient.value.2), outNonce);
    var second := OutputOf(th, token, change, keys.address, keys.publicKey, changeNonce);
    SumConcat(SpentValue, spends, outputs);
    SumConcat(OutputValue, spends, outputs);
    SumOfTwo(SpentValue, first, if change > 0 then [second] else []);
    SumOfTwo(OutputValue, first, if change > 0 then [second] else []);
    SumOfTwo(SpentValue, second, []);
    SumOfTwo(OutputValue, second, []);
  }

  /** What a built transfer consists of, in full: a spend for every selected coin with the tree's path and root
      and the coin's nullifier, the payment for the first 32 bytes of the recipient's payload, and, if something
      is left, the change for the wallet's own key. The commitments are those of the notes paid, at any index. */
  lemma BuiltCircuits(th: Sponge, leaves: Leaves, depth: nat, keys: Keys, selected: seq<CoinNote>, recipient: Address.Decoded,
                      toAddress: string, amount: int, token: Bytes, outNonce: Bytes, changeNonce: Bytes, index: int)
    requires Assemble(th, leaves, depth, keys, selected, recipient, toAddress, amount, token, outNonce, changeNonce).Ok?
    ensures var circuits := Assemble(th, leaves, depth, keys, selected, recipient, toAddress, amount, token, outNonce, changeNonce).value;
            var payload, change, n := recipient.value.2, Sum(CoinValue, selected) - amount, |selected|;
            var pk := if |payload| >= 32 then payload[..32] else payload;
            && |circuits| == n + (if change > 0 then 2 else 1)
            && (forall k :: 0 <= k < n ==>
                  && circuits[k].Spend? && circuits[k].coin == selected[k] && circuits[k].secret == keys.secret
                  && circuits[k].nullifier == Nullifier(th, selected[k], LeValue(keys.secret))
                  && circuits[k].root == LeBytes(Node(NodeHashOf(th), leaves, depth, 0), 32)
                  && |circuits[k].path| == depth
                  && forall j :: 0 <= j < depth ==>
                       circuits[k].path[j] == LeBytes(Path(NodeHashOf(th), leaves, depth, selected[k].index)[j], 32))
            && circuits[n] == Output(amount, toAddress, outNonce, Commitment(th, CoinNote(token, amount, outNonce, pk, index)))
            && (change > 0 ==>
                  circuits[n + 1] == Output(change, keys.address, changeNonce,
                                            Commitment(th, CoinNote(token, change, changeNonce, keys.publicKey, index))))
  {
    hide FirstFault, CommitmentOf, Sum, LeValue, LeBytes, Nullifier, NodeHashOf, Node, Path;
    var spends := SpendsOf(th, leaves, depth, keys.secret, selected);
    var circuits := Assemble(th, leaves, depth, keys, selected, recipient, toAddress, amount, token, outNonce, changeNonce).value;
    assert circuits[..|selected|] == spends;
    var payload := recipient.value.2;
    assert |payload| == 32 ==> payload[..32] == payload;
  }

  lemma {:induction false} FaultFree(leaves: Leaves, depth: nat, coins: seq<CoinNote>)
    ensures FirstFault(leaves, depth, coins).None? <==>
      (coins == [] || HasRoot(leaves)) && forall c :: c in coins ==> c.index < Pow2(depth)
  {
    hide HasRoot, Pow2;
    if coins == [] {
    } else {
      FaultFree(leaves, depth, coins[1..]);
    }
  }

  lemma ChosenAreOfToken(coins: seq<CoinNote>, token: Bytes, amount: int)
    ensures forall c :: c in Chosen(coins, token, amount) ==> c in coins && c.tokenType == token
  {
    LargestFrom(CoinValue, OfToken(coins, token), amount);
  }

  /** In any tree, the path of a spent coin folds from the coin's commitment to the stated root when the
      coin's leaf is its commitment and its index is not negative. */
  lemma SpendFolds(th: Sponge, s: Snapshot, depth: nat, secret: Bytes, c: CoinNote)
    requires Provable(th, s, c) && 0 <= c.index < Pow2(depth)
    ensures var spend := SpendOf(th, s.leaves, depth, secret, c);
            FoldBytes(NodeHashOf(th), FromBytes(Commitment(th, c)), c.index, spend.path) == FromBytes(spend.root)
  {
    hide ToBytes, FromBytes, Node, Path, FoldBytes, Commitment, Pow2;
    var h := NodeHashOf(th);
    ProofFoldsToRoot(h, s.leaves, depth, c.index, PathBytes(h, s.leaves, depth, c.index));
    BytesRoundTrip(Node(h, s.leaves, depth, 0));
  }

  ghost predicate DistinctNotes(notes: seq<CoinNote>) {
    forall a, b :: 0 <= a < b < |notes| ==> notes[a].index != notes[b].index
  }

  /** The notes that a wallet holds after scanning a chain: they sit at distinct indices of the tree. */
  ghost predicate InTree(depth: nat, notes: seq<CoinNote>) {
    DistinctNotes(notes) && forall a :: 0 <= a < |notes| ==> 0 <= notes[a].index < Pow2(depth)
  }

  /** After any run that adds such notes: each spend circuit is of a coin of the token, and its path folds
      from that coin's commitment to its root. */
  lemma SpendsAreProvable(th: Sponge, depth: nat, ops: seq<Op>, keys: Keys, recipient: Address.Decoded, toAddress: string, amount: int,
                          token: Bytes, outNonce: Bytes, changeNonce: Bytes)
    requires InTree(depth, Added(ops))
    requires var s := Run(th, depth, ops);
             Assemble(th, s.leaves, depth, keys, Chosen(s.coins, token, amount), recipient, toAddress, amount, token,
                      outNonce, changeNonce).Ok?
    ensures var s := Run(th, depth, ops);
            var circuits := Assemble(th, s.leaves, depth, keys, Chosen(s.coins, token, amount), recipient, toAddress, amount,
                                     token, outNonce, changeNonce).value;
            forall c :: c in circuits && c.Spend? ==>
              && c.coin in Added(ops) && c.coin.tokenType == token
              && c.nullifier == Nullifier(th, c.coin, LeValue(keys.secret))
              && FoldBytes(NodeHashOf(th), FromBytes(Commitment(th, c.coin)), c.coin.index, c.path) == FromBytes(c.root)
  {
    hide Run, Added, Chosen, FirstFault, CommitmentOf, Commitment, PathBytes, RootBytes, FoldBytes, Nullifier, Provable, Pow2,
         FromBytes, LeValue, Sum, NodeHashOf, CoinKey;
    var s := Run(th, depth, ops);
    var chosen := Chosen(s.coins, token, amount);
    ChosenAreOfToken(s.coins, token, amount);
    forall c | c in chosen
      ensures var spend := SpendOf(th, s.leaves, depth, keys.secret, c);
              c in Added(ops) && FoldBytes(NodeHashOf(th), FromBytes(Commitment(th, c)), c.index, spend.path) == FromBytes(spend.root)
    {
      CoinsAreAdded(th, depth, ops);
      DistinctCoinsProvable(th, depth, ops, c);
      SpendFolds(th, s, depth, keys.secret, c);
    }
    var spends := SpendsOf(th, s.leaves, depth, keys.secret, chosen);
    var circuits := Assemble(th, s.leaves, depth, keys, chosen, recipient, toAddress, amount, token, outNonce, changeNonce).value;
    forall c | c in circuits && c.Spend?
      ensures c.coin in chosen && c == SpendOf(th, s.leaves, depth, keys.secret, c.coin)
    {
      assert c in spends;
    }
  }

  /** Building succeeds exactly when the selection covers the amount, the recipient decodes, every chosen
      index is in bounds, and the tree can state its root if it is asked. For coins of non-negative value the
      selection covers the amount exactly when the balance does. */
  lemma ShieldedSucceeds(th: Sponge, s: Snapshot, depth: nat, keys: Keys, recipient: Address.Decoded, toAddress: string,
                         amount: int, token: Bytes, outNonce: Bytes, changeNonce: Bytes)
    ensures var chosen := Chosen(s.coins, token, amount);
            && (Assemble(th, s.leaves, depth, keys, chosen, recipient, toAddress, amount, token, outNonce, changeNonce).Ok? <==>
                  && Sum(CoinValue, chosen) >= amount && recipient.Ok?
                  && (chosen == [] || HasRoot(s.leaves)) && forall c :: c in chosen ==> c.index < Pow2(depth))
            && (NonNegative(CoinValue, s.coins) ==>
                  (Sum(CoinValue, chosen) >= amount <==> Balance(s.coins, token) >= amount))
  {
    hide Sum, Largest, HasRoot, Pow2, FirstFault, Outputs, SpendsOf;
    if NonNegative(CoinValue, s.coins) {
      LargestCovers(CoinValue, OfToken(s.coins, token), amount);
    }
    FaultFree(s.leaves, depth, Chosen(s.coins, token, amount));
  }

  lemma RootStated(th: Sponge, s: Snapshot, c: CoinNote)
    requires Provable(th, s, c) && c.index >= 0
    ensures HasRoot(s.leaves)
  {
  }

  lemma ChosenIsFewest(coins: seq<CoinNote>, token: Bytes, amount: int, t: seq<CoinNote>)
    requires NonNegative(CoinValue, coins) && amount > 0
    requires multiset(t) <= multiset(OfToken(coins, token)) && |t| < |Chosen(coins, token, amount)|
    ensures Sum(CoinValue, t) < amount
  {
    LargestIsFewest(CoinValue, OfToken(coins, token), amount, t);
  }

  /** After any run that adds notes at distinct indices of the tree, the selection and the address alone
      decide whether a transfer is built. */
  lemma RunBuilds(th: Sponge, depth: nat, ops: seq<Op>, keys: Keys, recipient: Address.Decoded, toAddress: string, amount: int,
                  token: Bytes, outNonce: Bytes, changeNonce: Bytes)
    requires InTree(depth, Added(ops))
    ensures var s := Run(th, depth, ops);
            var chosen := Chosen(s.coins, token, amount);
            Assemble(th, s.leaves, depth, keys, chosen, recipient, toAddress, amount, token, outNonce, changeNonce).Ok? <==>
              Sum(CoinValue, chosen) >= amount && recipient.Ok?
  {
    hide Run, Added, Chosen, Assemble, Pow2, Balance, Provable, Sum, NonNegative;
    var s := Run(th, depth, ops);
    var chosen := Chosen(s.coins, token, amount);
    CoinsAreAdded(th, depth, ops);
    ChosenAreOfToken(s.coins, token, amount);
    ShieldedSucceeds(th, s, depth, keys, recipient, toAddress, amount, token, outNonce, changeNonce);
    if chosen != [] {
      assert chosen[0] in chosen;
      DistinctCoinsProvable(th, depth, ops, chosen[0]);
      RootStated(th, s, chosen[0]);
    }
  }

  /** So for notes of non-negative value the balance and the address alone decide, and then no fewer coins of
      the token cover a positive amount. */
  lemma RunSucceeds(th: Sponge, depth: nat, ops: seq<Op>, keys: Keys, recipient: Address.Decoded, toAddress: string, amount: int,
                    token: Bytes, outNonce: Bytes, changeNonce: Bytes)
    requires InTree(depth, Added(ops)) && NonNegative(CoinValue, Added(ops))
    ensures var s := Run(th, depth, ops);
            var chosen := Chosen(s.coins, token, amount);
            && (Assemble(th, s.leaves, depth, keys, chosen, recipient, toAddress, amount, token, outNonce, changeNonce).Ok? <==>
                  Balance(s.coins, token) >= amount && recipient.Ok?)
            && (amount > 0 ==> forall t :: multiset(t) <= multiset(OfToken(s.coins, token)) && |t| < |chosen| ==>
                  Sum(CoinValue, t) < amount)
  {
    hide Run, Added, Chosen, Assemble, Pow2, Balance, InTree, Sum, NonNegative;
    var s := Run(th, depth, ops);
    CoinsAreAdded(th, depth, ops);
    RunBuilds(th, depth, ops, keys, recipient, toAddress, amount, token, outNonce, changeNonce);
    ShieldedSucceeds(th, s, depth, keys, recipient, toAddress, amount, token, outNonce, changeNonce);
    if amount > 0 {
      forall t | multiset(t) <= multiset(OfToken(s.coins, token)) && |t| < |Chosen(s.coins, token, amount)|
        ensures Sum(CoinValue, t) < amount
      {
        ChosenIsFewest(s.coins, token, amount, t);
      }
    }
  }

  // ---------------------------------------------------------------- no nullifier twice in a transfer

  lemma {:induction false} HeldOnce(notes: seq<CoinNote>, c: CoinNote)
    requires DistinctNotes(notes)
    ensures multiset(notes)[c] <= 1
  {
    if notes == [] {
    } else {
      HeldOnce(notes[1..], c);
      assert notes == [notes[0]] + notes[1..];
      if c == notes[0] {
        assert c !in notes[1..];
      }
    }
  }

  lemma HeldTwice(s: seq<CoinNote>, i: nat, j: nat)
    requires i < j < |s| && s[i] == s[j]
    ensures multiset(s)[s[i]] >= 2
  {
    assert s == s[..j] + s[j..];
    assert s[i] in s[..j] && s[j] in s[j..];
    assert multiset(s) == multiset(s[..j]) + multiset(s[j..]);
  }

  lemma {:induction false} OfTokenSelects(coins: seq<CoinNote>, token: Bytes)
    ensures multiset(OfToken(coins, token)) <= multiset(coins)
  {
    if coins == [] {
    } else {
      OfTokenSelects(coins[1..], token);
      assert coins == [coins[0]] + coins[1..];
    }
  }

  lemma SameIndexSameNote(notes: seq<CoinNote>, c: CoinNote, d: CoinNote)
    requires DistinctNotes(notes) && c in notes && d in notes && c.index == d.index
    ensures c == d
  {
    var k :| 0 <= k < |notes| && notes[k] == c;
    var l :| 0 <= l < |notes| && notes[l] == d;
  }

  lemma SubBagDistinct(t: seq<CoinNote>, notes: seq<CoinNote>)
    requires DistinctNotes(notes) && multiset(t) <= multiset(notes)
    ensures DistinctNotes(t)
  {
    forall a, b | 0 <= a < b < |t| ensures t[a].index != t[b].index {
      hide DistinctNotes;
      assert t[a] in multiset(t) && t[b] in multiset(t);
      if t[a].index == t[b].index {
        SameIndexSameNote(notes, t[a], t[b]);
        HeldTwice(t, a, b);
        HeldOnce(notes, t[a]);
      }
    }
  }

  /** Coins held at distinct indices are chosen at most once each. */
  lemma ChosenAreDistinct(coins: seq<CoinNote>, token: Bytes, amount: int)
    requires DistinctNotes(coins)
    ensures DistinctNotes(Chosen(coins, token, amount))
  {
    hide OfToken, DistinctNotes, Largest;
    OfTokenSelects(coins, token);
    LargestSelects(CoinValue, OfToken(coins, token), amount);
    SubBagDistinct(Chosen(coins, token, amount), coins);
  }

  /** After any run that adds notes at distinct indices of the tree, the spends of one transfer have different indices. Two of
      them share a nullifier exactly on a collision of the sponge hash or when their indices agree modulo p,
      which no tree of at most p leaves allows. */
  lemma NullifiersDistinct(th: Sponge, depth: nat, ops: seq<Op>, secret: Bytes, token: Bytes, amount: int, a: nat, b: nat)
    requires InTree(depth, Added(ops))
    requires a < b < |Chosen(Run(th, depth, ops).coins, token, amount)|
    ensures var s := Run(th, depth, ops);
            var spends := SpendsOf(th, s.leaves, depth, secret, Chosen(s.coins, token, amount));
            var i, j, k := spends[a].coin.index, spends[b].coin.index, LeValue(secret);
            && i != j
            && (spends[a].nullifier == spends[b].nullifier <==>
                  i % FR_MODULUS == j % FR_MODULUS || Collide(th, NullifierInputs(i, k), NullifierInputs(j, k)))
            && (Pow2(depth) <= FR_MODULUS ==> i % FR_MODULUS != j % FR_MODULUS)
  {
    hide Run, Added, Chosen, Pow2, Nullifier, PathBytes, RootBytes, LeValue, ToFr, Collide, NullifierInputs;
    var s := Run(th, depth, ops);
    var chosen := Chosen(s.coins, token, amount);
    CoinsAreAdded(th, depth, ops);
    ChosenAreDistinct(s.coins, token, amount);
    ChosenAreOfToken(s.coins, token, amount);
    assert chosen[a] in s.coins && chosen[b] in s.coins;
    NullifierBinds(th, chosen[a], LeValue(secret), chosen[b], LeValue(secret));
    if Pow2(depth) <= FR_MODULUS {
      ModArith.RemainderUnique(FR_MODULUS, chosen[a].index, 0, chosen[a].index);
      ModArith.RemainderUnique(FR_MODULUS, chosen[b].index, 0, chosen[b].index);
    }
  }

  // ---------------------------------------------------------------- spent nullifiers are not consulted

  /** No selection that covers its amount, be it positive or not, takes a coin whose nullifier is already
      recorded as spent. */
  ghost predicate NeverRespends(th: Sponge, s: Snapshot, secret: int) {
    forall token, amount, c ::
      Sum(CoinValue, Chosen(s.coins, token, amount)) >= amount && c in Chosen(s.coins, token, amount) ==>
        Nullifier(th, c, secret) !in s.spent
  }

  /** A coin that heads the order of its token: an amount of at most its value takes it alone. */
  ghost predicate Heads(coins: seq<CoinNote>, c: CoinNote) {
    c in coins && c == SortDesc(CoinValue, OfToken(coins, c.tokenType))[0]
  }

  lemma ChosenIsUsable(coins: seq<CoinNote>, token: Bytes, amount: int, c: CoinNote)
    requires Sum(CoinValue, Chosen(coins, token, amount)) >= amount && c in Chosen(coins, token, amount)
    ensures c in coins && (c.value > 0 || Heads(coins, c))
  {
    ChosenAreOfToken(coins, token, amount);
    LargestTakes(CoinValue, OfToken(coins, token), amount, c);
  }

  lemma UsableIsChosen(coins: seq<CoinNote>, c: CoinNote) returns (amount: int)
    requires c in coins && (c.value > 0 || Heads(coins, c))
    ensures c in Chosen(coins, c.tokenType, amount) && Sum(CoinValue, Chosen(coins, c.tokenType, amount)) >= amount
  {
    hide Sum, Largest;
    var eligible := OfToken(coins, c.tokenType);
    assert c in eligible;
    if c.value > 0 {
      amount := LargestTakesPositive(CoinValue, eligible, c);
    } else {
      amount := LargestTakesFirst(CoinValue, eligible);
    }
  }

  /** Selection does not look at the recorded nullifiers. It respends nothing exactly when neither a coin of
      positive value nor the coin that heads the order of its token has its nullifier recorded. */
  lemma NeverRespendsIff(th: Sponge, s: Snapshot, secret: int)
    ensures NeverRespends(th, s, secret) <==>
      forall c :: c in s.coins && (c.value > 0 || Heads(s.coins, c)) ==> Nullifier(th, c, secret) !in s.spent
  {
    hide Chosen, Heads, Nullifier, Sum;
    forall token, amount, c
      | Sum(CoinValue, Chosen(s.coins, token, amount)) >= amount && c in Chosen(s.coins, token, amount)
      ensures c in s.coins && (c.value > 0 || Heads(s.coins, c))
    {
      ChosenIsUsable(s.coins, token, amount, c);
    }
    if NeverRespends(th, s, secret) {
      forall c | c in s.coins && (c.value > 0 || Heads(s.coins, c)) ensures Nullifier(th, c, secret) !in s.spent {
        var amount := UsableIsChosen(s.coins, c);
      }
    }
  }

  /** The nullifiers that a run records. */
  function Marked(ops: seq<Op>): set<Bytes> {
    set k | 0 <= k < |ops| && ops[k].Spent? :: ops[k].nullifier
  }

  lemma {:induction false} SpentAreMarked(th: Sponge, depth: nat, ops: seq<Op>)
    ensures Run(th, depth, ops).spent == Marked(ops)
    decreases |ops|
  {
    if ops == [] {
      assert Marked(ops) == {};
    } else {
      var front, op := ops[..|ops| - 1], ops[|ops| - 1];
      SpentAreMarked(th, depth, front);
      assert Marked(ops) == Marked(front) + (if op.Spent? then {op.nullifier} else {});
    }
  }

  /** Over any run: selections respend nothing exactly when no added note that is of positive value or heads
      the order of its token was ever marked. */
  lemma RunRespends(th: Sponge, depth: nat, ops: seq<Op>, secret: int)
    ensures NeverRespends(th, Run(th, depth, ops), secret) <==>
      forall c :: c in Added(ops) && (c.value > 0 || Heads(Added(ops), c)) ==> Nullifier(th, c, secret) !in Marked(ops)
  {
    hide Run, Added, NeverRespends, Heads, Marked, Nullifier, Pow2;
    CoinsAreAdded(th, depth, ops);
    SpentAreMarked(th, depth, ops);
    NeverRespendsIff(th, Run(th, depth, ops), secret);
  }

  lemma AddedThenMarked(th: Sponge, depth: nat, c: CoinNote, nullifier: Bytes)
    requires c.index < Pow2(depth)
    ensures Run(th, depth, [Add(c), Spent(nullifier)]) == Snapshot([c], {nullifier}, map[c.index := Commitment(th, c)])
  {
    hide Pow2, Commitment, Remaining;
    var first, ops := [Add(c)], [Add(c), Spent(nullifier)];
    assert first[..|first| - 1] == [] && ops[..|ops| - 1] == first;
    NothingRemoved(th, [c], nullifier);
    var start := Snapshot([], {}, map[]);
    assert Run(th, depth, []) == start;
    var held := Step(th, depth, start, Add(c));
    assert held.coins == [c] && Run(th, depth, first) == held;
    assert Run(th, depth, ops) == Step(th, depth, held, Spent(nullifier));
  }

  lemma OnlyCoinIsChosen(c: CoinNote, amount: int)
    ensures Chosen([c], c.tokenType, amount) == [c] && Sum(CoinValue, [c]) == c.value
  {
    assert [c] == [c] + [];
    SumOfTwo(CoinValue, c, []);
    assert OfToken([c], c.tokenType) == [c] by {
      assert OfToken([c][1..], c.tokenType) == [];
    }
    assert SortDesc(CoinValue, [c]) == [c] by {
      assert SortDesc(CoinValue, [c][1..]) == [];
    }
    TakenFirst(CoinValue, [c], amount);
  }

  /** Concretely: a coin that was added and then marked as spent is chosen again for every amount up to its
      value, and the transfer is built. A coin of value zero is respent by a transfer of zero. */
  lemma SpentCoinIsRespent(th: Sponge, depth: nat, c: CoinNote, keys: Keys, recipient: Address.Decoded, toAddress: string,
                           amount: int, outNonce: Bytes, changeNonce: Bytes)
    requires amount <= c.value && 0 <= c.index < Pow2(depth) && recipient.Ok?
    ensures var secret := LeValue(keys.secret);
            var s := Run(th, depth, [Add(c), Spent(Nullifier(th, c, secret))]);
            && Chosen(s.coins, c.tokenType, amount) == [c] && Nullifier(th, c, secret) in s.spent
            && Assemble(th, s.leaves, depth, keys, [c], recipient, toAddress, amount, c.tokenType, outNonce, changeNonce).Ok?
  {
    hide LeValue, Nullifier, Pow2, Commitment, Run, Chosen, FirstFault, Outputs, SpendsOf, Sum;
    AddedThenMarked(th, depth, c, Nullifier(th, c, LeValue(keys.secret)));
    OnlyCoinIsChosen(c, amount);
    var leaves := map[c.index := Commitment(th, c)];
    assert c.index in leaves && HasRoot(leaves);
    FaultFree(leaves, depth, [c]);
  }
}

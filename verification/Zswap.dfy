/** Shielded coins, their commitments and nullifiers, and the local state that tracks them. */
module Zswap {
  import opened Basics
  import opened Fields
  import opened MerkleSpec
  import opened Merkle
  import opened Selection
  import ModArith
  import Constants

  /** The sponge hash of a list of field elements, an arbitrary function here. */
  type Sponge = seq<Fr> -> Fr

  datatype CoinNote = CoinNote(tokenType: Bytes, value: int, nonce: Bytes, ownerPk: Bytes, index: int)

  function NodeHashOf(th: Sponge): NodeHash {
    (left: Fr, right: Fr) => th([left, right])
  }

  function ToFr(v: int): Fr {
    v % FR_MODULUS
  }

  function CommitmentInputs(tokenType: Bytes, value: int, ownerPk: Bytes, nonce: Bytes): seq<Fr> {
    [FromBytes(tokenType), ToFr(value), FromBytes(ownerPk), FromBytes(nonce)]
  }

  function CommitmentOf(th: Sponge, tokenType: Bytes, value: int, ownerPk: Bytes, nonce: Bytes): Bytes {
    ToBytes(th(CommitmentInputs(tokenType, value, ownerPk, nonce)))
  }

  function Commitment(th: Sponge, c: CoinNote): Bytes {
    CommitmentOf(th, c.tokenType, c.value, c.ownerPk, c.nonce)
  }

  /** The order of the fields in the hash: token, value, owner, nonce, each read as a number modulo p. */
  lemma CommitmentIs(th: Sponge, c: CoinNote)
    ensures var token, value: Fr := LeValue(c.tokenType) % FR_MODULUS, c.value % FR_MODULUS;
            var owner, nonce: Fr := LeValue(c.ownerPk) % FR_MODULUS, LeValue(c.nonce) % FR_MODULUS;
            Commitment(th, c) == LeBytes(th([token, value, owner, nonce]), 32)
  {
    hide LeValue, LeBytes;
  }

  /** Inner nodes hash the left child before the right one. */
  lemma NodeHashIs(th: Sponge, left: Fr, right: Fr)
    ensures NodeHashOf(th)(left, right) == th([left, right])
  {
  }

  function InputsOf(c: CoinNote): seq<Fr> {
    CommitmentInputs(c.tokenType, c.value, c.ownerPk, c.nonce)
  }

  /** Two notes that the field cannot tell apart: their byte strings are the same numbers modulo p, and so
      are their values. */
  predicate SameInField(c: CoinNote, d: CoinNote) {
    && LeValue(c.tokenType) % FR_MODULUS == LeValue(d.tokenType) % FR_MODULUS
    && c.value % FR_MODULUS == d.value % FR_MODULUS
    && LeValue(c.ownerPk) % FR_MODULUS == LeValue(d.ownerPk) % FR_MODULUS
    && LeValue(c.nonce) % FR_MODULUS == LeValue(d.nonce) % FR_MODULUS
  }

  ghost predicate Collide(th: Sponge, x: seq<Fr>, y: seq<Fr>) {
    x != y && th(x) == th(y)
  }

  lemma DigestsAgree(th: Sponge, x: seq<Fr>, y: seq<Fr>)
    ensures ToBytes(th(x)) == ToBytes(th(y)) <==> x == y || Collide(th, x, y)
  {
    hide FromBytes, ToBytes;
    BytesRoundTrip(th(x));
    BytesRoundTrip(th(y));
  }

  /** Any two notes share a commitment exactly when the field cannot tell them apart, or when they exhibit
      a collision of the sponge hash. */
  lemma CommitmentBinds(th: Sponge, c: CoinNote, d: CoinNote)
    ensures Commitment(th, c) == Commitment(th, d) <==> SameInField(c, d) || Collide(th, InputsOf(c), InputsOf(d))
    ensures InputsOf(c) == InputsOf(d) <==> SameInField(c, d)
  {
    var x, y := InputsOf(c), InputsOf(d);
    DigestsAgree(th, x, y);
    hide LeValue, ToBytes;
    assert x == y <==> x[0] == y[0] && x[1] == y[1] && x[2] == y[2] && x[3] == y[3];
  }

  /** Another byte string of the same length that the field reads as the same element. */
  function Twin(b: Bytes): Bytes {
    var v := LeValue(b);
    LeBytes(if v < FR_MODULUS then v + FR_MODULUS else v - FR_MODULUS, |b|)
  }

  lemma TwiceTheModulusFits(n: nat)
    requires n >= 32
    ensures 2 * FR_MODULUS < Pow2(8 * n)
  {
    Constants.FieldSize();
    Pow2Add(1, 255);
    Pow2Monotone(256, 8 * n);
    assert Pow2(1) == 2;
    hide Pow2;
  }

  /** Every string of 32 bytes or more has such a twin: twice the modulus fits into 256 bits. */
  lemma TwinReadsAlike(b: Bytes)
    requires |b| >= 32
    ensures |Twin(b)| == |b| && Twin(b) != b && LeValue(Twin(b)) % FR_MODULUS == LeValue(b) % FR_MODULUS
  {
    var v, w := LeValue(b), LeValue(Twin(b));
    LeBytesOfValue(b);
    TwiceTheModulusFits(|b|);
    hide Pow2, LeBytes, LeValue;
    LeValueOfBytes(if v < FR_MODULUS then v + FR_MODULUS else v - FR_MODULUS, |b|);
    ModArith.CongIntro(FR_MODULUS, w, v, if v < FR_MODULUS then 1 else -1);
  }

  /** So no commitment pins down a 32-byte nonce, whatever the sponge hash: a note with another nonce, and
      one with another value, have the same commitment without any collision. */
  lemma CommitmentTwins(th: Sponge, c: CoinNote)
    requires |c.nonce| == 32
    ensures var d := c.(nonce := Twin(c.nonce)); d != c && |d.nonce| == 32 && Commitment(th, d) == Commitment(th, c)
    ensures var e := c.(value := c.value + FR_MODULUS); e != c && Commitment(th, e) == Commitment(th, c)
  {
    hide Twin, LeValue, Commitment, InputsOf;
    TwinReadsAlike(c.nonce);
    ModArith.CongIntro(FR_MODULUS, c.value + FR_MODULUS, c.value, 1);
    CommitmentBinds(th, c.(nonce := Twin(c.nonce)), c);
    CommitmentBinds(th, c.(value := c.value + FR_MODULUS), c);
  }

  /** 32 bytes that spell a field element. */
  predicate CanonicalBytes(b: Bytes) {
    |b| == 32 && LeValue(b) < FR_MODULUS
  }

  predicate CanonicalNote(c: CoinNote) {
    && CanonicalBytes(c.tokenType) && CanonicalBytes(c.ownerPk) && CanonicalBytes(c.nonce)
    && 0 <= c.value < FR_MODULUS
  }

  lemma CanonicalInjective(a: Bytes, b: Bytes)
    requires CanonicalBytes(a) && CanonicalBytes(b) && LeValue(a) % FR_MODULUS == LeValue(b) % FR_MODULUS
    ensures a == b
  {
    LeBytesOfValue(a);
    LeBytesOfValue(b);
    hide LeBytes, LeValue;
    ModArith.CongEqual(FR_MODULUS, LeValue(a), LeValue(b));
  }

  /** Between notes whose fields all spell field elements, a commitment does bind token, value, owner and
      nonce, up to a collision. */
  lemma CanonicalCommitmentBinds(th: Sponge, c: CoinNote, d: CoinNote)
    requires CanonicalNote(c) && CanonicalNote(d)
    ensures Commitment(th, c) == Commitment(th, d) <==> c == d.(index := c.index) || Collide(th, InputsOf(c), InputsOf(d))
  {
    CommitmentBinds(th, c, d);
    hide CanonicalBytes, Commitment, InputsOf, LeValue;
    if SameInField(c, d) {
      CanonicalInjective(c.tokenType, d.tokenType);
      CanonicalInjective(c.ownerPk, d.ownerPk);
      CanonicalInjective(c.nonce, d.nonce);
      ModArith.CongEqual(FR_MODULUS, c.value, d.value);
    }
  }

  /** The canonical reading of a note: every field reduced as the field reads it. */
  function CanonicalBytesOf(b: Bytes): Bytes {
    ToBytes(FromBytes(b))
  }

  function CanonicalForm(c: CoinNote): CoinNote {
    CoinNote(CanonicalBytesOf(c.tokenType), ToFr(c.value), CanonicalBytesOf(c.nonce), CanonicalBytesOf(c.ownerPk), c.index)
  }

  lemma CanonicalBytesOfIs(b: Bytes)
    ensures CanonicalBytes(CanonicalBytesOf(b)) && LeValue(CanonicalBytesOf(b)) == LeValue(b) % FR_MODULUS
    ensures CanonicalBytes(b) ==> CanonicalBytesOf(b) == b
  {
    var v := FromBytes(b);
    Constants.FieldSize();
    Pow2Monotone(255, 256);
    hide LeBytes, LeValue, Pow2;
    LeValueOfBytes(v, 32);
    if CanonicalBytes(b) {
      ModArith.RemainderUnique(FR_MODULUS, LeValue(b), 0, LeValue(b));
      LeBytesOfValue(b);
    }
  }

  /** Every note commits to what its canonical form commits to, and the canonical notes are exactly those
      that are their own canonical form. */
  lemma CanonicalFormCommits(th: Sponge, c: CoinNote)
    ensures CanonicalNote(CanonicalForm(c)) && Commitment(th, CanonicalForm(c)) == Commitment(th, c)
    ensures CanonicalNote(c) <==> CanonicalForm(c) == c
  {
    CanonicalBytesOfIs(c.tokenType);
    CanonicalBytesOfIs(c.ownerPk);
    CanonicalBytesOfIs(c.nonce);
    ModArith.CongMod(FR_MODULUS, c.value);
    hide CanonicalBytesOf, CanonicalBytes, LeValue, Commitment, InputsOf;
    var d := CanonicalForm(c);
    ModArith.CongMod(FR_MODULUS, LeValue(c.tokenType));
    ModArith.CongMod(FR_MODULUS, LeValue(c.ownerPk));
    ModArith.CongMod(FR_MODULUS, LeValue(c.nonce));
    CommitmentBinds(th, d, c);
  }

  function NullifierInputs(index: int, secret: int): seq<Fr> {
    [ToFr(secret), ToFr(index)]
  }

  function Nullifier(th: Sponge, c: CoinNote, secret: int): Bytes {
    ToBytes(th(NullifierInputs(c.index, secret)))
  }

  /** The secret stands before the index. */
  lemma NullifierIs(th: Sponge, c: CoinNote, secret: int)
    ensures var s, i: Fr := secret % FR_MODULUS, c.index % FR_MODULUS;
            Nullifier(th, c, secret) == LeBytes(th([s, i]), 32)
  {
    hide LeBytes;
  }

  /** Nullifiers agree exactly when secrets and indices agree modulo p, or on a collision of the sponge hash. */
  lemma NullifierBinds(th: Sponge, c: CoinNote, secret: int, d: CoinNote, other: int)
    ensures Nullifier(th, c, secret) == Nullifier(th, d, other) <==>
      || (secret % FR_MODULUS == other % FR_MODULUS && c.index % FR_MODULUS == d.index % FR_MODULUS)
      || Collide(th, NullifierInputs(c.index, secret), NullifierInputs(d.index, other))
  {
    var x, y := NullifierInputs(c.index, secret), NullifierInputs(d.index, other);
    DigestsAgree(th, x, y);
    hide ToBytes;
    assert x == y <==> x[0] == y[0] && x[1] == y[1];
  }

  /** Without a secret there is no nullifier. */
  function NullifierSafe(th: Sponge, c: CoinNote, secret: Option<int>): Option<Bytes> {
    if secret.None? then None else Some(Nullifier(th, c, secret.value))
  }

  /** The coins that a spent nullifier leaves: the code asks for nullifiers without a secret. */
  function Remaining(th: Sponge, coins: seq<CoinNote>, nullifier: Bytes): seq<CoinNote> {
    if coins == [] then []
    else
      (if NullifierSafe(th, coins[0], None) != Some(nullifier) then [coins[0]] else [])
      + Remaining(th, coins[1..], nullifier)
  }

  /** So marking a nullifier as spent removes no coin. */
  lemma {:induction false} NothingRemoved(th: Sponge, coins: seq<CoinNote>, nullifier: Bytes)
    ensures Remaining(th, coins, nullifier) == coins
  {
    if coins == [] {
    } else {
      NothingRemoved(th, coins[1..], nullifier);
    }
  }

  /** A coin stays unspent after its own nullifier is marked. */
  lemma SpentCoinStays(th: Sponge, c: CoinNote, secret: int)
    ensures Remaining(th, [c], Nullifier(th, c, secret)) == [c]
  {
    NothingRemoved(th, [c], Nullifier(th, c, secret));
  }

  /** Marking leaves no coin of that nullifier exactly when there was none before. */
  lemma MarkSpentIff(th: Sponge, coins: seq<CoinNote>, secret: int, nullifier: Bytes)
    ensures (forall c :: c in Remaining(th, coins, nullifier) ==> Nullifier(th, c, secret) != nullifier) <==>
      (forall c :: c in coins ==> Nullifier(th, c, secret) != nullifier)
  {
    hide Nullifier, Remaining;
    NothingRemoved(th, coins, nullifier);
  }

  function CoinValue(c: CoinNote): int {
    c.value
  }

  function Kept(c: CoinNote, token: Bytes): seq<CoinNote> {
    if c.tokenType == token then [c] else []
  }

  function OfToken(coins: seq<CoinNote>, token: Bytes): (r: seq<CoinNote>)
    ensures forall c :: c in r <==> c in coins && c.tokenType == token
  {
    if coins == [] then []
    else Kept(coins[0], token) + OfToken(coins[1..], token)
  }

  lemma OfTokenSteps(coins: seq<CoinNote>, token: Bytes)
    ensures OfToken([], token) == []
    ensures coins != [] ==> OfToken(coins, token) == Kept(coins[0], token) + OfToken(coins[1..], token)
  {
  }

  lemma {:induction false} OfTokenSnoc(coins: seq<CoinNote>, i: nat, token: Bytes)
    requires i < |coins|
    ensures OfToken(coins[..i + 1], token) == OfToken(coins[..i], token) + Kept(coins[i], token)
    decreases i
  {
    hide OfToken, Kept;
    OfTokenSteps(coins[..i + 1], token);
    if i == 0 {
      assert coins[..1][1..] == [] && coins[..0] == [];
    } else {
      OfTokenSteps(coins[..i], token);
      assert coins[..i + 1][1..] == coins[1..][..i] && coins[..i][1..] == coins[1..][..i - 1];
      OfTokenSnoc(coins[1..], i - 1, token);
    }
  }

  lemma {:induction false} NoneOfToken(coins: seq<CoinNote>, token: Bytes)
    requires forall k :: 0 <= k < |coins| ==> coins[k].tokenType != token
    ensures OfToken(coins, token) == []
  {
    if coins == [] {
    } else {
      NoneOfToken(coins[1..], token);
    }
  }

  /** The balance of one token. */
  function Balance(coins: seq<CoinNote>, token: Bytes): int {
    Sum(CoinValue, OfToken(coins, token))
  }

  lemma BalanceSnoc(coins: seq<CoinNote>, i: nat, token: Bytes)
    requires i < |coins|
    ensures Balance(coins[..i + 1], token) == Balance(coins[..i], token) + (if coins[i].tokenType == token then coins[i].value else 0)
  {
    hide OfToken;
    OfTokenSnoc(coins, i, token);
    var tail := Kept(coins[i], token);
    SumConcat(CoinValue, OfToken(coins[..i], token), tail);
    assert tail == [] || tail[1..] == [];
  }

  lemma NothingHeld(coins: seq<CoinNote>, token: Bytes)
    requires OfToken(coins, token) == []
    ensures Balance(coins, token) == 0
  {
  }

  class ZswapState {
    const th: Sponge
    const tree: MerkleTree
    var unspentCoins: seq<CoinNote>
    var spentNullifiers: set<Bytes>

    ghost predicate Valid()
      reads this, tree
    {
      tree.Valid() && tree.h == NodeHashOf(th)
    }

    constructor (th: Sponge, depth: nat)
      ensures Valid() && fresh(tree) && this.th == th && tree.depth == depth
      ensures unspentCoins == [] && spentNullifiers == {} && tree.leaves == map[]
    {
      this.th := th;
      tree := new MerkleTree(NodeHashOf(th), depth);
      unspentCoins, spentNullifiers := [], {};
    }

    /** The coin is kept even when its index is refused; its leaf is set only when it is accepted. */
    method AddCoin(note: CoinNote) returns (ok: bool)
      requires Valid()
      modifies this`unspentCoins, tree`leaves
      ensures Valid() && ok == (note.index < Pow2(tree.depth))
      ensures unspentCoins == old(unspentCoins) + [note]
      ensures tree.leaves == if ok then old(tree.leaves)[note.index := Commitment(th, note)] else old(tree.leaves)
    {
      unspentCoins := unspentCoins + [note];
      var commitment := Commitment(th, note);
      ok := tree.Insert(note.index, commitment);
    }

    method MarkSpent(nullifier: Bytes)
      requires Valid()
      modifies this`unspentCoins, this`spentNullifiers
      ensures Valid() && spentNullifiers == old(spentNullifiers) + {nullifier}
      ensures unspentCoins == old(unspentCoins)
    {
      spentNullifiers := spentNullifiers + {nullifier};
      NothingRemoved(th, unspentCoins, nullifier);
      unspentCoins := Remaining(th, unspentCoins, nullifier);
    }

    /** Totals by token: an entry for every token held (that passes the filter), and no other. */
    method GetBalance(tokenType: Option<Bytes>) returns (balances: map<Bytes, int>)
      ensures forall t :: t in balances <==>
        (tokenType.None? || tokenType.value == t) && exists c :: c in unspentCoins && c.tokenType == t
      ensures forall t :: t in balances ==> balances[t] == Balance(unspentCoins, t)
    {
      hide Balance, OfToken, Sum;
      balances := map[];
      for i := 0 to |unspentCoins|
        invariant forall t :: t in balances <==>
          (tokenType.None? || tokenType.value == t) && exists k :: 0 <= k < i && unspentCoins[k].tokenType == t
        invariant forall t :: t in balances ==> balances[t] == Balance(unspentCoins[..i], t)
      {
        var coin := unspentCoins[i];
        var t := coin.tokenType;
        forall u { BalanceSnoc(unspentCoins, i, u); }
        if tokenType.None? || t == tokenType.value {
          if t !in balances {
            NoneOfToken(unspentCoins[..i], t);
            NothingHeld(unspentCoins[..i], t);
          }
          balances := balances[t := (if t in balances then balances[t] else 0) + coin.value];
        }
      }
      assert unspentCoins[..|unspentCoins|] == unspentCoins;
    }
  }

  // ---------------------------------------------------------------- runs

  datatype Op = Add(note: CoinNote) | Spent(nullifier: Bytes)

  /** The fields of a state, as a value. */
  datatype Snapshot = Snapshot(coins: seq<CoinNote>, spent: set<Bytes>, leaves: Leaves)

  function Step(th: Sponge, depth: nat, s: Snapshot, op: Op): Snapshot {
    match op
    case Add(note) =>
      Snapshot(s.coins + [note], s.spent,
               if note.index < Pow2(depth) then s.leaves[note.index := Commitment(th, note)] else s.leaves)
    case Spent(nullifier) =>
      Snapshot(Remaining(th, s.coins, nullifier), s.spent + {nullifier}, s.leaves)
  }

  function Run(th: Sponge, depth: nat, ops: seq<Op>): Snapshot
    decreases |ops|
  {
    if ops == [] then Snapshot([], {}, map[])
    else Step(th, depth, Run(th, depth, ops[..|ops| - 1]), ops[|ops| - 1])
  }

  /** The note added last at an index. */
  function LastAt(coins: seq<CoinNote>, index: int): Option<CoinNote>
    decreases |coins|
  {
    if coins == [] then None
    else if coins[|coins| - 1].index == index then Some(coins[|coins| - 1])
    else LastAt(coins[..|coins| - 1], index)
  }

  /** The leaf at an index is the commitment of the last note added there, refused indices apart. */
  ghost predicate LeavesFollowCoins(th: Sponge, depth: nat, s: Snapshot) {
    forall i :: (i in s.leaves <==> i < Pow2(depth) && LastAt(s.coins, i).Some?)
             && (i in s.leaves ==> s.leaves[i] == Commitment(th, LastAt(s.coins, i).value))
  }

  lemma {:induction false} RunLeaves(th: Sponge, depth: nat, ops: seq<Op>)
    ensures LeavesFollowCoins(th, depth, Run(th, depth, ops))
    decreases |ops|
  {
    hide Commitment, Pow2, Remaining;
    if ops == [] {
    } else {
      var front, op := ops[..|ops| - 1], ops[|ops| - 1];
      RunLeaves(th, depth, front);
      var s := Run(th, depth, front);
      match op
      case Add(note) =>
        assert (s.coins + [note])[..|s.coins|] == s.coins;
      case Spent(nullifier) =>
        NothingRemoved(th, s.coins, nullifier);
    }
  }

  lemma {:induction false} LastAtFinds(coins: seq<CoinNote>, c: CoinNote)
    requires c in coins
    ensures var m := LastAt(coins, c.index); m.Some? && m.value in coins && m.value.index == c.index
    decreases |coins|
  {
    var last := coins[|coins| - 1];
    if last.index == c.index {
    } else {
      assert coins == coins[..|coins| - 1] + [last];
      LastAtFinds(coins[..|coins| - 1], c);
    }
  }

  /** A coin whose leaf is its commitment. */
  ghost predicate Provable(th: Sponge, s: Snapshot, c: CoinNote) {
    c.index in s.leaves && s.leaves[c.index] == Commitment(th, c)
  }

  /** Notes that may be added in any run without one overwriting the leaf of another. */
  ghost predicate Compatible(th: Sponge, depth: nat, coins: seq<CoinNote>) {
    && (forall c :: c in coins ==> c.index < Pow2(depth))
    && (forall c, d :: c in coins && d in coins && c.index == d.index ==> Commitment(th, c) == Commitment(th, d))
  }

  /** After any run, every unspent coin's leaf is its commitment exactly when no index is out of bounds
      and notes at one index share their commitment. */
  lemma CoinsProvable(th: Sponge, depth: nat, ops: seq<Op>)
    ensures var s := Run(th, depth, ops);
            (forall c :: c in s.coins ==> Provable(th, s, c)) <==> Compatible(th, depth, s.coins)
  {
    hide Commitment, Pow2, LastAt, Run;
    var s := Run(th, depth, ops);
    RunLeaves(th, depth, ops);
    forall c | c in s.coins
      ensures var m := LastAt(s.coins, c.index); m.Some? && m.value in s.coins && m.value.index == c.index
    {
      LastAtFinds(s.coins, c);
    }
  }

  function Added(ops: seq<Op>): seq<CoinNote>
    decreases |ops|
  {
    if ops == [] then []
    else Added(ops[..|ops| - 1]) + (if ops[|ops| - 1].Add? then [ops[|ops| - 1].note] else [])
  }

  /** The unspent coins are all the notes ever added: marking nullifiers as spent takes none away. */
  lemma {:induction false} CoinsAreAdded(th: Sponge, depth: nat, ops: seq<Op>)
    ensures Run(th, depth, ops).coins == Added(ops)
    decreases |ops|
  {
    if ops == [] {
    } else {
      var front, op := ops[..|ops| - 1], ops[|ops| - 1];
      CoinsAreAdded(th, depth, front);
      if op.Spent? {
        NothingRemoved(th, Run(th, depth, front).coins, op.nullifier);
      }
    }
  }

  /** In particular for distinct indices below 2^depth, whatever is marked as spent in between. */
  lemma DistinctCoinsProvable(th: Sponge, depth: nat, ops: seq<Op>, c: CoinNote)
    requires var notes := Added(ops);
             && (forall a, b :: 0 <= a < b < |notes| ==> notes[a].index != notes[b].index)
             && (forall a :: 0 <= a < |notes| ==> notes[a].index < Pow2(depth))
    requires c in Added(ops)
    ensures var s := Run(th, depth, ops); s.coins == Added(ops) && Provable(th, s, c)
  {
    hide Commitment, Pow2, Run, Added;
    CoinsAreAdded(th, depth, ops);
    CoinsProvable(th, depth, ops);
  }

  /** A run on a fresh state object ends in the fields that the steps above give. */
  method Replay(th: Sponge, depth: nat, ops: seq<Op>) returns (state: ZswapState)
    ensures fresh(state) && fresh(state.tree) && state.Valid() && state.th == th && state.tree.depth == depth
    ensures Snapshot(state.unspentCoins, state.spentNullifiers, state.tree.leaves) == Run(th, depth, ops)
  {
    hide Commitment, Pow2, Remaining;
    state := new ZswapState(th, depth);
    for i := 0 to |ops|
      invariant fresh(state) && fresh(state.tree) && state.Valid() && state.th == th && state.tree.depth == depth
      invariant Snapshot(state.unspentCoins, state.spentNullifiers, state.tree.leaves) == Run(th, depth, ops[..i])
    {
      assert ops[..i + 1][..i] == ops[..i];
      match ops[i] {
        case Add(note) =>
          var ok := state.AddCoin(note);
        case Spent(nullifier) =>
          NothingRemoved(th, state.unspentCoins, nullifier);
          state.MarkSpent(nullifier);
      }
    }
    assert ops[..|ops|] == ops;
  }
}

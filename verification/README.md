# Noxipher: verified core

Noxipher is a wallet SDK for the Midnight network. This project models the parts of it that compute rather than
communicate, and proves what they are for:

- **Field, curve, sponge** (`ModArith`, `Fields`, `Curves`, `Jubjub`, `Poseidon`, `Constants`). Division by a Fermat
  power is a true inverse; the unified twisted Edwards addition is complete and closed; point compression (section
  5.4.9.3 of the Zcash Protocol Specification) is injective; the Poseidon permutation is a bijection.
- **Commitment tree and shielded state** (`MerkleSpec`, `Merkle`, `Zswap`, `Shielded`). The sparse tree is the dense
  tree; proofs fold to the root; the root binds the leaves up to a hash collision; spends stay provable over runs.
- **Address codec** (`Checksum`, `ConvertBits`, `Address`, `Vectors`). The Bech32m checksum ("Bech32m" in the Specification section
  of BIP-350) detects every burst of six symbols at any length; encoding and decoding are mutually inverse, and the
  accepted strings are characterised exactly.
- **Transaction bytes** (`Compact`, `Scale`, `ScaleDecode`, `Serializer`, `ContractArgs`). The source has an encoder
  only; a decoder is written here as its specification, and proved to recover exactly the well-formed values (compact
  integers as in appendix A.2.2 of the Polkadot specification).
- **Selection and balancing** (`Selection`, `Builder`, `Connector`). Largest-first selection is optimal, building
  conserves value, balancing is exact, idempotent and never spends an outpoint twice over any run.

Code that loops or updates in place is a method or a class here, proved against a function; the lemmas then speak of
that function. Pure code is a function. `dafny verify dfyconfig.toml` checks everything.

## Hypotheses

These appear as `requires` clauses, never as axioms: the modulus is prime; the Edwards coefficient is no square; the
Edwards addition is associative (only for the n-fold sum of double-and-add). The root of -1, the inverse of 5 as an
exponent and the inverse of the mixing matrix are given as constants in `Constants` and proved right there;
`Jubjub.SmallCurveAssociates` and `Poseidon.SmallPermutation` show that parameters of the required kinds exist. The two-input
node hash of the tree and the sponge hash of the notes are arbitrary functions.

## Where the code and its description differ

The model follows the code.

- `mark_spent` is described as marking a coin as spent, but it compares nullifiers computed without a secret, which are
  `None`, so it removes nothing (`Zswap.NothingRemoved`, `Zswap.SpentCoinStays`, `Zswap.MarkSpentIff`).
- `insert` is described as bounding the index, but only the upper bound is checked. A tree whose leaves are all at
  negative indices has no root node, and `root` then fails (`Merkle.MerkleTree.Root`, `Merkle.RootAfterNegativeInsert`).
- `add_coin` appends the coin before the index is checked, so a refused coin is kept without a leaf
  (`Zswap.ZswapState.AddCoin`). Two notes at one index overwrite each other's leaf (`Zswap.CoinsProvable`).
- Largest-first selection is described as minimising inputs; with a need of zero or less it still takes one item if
  there is one (`Selection.FewestExactly`).
- A negative amount is accepted by the unshielded builder, and then value is not conserved (`Builder.BuildConserves`).
- Payload lengths of addresses (32 or 64 bytes) are described but not checked; every length round-trips, and the
  shielded builder uses the first 32 bytes of whatever payload it finds.
  The unshielded builder pays the whole payload, so a transfer of a positive amount to a 64-byte shielded address is
  built and serialized like any other, and its bytes cannot be read back (`Builder.BuiltTxRecovered`).
- Sizes of owners, hashes, addresses, signatures, proofs and roots are described beside the serializer and not checked
  by it. It accepts values whose bytes are ambiguous (`ScaleDecode.SpendSizesAreNeeded`), and one signature then covers two
  intents (`ScaleDecode.SigningSizesAreNeeded`); each `Recovered` lemma gives the exact condition. A list of contract
  arguments is described as one of a single type, and mixed lists are accepted (`ContractArgs.MixedListHasNoShape`).
- A commitment is described as that of a note, but token, owner, nonce and value enter it modulo the field's modulus p.
  Since 2p < 2^256, every note of a 32-byte nonce has a twin with another such nonce and the same commitment (`Zswap.CommitmentTwins`).
  A random 32-byte nonce spells a number from p on more often than not.
- `spent_nullifiers` is recorded and never consulted: a coin marked as spent is selected again, and a transfer of zero
  takes one coin of the token too (`Shielded.SpentCoinIsRespent`; `Shielded.RunRespends` says exactly when no selection that covers
  its amount respends, which after runs within the tree are those that are built, `Shielded.RunBuilds`).

## Model

| member | source | states |
|---|---|---|
| ModArith.Fermat | src/noxipher/crypto/fields.py:31-35 | Fermat's little theorem, the fact the division comment relies on: for a prime p and a not divisible by p, a^(p-1) is 1 modulo p |
| Fields.Operations | src/noxipher/crypto/fields.py:19-29 | sum, difference and product stay in [0, p) and are the integer operations modulo p |
| Fields.DivMul | src/noxipher/crypto/fields.py:31-35 | over a prime modulus, dividing by a nonzero element is undone by multiplying with it |
| Fields.DivMulIff | src/noxipher/crypto/fields.py:31-35 | division never fails; it is a true quotient if and only if the divisor is nonzero or the dividend is zero |
| Curves.Complete | src/noxipher/crypto/curves.py:30-41 | for any two curve points neither denominator of the addition formula is zero (d a non-square, -1 a square, p prime) |
| Curves.AddQuotients | src/noxipher/crypto/curves.py:36-43 | both coordinates of a sum are exactly the quotients of the addition formula, though division is a Fermat power |
| Curves.AddClosed | src/noxipher/crypto/curves.py:30-43 | the sum of any two curve points is a curve point |
| Curves.AddCommutes | src/noxipher/crypto/curves.py:30-43 | addition is commutative, on and off the curve |
| Curves.AddIdentity | src/noxipher/crypto/curves.py:20-21 | (0, 1) is neutral on both sides for every pair of field elements |
| Curves.IdentityOnCurve | src/noxipher/crypto/curves.py:20-21 | the identity is on the curve |
| Jubjub.DoubleAndAdd | src/noxipher/crypto/curves.py:45-57 | the bit loop returns the n-fold sum for every scalar n, over any associative addition with identity |
| Jubjub.CurveMonoid | src/noxipher/crypto/curves.py:30-57 | the curve's own addition is such an addition: closure and identity are proved, associativity alone is assumed |
| Jubjub.ScalarMul | src/noxipher/crypto/curves.py:45-57 | hence scalar multiplication of a curve point is its n-fold sum and stays on the curve |
| Jubjub.ToBytes | src/noxipher/crypto/curves.py:67-87 | the byte buffer holds v in little-endian order with the parity of u in its highest bit |
| Jubjub.CompressInjective | src/noxipher/crypto/curves.py:67-87 | two curve points have the same 32 bytes if and only if they are the same point |
| Jubjub.CompressValue | src/noxipher/crypto/curves.py:67-87 | read as a little-endian number, the 32 bytes are v, plus 2^255 for an odd u |
| Constants.JubjubParameters | src/noxipher/crypto/curves.py:12-12 | the code's D and field satisfy the curve hypotheses (a root of -1 is exhibited; 2^254 < p < 2^255), given that p is prime and D no square |
| Constants.ModulusOfFamily | src/noxipher/crypto/fields.py:66-69 | the modulus is x^4 - x^2 + 1 for the BLS12-381 parameter x |
| Constants.CoefficientOfJubjub | src/noxipher/crypto/curves.py:12-12 | D is -(10240/10241) modulo p |
| Poseidon.PowerRoundTrip | src/noxipher/crypto/poseidon.py:21-23 | x^5 is inverted by the exponent e with 5e = 1 modulo p-1, for every field element, zero included |
| Poseidon.LinearRoundTrip | src/noxipher/crypto/poseidon.py:25-41 | mixing plus round constants is inverted on both sides by the inverse matrix |
| Poseidon.RoundsRoundTrip | src/noxipher/crypto/poseidon.py:52-70 | any run of rounds is inverted on both sides |
| Poseidon.PermutationBijective | src/noxipher/crypto/poseidon.py:43-72 | the 4 + 60 + 4 round permutation is a bijection on triples of field elements, with an explicit two-sided inverse |
| Poseidon.PermutationTrace | src/noxipher/crypto/poseidon.py:25-72 | round by round, as plain arithmetic: 69 states, the first adding row 0 of the table; x^5 of all elements in the first and the last four rounds and of the last element otherwise, then the matrix, then row r + 1 (zeros once the table ends) |
| Poseidon.SpongeTrace | src/noxipher/crypto/poseidon.py:74-89 | chunk by chunk: the register (0, 0, length), each pair of inputs added in front and permuted, the first element of the last register as the digest |
| Poseidon.PermutationStays | src/noxipher/crypto/poseidon.py:43-72 | the permutation never leaves the field, whatever the tables |
| Poseidon.LinearLayerInto | src/noxipher/crypto/poseidon.py:25-41 | the accumulating loops compute the matrix product plus the constants of the next round, in a fresh list |
| Poseidon.ApplySbox | src/noxipher/crypto/poseidon.py:55-57 | the S-box of a full round, applied in place to all three elements |
| Poseidon.Permute | src/noxipher/crypto/poseidon.py:43-72 | the in-place loops compute the permutation, and overwrite the caller's list only up to the first S-box layer |
| Poseidon.AbsorbInjective | src/noxipher/crypto/poseidon.py:74-87 | different registers stay different however much common input is absorbed |
| Poseidon.HashSeparatesOneChunk | src/noxipher/crypto/poseidon.py:74-89 | two equal-length inputs that differ in exactly one rate chunk end with different full registers, at any length |
| Poseidon.PaddingIsSeparated | src/noxipher/crypto/poseidon.py:74-89 | the question of padding, settled: an input of odd length and the same input padded with a zero end with different registers, because of the length in the capacity |
| Poseidon.Hash | src/noxipher/crypto/poseidon.py:74-89 | the sponge loop returns the first element of the final register; the capacity starts as the input length |
| Constants.MatricesInvert | src/noxipher/crypto/poseidon_constants.py:345-361 | the code's MDS matrix has the stated inverse on both sides |
| Constants.PermutationInvertible | src/noxipher/crypto/poseidon_constants.py:345-361 | so the code's permutation meets the hypotheses of the bijection once p is prime, for any table of round constants |
| MerkleSpec.BytesRoundTrip | src/noxipher/crypto/fields.py:52-58 | a field element survives its 32-byte form |
| Merkle.MerkleTree.PrecomputeZeroNodes | src/noxipher/zswap/state.py:29-36 | entry k is the root of the empty subtree of height k |
| Merkle.MerkleTree.Insert | src/noxipher/zswap/state.py:38-42 | refuses exactly the indices from 2^depth on (negative ones pass), and otherwise sets that one leaf |
| Merkle.MerkleTree.HashLevel | src/noxipher/zswap/state.py:54-68 | one level of the root: the sparse parents carry the dense tree's values in whatever order they are visited, with at most one hash a leaf |
| Merkle.RootAfterNegativeInsert | src/noxipher/zswap/state.py:38-70 | insert accepts index -1 into a fresh tree, and root() of that tree fails |
| Merkle.MerkleTree.Root | src/noxipher/zswap/state.py:44-70 | the sparse root is the dense tree's root; it fails exactly when there are leaves but none at an index from 0 on; at most n hashes a level for n leaves |
| Merkle.MerkleTree.BuildTable | src/noxipher/zswap/state.py:81-95 | the node table built for a proof holds, level by level, exactly the ancestors of the leaves with their dense values |
| Merkle.MerkleTree.Proof | src/noxipher/zswap/state.py:72-106 | refuses exactly the indices from 2^depth on, and otherwise lists the dense siblings along the path |
| MerkleSpec.PathFoldsToRoot | src/noxipher/zswap/state.py:97-106 | folding the leaf (or zero) of any index in range with its path gives the root |
| MerkleSpec.ParentIsHash | src/noxipher/zswap/state.py:60-66 | a parent is the hash of its even child and its odd child, in this order |
| MerkleSpec.FoldStep | src/noxipher/zswap/state.py:97-106 | in a fold a value of even index is hashed on the left and one of odd index on the right |
| Merkle.TwoLeafRoot | src/noxipher/zswap/state.py:44-70 | as the methods answer: the root over two leaves is the hash of leaf 0 and leaf 1, in this order |
| Merkle.ProofFoldsToRoot | src/noxipher/zswap/state.py:44-106 | the bytes that proof() lists fold to the value whose bytes root() returns, for occupied and empty indices |
| MerkleSpec.InsertKeepsOwnPath | src/noxipher/zswap/state.py:38-42 | inserting at i leaves the path of i unchanged |
| MerkleSpec.InsertedRoot | src/noxipher/zswap/state.py:38-70 | the root after an insert is the new leaf folded with the old path |
| MerkleSpec.InsertChangesOneSibling | src/noxipher/zswap/state.py:38-106 | the path of another index changes at most at the one level where the two paths meet, to the new leaf folded that far |
| MerkleSpec.InsertOrderFree | src/noxipher/zswap/state.py:38-42 | inserts at distinct indices give the same leaves and root in every order |
| MerkleSpec.RootBindsLeaves | src/noxipher/zswap/state.py:44-70 | equal roots with a differing leaf yield an explicit collision of the node hash |
| MerkleSpec.PathBindsLeaf | src/noxipher/zswap/state.py:72-106 | two values that fold to one root at one index yield an explicit collision, whatever the two paths |
| Zswap.ZswapState.AddCoin | src/noxipher/zswap/state.py:121-126 | appends the note always and sets its leaf to its commitment exactly when the index is below 2^depth |
| Zswap.ZswapState.MarkSpent | src/noxipher/zswap/state.py:128-133 | records the nullifier and, as written, keeps every coin |
| Zswap.NothingRemoved | src/noxipher/zswap/notes.py:56-64 | because a nullifier without a secret is None, the filter of mark_spent removes no coin |
| Zswap.SpentCoinStays | src/noxipher/zswap/state.py:128-133 | concretely: a coin stays unspent after its own nullifier is marked |
| Zswap.MarkSpentIff | src/noxipher/zswap/state.py:128-133 | mark_spent leaves no coin of that nullifier if and only if there was none before |
| Zswap.CommitmentIs | src/noxipher/zswap/notes.py:39-54 | a commitment is the 32-byte form of the hash of token, value, owner and nonce, in this order, each read modulo p |
| Zswap.NullifierIs | src/noxipher/zswap/notes.py:25-37 | a nullifier is the 32-byte form of the hash of the secret and the index, in this order |
| Zswap.NodeHashIs | src/noxipher/zswap/state.py:60-66 | the tree of the state hashes the left child before the right one |
| Zswap.CommitmentBinds | src/noxipher/zswap/notes.py:39-54 | any two notes share a commitment if and only if token, owner, nonce and value agree as numbers modulo p, or they exhibit a collision of the sponge hash |
| Zswap.CommitmentTwins | src/noxipher/zswap/notes.py:46-53 | so for every note with a 32-byte nonce there is another 32-byte nonce, and another value, with the same commitment and no collision |
| Zswap.CanonicalCommitmentBinds | src/noxipher/zswap/notes.py:46-53 | between notes whose fields spell field elements the commitment does bind token, value, owner and nonce, up to a collision |
| Zswap.CanonicalFormCommits | src/noxipher/zswap/notes.py:46-53 | every note commits to what its reduced form commits to, and it is canonical if and only if it is that form |
| Zswap.ZswapState.GetBalance | src/noxipher/zswap/state.py:135-146 | one entry for every token held that passes the filter, holding the sum of its coins, and no other entry |
| Zswap.CoinsProvable | src/noxipher/zswap/state.py:121-133 | after any run of add_coin and mark_spent every unspent coin's leaf is its commitment if and only if no index is out of bounds and notes at one index share their commitment |
| Zswap.CoinsAreAdded | src/noxipher/zswap/state.py:121-133 | after any run the unspent coins are exactly the notes added, in order |
| Zswap.DistinctCoinsProvable | src/noxipher/zswap/state.py:121-133 | in particular for distinct indices below 2^depth every coin's leaf is its commitment |
| Zswap.Replay | src/noxipher/zswap/state.py:121-133 | a run of method calls on a fresh state object ends in exactly the fields these lemmas speak of |
| Shielded.SpendCircuits | src/noxipher/tx/builder.py:325-347 | one circuit a coin, with the path and the root of the tree; stops at the first coin whose path or root fails |
| Shielded.BuildShieldedTransfer | src/noxipher/tx/builder.py:281-420 | the circuits are the spends of the largest-first selection, the payment and, if something is left, the change; or the first error in the code's order |
| Shielded.BuiltCircuits | src/noxipher/tx/builder.py:324-409 | a built transfer in full: for each selected coin its spend with path, root and nullifier; then the payment, committed to the first 32 bytes of the recipient's payload; then, if and only if something is left, the change, committed to the wallet's own key and sent to its address |
| Shielded.ShieldedConserves | src/noxipher/tx/builder.py:307-409 | spent value equals output plus change value, for every amount |
| Shielded.SpendsAreProvable | src/noxipher/tx/builder.py:325-347 | after any run that adds notes at distinct indices of the tree, every spend circuit's path folds from its coin's commitment to the circuit's stated root |
| Shielded.ChosenAreDistinct | src/noxipher/tx/builder.py:300-313 | coins held at distinct indices are selected at most once each |
| Shielded.NullifiersDistinct | src/noxipher/tx/builder.py:325-347 | after such a run the spends of one transfer have different indices, and two share a nullifier if and only if the indices agree modulo p or the sponge hash collides; trees of at most p leaves rule the former out |
| Shielded.ShieldedSucceeds | src/noxipher/tx/builder.py:298-409 | building succeeds if and only if the selection covers the amount, the address decodes, the chosen indices are in bounds and the tree can state its root; for coins of non-negative value the selection covers what the balance covers |
| Shielded.RunBuilds | src/noxipher/tx/builder.py:298-409 | after any run that adds notes at distinct indices of the tree, building succeeds if and only if the selection covers the amount and the address decodes |
| Shielded.RunSucceeds | src/noxipher/tx/builder.py:298-409 | so for notes of non-negative value the balance and the address alone decide, and no fewer coins of the token cover a positive amount |
| Shielded.NeverRespendsIff | src/noxipher/tx/builder.py:298-316 | no selection that covers its amount, positive or not, takes a coin of a recorded nullifier if and only if no coin that is of positive value or heads the order of its token has its nullifier recorded |
| Shielded.RunRespends | src/noxipher/zswap/state.py:121-133 | over any run: that is the case if and only if no added note of positive value, and none that heads the order of its token, was ever marked |
| Shielded.SpentCoinIsRespent | src/noxipher/zswap/state.py:128-133 | concretely: a coin that was added and then marked as spent is chosen again for every amount up to its value, zero included, and the transfer is built |
| Checksum.ComputePolymod | src/noxipher/address/bech32m.py:25-32 | the register loop computes a fold of one step function |
| Vectors.StepIsPlain | src/noxipher/address/bech32m.py:27-31 | one step is the bit arithmetic with the five generator words spelled out, for every register and symbol |
| Checksum.ToBitsSplit | src/noxipher/address/bech32m.py:29-29 | a number enters the register as the bits of its base-32 digits, the low digit last |
| Checksum.StepLinear | src/noxipher/address/bech32m.py:27-31 | one step is linear over GF(2) in the register and the symbol |
| Checksum.RunLinear | src/noxipher/address/bech32m.py:25-32 | the whole register is linear in its start and its symbols |
| Checksum.StepKernel | src/noxipher/address/bech32m.py:27-31 | only the zero register is taken to zero by a zero symbol |
| Checksum.BurstDetected | src/noxipher/address/bech32m.py:45-46 | two equal-length symbol lists that both pass and differ only inside six consecutive positions are identical, at any length |
| Checksum.SevenSymbolsEscape | src/noxipher/address/bech32m.py:45-46 | six is the limit: in every symbol list any seven consecutive symbols can be changed so that the checksum's verdict stays what it was |
| Checksum.CreateVerifies | src/noxipher/address/bech32m.py:39-46 | the created checksum passes, for every data |
| Checksum.ChecksumUnique | src/noxipher/address/bech32m.py:39-46 | six symbols pass if and only if they are the created checksum |
| ConvertBits.ConvertBits | src/noxipher/address/bech32m.py:49-69 | the masked accumulator loop regroups the bit string, padded or refused exactly as specified, for any two widths |
| ConvertBits.PadThenStrip | src/noxipher/address/bech32m.py:49-69 | narrowing with padding and widening without gives the data back |
| ConvertBits.StripThenPad | src/noxipher/address/bech32m.py:49-69 | whatever is accepted without padding is what padding produces |
| Address.EncodeThenDecode | src/noxipher/address/bech32m.py:72-95 | decoding undoes encoding for every proper human-readable part and all five-bit data |
| Address.DecodeThenEncode | src/noxipher/address/bech32m.py:78-95 | whatever is accepted is, in lower case, the encoding of what it decodes to |
| Address.TableReverse | src/noxipher/address/bech32m.py:99-115 | the reversed table inverts the table |
| Address.ReverseTable | src/noxipher/address/bech32m.py:99-115 | and the table inverts the reversed one |
| Address.EncodeSucceeds | src/noxipher/address/bech32m.py:130-134 | encoding fails exactly for a type and network outside the table, for every payload |
| Address.EncodeDecodeAddress | src/noxipher/address/bech32m.py:118-150 | every payload of any length under every table entry decodes back to itself |
| Address.DecodeEncodeAddress | src/noxipher/address/bech32m.py:137-150 | re-encoding what an accepted string decodes to gives that string in lower case |
| Address.AcceptedExactly | src/noxipher/address/bech32m.py:118-150 | a string decodes to a result if and only if it is that result's encoding, all in lower or all in upper case |
| Address.DecodeJoined | src/noxipher/address/bech32m.py:78-95 | a proper human-readable part, the separator and any symbols decode to all but the last six symbols, or fail on the checksum alone |
| Vectors.ShortestDecodes | src/noxipher/address/bech32m.py:78-95 | the valid string a1lqfn3a of BIP-350 decodes to a and no data |
| Vectors.ShoutedDecodes | src/noxipher/address/bech32m.py:82-84 | and so does A1LQFN3A |
| Address.CaseOfLetters | src/noxipher/address/bech32m.py:82-84 | lower and upper case map the 26 letters onto each other |
| Address.CaseOfOthers | src/noxipher/address/bech32m.py:82-84 | and change nothing else |
| Vectors.CountdownDecodes | src/noxipher/address/bech32m.py:78-95 | the valid string of BIP-350 with the data 31, 30, ..., 0, every character of the alphabet once, decodes to that data |
| Vectors.OlderIsRefused | src/noxipher/address/bech32m.py:41-46 | the Bech32 string a12uel5l is refused for its checksum |
| Address.SameAddress | src/noxipher/address/bech32m.py:137-150 | two strings that decode to the same result are the same up to case |
| Address.TableHighs | src/noxipher/address/bech32m.py:99-112 | entries of the table of one length agree in the high bits of all characters, so confusing them is a burst for the checksum too |
| Address.TableDiffers | src/noxipher/address/bech32m.py:99-112 | entries whose lengths differ by five at most differ at least six characters before the end of the longer one |
| Address.StringBurstDetected | src/noxipher/address/bech32m.py:78-95 | changes within six characters behind a common separator are always detected |
| Address.AddressBurstDetected | src/noxipher/address/bech32m.py:137-150 | two addresses of equal length that decode and differ only inside six consecutive characters are the same, wherever these lie: type, network and separator included |
| Compact.EncodeScaleInt | src/noxipher/tx/scale.py:26-42 | fails exactly outside [0, 2^536), and otherwise writes the four-mode compact form |
| Compact.CompactRoundTrip | src/noxipher/tx/scale.py:26-42 | a decoder recovers every value in [0, 2^536) and leaves what follows untouched |
| Compact.CompactPrefixFree | src/noxipher/tx/scale.py:26-42 | no compact integer's bytes continue another's |
| Compact.ShortestMode | src/noxipher/tx/scale.py:26-42 | the shortest mode is taken, and the large mode has no byte more than the number needs |
| Compact.U32RoundTrip | src/noxipher/tx/scale.py:45-46 | a decoder recovers every 32-bit value |
| Compact.U128RoundTrip | src/noxipher/tx/scale.py:49-50 | a decoder recovers every 128-bit value from its two words |
| Compact.VecRoundTrip | src/noxipher/tx/scale.py:90-98 | a counted vector of decodable items is decodable |
| Scale.SortOrderFree | src/noxipher/tx/scale.py:251-261 | sorting dictionary items by key forgets their insertion order |
| Scale.TxOrderFree | src/noxipher/tx/scale.py:236-266 | the bytes of a transaction do not depend on dictionary order |
| Scale.TagsSpelled | src/noxipher/tx/scale.py:203-203 | the tags of transactions and shielded offers and the signing domain, letter by letter |
| Scale.TxStartsWithTag | src/noxipher/tx/scale.py:15-20 | a serialized transaction starts with the length and the letters of its tag |
| Scale.ZswapStartsWithTag | src/noxipher/tx/scale.py:15-20 | and so does a shielded offer inside it |
| Scale.PayloadStartsWithDomain | src/noxipher/tx/scale.py:277-285 | a signing payload is the domain, the segment in four bytes and the intent |
| ScaleDecode.SpendRecovered | src/noxipher/tx/scale.py:61-71 | a UTXO spend is recovered from its bytes and any rest if and only if its numbers fit and owner and hash have 32 bytes |
| ScaleDecode.OutputRecovered | src/noxipher/tx/scale.py:74-82 | likewise a UTXO output, if and only if its numbers fit and its owner has 32 bytes |
| ScaleDecode.SpendSizesAreNeeded | src/noxipher/tx/scale.py:67-69 | two different spends, with 32 + 32 and 31 + 33 bytes, that the code serializes to the same bytes |
| ScaleDecode.OfferRecovered | src/noxipher/tx/scale.py:85-105 | likewise an unshielded offer, if and only if its parts are well formed and its signatures have 64 bytes |
| ScaleDecode.ActionRecovered | src/noxipher/tx/scale.py:108-136 | likewise a contract action, if and only if its lengths fit and a called address has 32 bytes |
| ScaleDecode.IntentRecovered | src/noxipher/tx/scale.py:139-173 | likewise an intent, if and only if it is well formed |
| ScaleDecode.ZswapRecovered | src/noxipher/tx/scale.py:176-203 | likewise a shielded offer for given proof and memo sizes, if and only if it has them and a 32-byte root |
| ScaleDecode.ProofSizesAreNeeded | src/noxipher/tx/scale.py:182-195 | without the sizes the bytes do not determine an offer: proofs of one and three bytes serialize like two of two |
| ScaleDecode.TxRecovered | src/noxipher/tx/scale.py:236-266 | a decoder applied to serialize(tx) and any rest returns the transaction, in key order, and the rest, if and only if it is well formed |
| ScaleDecode.TxInjective | src/noxipher/tx/scale.py:236-266 | two well-formed transactions with distinct segment ids have the same bytes if and only if they agree up to dictionary order |
| ScaleDecode.ExtrinsicRoundTrip | src/noxipher/tx/scale.py:291-300 | the extrinsic wrapper gives the transaction bytes back |
| ScaleDecode.SigningPayloadInjective | src/noxipher/tx/scale.py:277-285 | signing payloads of well-formed intents are equal if and only if segment and intent are |
| ScaleDecode.SigningSizesAreNeeded | src/noxipher/tx/scale.py:277-285 | without well-formed sizes a signature covers two intents: two different ones that the code serializes have one payload under every segment |
| Serializer.SerializeU32 | src/noxipher/tx/scale.py:45-46 | the buffer code for 32-bit values writes the bytes that the decoder lemmas speak of, and fails exactly when a number or a length does not fit its field |
| Serializer.SerializeU128 | src/noxipher/tx/scale.py:49-50 | the buffer code for 128-bit values writes the bytes that the decoder lemmas speak of, and fails exactly when a number or a length does not fit its field |
| Serializer.SerializeBytes | src/noxipher/tx/scale.py:53-55 | the buffer code for length-prefixed bytes writes the bytes that the decoder lemmas speak of, and fails exactly when a number or a length does not fit its field |
| Serializer.SerializeUtxoSpend | src/noxipher/tx/scale.py:61-71 | the buffer code for UTXO spends writes the bytes that the decoder lemmas speak of, and fails exactly when a number or a length does not fit its field |
| Serializer.SerializeUtxoOutput | src/noxipher/tx/scale.py:74-82 | the buffer code for UTXO outputs writes the bytes that the decoder lemmas speak of, and fails exactly when a number or a length does not fit its field |
| Serializer.SerializeUnshieldedOffer | src/noxipher/tx/scale.py:85-105 | the buffer code for unshielded offers writes the bytes that the decoder lemmas speak of, and fails exactly when a number or a length does not fit its field |
| Serializer.SerializeContractAction | src/noxipher/tx/scale.py:108-136 | the buffer code for contract actions writes the bytes that the decoder lemmas speak of, and fails exactly when a number or a length does not fit its field |
| Serializer.SerializeIntent | src/noxipher/tx/scale.py:139-173 | the buffer code for intents writes the bytes that the decoder lemmas speak of, and fails exactly when a number or a length does not fit its field |
| Serializer.SerializeZswapOffer | src/noxipher/tx/scale.py:176-203 | the buffer code for shielded offers writes the bytes that the decoder lemmas speak of, and fails exactly when a number or a length does not fit its field |
| Serializer.SerializeStandardTransaction | src/noxipher/tx/scale.py:236-266 | the buffer code for standard transactions writes the bytes that the decoder lemmas speak of, and fails exactly when a number or a length does not fit its field |
| Serializer.SerializeRawMidnightTx | src/noxipher/tx/scale.py:291-300 | the buffer code for extrinsics writes the bytes that the decoder lemmas speak of, and fails exactly when a number or a length does not fit its field |
| Serializer.GetUnshieldedSigningPayload | src/noxipher/tx/scale.py:277-285 | the buffer code for signing payloads writes the bytes that the decoder lemmas speak of, and fails exactly when a number or a length does not fit its field |
| ContractArgs.SerializeContractArgs | src/noxipher/tx/scale.py:206-233 | the recursive code writes the bytes that the decoder lemmas speak of, and fails exactly on an integer or length outside the compact range |
| ContractArgs.ArgsRecovered | src/noxipher/tx/scale.py:206-233 | a shape-directed decoder recovers a value and the untouched remainder if and only if the value has that nested shape and can be encoded |
| ContractArgs.SomeFitNoShape | src/noxipher/tx/scale.py:221-233 | no shape fits a value of an unknown type, nor a list of two items that share no shape |
| ContractArgs.MixedListHasNoShape | src/noxipher/tx/scale.py:221-226 | so a list of a bool and an integer is encoded, and read back by no shape |
| ContractArgs.ArgsInjective | src/noxipher/tx/scale.py:206-233 | two values of one shape with the same bytes are the same value |
| ContractArgs.ShapeIsNeeded | src/noxipher/tx/scale.py:217-220 | without the shape the bytes do not determine the value (false and 0 agree) |
| Selection.TakeUntil | src/noxipher/tx/builder.py:307-313 | the running-total loop takes the shortest nonempty covering prefix, or everything |
| Selection.SortStable | src/noxipher/tx/builder.py:197-197 | items of equal value keep their order in the descending sort |
| Selection.PrefixIsHeaviest | src/noxipher/tx/builder.py:194-203 | no sub-collection outweighs the equally long prefix of the descending order |
| Selection.LargestCovers | src/noxipher/tx/builder.py:194-208 | with non-negative values, largest-first covers the need if and only if everything together does |
| Selection.LargestIsFewest | src/noxipher/tx/builder.py:194-203 | and for a positive need no sub-collection with fewer items covers it |
| Selection.FewestExactly | src/noxipher/tx/builder.py:194-203 | that fewness holds if and only if the need is positive or there is nothing to take |
| Selection.LargestSelects | src/noxipher/tx/builder.py:194-203 | what is selected is a sub-collection of what is offered |
| Builder.SelectUtxos | src/noxipher/tx/builder.py:181-203 | the scan for an exact match and the fallback loop compute the specified selection and its total |
| Builder.SelectCovers | src/noxipher/tx/builder.py:181-208 | with non-negative UTXO values selection succeeds if and only if the eligible total covers the requirement, on the shortcut too |
| Builder.SelectIsFewest | src/noxipher/tx/builder.py:181-203 | and for a positive requirement no smaller sub-collection covers it |
| Builder.BuildUnshieldedTransfer | src/noxipher/tx/builder.py:136-279 | filter, selection, spends, payment and change-or-fee run as the selection and assembly functions of the lemmas below say, with the address error before the balance error |
| Builder.FilterByToken | src/noxipher/tx/builder.py:169-179 | the filter loop keeps the UTXOs of the token, in order |
| Builder.OfferedExactly | src/noxipher/tx/builder.py:151-179 | exactly the UTXOs of the token asked for are offered from the unshielded set, or those of the DUST token from the DUST set |
| Builder.BuiltTransfer | src/noxipher/tx/builder.py:210-273 | a built transfer in full: input k spends UTXO k for the wallet's key; the payment goes to the decoded payload; change of 1000 and more goes back to the key and less becomes fee; envelope, randomness and commitment |
| Builder.BuiltInputsOwned | src/noxipher/tx/builder.py:161-224 | every input names the DUST key or the unshielded key, as the call asks, and spends a UTXO of the matching set |
| Builder.BuildConserves | src/noxipher/tx/builder.py:210-258 | inputs equal outputs plus returned fee if and only if the amount is not negative; the returned fee is in [fee, fee + 1000) and is the one committed to; change is at least 1000 and paid to the owner |
| Builder.BuildSucceeds | src/noxipher/tx/builder.py:155-208 | with non-negative UTXO values building succeeds if and only if the address decodes and the eligible UTXOs cover amount plus fee |
| Builder.BuiltInputsDistinct | src/noxipher/tx/builder.py:181-224 | with distinct outpoints in the offered UTXOs, no built transfer spends an outpoint twice |
| Builder.BuiltOfferWf | src/noxipher/tx/builder.py:227-253 | with 32-byte keys and hashes, an offer that serializes is well formed if and only if nothing is paid or the payload of the recipient has 32 bytes |
| Builder.BuiltTxRecovered | src/noxipher/tx/builder.py:247-273 | so the built transaction can be read back from its bytes if and only if nothing is paid or that payload has 32 bytes |
| Connector.BalanceTransaction | src/noxipher/dapp/connector.py:66-138 | the in-place code changes the offer exactly as the Balance function says, creates it if absent, and sets the lifetime only on success |
| Connector.FilterUnused | src/noxipher/dapp/connector.py:88-98 | the filter loop keeps the native UTXOs that the offer does not spend yet, in order |
| Connector.BalanceAppends | src/noxipher/dapp/connector.py:85-135 | what a call appends, in full: spends of unused UTXOs of the all-zero token for the wallet's key, and any surplus as an output for that key |
| Connector.BalanceExact | src/noxipher/dapp/connector.py:73-135 | after a success inputs equal outputs plus fee |
| Connector.BalanceFailure | src/noxipher/dapp/connector.py:98-125 | a call that fails has added every unused native UTXO: it leaves the offer alone if and only if there was none, and repeating it fails without adding anything |
| Connector.BalanceIdempotent | src/noxipher/dapp/connector.py:73-135 | a further call with the same fee succeeds and leaves the offer alone, whatever the indexer answers |
| Connector.BalanceSucceeds | src/noxipher/dapp/connector.py:81-125 | with non-negative UTXO values a call succeeds if and only if the offer's inputs and the unused native UTXOs together cover what is required |
| Connector.BalanceAddsFewest | src/noxipher/dapp/connector.py:98-117 | no smaller collection of unused UTXOs would have covered what was missing |
| Connector.BalanceKeepsDistinct | src/noxipher/dapp/connector.py:85-114 | one call, failed or not, never makes the offer spend an outpoint twice |
| Connector.RunKeepsDistinct | src/noxipher/dapp/connector.py:64-138 | over any run of calls, failed ones included, no outpoint is spent twice and nothing already in the offer is lost |
| Connector.RunBalances | src/noxipher/dapp/connector.py:64-138 | the run as method calls on one intent ends in the state these lemmas speak of |

## Left out

- Node, indexer and proof-server clients, retries, receipts, configuration and logging: input and output.
- SHA-256, Blake2b, HMAC, sr25519, BIP39, Argon2 and AES: library calls.
- The values of the 68 Poseidon round-constant triples: a parameter; every claim holds for any nonempty table.
- Primality of the modulus, non-squareness of the Edwards coefficient and associativity of Edwards addition: hypotheses, as listed above.
- Identification of the arbitrary node hash and note hash with Poseidon: the tree properties hold for any function, and Poseidon's own are proved apart.
- Binding commitments and the generator: the second generator of the source is a declared placeholder, so the commitment of a built transfer is an arbitrary function of randomness and fee.
- Randomness: nonces, blinding values and binding randomness are arguments.
- Labels of a built transfer that are constants or copies of arguments.
- Hex, `0x` and camelCase normalisation of UTXO records and token keys: records start normalised, with distinct outpoints where a lemma says so.
- Looking up or creating intent 0 in a transaction dictionary: balancing starts from the intent.
- Signatures: the offer carries them, and balancing leaves those of an existing offer alone; signing is not modelled.
- Handing proven transactions to the serializer: the serializer is modelled on its own input type.
- Strings in transactions and contract arguments appear as their UTF-8 bytes, and a Merkle root given as a hex string is not modelled.
- Dictionary keys of segments are integers here; two spellings of one integer as distinct keys are not modelled.
- A coin without a tree index: the note type requires an index, so the `None` branches are not modelled.
- `NullifierSet` and its membership check: a plain set.
- Wrappers that only validate addresses, contract loading, ABI parsing and data-class validation.
- Builder.BuildUnshieldedTransfer: the binding commitment is an arbitrary function of randomness and fee, because the source's second generator is a placeholder.
- Checksum.ComputePolymod: keeps 30 bits of each value, because no caller passes 2^30 or more; the source's integers are unbounded.
- Serializer.SerializeZswapOffer: takes the Merkle root as bytes, because reading one given as a hex string belongs to input normalisation.
- Jubjub.CurveMonoid: takes associativity of the Edwards addition as a hypothesis, because that of the Edwards law is not proved here.
- Jubjub.ScalarMul: takes that associativity as a hypothesis.
- Jubjub.DoubleAndAdd: takes associativity of the addition as a hypothesis, because that of the Edwards law is not proved here.
- ScaleDecode.ZswapRecovered: speaks of given proof and memo sizes, because the bytes do not carry them.
- ScaleDecode.TxRecovered: returns dictionaries in key order, because the bytes do not carry insertion order.
- ScaleDecode.TxInjective: compares transactions of the same proof and memo sizes, because without them it is false (`ScaleDecode.ProofSizesAreNeeded`).
- Merkle.ProofFoldsToRoot: for indices in [0, 2^depth) only, because a negative index has no place in the tree.

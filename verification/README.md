# Verified models of the Holanc core

Holanc is a shielded pool: values live in notes whose commitments are appended to a Merkle
tree, a note is spent by revealing its nullifier, and epochs of nullifiers travel between
chains under a guardian quorum.  This project models the parts of the repository that keep
that honest and proves what they are for.

| file | models |
|---|---|
| `Base.dfy` | machine-integer bounds, 32-byte words, big-endian byte strings |
| `Merkle.dfy`, `MerkleTree.dfy` | the incremental tree of the clients against the full tree |
| `Decimal.dfy` | byte strings as decimal numerals for the proving tool |
| `ScalarField.dfy`, `NegateG1.dfy`, `Groth16.dfy` | field elements, point negation and the pairing check of the verifier program |
| `Nullifier.dfy`, `NullifierSlots.dfy`, `NullifierPages.dfy` | the bitmap registry of spent nullifiers, the bytes that pick a slot, and the registry with many pages |
| `RootWindow.dfy`, `Pool.dfy`, `PoolProgram.dfy` | the pool's ring of roots, its instructions as functions on chain state, and the program that updates accounts in place |
| `Solvency.dfy`, `DoubleSpend.dfy`, `DepositTree.dfy`, `PublishedRoots.dfy`, `PoolRules.dfy` | what holds in every run of the pool |
| `BridgeLocks.dfy` | what the bridge's commitment locks do to the pool's spends |
| `ConcreteRuns.dfy` | two short runs in which a condition of a theorem is missing |
| `Ed25519.dfy`, `Bridge.dfy`, `BridgeProgram.dfy` | Ed25519 instructions, guardian quorums and epoch roots |
| `CoinSelection.dfy`, `ClientWallet.dfy`, `SdkWallet.dfy` | the Rust and TypeScript wallets |
| `NoteStore.dfy`, `ReplicatedStore.dfy` | the indexer's note table and its read replicas |
| `RelayQueue.dfy` | batching and retrying in the relayer |

Conventions.

- Hash functions, curve operations and the proof verifier are parameters.  No lemma assumes a
  hash to be injective: where binding matters, the lemma hands back an explicit collision.
- A program that updates accounts or fields in place is a class.  Each of its methods is
  proved equal to a function on values (`Pool.Deposit`, `Bridge.Step`, `RelayQueue.Next`, ...),
  and the statements about whole runs are about those functions.  The methods also state what they
  do to each field without these functions, and where a run is meant to remember something, what it
  remembers is stated from its calls or steps alone (`Bridge.ReceivedIsStored`,
  `RelayQueue.ExactlyOnce`, `SdkWallet.SettledNeverChosen`, ...).
- A failed on-chain instruction changes nothing.  The spends of `PoolProgram` may stop half-way;
  what the runtime then puts back is written out and proved to restore every account.
- Rust's release profile has overflow checks on (`Cargo.toml:38-39`), so a `u64` sum that does
  not fit fails; it never wraps.
- Asynchronous TypeScript is a state machine whose steps are the stretches between two awaits.

Hypotheses of the main theorems, each a named predicate or a `requires` clause:

- Solvency: the verifier accepts balanced openings only (`SoundVerifier`), read modulo the group
  order, the zero root covers nothing (`Sane`), published roots cover committed leaves (`HonestRun`)
  and deposited commitments open to the amount paid in (`HonestDeposit`).  `DepositSolventIff` shows
  that the trust in depositors cannot be dropped.  What a spend must do is consume notes that are
  still live: `SpendSolventIff` and `SolventThroughoutIff` show that this is the exact condition.  It
  follows for callers whose nullifiers are below the group order (`CanonicalRun`) from
  `OneNullifierEach`, that a note of worth has one nullifier; `AliasIsPaidAgain` is a run without
  canonical nullifiers.  The repository's circuits do not give `OneNullifierEach`: see below.
- Which accounts a spend names: `verification_key`, `nullifier_manager` and `nullifier_page` are not
  pinned by the pool (`programs/holanc-pool/src/lib.rs:769`, `:779`, `:784`), and any signer may
  initialize a key (`programs/holanc-verifier/src/lib.rs:17-41`).  The statements about runs of the
  pool assume that every spend names the pool's own three; `SpentAgainIff` says what happens over
  several pages, and `PageIsRegistry` that each page by itself is the registry modelled.
- Bridge agreement: the runtime verifies what the entries of a landed transaction's Ed25519
  instructions resolve to (`Ed25519Sound`), it verified every signature that a stored root claims
  (`VouchedRun`), guardian keys are distinct, and at most six of them sign two hashes for one chain
  and epoch.  `QuorumIffVouched` gives the exact condition for one transaction, `OwnEntriesVouch` one
  that can be read off the transaction, and `UnvouchedIsAccepted` a transaction without it.
- Program ids: the bridge's `ED25519_PROGRAM_ID` (`programs/holanc-bridge/src/lib.rs:8-13`) is taken
  for the runtime's Ed25519 program, though its bytes differ from that program's address, so that as
  written no genuine instruction matches.  The pool's `BRIDGE_PROGRAM_ID`
  (`programs/holanc-pool/src/lib.rs:15-20`) is taken for the bridge, though it is not the id the bridge
  declares (`programs/holanc-bridge/src/lib.rs:5`); `AnotherProgramBlocks` says what happens when they
  differ.
- Nullifier pages: no instruction of the nullifier program creates a page; they are taken as given.
- Verifier: the operation codes 0, 1 and 2 of the alt_bn128 system call mean addition,
  multiplication and pairing, as the program's constants name them
  (`programs/holanc-verifier/src/lib.rs:130-132`).
- Replicas: resyncs copy what was missing (`ResyncsComplete`).  `ResyncRestoresIff` gives the exact
  condition and `SwallowedResyncDiverges` a run without it.
- Relay queue: request identifiers are fresh.
- SDK wallet: commitments are unique, and nobody marks or unlocks a note that another's transaction
  holds (`HarmlessRun`), as unlocking a finished transaction a second time may do.
  `UnlockIsSafeIff` shows that this is the exact condition.

Where the code and its documentation differ, the model follows the code:

- `docs/threat-model.md:140` says that the SHA-256 tree holds every commitment.  Transfers and
  withdrawals take leaf positions without touching it, so its root goes stale with the first spend
  (`SpendLeavesRootStale`) and stays so (`StaleForGood`, `RootCoversDepositsOnly`).
- `deposit` has no capacity check at 2^20 leaves; from there on its root covers the current block
  of 2^20 leaves only (`Sha256RootIsTreeRoot`).
- `docs/protocol.md:149` promises largest-first coin selection.  The Rust wallet does that; the
  SDK draws a random candidate.  Both spend a smallest number of notes, for amounts above 0
  (`WalletsAgree`).
- Public inputs are never compared with the group order (`programs/holanc-verifier/src/lib.rs:73-85`),
  while the registry files nullifiers by their bytes (`programs/holanc-nullifier/src/lib.rs:47`).  A
  proof is therefore accepted under every alias of its nullifiers (`AliasesShareVerdict`), and one
  withdrawal can be paid several times (`AliasIsPaidAgain`).
- `docs/circuit-constraints.md:142-146` and `docs/protocol.md:123` promise that an input's owner is
  the hash of the spending key.  `circuits/transfer/transfer.circom:66-73` and
  `circuits/withdraw/withdraw.circom:59-65` leave the two unrelated, so that a note has a nullifier
  for every key and `OneNullifierEach` is more than these circuits give.
- The bridge takes an accepted signature for the guardian's (`programs/holanc-bridge/src/lib.rs:144-149`).
  It never reads an Ed25519 entry's three instruction indices, so what it compares need not be what
  the runtime verified (`QuorumIffVouched`, `UnvouchedIsAccepted`).
- A locked commitment is meant to be frozen (`programs/holanc-pool/src/lib.rs:196-198`).  The guard is
  asked about nullifiers, while locks are kept under commitments, and it accepts any empty account,
  so a locked commitment can be spent (`LockedCommitmentIsSpent`, `GuardRefusesIff`).
- `negate_g1` undoes itself on every byte pattern except the ordinate q, which it maps to 0
  (`NegationInvolutive`); the verifier therefore reads that ordinate of A as 0.
- A resync swallows failed inserts and marks the replica healthy all the same.
- The padding input of the Rust wallet is one fixed note, so its nullifier repeats: a pool accepts
  at most one single-input spend per key and asset (`OnePaddedSpend`).  The circuits ask padding for
  an inclusion proof too (`circuits/transfer/transfer.circom:76-84`), and the one that the wallet
  prepares proves only if its first leaf is the padding's commitment (`PaddingProvesOnlyIf`).

`dafny verify dfyconfig.toml` checks the whole project.

## Model

| member | source | states |
|---|---|---|
| `IncrementalTree.MerkleTree.constructor` | crates/holanc-tree/src/lib.rs:46-59 | a new tree of any depth below 64 is valid and empty |
| `IncrementalTree.MerkleTree.ComputeZeros` | crates/holanc-tree/src/lib.rs:213-220 | entry l of the table is the root of the empty subtree of height l |
| `IncrementalTree.MerkleTree.Append` | crates/holanc-tree/src/lib.rs:67-97 | the leaf is added and the new root is the root of the full 2^depth tree over the padded leaves; a full tree refuses and is left unchanged |
| `IncrementalTree.MerkleTree.Proof` | crates/holanc-tree/src/lib.rs:125-165 | for every index below `next_index` the layer-by-layer rebuild yields the sibling path of that leaf, and it folds to the root that `append` stored; any other index is out of range |
| `IncrementalTree.FromSnapshot` | crates/holanc-tree/src/lib.rs:182-188 | replaying a snapshot gives a valid tree with exactly its leaves, or fails when they exceed the capacity |
| `IncrementalTree.LeavesDetermineTree` | crates/holanc-tree/src/lib.rs:171-188 | trees with the same depth and leaves agree in every other field, so a restored snapshot is the tree that was saved |
| `IncrementalTree.ProofBindsLeaf` | crates/holanc-tree/src/lib.rs:125-165 | a leaf other than the stored one, or than the empty leaf beyond the last, that folds to the root from the same position, by any path, exhibits a hash collision |
| `IncrementalTree.RootDeterminesLeaves` | crates/holanc-tree/src/lib.rs:67-97 | equal roots over different leaves exhibit a hash collision |
| `Merkle.FilledIsLeftSibling` | crates/holanc-tree/src/lib.rs:78-91 | wherever bit l of the next index is 1, `filled_subtrees[l]` is the completed left sibling |
| `Merkle.ClimbOneLevel` | crates/holanc-tree/src/lib.rs:78-91 | one level of the O(depth) update computes the parent in the full tree and keeps the invariant on `filled_subtrees` |
| `Merkle.AppendElsewhere` | crates/holanc-tree/src/lib.rs:67-97 | appending changes no node outside the path of the new leaf |
| `Merkle.PathClimbs` | crates/holanc-tree/src/lib.rs:139-157 | the sibling path leads from a leaf through all its ancestors |
| `Merkle.RootBinds` | crates/holanc-tree/src/lib.rs:199-208 | equal roots over leaf sequences that differ somewhere exhibit a collision |
| `Decimal.BytesToDecimal` | crates/holanc-prover/src/inputs.rs:248-282 | for every byte string the result is the canonical decimal numeral of its big-endian value |
| `Decimal.CarryPass` | crates/holanc-prover/src/inputs.rs:251-272 | one carry loop, whose carry never exceeds 255 and whose products fit a `u16`, performs one pass over the digits |
| `Decimal.PassValue` | crates/holanc-prover/src/inputs.rs:251-272 | a pass computes 256 times the number, plus the carry |
| `Decimal.StaysCanonical` | crates/holanc-prover/src/inputs.rs:248-282 | no pass introduces a leading zero |
| `Decimal.CanonicalUnique` | crates/holanc-prover/src/inputs.rs:248-282 | a number has one canonical numeral |
| `Decimal.NumeralDeterminesValue` | crates/holanc-prover/src/inputs.rs:248-282 | two byte strings have the same numeral if and only if they have the same value |
| `NegateG1.Negate` | programs/holanc-verifier/src/lib.rs:220-249 | x is kept and y becomes q - y for 0 < y <= q, 0 for 0, and wraps around 2^256 above q; the loop ends without borrow if and only if y <= q |
| `NegateG1.PrimeIs` | programs/holanc-verifier/src/lib.rs:222-227 | the bytes subtracted from spell the base field prime |
| `NegateG1.BorrowLoop` | programs/holanc-verifier/src/lib.rs:234-246 | the loop, whose differences stay between 0 and 511, is schoolbook subtraction |
| `NegateG1.SubtractValue` | programs/holanc-verifier/src/lib.rs:234-246 | byte-wise subtraction has the value of the difference, up to 256^n for a borrow left over |
| `NegateG1.NegationCancels` | programs/holanc-verifier/src/lib.rs:220-249 | y + y' is 0 modulo q, and y' is canonical, if and only if y <= q |
| `NegateG1.NegationInvolutive` | programs/holanc-verifier/src/lib.rs:220-249 | negating twice gives y back if and only if y is not q |
| `Groth16.InitializeVk` | programs/holanc-verifier/src/lib.rs:17-41 | succeeds if and only if there are at most nine IC points, and stores them and the four key points unchanged |
| `Groth16.EncodingRoundTrip` | programs/holanc-verifier/src/lib.rs:157-168 | decoding an encoded point gives the point |
| `Groth16.Accumulate` | programs/holanc-verifier/src/lib.rs:75-85 | one round adds the input times its IC point, and fails exactly when an operand is not a point |
| `Groth16.ComputeVkX` | programs/holanc-verifier/src/lib.rs:70-85 | the loop computes IC[0] + sum of x_i IC[i+1]; it fails exactly when an IC point it needs is not on the curve, in the addition only for IC[0] |
| `Groth16.BuildPairingInput` | programs/holanc-verifier/src/lib.rs:198-217 | each 192-byte chunk is a G1 point followed by its G2 point |
| `Groth16.NegatedPoint` | programs/holanc-verifier/src/lib.rs:220-249 | the negated bytes decode to the negation of A, exactly when A can be read |
| `Groth16.Rearrange` | programs/holanc-verifier/src/lib.rs:87-111 | with one factor inverted, the product of four pairings is 1 if and only if that pairing equals the product of the other three |
| `Groth16.CheckReads` | programs/holanc-verifier/src/lib.rs:87-104 | the pairing call succeeds if and only if every point is well encoded |
| `Groth16.CheckMeansEquation` | programs/holanc-verifier/src/lib.rs:87-111 | its product is 1 if and only if e(A,B) = e(alpha,beta) e(IC[0] + sum x_i IC[i+1], gamma) e(C,delta) |
| `Groth16.CheckPairing` | programs/holanc-verifier/src/lib.rs:87-111 | accepts exactly on the equation, with the two error cases told apart |
| `Groth16.VerifyProof` | programs/holanc-verifier/src/lib.rs:55-112 | a proof is accepted if and only if the input count matches, all points are well encoded and the Groth16 equation holds |
| `Groth16.AliasesShareVerdict` | programs/holanc-verifier/src/lib.rs:70-112 | inputs that are equal modulo the group order get the same verdict for every proof and key |
| `Groth16.VerdictIsOfElements` | programs/holanc-verifier/src/lib.rs:70-112 | so the verdict on 32-byte words is that on their canonical forms |
| `Nullifier.SetBitAddsSlot` | programs/holanc-nullifier/src/lib.rs:50-59 | setting one bit of the page adds one slot and moves no other |
| `Nullifier.NullifierAccounts.TestAndSet` | programs/holanc-nullifier/src/lib.rs:50-59 | reports whether the slot was taken, and takes it |
| `Nullifier.NullifierAccounts.MarkSlot` | programs/holanc-nullifier/src/lib.rs:50-66 | in-place test, set and count refine marking a slot of a set |
| `Nullifier.NullifierAccounts.RegisterNullifier` | programs/holanc-nullifier/src/lib.rs:38-72 | succeeds if and only if the authority signs and the bit at `digest[0] + 256 digest[1]` modulo 2048, for the digest of the nullifier's 32 bytes, is clear; then that bit alone is set and both counters go up, and otherwise nothing changes |
| `Nullifier.NullifierAccounts.RegisterNullifierV2` | programs/holanc-nullifier/src/lib.rs:137-176 | the same with the digest of nullifier, chain id and application id, 48 bytes in all |
| `Nullifier.NullifierAccounts.IsNullifierSpent` | programs/holanc-nullifier/src/lib.rs:75-94 | true if and only if the bit that the nullifier's digest picks is set |
| `Nullifier.NullifierAccounts.FinalizeCurrentEpoch` | programs/holanc-nullifier/src/lib.rs:98-129 | by the authority: records root, clock and count under the current epoch, which has no record yet, and opens the next |
| `Nullifier.CountIsSuccesses` | programs/holanc-nullifier/src/lib.rs:38-72 | in every run `count` = `total_nullifiers` = set bits = successful registrations <= 2048 |
| `Nullifier.RunKeepsInv` | programs/holanc-nullifier/src/lib.rs:38-176 | in every run the records are those of epochs 0 to current - 1, with non-decreasing counts |
| `Nullifier.SpentForever` | programs/holanc-nullifier/src/lib.rs:38-94 | a registered nullifier reads as spent ever after |
| `Nullifier.NoDoubleRegistration` | programs/holanc-nullifier/src/lib.rs:38-72 | no two registrations of a run succeed on one slot, hence no two equal registrations do |
| `NullifierPages.AttemptIff` | programs/holanc-nullifier/src/lib.rs:38-72 | over many pages and managers: a spend is accepted if and only if manager, page and signer match and its slots are different and free on that page, and touches no other page |
| `NullifierPages.OncePerPage` | programs/holanc-nullifier/src/lib.rs:38-72 | in no run over any number of pages is a nullifier spent twice on one page |
| `NullifierPages.SpentAgainIff` | programs/holanc-pool/src/lib.rs:232-240 | two acceptable spends that carry one nullifier are both accepted if and only if they name different pages |
| `NullifierPages.PageIsRegistry` | programs/holanc-nullifier/src/lib.rs:38-72 | each page holds what the one-page registry holds after the spends on that page |
| `Nullifier.RegistrationSucceedsIff` | programs/holanc-nullifier/src/lib.rs:38-72 | a registration succeeds if and only if no earlier success took its slot |
| `Nullifier.FullPageRefuses` | programs/holanc-nullifier/src/lib.rs:38-72 | after 2048 registrations every further one is refused |
| `Nullifier.RecordsAreFinal` | programs/holanc-nullifier/src/lib.rs:98-129 | the record of a finalized epoch never changes |
| `Nullifier.FinalizedIsRecorded` | programs/holanc-nullifier/src/lib.rs:98-129 | every successful finalization of a run stays on record, under the epoch that was current, with its root, its slot and the count so far |
| `NullifierSlots.SlotIs` | programs/holanc-nullifier/src/lib.rs:47-49 | the slot is the little-endian number of the first two digest bytes, modulo 2048, for the message spelled byte by byte |
| `NullifierSlots.MessagesDiffer` | programs/holanc-nullifier/src/lib.rs:147-153 | the hashed 32 or 48 bytes, spelled byte by byte as nullifier, chain id and application id, are different for different registrations of either version |
| `NullifierSlots.SecondSucceedsIff` | programs/holanc-nullifier/src/lib.rs:47-58 | of two registrations that could each succeed, the second still does after the first if and only if the heads of their digests differ modulo 2048 |
| `NullifierSlots.BothMaySucceed` | programs/holanc-nullifier/src/lib.rs:147-162 | whenever two slots are free, any two different registrations both succeed under some digest |
| `Nullifier.RecordsAreTrue` | programs/holanc-nullifier/src/lib.rs:98-129 | each record holds the root and slot of the call that finalized its epoch and the number of registrations that had succeeded before it |
| `PoolProgram.Program.constructor` | programs/holanc-pool/src/lib.rs:53-79 | an initialized pool is empty, with zeroed roots and subtrees |
| `PoolProgram.Program.Zeros` | programs/holanc-pool/src/lib.rs:510-522 | the table built on first use holds the roots of the empty subtrees over the leaf H(0,0) |
| `PoolProgram.Program.InsertLeaf` | programs/holanc-pool/src/lib.rs:135-151 | the in-place level loop computes the subtrees and root of the climb |
| `PoolProgram.Program.Deposit` | programs/holanc-pool/src/lib.rs:88-162 | the handler refines `Pool.Deposit`, error cases included |
| `PoolProgram.Program.IsKnownRoot` | programs/holanc-pool/src/lib.rs:565-570 | true if and only if the root is the current one or in the ring |
| `PoolProgram.Program.Transfer` | programs/holanc-pool/src/lib.rs:173-292 | the handler with the runtime's rollback refines `Pool.Transfer`: a failure after the first nullifier was marked leaves every account as it was |
| `PoolProgram.Program.Withdraw` | programs/holanc-pool/src/lib.rs:298-454 | the same for withdrawals, which move money before they can still fail; success means a proof of root, nullifiers, outputs, exit and fee in this order, exit to the recipient and fee to the collector |
| `PoolProgram.Program.UpdateRoot` | programs/holanc-pool/src/lib.rs:462-480 | refines `Pool.UpdateRoot`: only the authority, only against the current SHA-256 root |
| `PoolProgram.Program.SetPaused` | programs/holanc-pool/src/lib.rs:483-488 | only the authority changes the flag, and nothing else changes |
| `Pool.AttemptKeepsWellFormed` | programs/holanc-pool/src/lib.rs:88-488 | no instruction lets a counter or balance leave the `u64` range or the ring index its range |
| `RootWindow.PublishHolds` | programs/holanc-pool/src/lib.rs:475-478 | publishing keeps, at each ring position, the latest root published there |
| `RootWindow.KnownRoots` | programs/holanc-pool/src/lib.rs:475-478 | after k publications a root is known if and only if it is among the last min(k,100), or is zero and k < 100; the ring index is k mod 100 |
| `PublishedRoots.KnownInRun` | programs/holanc-pool/src/lib.rs:462-480 | the same in every run of all instructions, for the roots of the successful `update_root` calls |
| `DepositTree.Zeros` | programs/holanc-pool/src/lib.rs:510-522 | level l of the table is the root of the empty subtree of height l over H(0,0) |
| `DepositTree.DepositedRoot` | programs/holanc-pool/src/lib.rs:135-151 | for any number of deposits the subtrees hold the completed left siblings and the root is that of the height-20 subtree of the last leaf |
| `DepositTree.DepositedIsRootOfBlock` | programs/holanc-pool/src/lib.rs:135-151 | up to 2^20 leaves the root is the depth-20 root over all commitments, beyond that over the current block |
| `DepositTree.Sha256RootIsTreeRoot` | programs/holanc-pool/src/lib.rs:88-162 | `sha256_root` is that root in every run without spends, whatever other calls it contains |
| `DepositTree.SpendLeavesRootStale` | programs/holanc-pool/src/lib.rs:247-260 | after a spend `sha256_root` is the root over all leaves only if SHA-256 collides or both outputs are empty leaves |
| `DepositTree.RootCoversDepositsOnly` | programs/holanc-pool/src/lib.rs:88-454 | in every run, whatever leaves `sha256_root` is the root of are deposited commitments, empty leaves or zero words, up to a collision or a preimage of zero |
| `DepositTree.StaleForGood` | programs/holanc-pool/src/lib.rs:88-454 | so once a spend has added an output of its own, no later call of the run makes `sha256_root` the root over all leaves again |
| `DepositTree.LeavesAreCounted` | programs/holanc-pool/src/lib.rs:88-454 | the next leaf index counts deposits and spend outputs |
| `Solvency.AccountsHold` | programs/holanc-pool/src/lib.rs:88-488 | in every run, whatever the verifier, the authority or depositors do: `total_deposited` = deposits - exits, and vault = `total_deposited` - fees, plus payments to the vault itself |
| `Solvency.SpendShortfall` | programs/holanc-pool/src/lib.rs:173-454 | what the pool is short of grows, with an accepted spend, by exactly the worth it consumed that was not live, when its outputs are fresh |
| `Solvency.SpendSolventIff` | programs/holanc-pool/src/lib.rs:173-454 | an accepted spend leaves an exactly solvent pool solvent if and only if each note of worth that it consumes was still live |
| `Solvency.StepKeepsBacked` | programs/holanc-pool/src/lib.rs:88-488 | every instruction keeps known roots within committed notes, spent notes committed and their nullifiers registered |
| `Solvency.CoveredHolds` | programs/holanc-pool/src/lib.rs:88-488 | in every run whose spends consume live notes the counter covers what is owed and the fees |
| `Solvency.SolventThroughoutIff` | programs/holanc-pool/src/lib.rs:88-488 | over whole runs that destroy no value: solvent all along if and only if every accepted spend consumed live notes |
| `Solvency.CanonicalIsSincere` | programs/holanc-pool/src/lib.rs:173-454 | with one nullifier for each note, nullifiers below the group order are enough for that |
| `Solvency.Solvent` | programs/holanc-pool/src/lib.rs:88-488 | in every run with canonical nullifiers: `total_deposited` = deposits - exits; vault = `total_deposited` - fees (plus payments to the vault itself); and the vault covers all committed unspent notes |
| `Solvency.ExactlySolvent` | programs/holanc-pool/src/lib.rs:88-488 | when no call destroys value either, the vault holds exactly the value of these notes |
| `Solvency.DepositSolventIff` | programs/holanc-pool/src/lib.rs:88-162 | a deposit into an exactly solvent pool leaves it solvent if and only if its commitment opens to no more than the amount |
| `Solvency.AcceptedWithdrawIsPaid` | programs/holanc-pool/src/lib.rs:298-454 | after every such run a withdrawal with canonical nullifiers that passes the checks and finds its slots free is never refused for want of money, although fees never lower the counter |
| `Solvency.NoNoteSpentTwice` | programs/holanc-pool/src/lib.rs:173-454 | no note of worth is consumed twice under canonical nullifiers, by two spends of a run or within one |
| `ConcreteRuns.AliasIsPaidAgain` | programs/holanc-verifier/src/lib.rs:70-112 | a withdrawal and its alias are both accepted and paid, and the vault is short of what is owed, with a sound verifier, honest roots and honest deposits |
| `DoubleSpend.RegisterBothIff` | programs/holanc-pool/src/lib.rs:631-674 | both registrations of a spend succeed if and only if the authority signs and the two slots are free and different |
| `DoubleSpend.SlotsUsedOnce` | programs/holanc-pool/src/lib.rs:173-454 | two accepted calls of a run on the pool's page, pool spends or direct registrations, never share a slot |
| `DoubleSpend.NoDoubleSpend` | programs/holanc-pool/src/lib.rs:173-454 | no nullifier, as a word, is spent on the pool's page by two spends of a run or twice within one |
| `DoubleSpend.SpendRegistersIff` | programs/holanc-pool/src/lib.rs:173-454 | nothing but an earlier claim on one of its slots makes the registry refuse a properly signed spend with different slots |
| `DoubleSpend.OnePaddedSpend` | crates/holanc-client/src/lib.rs:195-199 | of the transactions one key pads with the wallet's dummy input, a run accepts at most one, if it is proved at all |
| `ClientWallet.PaddingProvesOnlyIf` | crates/holanc-client/src/lib.rs:195-222 | a real input's proof folds to the root; the padding's does only if the wallet's first leaf is the padding's commitment, or the hash collides |
| `PoolRules.TransferSucceedsIff` | programs/holanc-pool/src/lib.rs:173-292 | the exact condition for transfers: open pool, known root, a lock guard that lets both nullifiers pass, valid proof, free slots, an affordable fee; only the fee moves |
| `PoolRules.WithdrawSucceedsIff` | programs/holanc-pool/src/lib.rs:298-454 | the same for withdrawals, with exit plus fee within `total_deposited`; only exit and fee move |
| `PoolRules.TransferDoesWhatIsProved` | programs/holanc-pool/src/lib.rs:210-227 | where the verifier accepts one list of six inputs, the transfers that succeed are those with this root, these nullifiers and outputs in order, and this fee, which is what the collector is paid |
| `PoolRules.WithdrawDoesWhatIsProved` | programs/holanc-pool/src/lib.rs:335-358 | where it accepts one list of seven, the withdrawals that succeed have root, nullifiers, outputs, exit and fee in these places; the recipient is paid the sixth and the collector the seventh |
| `PoolRules.UpdateRootSucceedsIff` | programs/holanc-pool/src/lib.rs:462-480 | exactly the authority, against the current SHA-256 root, publishes; the root becomes current and takes the next place in the ring |
| `PoolRules.PauseIsSet` | programs/holanc-pool/src/lib.rs:483-488 | in every run the pool is paused or open as the authority said last |
| `BridgeLocks.GuardRefusesIff` | programs/holanc-pool/src/lib.rs:526-563 | the guard refuses a spend if and only if a passed account is in use and is not the lock of the program `BRIDGE_PROGRAM_ID` for that nullifier, or is one not released |
| `BridgeLocks.AnotherProgramBlocks` | programs/holanc-pool/src/lib.rs:543-548 | an account in use of any other program, such as a bridge with another id, is refused |
| `BridgeLocks.UnpassedLockIsIgnored` | programs/holanc-pool/src/lib.rs:173-454 | a lock changes nothing for a spend that does not pass the account holding it |
| `BridgeLocks.EmptyAccountsPass` | programs/holanc-pool/src/lib.rs:526-534 | a spend of a locked commitment that passes empty accounts succeeds exactly when it would without any lock |
| `ConcreteRuns.LockedCommitmentIsSpent` | programs/holanc-pool/src/lib.rs:173-292 | a run of deposits, an honest root, a lock and a transfer with a sound verifier, in which the locked note is live before the transfer and spent by it |
| `PoolRules.SupplyIsConstant` | programs/holanc-pool/src/lib.rs:88-454 | no run makes or loses a token |
| `PoolRules.OthersCannotGovern` | programs/holanc-pool/src/lib.rs:88-488 | in a run without the authority's signature the known roots and the pause stay as they are, and a paused pool is frozen |
| `Bridge.PreimageInjective` | programs/holanc-bridge/src/lib.rs:122-128 | different message bodies have different preimages |
| `Bridge.PreimageLayout` | programs/holanc-bridge/src/lib.rs:122-128 | the 56 hashed bytes are chain, epoch, root and count, numbers least significant byte first |
| `Bridge.CountSignatures` | programs/holanc-bridge/src/lib.rs:134-178 | succeeds if and only if there are at least 13 signatures and each names a new guardian below `num_guardians` and is backed by its Ed25519 instruction; no index or `u8` count goes out of range |
| `Bridge.AcceptedAreDistinct` | programs/holanc-bridge/src/lib.rs:134-178 | k accepted signatures name k different guardians, so k <= 19 |
| `Ed25519.OwnEntryVerifies` | programs/holanc-bridge/src/lib.rs:388-448 | for an instruction whose first entry takes key and message from itself, what the program reads is what the runtime verified |
| `Ed25519.EntryVerifiesIff` | programs/holanc-bridge/src/lib.rs:408-445 | in general it is, at that entry, if and only if the resolved key and message are the embedded ones |
| `Bridge.AcceptedIsQuorum` | programs/holanc-bridge/src/lib.rs:99-198 | what the loop accepts is a quorum of guardians that signed the message, if the runtime verified each claimed signature |
| `Bridge.QuorumIffVouched` | programs/holanc-bridge/src/lib.rs:99-198 | for every landed transaction and accepted list: the named guardians are sure to have signed if and only if the runtime verified every signature claimed |
| `Bridge.OwnEntriesVouch` | programs/holanc-bridge/src/lib.rs:388-448 | entries that take key and message from their own instruction are enough |
| `Bridge.UnvouchedIsAccepted` | programs/holanc-bridge/src/lib.rs:388-448 | thirteen instructions whose entries point at another instruction are accepted for any message although no guardian signed it |
| `Bridge.QuorumsIntersect` | programs/holanc-bridge/src/lib.rs:134-178 | two quorums of one set share at least seven guardians |
| `Bridge.RunKeepsInv` | programs/holanc-bridge/src/lib.rs:60-198 | in every run whose stored roots the runtime vouched for, each hashes to a message signed by a quorum, and outbound messages are numbered without gaps |
| `Bridge.OwnEntriesVouchForRun` | programs/holanc-bridge/src/lib.rs:99-198 | that holds of every run of transactions with entries of their own |
| `Bridge.OutboundIsHistory` | programs/holanc-bridge/src/lib.rs:60-92 | each outbound message is what some call published while the bridge was active, under the sequence number then next |
| `Bridge.GenuineIsReceived` | programs/holanc-bridge/src/lib.rs:99-198 | an active bridge receives every foreign root it has no record of, from any thirteen guardians or more who sign in the form that clients send |
| `Bridge.ReceivedIsStored` | programs/holanc-bridge/src/lib.rs:181-188 | in every run, what a call that passes the checks delivers is on record ever after: body, hash and time, under its chain and epoch |
| `Bridge.StoredWasReceived` | programs/holanc-bridge/src/lib.rs:181-188 | and nothing else is: each record is what some call delivered that passed the checks |
| `Bridge.ReceivedOnce` | programs/holanc-bridge/src/lib.rs:99-198 | no two calls of a run deliver the same chain and epoch |
| `Bridge.GuardianSetIsStored` | programs/holanc-bridge/src/lib.rs:277-299 | the first acceptable guardian set is stored for good, with its keys and its size |
| `Bridge.PublishedIsStored` | programs/holanc-bridge/src/lib.rs:60-92 | what an active bridge publishes is on record ever after under the number then next, with its own chain and application |
| `Bridge.InactiveIsFrozen` | programs/holanc-bridge/src/lib.rs:60-198 | until the authority switches it on again, an inactive bridge receives and publishes nothing |
| `Ed25519.BacksOneClaim` | programs/holanc-bridge/src/lib.rs:388-448 | an instruction backs one signature of one message under one key |
| `Bridge.RootsAreFinal` | programs/holanc-bridge/src/lib.rs:99-198 | no run overwrites a stored root or the guardian set |
| `Bridge.BridgesAgree` | programs/holanc-bridge/src/lib.rs:99-198 | bridges with the same guardians, at most six of whom equivocate, never hold different roots, each backed by a quorum, for one chain and epoch, or SHA-256 collides |
| `Bridge.RunsAgree` | programs/holanc-bridge/src/lib.rs:99-198 | the same after any two runs of any two new bridges whose stored roots the runtime vouched for |
| `BridgeProgram.Program.InitializeGuardianSet` | programs/holanc-bridge/src/lib.rs:277-299 | once only, by the authority, with 13 to 19 guardians, whose keys and number are stored |
| `BridgeProgram.Program.ReceiveEpochRoot` | programs/holanc-bridge/src/lib.rs:99-198 | succeeds if and only if every check passes; then exactly this body, hash and time are stored under its chain and epoch, and otherwise nothing changes |
| `BridgeProgram.Program.PublishEpochRoot` | programs/holanc-bridge/src/lib.rs:60-92 | an active bridge stores the message under the next sequence number, which goes up by one |
| `BridgeProgram.Program.SetActive` | programs/holanc-bridge/src/lib.rs:335-340 | the flag becomes what the authority says; nobody else changes it, and nothing else changes |
| `CoinSelection.SelectGreedy` | crates/holanc-client/src/lib.rs:122-161 | succeeds if and only if there are notes, their sum fits a `u64` and some two of them cover the amount; it then returns a smallest cover, of at most two notes |
| `CoinSelection.GreedyIsMinimal` | crates/holanc-client/src/lib.rs:139-161 | where the loop stops, it has a smallest cover or no two notes cover the amount |
| `CoinSelection.SelectRandom` | sdk/typescript/src/wallet.ts:178-204 | succeeds if and only if there are notes and two of them cover the amount; it returns any single that suffices, or else any pair, and that is a smallest cover if and only if the amount is not 0 |
| `CoinSelection.WalletsAgree` | crates/holanc-client/src/lib.rs:122-161 | over the same notes the Rust greedy succeeds exactly when the SDK search does and the sum fits, and then both spend equally many notes if and only if the amount is not 0 |
| `ClientWallet.Wallet.constructor` | crates/holanc-client/src/lib.rs:60-68 | a new wallet has no notes and an empty tree |
| `ClientWallet.Wallet.AddDepositNote` | crates/holanc-client/src/lib.rs:100-118 | the note gets the next leaf, which holds the hash of owner, value, asset and blinding, so note i always sits at leaf i; a full tree refuses without a trace |
| `ClientWallet.Wallet.SelectNotes` | crates/holanc-client/src/lib.rs:122-161 | the selection names different unspent notes, two at most, that cover the amount; no fewer would, and no note left over is worth more than one chosen |
| `ClientWallet.CommitmentBinds` | crates/holanc-client/src/lib.rs:100-118 | notes of one commitment agree in owner, value, asset and blinding, or the commitment hash collides |
| `ClientWallet.CheckPassesIff` | crates/holanc-prover/src/inputs.rs:77-82 | the value check passes if and only if the sums fit a `u64` and inputs cover outputs, exit and fee |
| `ClientWallet.Wallet.GatherInputs` | crates/holanc-client/src/lib.rs:195-222 | each real input comes with a proof that folds from its commitment to the wallet's root; the rest is padding |
| `ClientWallet.Wallet.FundInputs` | crates/holanc-client/src/lib.rs:181-222 | inputs are found if and only if the wallet can fund amount plus fee from two notes or fewer |
| `ClientWallet.Wallet.PrepareTransfer` | crates/holanc-client/src/lib.rs:181-238 | inputs = outputs + fee without underflow, the value check of the circuit input passes, and the outputs are the payment and the change |
| `ClientWallet.Wallet.PrepareWithdraw` | crates/holanc-client/src/lib.rs:241-297 | inputs = outputs + exit + fee, likewise |
| `ClientWallet.Wallet.MarkNotesSpent` | crates/holanc-client/src/lib.rs:300-308 | exactly the notes at the listed leaves become spent |
| `ClientWallet.MarkSpentLowersBalance` | crates/holanc-client/src/lib.rs:300-308 | marking different unspent notes lowers the balance by exactly their worth |
| `ClientWallet.SpendingLowersBalance` | crates/holanc-client/src/lib.rs:181-308 | marking the inputs of a prepared transaction lowers the balance by exactly outputs + exit + fee |
| `ClientWallet.BalanceIsSum` | crates/holanc-client/src/lib.rs:86-97 | the balance is the sum over the unspent notes |
| `ClientWallet.SaveAndLoad` | crates/holanc-client/src/lib.rs:314-371 | loading what a wallet saved gives back a valid wallet equal to it in every field, tree included, if and only if the key is the wallet's |
| `ClientWallet.Load` | crates/holanc-client/src/lib.rs:340-371 | only the file's key opens it; the fields are restored and the commitments of placed notes replayed in order, up to the tree's capacity |
| `ClientWallet.RestoredEqualsSaved` | crates/holanc-client/src/lib.rs:340-371 | a wallet restored from a valid one's fields has the same leaves, root, `next_index` and subtrees |
| `SdkWallet.HolancWallet.AddNewNote` | sdk/typescript/src/wallet.ts:132-152 | the note is appended, unspent and unlocked |
| `SdkWallet.HolancWallet.SelectNotes` | sdk/typescript/src/wallet.ts:178-204 | returns one or two unspent, unlocked notes that cover the total, if and only if such exist |
| `SdkWallet.HolancWallet.PrepareInputs` | sdk/typescript/src/wallet.ts:207-288 | locks exactly the selection and computes change so that inputs = amount + fee + change, or fails without a trace |
| `SdkWallet.HolancWallet.MarkSpent` | sdk/typescript/src/wallet.ts:291-299 | exactly the notes with the given commitments become spent and unlocked, and the balance falls by what those not yet spent were worth; for a transaction's inputs that settles it |
| `SdkWallet.HolancWallet.UnlockNotes` | sdk/typescript/src/wallet.ts:302-309 | exactly the notes with the given commitments become unlocked, and the balance stays; for a transaction's inputs that releases them |
| `SdkWallet.OtherKeepsInvIff` | sdk/typescript/src/wallet.ts:291-309 | marking or unlocking notes that are no input of one's own transaction keeps the reservations intact if and only if none of them is held |
| `SdkWallet.StepKeepsInv` | sdk/typescript/src/wallet.ts:207-309 | every other step does: a note is locked exactly while one transaction holds it |
| `SdkWallet.ReservationsAreDisjoint` | sdk/typescript/src/wallet.ts:207-309 | in every interleaving in which nobody marks or unlocks another's held notes, outstanding transactions hold disjoint sets of notes, none of them spent |
| `SdkWallet.UnlockIsSafeIff` | sdk/typescript/src/wallet.ts:302-309 | after unlocking any notes, every next preparation keeps the reservations disjoint if and only if none of the notes was held |
| `SdkWallet.SpentNeverSelected` | sdk/typescript/src/wallet.ts:122-309 | a spent note is never selected again, whatever is marked or unlocked |
| `SdkWallet.SettledNeverChosen` | sdk/typescript/src/wallet.ts:207-299 | in every run, harmful or not: what a transaction chose and was settled with, no later preparation chooses |
| `SdkWallet.ReportedNeverChosen` | sdk/typescript/src/wallet.ts:291-299 | nor does any choose a note of the wallet that some other call reported as spent |
| `SdkWallet.BalanceIsSum` | sdk/typescript/src/wallet.ts:115-119 | the balance is the sum of the values of the unspent notes |
| `SdkWallet.ReleaseUndoesPrepare` | sdk/typescript/src/wallet.ts:302-309 | a transaction that unlocks its notes leaves the wallet as it was |
| `SdkWallet.SpendLowersBalance` | sdk/typescript/src/wallet.ts:115-299 | marking as spent lowers the balance by exactly the worth of the notes, locking does not move it |
| `NoteStore.Store.InsertNote` | indexer/src/store.ts:53-66 | the first write of a commitment wins |
| `NoteStore.RangeIsSorted` | indexer/src/store.ts:101-122 | a range query returns exactly the notes in the range, by ascending leaf index |
| `NoteStore.FindFinds` | indexer/src/store.ts:126-135 | a lookup returns a row with that commitment, if there is one |
| `NoteStore.MaxLeafIsMax` | indexer/src/store.ts:145-150 | the greatest leaf index in the table is attained and exceeded by none |
| `NoteStore.CountIsSize` | indexer/src/store.ts:137-143 | the count is the number of different notes |
| `NoteStore.ContentsDetermineAnswers` | indexer/src/store.ts:101-150 | with distinct leaf indices every query depends on the set of notes only, not on the order of insertion |
| `NoteStore.AnswersMean` | indexer/src/store.ts:101-150 | every query gets what it asks for: the rows of the range with their multiplicity by ascending leaf index, the first of them under a limit, a row with the commitment, the number of notes, the greatest leaf index or -1 |
| `NoteStore.Store.Ask` | indexer/src/store.ts:101-150 | the answer means that |
| `ReplicatedStore.PrimaryHoldsFirstWrites` | indexer/src/replicated-store.ts:52-55 | in every run, whatever the replicas do, the primary holds what it held and the first write of each new commitment, and no more |
| `ReplicatedStore.ReplicatedNoteStore.InsertNote` | indexer/src/replicated-store.ts:52-55 | the primary takes the note; each healthy replica takes it too, or throws and is no longer trusted |
| `ReplicatedStore.InsertKeepsInSync` | indexer/src/replicated-store.ts:155-164 | an insert keeps every replica a part of the primary and every healthy one equal to it, however the replicas fail |
| `ReplicatedStore.ReplicatedNoteStore.Read` | indexer/src/replicated-store.ts:169-190 | the round-robin read returns what the primary would, falls back to it only when no replica is healthy, and distrusts only replicas that throw |
| `ReplicatedStore.ReplicatedNoteStore.Health` | indexer/src/replicated-store.ts:100-116 | a replica that throws loses its trust and reports leaf -1; any other reports its greatest leaf; the lag is the primary's greatest leaf less that, and 0 for a healthy one of a store in sync |
| `ReplicatedStore.ReplicatedNoteStore.ResyncReplica` | indexer/src/replicated-store.ts:119-138 | the 500-wide batches copy exactly the missing notes at leaf 0 and above whose inserts take effect |
| `ReplicatedStore.ResyncRestoresIff` | indexer/src/replicated-store.ts:119-138 | the replica then equals the primary if and only if each note it lacked was reached and taken; it is trusted either way |
| `ReplicatedStore.SwallowedResyncDiverges` | indexer/src/replicated-store.ts:119-138 | a swallowed failure leaves a healthy replica that differs, and a later insert can make it hold a note that the primary does not |
| `ReplicatedStore.RunKeepsInSync` | indexer/src/replicated-store.ts:52-190 | in every interleaving of inserts, reads, failures and complete resyncs, replicas stay sub-maps and healthy ones equal the primary |
| `ReplicatedStore.HealthyAnswersLikePrimary` | indexer/src/replicated-store.ts:169-190 | a healthy replica answers every query as the primary does |
| `RelayQueue.Relay.Enqueue` | relayer/src/batcher.ts:59-70 | the request joins the end of the queue, and its status starts as queued, unsent, with the delay and the transaction given |
| `RelayQueue.Relay.Flush` | relayer/src/batcher.ts:106-138 | the whole queue becomes one batch, every entry of it is started once, and the number of dummies is the padding |
| `RelayQueue.Relay.SendEnds` | relayer/src/batcher.ts:159-193 | a send attempt confirms, fails for good, or leads to a backoff while attempts remain |
| `RelayQueue.FlushKeepsInv` | relayer/src/batcher.ts:106-138 | a flush keeps the queue invariant: batches and queue together are the requests in arrival order |
| `RelayQueue.RunKeepsInv` | relayer/src/batcher.ts:59-207 | so does every step; states move queued, pending, one terminal state, within `maxRetries` + 1 sends |
| `RelayQueue.ExactlyOnce` | relayer/src/batcher.ts:106-109 | under any overlap of enqueues and flushes, batches and queue together are the requests that the run's steps made, in order, and each is still queued or in exactly one batch, once |
| `RelayQueue.RequestsAreKept` | relayer/src/batcher.ts:59-70 | every request of a run keeps a status for good, with the delay and the transaction it came with |
| `RelayQueue.FlushStarts` | relayer/src/batcher.ts:134-157 | a flush lets the entries with a delay wait, sends the other transactions for the first time and fails what is no transaction, and touches no entry outside the batch |
| `RelayQueue.Relay.Wake` | relayer/src/batcher.ts:136-157 | after its delay a transaction is sent for the first time, and anything else fails unsent |
| `RelayQueue.Relay.Retry` | relayer/src/batcher.ts:176-189 | after the backoff the next attempt is sent, within `maxRetries` + 1 |
| `RelayQueue.FinishedForGood` | relayer/src/batcher.ts:140-202 | a confirmed or failed request never changes again |
| `RelayQueue.StepMakesProgress` | relayer/src/batcher.ts:134-202 | every step of a request's task brings it strictly closer to its terminal state |
| `RelayQueue.PaddedToLeastMultiple` | relayer/src/batcher.ts:111-115 | batch plus padding is the least multiple of the minimum that covers the batch; a minimum of 0 pads nothing |
| `RelayQueue.SendWithRetries` | relayer/src/batcher.ts:157-196 | confirmed if and only if the last attempt was; all earlier attempts failed transiently; a failure means a permanent error or `maxRetries` + 1 attempts |
| `RelayQueue.FinishedAsVerdict` | relayer/src/batcher.ts:134-202 | in every run, however its tasks interleave, a finished request has the state and the number of sends that the retry loop computes from the outcomes of its sends |

## Left out

- Poseidon, SHA-256, curve and pairing arithmetic, Ed25519, HKDF and AEAD are parameters; a file opens under its own key only.
- Hash failures (`HashFailed`, Poseidon errors): the hash parameters are total.
- The circuits and the EVM contracts: that an accepted proof has a balanced opening is a hypothesis.
- Account plumbing, address derivation, events and CPI encoding; an account that an instruction creates is a map key that must be absent.
- The timestamp of an outbound message, and the pool that outbound messages and foreign roots repeat from the bridge.
- Token transfers into the vault that bypass the pool.
- Solvency.Solvent: spends that name a page, manager or verification key other than the pool's are not covered.
- DoubleSpend.NoDoubleSpend: likewise; NullifierPages says what several pages allow.
- `verify_foreign_nullifier`, `lock_commitment`, `unlock_commitment`: the pool reads lock accounts, which other programs may change at any point of a run.
- RPC, HTTP, timers, SQLite and randomness: their results are parameters, including whether a call throws.
- A primary store that throws, `insertNotesAtomic`, and the metadata rows of the note store.
- `fetchIncomingNotes`, key derivation, blinding counters and the contents of change notes in the SDK wallet.
- JSON rendering of circuit inputs, and stealth and wealth-proof inputs.
- Log lines, timestamps and the sending of dummies in the relay queue; the backoff times.
- SdkWallet.HolancWallet.PrepareInputs: notes are values found by commitment, so two JavaScript references to one note object are not modelled.
- ClientWallet.Wallet.SelectNotes: returns positions of notes where the source returns references.
- Compliance, fee estimation, jitter, rate limits, RPC failover, indexer log scanners, the CLI and the app: guards, glue and I/O.

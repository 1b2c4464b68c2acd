/** The instructions of the shielded pool as functions on chain state
    (programs/holanc-pool/src/lib.rs). */
module Pool {
  import opened Base
  import opened Merkle
  import opened RootWindow
  import N = Nullifier

  const TREE_DEPTH: nat := 20
  const MAX_ENCRYPTED_NOTE: nat := 256

  type Account = nat
  type Address = nat
  type Proof = nat

  /** What the programs call and the model leaves uninterpreted: SHA-256 over a pair of
      words, the digest of the nullifier registry, the proof verifier, the program id
      that the pool has for the bridge, and the address that this program derives from
      ["lock", pool, word]. */
  datatype Env = Env(
    sha256Pair: (Word, Word) -> Word,
    digest: N.Digest,
    verify: (Proof, seq<Word>) -> bool,
    bridgeId: Word,
    lockPda: Word -> Address)
  {
    /** The level-0 entry of the `zeros` table. */
    function EmptyLeaf(): Word {
      sha256Pair(ZERO_WORD, ZERO_WORD)
    }
  }

  datatype PoolError =
    | PoolPaused | ZeroAmount | EncryptedNoteTooLarge | TreeFull | Overflow | UnknownMerkleRoot
    | RootIntegrityMismatch | InsufficientPoolBalance | Unauthorized | ProofVerificationFailed
    | CommitmentBridgeLocked | InvalidCommitmentLockPDA | MissingEncryptedNote
    | TokenTransferFailed | InvalidTokenAccount | NullifierRejected(error: N.NullifierError)

  datatype PoolState = PoolState(
    nextLeafIndex: nat,
    window: Window,
    totalDeposited: nat,
    isPaused: bool,
    lastCommitment: Word,
    filledSubtrees: seq<Word>,
    sha256Root: Word)

  /** An account of some other program, as the pool sees it. */
  datatype AccountInfo = AccountInfo(owner: Word, data: seq<byte>)

  /** The accounts that the pool's instructions touch: its own state, the token balances,
      the nullifier registry, and `accounts`, which it only reads.  `vault`, `authority`
      never change. */
  datatype Chain = Chain(
    vault: Account, authority: Word, nullifierAuthority: Word,
    pool: PoolState, balances: map<Account, nat>, registry: N.Registry, accounts: map<Address, AccountInfo>)
  {
    ghost predicate WellFormed() {
      && vault in balances
      && pool.window.Valid()
      && |pool.filledSubtrees| == TREE_DEPTH
      && (forall a :: a in balances ==> IsU64(balances[a]))
      && IsU64(pool.nextLeafIndex) && IsU64(pool.totalDeposited)
    }
  }

  /** State after `initialize`: every account field starts as zero bytes. */
  function InitialPool(): PoolState {
    PoolState(0, EmptyWindow(), 0, false, ZERO_WORD, seq(TREE_DEPTH, _ => ZERO_WORD), ZERO_WORD)
  }

  // ----- Pieces of the instructions -----

  /** An SPL token transfer; paying an account to itself moves nothing. */
  function Pay(balances: map<Account, nat>, src: Account, dst: Account, amount: nat): Option<map<Account, nat>> {
    if src !in balances || dst !in balances || balances[src] < amount then None
    else if src == dst then Some(balances)
    else if !IsU64(balances[dst] + amount) then None
    else Some(balances[src := balances[src] - amount][dst := balances[dst] + amount])
  }

  /** Where a serialized lock record keeps `is_unlocked`. */
  const IS_UNLOCKED_OFFSET: nat := 8 + 32 + 32 + 8 + 8 + 32 + 8

  function DataAt(accounts: map<Address, AccountInfo>, address: Address): seq<byte> {
    if address in accounts then accounts[address].data else []
  }

  /** `assert_not_bridge_locked`, for the account that the caller passes and the word that
      the pool passes, which is the nullifier. */
  function CheckLock(env: Env, accounts: map<Address, AccountInfo>, address: Address, word: Word): Option<PoolError> {
    var data := DataAt(accounts, address);
    if data == [] then None
    else if address != env.lockPda(word) then Some(InvalidCommitmentLockPDA)
    else if accounts[address].owner != env.bridgeId then Some(InvalidCommitmentLockPDA)
    else if |data| > IS_UNLOCKED_OFFSET && data[IS_UNLOCKED_OFFSET] == 0 then Some(CommitmentBridgeLocked)
    else None
  }

  /** The level loop of `deposit`, from `level` upwards: the updated subtrees and the root. */
  function Climb20(h: (Word, Word) -> Word, z: Word, filled: seq<Word>, current: Word, index: nat, level: nat)
    : (r: (seq<Word>, Word))
    requires |filled| == TREE_DEPTH && level <= TREE_DEPTH
    ensures |r.0| == TREE_DEPTH
    decreases TREE_DEPTH - level, h
  {
    if level == TREE_DEPTH then (filled, current)
    else if index % 2 == 0 then
      Climb20(h, z, filled[level := current], h(current, Zero(h, z, level)), index / 2, level + 1)
    else
      Climb20(h, z, filled, h(filled[level], current), index / 2, level + 1)
  }

  function RegisterBoth(env: Env, signer: Word, c: Chain, nullifiers: (Word, Word))
    : Result<N.Registry, N.NullifierError>
  {
    if signer != c.nullifierAuthority then Failure(N.Unauthorized) else
      var first := N.Mark(c.registry, N.SlotV1(env.digest, nullifiers.0));
      if first.Failure? then Failure(first.error) else
        N.Mark(first.value, N.SlotV1(env.digest, nullifiers.1))
  }

  /** What `transfer` and `withdraw` have in common. */
  datatype Spend = Spend(
    signer: Word, root: Word, nullifiers: (Word, Word), outputs: (Word, Word), exit: U64, fee: U64,
    encryptedNotes: nat, locks: (Address, Address), proof: Proof,
    recipient: Account, feeCollector: Account)

  function TransferInputs(s: Spend): seq<Word> {
    [s.root, s.nullifiers.0, s.nullifiers.1, s.outputs.0, s.outputs.1, s.fee]
  }

  function WithdrawInputs(s: Spend): seq<Word> {
    [s.root, s.nullifiers.0, s.nullifiers.1, s.outputs.0, s.outputs.1, s.exit, s.fee]
  }

  /** The guard is asked about the nullifiers, one after the other. */
  function LockRefuses(env: Env, c: Chain, s: Spend): Option<PoolError> {
    var first := CheckLock(env, c.accounts, s.locks.0, s.nullifiers.0);
    if first.Some? then first else CheckLock(env, c.accounts, s.locks.1, s.nullifiers.1)
  }

  /** Root, locks and proof. */
  function CheckSpend(env: Env, c: Chain, s: Spend, inputs: seq<Word>): Option<PoolError> {
    if !c.pool.window.IsKnownRoot(s.root) then Some(UnknownMerkleRoot)
    else if LockRefuses(env, c, s).Some? then LockRefuses(env, c, s)
    else if !env.verify(s.proof, inputs) then Some(ProofVerificationFailed)
    else None
  }

  /** Both spends end by taking two leaf positions and paying the fee. */
  function FinishSpend(c: Chain, s: Spend): Result<Chain, PoolError> {
    if s.encryptedNotes != 2 then Failure(MissingEncryptedNote)
    else if !IsU64(c.pool.nextLeafIndex + 2) then Failure(TreeFull)
    else
      var appended := c.(pool := c.pool.(nextLeafIndex := c.pool.nextLeafIndex + 2));
      if s.fee == 0 then Success(appended) else
        var paid := Pay(c.balances, c.vault, s.feeCollector, s.fee);
        if paid.None? then Failure(TokenTransferFailed) else Success(appended.(balances := paid.value))
  }

  /** The part of a withdrawal that moves the exit out of the vault. */
  function PayExit(c: Chain, s: Spend): Result<Chain, PoolError>
    requires s.exit <= c.pool.totalDeposited
  {
    var paid := Pay(c.balances, c.vault, s.recipient, s.exit);
    if paid.None? then Failure(TokenTransferFailed) else
      FinishSpend(c.(balances := paid.value,
                     pool := c.pool.(totalDeposited := c.pool.totalDeposited - s.exit)), s)
  }

  // ----- Instructions -----

  function CheckDeposit(c: Chain, depositor: Account, amount: nat, noteLength: nat): Option<PoolError> {
    if depositor !in c.balances || depositor == c.vault then Some(InvalidTokenAccount)
    else if c.pool.isPaused then Some(PoolPaused)
    else if amount == 0 then Some(ZeroAmount)
    else if noteLength > MAX_ENCRYPTED_NOTE then Some(EncryptedNoteTooLarge)
    else if Pay(c.balances, depositor, c.vault, amount).None? then Some(TokenTransferFailed)
    else if !IsU64(c.pool.nextLeafIndex + 1) then Some(TreeFull)
    else if !IsU64(c.pool.totalDeposited + amount) then Some(Overflow)
    else None
  }

  function Deposit(env: Env, c: Chain, depositor: Account, amount: nat, commitment: Word, noteLength: nat)
    : Result<Chain, PoolError>
    requires |c.pool.filledSubtrees| == TREE_DEPTH
  {
    var refused := CheckDeposit(c, depositor, amount, noteLength);
    if refused.Some? then Failure(refused.value) else
      var (filled, root) :=
        Climb20(env.sha256Pair, env.EmptyLeaf(), c.pool.filledSubtrees, commitment, c.pool.nextLeafIndex, 0);
      Success(c.(balances := Pay(c.balances, depositor, c.vault, amount).value,
                 pool := c.pool.(nextLeafIndex := c.pool.nextLeafIndex + 1,
                                 totalDeposited := c.pool.totalDeposited + amount,
                                 lastCommitment := commitment,
                                 filledSubtrees := filled, sha256Root := root)))
  }

  function Transfer(env: Env, c: Chain, s: Spend): Result<Chain, PoolError> {
    if s.feeCollector !in c.balances then Failure(InvalidTokenAccount)
    else if c.pool.isPaused then Failure(PoolPaused) else
      var checked := CheckSpend(env, c, s, TransferInputs(s));
      if checked.Some? then Failure(checked.value) else
        var marked := RegisterBoth(env, s.signer, c, s.nullifiers);
        if marked.Failure? then Failure(NullifierRejected(marked.error)) else
          FinishSpend(c.(registry := marked.value), s)
  }

  function Withdraw(env: Env, c: Chain, s: Spend): Result<Chain, PoolError> {
    if s.recipient !in c.balances || s.feeCollector !in c.balances then Failure(InvalidTokenAccount)
    else if c.pool.isPaused then Failure(PoolPaused)
    else if s.exit == 0 then Failure(ZeroAmount)
    else
      var checked := CheckSpend(env, c, s, WithdrawInputs(s));
      if checked.Some? then Failure(checked.value)
      else if s.exit > c.pool.totalDeposited then Failure(InsufficientPoolBalance)
      else if !IsU64(s.exit + s.fee) then Failure(Overflow)
      else if s.exit + s.fee > c.pool.totalDeposited then Failure(InsufficientPoolBalance)
      else
        var marked := RegisterBoth(env, s.signer, c, s.nullifiers);
        if marked.Failure? then Failure(NullifierRejected(marked.error)) else
          PayExit(c.(registry := marked.value), s)
  }

  function UpdateRoot(c: Chain, signer: Word, newRoot: Word, expectedSha256Root: Word): Result<Chain, PoolError>
    requires c.pool.window.Valid()
  {
    if signer != c.authority then Failure(Unauthorized)
    else if c.pool.sha256Root != expectedSha256Root then Failure(RootIntegrityMismatch)
    else Success(c.(pool := c.pool.(window := c.pool.window.Publish(newRoot))))
  }

  function SetPaused(c: Chain, signer: Word, paused: bool): Result<Chain, PoolError> {
    if signer != c.authority then Failure(Unauthorized)
    else Success(c.(pool := c.pool.(isPaused := paused)))
  }

  // ----- Runs -----

  /** A call to the pool, to the nullifier registry beside it, or to anything else, which
      may change whatever the pool only reads. */
  datatype Call =
    | CallDeposit(depositor: Account, amount: nat, commitment: Word, noteLength: nat)
    | CallTransfer(spend: Spend)
    | CallWithdraw(spend: Spend)
    | CallUpdateRoot(signer: Word, newRoot: Word, expectedSha256Root: Word)
    | CallSetPaused(signer: Word, paused: bool)
    | CallRegistry(call: N.Call)
    | CallOutside(accounts: map<Address, AccountInfo>)

  function Attempt(env: Env, c: Chain, call: Call): Result<Chain, PoolError>
    requires c.pool.window.Valid() && |c.pool.filledSubtrees| == TREE_DEPTH
  {
    match call
    case CallDeposit(depositor, amount, commitment, noteLength) =>
      Deposit(env, c, depositor, amount, commitment, noteLength)
    case CallTransfer(s) => Transfer(env, c, s)
    case CallWithdraw(s) => Withdraw(env, c, s)
    case CallUpdateRoot(signer, newRoot, expected) => UpdateRoot(c, signer, newRoot, expected)
    case CallSetPaused(signer, paused) => SetPaused(c, signer, paused)
    case CallRegistry(registryCall) => Success(c.(registry := N.Step(env.digest, c.registry, registryCall)))
    case CallOutside(accounts) => Success(c.(accounts := accounts))
  }

  lemma PayKeepsU64(balances: map<Account, nat>, src: Account, dst: Account, amount: nat)
    requires forall a :: a in balances ==> IsU64(balances[a])
    ensures var paid := Pay(balances, src, dst, amount);
            paid.Some? ==>
              && paid.value.Keys == balances.Keys
              && (forall a :: a in paid.value ==> IsU64(paid.value[a]))
  {}

  lemma AttemptKeepsWellFormed(env: Env, c: Chain, call: Call)
    requires c.WellFormed()
    ensures Attempt(env, c, call).Success? ==> Attempt(env, c, call).value.WellFormed()
  {}

  /** A failed call changes nothing. */
  function Step(env: Env, c: Chain, call: Call): (r: Chain)
    requires c.WellFormed()
    ensures r.WellFormed()
  {
    AttemptKeepsWellFormed(env, c, call);
    if Attempt(env, c, call).Success? then Attempt(env, c, call).value else c
  }

  /** The chain after a run of calls. */
  function Execute(env: Env, c: Chain, calls: seq<Call>): (r: Chain)
    requires c.WellFormed()
    ensures r.WellFormed()
  {
    if calls == [] then c else Step(env, Execute(env, c, calls[..|calls| - 1]), calls[|calls| - 1])
  }
}

/** The pool program as it runs: instruction handlers that update accounts in place, and
    the runtime that discards the accounts of a failed transaction
    (programs/holanc-pool/src/lib.rs). */
module PoolProgram {
  import opened Base
  import opened Merkle
  import opened RootWindow
  import opened Pool
  import D = DepositTree
  import N = Nullifier
  import PR = PoolRules

  class Program {
    const env: Env
    const vault: Account
    const authority: Word
    const registry: N.NullifierAccounts
    const rootHistory: array<Word>
    const filledSubtrees: array<Word>
    var nextLeafIndex: nat
    var currentRoot: Word
    var rootHistoryIndex: nat
    var totalDeposited: nat
    var isPaused: bool
    var lastCommitment: Word
    var sha256Root: Word
    var balances: map<Account, nat>
    var accounts: map<Address, AccountInfo>
    var zerosTable: Option<seq<Word>>

    ghost function State(): Chain
      requires registry.bitmap.Length == N.BITMAP_BYTES
      reads this, rootHistory, filledSubtrees, registry, registry.bitmap
    {
      Chain(vault, authority, registry.authority,
            PoolState(nextLeafIndex, Window(currentRoot, rootHistory[..], rootHistoryIndex),
                      totalDeposited, isPaused, lastCommitment, filledSubtrees[..], sha256Root),
            balances, registry.State(), accounts)
    }

    ghost predicate Valid()
      reads this, rootHistory, filledSubtrees, registry, registry.bitmap
    {
      && rootHistory != filledSubtrees
      && registry.Valid() && registry.sha == env.digest
      && State().WellFormed()
      && (zerosTable.Some? ==> IsZerosTable(zerosTable.value))
    }

    ghost predicate IsZerosTable(z: seq<Word>) {
      |z| == TREE_DEPTH && forall l :: 0 <= l < TREE_DEPTH ==> z[l] == Zero(env.sha256Pair, env.EmptyLeaf(), l)
    }

    /** `initialize`: an empty pool over an existing vault and registry. */
    constructor (env: Env, vault: Account, authority: Word, registry: N.NullifierAccounts,
                 balances: map<Account, nat>, accounts: map<Address, AccountInfo>)
      requires registry.Valid() && registry.sha == env.digest
      requires vault in balances && forall a :: a in balances ==> IsU64(balances[a])
      ensures Valid() && fresh(rootHistory) && fresh(filledSubtrees)
      ensures this.env == env && this.registry == registry
      ensures State()
              == Chain(vault, authority, registry.authority, InitialPool(), balances, registry.State(), accounts)
      ensures nextLeafIndex == totalDeposited == rootHistoryIndex == 0 && !isPaused
      ensures currentRoot == lastCommitment == sha256Root == ZERO_WORD
      ensures forall w :: w in rootHistory[..] + filledSubtrees[..] ==> w == ZERO_WORD
    {
      this.env, this.vault, this.authority, this.registry := env, vault, authority, registry;
      rootHistory := new Word[ROOT_HISTORY_SIZE](_ => ZERO_WORD);
      filledSubtrees := new Word[TREE_DEPTH](_ => ZERO_WORD);
      nextLeafIndex, currentRoot, rootHistoryIndex, totalDeposited := 0, ZERO_WORD, 0, 0;
      isPaused, lastCommitment, sha256Root, this.balances := false, ZERO_WORD, ZERO_WORD, balances;
      zerosTable, this.accounts := None, accounts;
      new;
      assert rootHistory[..] == EmptyWindow().rootHistory;
      assert filledSubtrees[..] == InitialPool().filledSubtrees;
    }

    /** The table of empty subtrees, built on first use. */
    method Zeros() returns (z: seq<Word>)
      requires zerosTable.Some? ==> IsZerosTable(zerosTable.value)
      modifies this`zerosTable
      ensures IsZerosTable(z) && zerosTable == Some(z)
    {
      if zerosTable.None? {
        var table := D.Zeros(env.sha256Pair);
        zerosTable := Some(table);
      }
      z := zerosTable.value;
    }

    /** The level loop: `filledSubtrees` is updated in place. */
    method InsertLeaf(commitment: Word, leafIndex: nat, z: seq<Word>) returns (root: Word)
      requires filledSubtrees.Length == TREE_DEPTH && IsZerosTable(z)
      modifies filledSubtrees
      ensures var spec := Climb20(env.sha256Pair, env.EmptyLeaf(), old(filledSubtrees[..]), commitment, leafIndex, 0);
              filledSubtrees[..] == spec.0 && root == spec.1
    {
      var idx := leafIndex;
      root := commitment;
      ghost var result := Climb20(env.sha256Pair, env.EmptyLeaf(), filledSubtrees[..], commitment, leafIndex, 0);
      for level := 0 to TREE_DEPTH
        invariant Climb20(env.sha256Pair, env.EmptyLeaf(), filledSubtrees[..], root, idx, level) == result
      {
        ghost var before := filledSubtrees[..];
        if idx % 2 == 0 {
          filledSubtrees[level] := root;
          assert filledSubtrees[..] == before[level := root];
          root := env.sha256Pair(root, z[level]);
        } else {
          root := env.sha256Pair(filledSubtrees[level], root);
        }
        idx := idx / 2;
      }
    }

    method RefuseDeposit(depositor: Account, amount: nat, noteLength: nat) returns (refused: Option<PoolError>)
      requires registry.bitmap.Length == N.BITMAP_BYTES
      ensures refused == CheckDeposit(State(), depositor, amount, noteLength)
    {
      if depositor !in balances || depositor == vault { return Some(InvalidTokenAccount); }
      if isPaused { return Some(PoolPaused); }
      if amount == 0 { return Some(ZeroAmount); }
      if noteLength > MAX_ENCRYPTED_NOTE { return Some(EncryptedNoteTooLarge); }
      if Pay(balances, depositor, vault, amount).None? { return Some(TokenTransferFailed); }
      if !IsU64(nextLeafIndex + 1) { return Some(TreeFull); }
      if !IsU64(totalDeposited + amount) { return Some(Overflow); }
      refused := None;
    }

    method Deposit(depositor: Account, amount: nat, commitment: Word, noteLength: nat)
      returns (r: Result<(), PoolError>)
      requires Valid()
      modifies this`nextLeafIndex, this`totalDeposited, this`lastCommitment, this`sha256Root, this`balances,
               this`zerosTable, filledSubtrees
      ensures Valid()
      ensures Outcome(Pool.Deposit(env, old(State()), depositor, amount, commitment, noteLength), old(State()), r)
      ensures r.Success? ==>
                && nextLeafIndex == old(nextLeafIndex) + 1 && totalDeposited == old(totalDeposited) + amount
                && lastCommitment == commitment
    {
      AttemptKeepsWellFormed(env, State(), CallDeposit(depositor, amount, commitment, noteLength));
      ghost var spec := Pool.Deposit(env, State(), depositor, amount, commitment, noteLength);
      var refused := RefuseDeposit(depositor, amount, noteLength);
      if refused.Some? { return Failure(refused.value); }
      ApplyDeposit(depositor, amount, commitment);
      assert registry.State() == old(registry.State());
      assert State() == spec.value;
      r := Success(());
    }

    method ApplyDeposit(depositor: Account, amount: nat, commitment: Word)
      requires filledSubtrees.Length == TREE_DEPTH && Pay(balances, depositor, vault, amount).Some?
      requires zerosTable.Some? ==> IsZerosTable(zerosTable.value)
      modifies this`nextLeafIndex, this`totalDeposited, this`lastCommitment, this`sha256Root, this`balances,
               this`zerosTable, filledSubtrees
      ensures zerosTable.Some? ==> IsZerosTable(zerosTable.value)
      ensures balances == Pay(old(balances), depositor, vault, amount).value
      ensures nextLeafIndex == old(nextLeafIndex) + 1 && totalDeposited == old(totalDeposited) + amount
      ensures lastCommitment == commitment
      ensures var tree :=
                Climb20(env.sha256Pair, env.EmptyLeaf(), old(filledSubtrees[..]), commitment, old(nextLeafIndex), 0);
              filledSubtrees[..] == tree.0 && sha256Root == tree.1
    {
      balances := Pay(balances, depositor, vault, amount).value;
      var leafIndex := nextLeafIndex;
      nextLeafIndex := nextLeafIndex + 1;
      totalDeposited := totalDeposited + amount;
      lastCommitment := commitment;
      var z := Zeros();
      sha256Root := InsertLeaf(commitment, leafIndex, z);
    }

    /** How a transaction must end: as the instruction's function says, and without a
        trace when it fails. */
    ghost predicate Outcome(spec: Result<Chain, PoolError>, before: Chain, r: Result<(), PoolError>)
      requires registry.bitmap.Length == N.BITMAP_BYTES
      reads this, rootHistory, filledSubtrees, registry, registry.bitmap
    {
      match spec
      case Success(after) => r == Success(()) && State() == after
      case Failure(e) => r == Failure(e) && State() == before
    }

    // ----- Spends: handlers may stop half-way, the runtime then rolls back -----

    /** Two cross-program calls; the second can fail after the first has marked a bit. */
    method RegisterNullifiers(signer: Word, nullifiers: (Word, Word)) returns (r: Result<(), N.NullifierError>)
      requires Valid()
      modifies registry`count, registry`totalNullifiers, registry.bitmap
      ensures registry.Valid()
      ensures var spec := RegisterBoth(env, signer, old(State()), nullifiers);
              if spec.Success? then r == Success(()) && registry.State() == spec.value else r == Failure(spec.error)
      ensures registry.State()
              == old(registry.State()).(slots := registry.State().slots, count := registry.count,
                                        totalNullifiers := registry.totalNullifiers)
    {
      r := registry.RegisterNullifier(signer, nullifiers.0);
      if r.Success? {
        r := registry.RegisterNullifier(signer, nullifiers.1);
      }
    }

    /** Appends the two outputs and pays the fee. */
    method Finish(s: Spend) returns (r: Result<(), PoolError>)
      requires registry.bitmap.Length == N.BITMAP_BYTES && vault in balances
      modifies this`nextLeafIndex, this`balances
      ensures var spec := FinishSpend(old(State()), s);
              if spec.Success? then r == Success(()) && State() == spec.value else r == Failure(spec.error)
    {
      if s.encryptedNotes != 2 { return Failure(MissingEncryptedNote); }
      for i := 0 to 2
        invariant nextLeafIndex == old(nextLeafIndex) + i && balances == old(balances)
        invariant i > 0 ==> IsU64(nextLeafIndex)
      {
        if !IsU64(nextLeafIndex + 1) { return Failure(TreeFull); }
        nextLeafIndex := nextLeafIndex + 1;
      }
      if s.fee > 0 {
        var paid := Pay(balances, vault, s.feeCollector, s.fee);
        if paid.None? { return Failure(TokenTransferFailed); }
        balances := paid.value;
      }
      r := Success(());
    }

    method HandleTransfer(s: Spend) returns (r: Result<(), PoolError>)
      requires Valid()
      modifies this`nextLeafIndex, this`balances, registry`count, registry`totalNullifiers, registry.bitmap
      ensures registry.Valid()
      ensures var spec := Pool.Transfer(env, old(State()), s);
              if spec.Success? then r == Success(()) && State() == spec.value else r == Failure(spec.error)
    {
      if s.feeCollector !in balances { return Failure(InvalidTokenAccount); }
      if isPaused { return Failure(PoolPaused); }
      var rejected := Check(s, TransferInputs(s));
      if rejected.Some? { return Failure(rejected.value); }
      var marked := RegisterNullifiers(s.signer, s.nullifiers);
      if marked.Failure? { return Failure(NullifierRejected(marked.error)); }
      r := Finish(s);
    }

    method HandleWithdraw(s: Spend) returns (r: Result<(), PoolError>)
      requires Valid()
      modifies this`nextLeafIndex, this`totalDeposited, this`balances,
               registry`count, registry`totalNullifiers, registry.bitmap
      ensures registry.Valid()
      ensures var spec := Pool.Withdraw(env, old(State()), s);
              if spec.Success? then r == Success(()) && State() == spec.value else r == Failure(spec.error)
    {
      if s.recipient !in balances || s.feeCollector !in balances { return Failure(InvalidTokenAccount); }
      if isPaused { return Failure(PoolPaused); }
      if s.exit == 0 { return Failure(ZeroAmount); }
      var rejected := Check(s, WithdrawInputs(s));
      if rejected.Some? { return Failure(rejected.value); }
      if s.exit > totalDeposited { return Failure(InsufficientPoolBalance); }
      if !IsU64(s.exit + s.fee) { return Failure(Overflow); }
      if s.exit + s.fee > totalDeposited { return Failure(InsufficientPoolBalance); }
      var marked := RegisterNullifiers(s.signer, s.nullifiers);
      if marked.Failure? { return Failure(NullifierRejected(marked.error)); }
      r := PayExitAndFinish(s);
    }

    method PayExitAndFinish(s: Spend) returns (r: Result<(), PoolError>)
      requires registry.bitmap.Length == N.BITMAP_BYTES && vault in balances && s.exit <= totalDeposited
      modifies this`nextLeafIndex, this`totalDeposited, this`balances
      ensures var spec := PayExit(old(State()), s);
              if spec.Success? then r == Success(()) && State() == spec.value else r == Failure(spec.error)
    {
      var paid := Pay(balances, vault, s.recipient, s.exit);
      if paid.None? { return Failure(TokenTransferFailed); }
      balances := paid.value;
      totalDeposited := totalDeposited - s.exit;
      r := Finish(s);
    }

    method Check(s: Spend, inputs: seq<Word>) returns (rejected: Option<PoolError>)
      requires Valid()
      ensures rejected == CheckSpend(env, State(), s, inputs)
    {
      var known := IsKnownRoot(s.root);
      if !known { return Some(UnknownMerkleRoot); }
      var locked := CheckLock(env, accounts, s.locks.0, s.nullifiers.0);
      if locked.Some? { return locked; }
      locked := CheckLock(env, accounts, s.locks.1, s.nullifiers.1);
      if locked.Some? { return locked; }
      rejected := if env.verify(s.proof, inputs) then None else Some(ProofVerificationFailed);
    }

    method IsKnownRoot(root: Word) returns (known: bool)
      requires Valid()
      ensures known <==> State().pool.window.IsKnownRoot(root)
    {
      if currentRoot == root { return true; }
      known := false;
      for i := 0 to rootHistory.Length
        invariant known <==> root in rootHistory[..i]
      {
        assert rootHistory[..i + 1] == rootHistory[..i] + [rootHistory[i]];
        if rootHistory[i] == root { known := true; }
      }
      assert rootHistory[..rootHistory.Length] == rootHistory[..];
    }

    method Transfer(s: Spend) returns (r: Result<(), PoolError>)
      requires Valid()
      modifies this`nextLeafIndex, this`balances, registry`count, registry`totalNullifiers, registry.bitmap
      ensures Valid()
      ensures Outcome(Pool.Transfer(env, old(State()), s), old(State()), r)
      ensures r.Success? ==> PR.Transferred(env, old(State()), s, State())
    {
      PR.SpendsPay(env, State(), s);
      AttemptKeepsWellFormed(env, State(), CallTransfer(s));
      var savedIndex, savedBalances := nextLeafIndex, balances;
      var savedBitmap, savedCount, savedTotal := registry.bitmap[..], registry.count, registry.totalNullifiers;
      r := HandleTransfer(s);
      if r.Failure? {
        nextLeafIndex, balances := savedIndex, savedBalances;
        registry.Restore(savedBitmap, savedCount, savedTotal);
      }
    }

    method Withdraw(s: Spend) returns (r: Result<(), PoolError>)
      requires Valid()
      modifies this`nextLeafIndex, this`totalDeposited, this`balances,
               registry`count, registry`totalNullifiers, registry.bitmap
      ensures Valid()
      ensures Outcome(Pool.Withdraw(env, old(State()), s), old(State()), r)
      ensures r.Success? ==> PR.Withdrawn(env, old(State()), s, State())
    {
      PR.SpendsPay(env, State(), s);
      AttemptKeepsWellFormed(env, State(), CallWithdraw(s));
      var savedIndex, savedDeposited, savedBalances := nextLeafIndex, totalDeposited, balances;
      var savedBitmap, savedCount, savedTotal := registry.bitmap[..], registry.count, registry.totalNullifiers;
      r := HandleWithdraw(s);
      if r.Failure? {
        nextLeafIndex, totalDeposited, balances := savedIndex, savedDeposited, savedBalances;
        registry.Restore(savedBitmap, savedCount, savedTotal);
      }
    }

    // ----- Administration -----

    method UpdateRoot(signer: Word, newRoot: Word, expectedSha256Root: Word) returns (r: Result<(), PoolError>)
      requires Valid()
      modifies this`currentRoot, this`rootHistoryIndex, rootHistory
      ensures Valid()
      ensures Outcome(Pool.UpdateRoot(old(State()), signer, newRoot, expectedSha256Root), old(State()), r)
      ensures r.Success? <==> signer == authority && expectedSha256Root == sha256Root
      ensures r.Success? ==>
                && currentRoot == newRoot
                && rootHistory[..] == old(rootHistory[..])[old(rootHistoryIndex) := newRoot]
                && rootHistoryIndex == if old(rootHistoryIndex) == 99 then 0 else old(rootHistoryIndex) + 1
      ensures r.Failure? ==> unchanged(this) && unchanged(rootHistory)
    {
      if signer != authority { return Failure(Unauthorized); }
      if sha256Root != expectedSha256Root { return Failure(RootIntegrityMismatch); }
      ghost var before := rootHistory[..];
      currentRoot := newRoot;
      var idx := rootHistoryIndex;
      rootHistory[idx] := newRoot;
      assert rootHistory[..] == before[idx := newRoot];
      rootHistoryIndex := (idx + 1) % ROOT_HISTORY_SIZE;
      r := Success(());
    }

    method SetPaused(signer: Word, paused: bool) returns (r: Result<(), PoolError>)
      requires Valid()
      modifies this`isPaused
      ensures Valid()
      ensures Outcome(Pool.SetPaused(old(State()), signer, paused), old(State()), r)
      ensures r.Success? <==> signer == authority
      ensures isPaused == if signer == authority then paused else old(isPaused)
    {
      if signer != authority { return Failure(Unauthorized); }
      isPaused := paused;
      r := Success(());
    }
  }
}

/** What the bridge's commitment locks do, and do not do, to the pool's spends
    (`lock_commitment`, programs/holanc-bridge/src/lib.rs; `assert_not_bridge_locked`,
    programs/holanc-pool/src/lib.rs). */
module BridgeLocks {
  import opened Base
  import opened Pool
  import opened PoolRules
  import opened ScalarField
  import S = Solvency

  /** What `lock_commitment` leaves behind when the bridge runs under the id that the pool
      has for it: a record at the address of the commitment, not released.  No instruction of
      the bridge ever releases one. */
  predicate IsLocked(env: Env, accounts: map<Address, AccountInfo>, commitment: Word) {
    var address := env.lockPda(commitment);
    && address in accounts && accounts[address].owner == env.bridgeId
    && |accounts[address].data| > 128 && accounts[address].data[128] == 0
  }

  /** The account passed for `word` is in use, and is not the bridge's lock for that word or
      is one that has not been released. */
  predicate Blocks(env: Env, accounts: map<Address, AccountInfo>, address: Address, word: Word) {
    && DataAt(accounts, address) != []
    && (address != env.lockPda(word) || accounts[address].owner != env.bridgeId || IsLocked(env, accounts, word))
  }

  /** The guard refuses a spend if and only if one of the two accounts that it passes blocks
      the nullifier beside it. */
  lemma GuardRefusesIff(env: Env, c: Chain, s: Spend)
    ensures LockRefuses(env, c, s).Some? <==>
              Blocks(env, c.accounts, s.locks.0, s.nullifiers.0) || Blocks(env, c.accounts, s.locks.1, s.nullifiers.1)
    ensures LockRefuses(env, c, s).Some? <==> !LocksAllow(env, c, s)
    ensures LockRefuses(env, c, s) == Some(CommitmentBridgeLocked) ==>
              IsLocked(env, c.accounts, s.nullifiers.0) || IsLocked(env, c.accounts, s.nullifiers.1)
  {}

  /** An account in use that belongs to another program, such as a bridge deployed under
      another id, stops every spend that passes it. */
  lemma AnotherProgramBlocks(env: Env, c: Chain, s: Spend)
    requires s.locks.0 in c.accounts && c.accounts[s.locks.0].data != [] && c.accounts[s.locks.0].owner != env.bridgeId
    ensures LockRefuses(env, c, s) == Some(InvalidCommitmentLockPDA)
  {}

  /** A lock changes nothing for a spend that does not pass the account holding it: what
      commitments the spend consumes plays no part. */
  lemma UnpassedLockIsIgnored(env: Env, c: Chain, s: Spend, commitment: Word, record: AccountInfo)
    requires c.WellFormed()
    requires env.lockPda(commitment) != s.locks.0 && env.lockPda(commitment) != s.locks.1
    ensures var locked := c.(accounts := c.accounts[env.lockPda(commitment) := record]);
            && (Transfer(env, locked, s).Success? <==> Transfer(env, c, s).Success?)
            && (Withdraw(env, locked, s).Success? <==> Withdraw(env, c, s).Success?)
  {
    var locked := c.(accounts := c.accounts[env.lockPda(commitment) := record]);
    TransferSucceedsIff(env, c, s);
    TransferSucceedsIff(env, locked, s);
    WithdrawSucceedsIff(env, c, s);
    WithdrawSucceedsIff(env, locked, s);
  }

  /** Whoever spends a commitment, locked or not, may pass accounts that hold nothing; the
      guard then lets the spend through. */
  lemma EmptyAccountsPass(env: Env, m: S.Meaning, c: Chain, s: Spend, commitment: Word)
    requires c.WellFormed() && IsLocked(env, c.accounts, commitment)
    requires m.Note(s.nullifiers.0) == Reduced(commitment)
    requires DataAt(c.accounts, s.locks.0) == [] == DataAt(c.accounts, s.locks.1)
    ensures Transfer(env, c, s).Success? <==>
              && !c.pool.isPaused && c.pool.window.IsKnownRoot(s.root) && env.verify(s.proof, TransferInputs(s))
              && RegistryAllows(env, c, s) && s.encryptedNotes == 2 && IsU64(c.pool.nextLeafIndex + 2)
              && Affords(c, c.balances, s.feeCollector, s.fee)
  {
    TransferSucceedsIff(env, c, s);
  }
}

/** When the pool's instructions succeed, what they move, and what pausing and the
    authority mean over whole runs (programs/holanc-pool/src/lib.rs). */
module PoolRules {
  import opened Base
  import opened Pool
  import DS = DoubleSpend
  import N = Nullifier

  // ----- When a spend succeeds -----

  /** The account passed for `word` does not stop a spend: it is empty, or it is the
      bridge's lock for that word and released. */
  predicate LockAllows(env: Env, c: Chain, address: Address, word: Word) {
    var data := DataAt(c.accounts, address);
    data == [] || (address == env.lockPda(word) && c.accounts[address].owner == env.bridgeId
                   && (|data| > 128 ==> data[128] != 0))
  }

  /** The bridge's lock guard.  It is asked about the two nullifiers, and does not see which
      commitments they spend. */
  predicate LocksAllow(env: Env, c: Chain, s: Spend) {
    LockAllows(env, c, s.locks.0, s.nullifiers.0) && LockAllows(env, c, s.locks.1, s.nullifiers.1)
  }

  predicate RegistryAllows(env: Env, c: Chain, s: Spend) {
    var s0, s1 := N.SlotV1(env.digest, s.nullifiers.0), N.SlotV1(env.digest, s.nullifiers.1);
    s.signer == c.nullifierAuthority && s0 != s1 && s0 !in c.registry.slots && s1 !in c.registry.slots
  }

  predicate SpendAllowed(env: Env, c: Chain, s: Spend, inputs: seq<Word>) {
    && !c.pool.isPaused && c.pool.window.IsKnownRoot(s.root)
    && LocksAllow(env, c, s) && env.verify(s.proof, inputs)
    && RegistryAllows(env, c, s)
    && s.encryptedNotes == 2 && IsU64(c.pool.nextLeafIndex + 2)
  }

  /** `amount` can leave the vault for `dst`. */
  predicate Affords(c: Chain, balances: map<Account, nat>, dst: Account, amount: nat)
    requires c.vault in balances
  {
    dst in balances && amount <= balances[c.vault] && (dst != c.vault ==> IsU64(balances[dst] + amount))
  }

  /** Balances after `amount` has left the vault for `dst`. */
  function Moved(c: Chain, balances: map<Account, nat>, dst: Account, amount: nat): map<Account, nat>
    requires c.vault in balances && Affords(c, balances, dst, amount)
  {
    map a | a in balances ::
      balances[a] + (if a == dst then amount else 0) - (if a == c.vault then amount else 0)
  }

  lemma PayMoves(c: Chain, balances: map<Account, nat>, dst: Account, amount: nat)
    requires c.vault in balances
    ensures var paid := Pay(balances, c.vault, dst, amount);
            && (paid.Some? <==> Affords(c, balances, dst, amount))
            && (paid.Some? ==> paid.value == Moved(c, balances, dst, amount))
  {
    var paid := Pay(balances, c.vault, dst, amount);
    if paid.Some? {
      assert paid.value.Keys == balances.Keys;
    }
  }

  /** All of the state that a spend leaves behind, but for the balances. */
  ghost predicate SpendEffect(env: Env, c: Chain, s: Spend, exit: nat, after: Chain) {
    && after.vault == c.vault && after.authority == c.authority && after.nullifierAuthority == c.nullifierAuthority
    && after.accounts == c.accounts
    && after.pool == c.pool.(nextLeafIndex := c.pool.nextLeafIndex + 2,
                             totalDeposited := after.pool.totalDeposited)
    && after.pool.totalDeposited + exit == c.pool.totalDeposited
    && after.registry == c.registry.(slots := c.registry.slots + DS.SpendSlots(env, s),
                                     count := c.registry.count + 2,
                                     totalNullifiers := c.registry.totalNullifiers + 2)
  }

  lemma RegisterMarksTwo(env: Env, c: Chain, s: Spend)
    ensures RegisterBoth(env, s.signer, c, s.nullifiers).Success? <==> RegistryAllows(env, c, s)
    ensures RegistryAllows(env, c, s) ==>
              RegisterBoth(env, s.signer, c, s.nullifiers).value
              == c.registry.(slots := c.registry.slots + DS.SpendSlots(env, s),
                             count := c.registry.count + 2,
                             totalNullifiers := c.registry.totalNullifiers + 2)
  {
    if RegistryAllows(env, c, s) {
      var s0, s1 := N.SlotV1(env.digest, s.nullifiers.0), N.SlotV1(env.digest, s.nullifiers.1);
      assert c.registry.slots + {s0} + {s1} == c.registry.slots + DS.SpendSlots(env, s);
    }
  }

  lemma ChecksMean(env: Env, c: Chain, s: Spend, inputs: seq<Word>)
    ensures CheckSpend(env, c, s, inputs).None? <==>
              && c.pool.window.IsKnownRoot(s.root) && env.verify(s.proof, inputs)
              && LocksAllow(env, c, s)
  {}

  /** A transfer succeeds exactly when it is allowed and the vault can pay its fee, and
      then moves the fee and nothing else. */
  lemma TransferSucceedsIff(env: Env, c: Chain, s: Spend)
    requires c.WellFormed()
    ensures Transfer(env, c, s).Success? <==>
              SpendAllowed(env, c, s, TransferInputs(s)) && Affords(c, c.balances, s.feeCollector, s.fee)
    ensures Transfer(env, c, s).Success? ==>
              && SpendEffect(env, c, s, 0, Transfer(env, c, s).value)
              && Transfer(env, c, s).value.balances == Moved(c, c.balances, s.feeCollector, s.fee)
  {
    ChecksMean(env, c, s, TransferInputs(s));
    RegisterMarksTwo(env, c, s);
    PayMoves(c, c.balances, s.feeCollector, s.fee);
    if s.fee == 0 && s.feeCollector in c.balances {
      assert Moved(c, c.balances, s.feeCollector, 0) == c.balances;
    }
  }

  /** The withdrawal's two payments can be made one after the other. */
  predicate AffordsBoth(c: Chain, s: Spend)
    requires c.vault in c.balances
  {
    && Affords(c, c.balances, s.recipient, s.exit)
    && Affords(c, Moved(c, c.balances, s.recipient, s.exit), s.feeCollector, s.fee)
  }

  lemma FinishMoves(c: Chain, s: Spend)
    requires c.vault in c.balances && s.feeCollector in c.balances && IsU64(c.balances[s.feeCollector])
    ensures FinishSpend(c, s).Success? <==>
              s.encryptedNotes == 2 && IsU64(c.pool.nextLeafIndex + 2) && Affords(c, c.balances, s.feeCollector, s.fee)
    ensures FinishSpend(c, s).Success? ==>
              FinishSpend(c, s).value == c.(pool := c.pool.(nextLeafIndex := c.pool.nextLeafIndex + 2),
                                            balances := Moved(c, c.balances, s.feeCollector, s.fee))
  {
    PayMoves(c, c.balances, s.feeCollector, s.fee);
    if s.fee == 0 {
      assert Moved(c, c.balances, s.feeCollector, 0) == c.balances;
    }
  }

  lemma PayExitMoves(c: Chain, s: Spend)
    requires c.WellFormed() && s.exit <= c.pool.totalDeposited && s.feeCollector in c.balances
    ensures PayExit(c, s).Success? <==>
              s.encryptedNotes == 2 && IsU64(c.pool.nextLeafIndex + 2) && AffordsBoth(c, s)
    ensures PayExit(c, s).Success? ==>
              PayExit(c, s).value
              == c.(pool := c.pool.(nextLeafIndex := c.pool.nextLeafIndex + 2,
                                    totalDeposited := c.pool.totalDeposited - s.exit),
                    balances := Moved(c, Moved(c, c.balances, s.recipient, s.exit), s.feeCollector, s.fee))
  {
    PayMoves(c, c.balances, s.recipient, s.exit);
    PayKeepsU64(c.balances, c.vault, s.recipient, s.exit);
    if Affords(c, c.balances, s.recipient, s.exit) {
      FinishMoves(c.(balances := Moved(c, c.balances, s.recipient, s.exit),
                     pool := c.pool.(totalDeposited := c.pool.totalDeposited - s.exit)), s);
    }
  }

  /** A withdrawal succeeds exactly when it is allowed, exits something, stays within what
      was deposited, and both payments can be made; it then moves these and nothing else. */
  lemma WithdrawSucceedsIff(env: Env, c: Chain, s: Spend)
    requires c.WellFormed()
    ensures Withdraw(env, c, s).Success? <==>
              && SpendAllowed(env, c, s, WithdrawInputs(s)) && s.feeCollector in c.balances
              && 0 < s.exit && s.exit + s.fee <= c.pool.totalDeposited
              && AffordsBoth(c, s)
    ensures Withdraw(env, c, s).Success? ==>
              && SpendEffect(env, c, s, s.exit, Withdraw(env, c, s).value)
              && Withdraw(env, c, s).value.balances
                 == Moved(c, Moved(c, c.balances, s.recipient, s.exit), s.feeCollector, s.fee)
  {
    ChecksMean(env, c, s, WithdrawInputs(s));
    RegisterMarksTwo(env, c, s);
    var marked := RegisterBoth(env, s.signer, c, s.nullifiers);
    if marked.Success? && s.exit <= c.pool.totalDeposited && s.feeCollector in c.balances {
      PayExitMoves(c.(registry := marked.value), s);
    }
  }

  // ----- What the proof is about -----

  /** Whatever proof the verifier accepts, it accepts it for these public inputs. */
  ghost predicate AcceptsOnly(env: Env, proof: Proof, xs: seq<Word>) {
    forall p, inputs :: env.verify(p, inputs) ==> p == proof && inputs == xs
  }

  /** Everything that a transfer needs, its proof aside. */
  predicate TransferAllowed(env: Env, c: Chain, s: Spend)
    requires c.vault in c.balances
  {
    && !c.pool.isPaused && c.pool.window.IsKnownRoot(s.root)
    && LocksAllow(env, c, s) && RegistryAllows(env, c, s)
    && s.encryptedNotes == 2 && IsU64(c.pool.nextLeafIndex + 2)
    && Affords(c, c.balances, s.feeCollector, s.fee)
  }

  /** The same for a withdrawal. */
  predicate WithdrawAllowed(env: Env, c: Chain, s: Spend)
    requires c.vault in c.balances
  {
    && !c.pool.isPaused && c.pool.window.IsKnownRoot(s.root)
    && LocksAllow(env, c, s) && RegistryAllows(env, c, s)
    && s.encryptedNotes == 2 && IsU64(c.pool.nextLeafIndex + 2)
    && 0 < s.exit && s.exit + s.fee <= c.pool.totalDeposited
    && s.feeCollector in c.balances && AffordsBoth(c, s)
  }

  /** A transfer does what its proof is about.  Where the verifier accepts one list of six
      inputs, the transfers that succeed are those with this root, these nullifiers and
      outputs in this order, and this fee, which is what the collector is paid. */
  lemma TransferDoesWhatIsProved(env: Env, c: Chain, s: Spend, proof: Proof, xs: seq<Word>)
    requires c.WellFormed() && AcceptsOnly(env, proof, xs)
    ensures Transfer(env, c, s).Success? <==>
              && env.verify(proof, xs) && s.proof == proof
              && |xs| == 6 && s.root == xs[0]
              && s.nullifiers == (xs[1], xs[2]) && s.outputs == (xs[3], xs[4]) && s.fee == xs[5]
              && TransferAllowed(env, c, s)
    ensures Transfer(env, c, s).Success? ==>
              && Affords(c, c.balances, s.feeCollector, xs[5])
              && Transfer(env, c, s).value.balances == Moved(c, c.balances, s.feeCollector, xs[5])
  {
    TransferSucceedsIff(env, c, s);
    if |xs| == 6 && s.root == xs[0] && s.nullifiers == (xs[1], xs[2]) && s.outputs == (xs[3], xs[4]) && s.fee == xs[5] {
      assert TransferInputs(s) == xs;
    }
  }

  /** Likewise for a withdrawal and its seven inputs: the recipient is paid the sixth, and
      the collector the seventh. */
  lemma WithdrawDoesWhatIsProved(env: Env, c: Chain, s: Spend, proof: Proof, xs: seq<Word>)
    requires c.WellFormed() && AcceptsOnly(env, proof, xs)
    ensures Withdraw(env, c, s).Success? <==>
              && env.verify(proof, xs) && s.proof == proof
              && |xs| == 7 && s.root == xs[0]
              && s.nullifiers == (xs[1], xs[2]) && s.outputs == (xs[3], xs[4]) && s.exit == xs[5] && s.fee == xs[6]
              && WithdrawAllowed(env, c, s)
    ensures Withdraw(env, c, s).Success? ==>
              && Affords(c, c.balances, s.recipient, xs[5])
              && Affords(c, Moved(c, c.balances, s.recipient, xs[5]), s.feeCollector, xs[6])
              && Withdraw(env, c, s).value.balances
                 == Moved(c, Moved(c, c.balances, s.recipient, xs[5]), s.feeCollector, xs[6])
  {
    WithdrawSucceedsIff(env, c, s);
    if |xs| == 7 && s.root == xs[0] && s.nullifiers == (xs[1], xs[2]) && s.outputs == (xs[3], xs[4])
      && s.exit == xs[5] && s.fee == xs[6]
    {
      assert WithdrawInputs(s) == xs;
    }
  }

  /** A transfer proved for these six inputs, from `c` to `after`. */
  ghost predicate Transferred(env: Env, c: Chain, s: Spend, after: Chain) {
    && c.vault in c.balances && after.pool.nextLeafIndex == c.pool.nextLeafIndex + 2
    && env.verify(s.proof, [s.root, s.nullifiers.0, s.nullifiers.1, s.outputs.0, s.outputs.1, s.fee])
    && Affords(c, c.balances, s.feeCollector, s.fee)
    && after.balances == Moved(c, c.balances, s.feeCollector, s.fee)
  }

  /** A withdrawal proved for these seven inputs, from `c` to `after`. */
  ghost predicate Withdrawn(env: Env, c: Chain, s: Spend, after: Chain) {
    && c.vault in c.balances && after.pool.nextLeafIndex == c.pool.nextLeafIndex + 2
    && after.pool.totalDeposited + s.exit == c.pool.totalDeposited
    && env.verify(s.proof, [s.root, s.nullifiers.0, s.nullifiers.1, s.outputs.0, s.outputs.1, s.exit, s.fee])
    && AffordsBoth(c, s)
    && after.balances == Moved(c, Moved(c, c.balances, s.recipient, s.exit), s.feeCollector, s.fee)
  }

  lemma SpendsPay(env: Env, c: Chain, s: Spend)
    requires c.WellFormed()
    ensures Transfer(env, c, s).Success? ==> Transferred(env, c, s, Transfer(env, c, s).value)
    ensures Withdraw(env, c, s).Success? ==> Withdrawn(env, c, s, Withdraw(env, c, s).value)
  {
    TransferSucceedsIff(env, c, s);
    WithdrawSucceedsIff(env, c, s);
  }

  // ----- Deposits and administration -----

  /** A deposit succeeds exactly when the pool is open, the note is small enough, the
      amount is positive and can be paid, and no counter leaves its range; it moves the
      amount and takes one leaf. */
  lemma DepositSucceedsIff(env: Env, c: Chain, depositor: Account, amount: nat, commitment: Word, noteLength: nat)
    requires c.WellFormed()
    ensures var r := Deposit(env, c, depositor, amount, commitment, noteLength);
            && (r.Success? <==>
                  && !c.pool.isPaused && 0 < amount && noteLength <= 256
                  && depositor in c.balances && depositor != c.vault && amount <= c.balances[depositor]
                  && IsU64(c.balances[c.vault] + amount) && IsU64(c.pool.totalDeposited + amount)
                  && IsU64(c.pool.nextLeafIndex + 1))
            && (r.Success? ==>
                  var pool := r.value.pool;
                  && r.value == c.(balances := r.value.balances, pool := pool)
                  && pool == c.pool.(nextLeafIndex := c.pool.nextLeafIndex + 1,
                                     totalDeposited := c.pool.totalDeposited + amount, lastCommitment := commitment,
                                     filledSubtrees := pool.filledSubtrees, sha256Root := pool.sha256Root)
                  && r.value.balances.Keys == c.balances.Keys
                  && forall a :: a in c.balances ==>
                       r.value.balances[a] == c.balances[a] + (if a == c.vault then amount else 0)
                                                            - (if a == depositor then amount else 0))
  {}

  /** The authority publishes a root against the current SHA-256 root, and nobody else does;
      the root becomes the current one and takes the next place in the ring. */
  lemma UpdateRootSucceedsIff(c: Chain, signer: Word, newRoot: Word, expectedSha256Root: Word)
    requires c.WellFormed()
    ensures var r, w := UpdateRoot(c, signer, newRoot, expectedSha256Root), c.pool.window;
            && (r.Success? <==> signer == c.authority && expectedSha256Root == c.pool.sha256Root)
            && (r.Success? ==>
                  && r.value == c.(pool := c.pool.(window := r.value.pool.window))
                  && r.value.pool.window.currentRoot == newRoot
                  && r.value.pool.window.rootHistory == w.rootHistory[w.rootHistoryIndex := newRoot]
                  && r.value.pool.window.rootHistoryIndex
                     == if w.rootHistoryIndex == 99 then 0 else w.rootHistoryIndex + 1)
  {}

  // ----- Tokens are neither made nor lost -----

  ghost function Supply(balances: map<Account, nat>): nat
    decreases |balances|
  {
    if balances == map[] then 0 else
      var a :| a in balances;
      balances[a] + Supply(balances - {a})
  }

  lemma {:induction false} SupplyWithout(balances: map<Account, nat>, a: Account)
    requires a in balances
    ensures Supply(balances) == balances[a] + Supply(balances - {a})
    decreases |balances|
  {
    var b :| b in balances && Supply(balances) == balances[b] + Supply(balances - {b});
    if b != a {
      SupplyWithout(balances - {b}, a);
      SupplyWithout(balances - {a}, b);
      assert balances - {b} - {a} == balances - {a} - {b};
    }
  }

  lemma SupplyUpdate(balances: map<Account, nat>, a: Account, amount: nat)
    requires a in balances
    ensures Supply(balances[a := amount]) + balances[a] == Supply(balances) + amount
  {
    SupplyWithout(balances, a);
    SupplyWithout(balances[a := amount], a);
    assert balances[a := amount] - {a} == balances - {a};
  }

  lemma PayKeepsSupply(balances: map<Account, nat>, src: Account, dst: Account, amount: nat)
    ensures var paid := Pay(balances, src, dst, amount);
            paid.Some? ==> Supply(paid.value) == Supply(balances)
  {
    if Pay(balances, src, dst, amount).Some? && src != dst {
      SupplyUpdate(balances, src, balances[src] - amount);
      SupplyUpdate(balances[src := balances[src] - amount], dst, balances[dst] + amount);
    }
  }

  lemma StepKeepsSupply(env: Env, c: Chain, call: Call)
    requires c.WellFormed()
    ensures Supply(Step(env, c, call).balances) == Supply(c.balances)
  {
    match call
    case CallDeposit(depositor, amount, _, _) => PayKeepsSupply(c.balances, depositor, c.vault, amount);
    case CallTransfer(s) => PayKeepsSupply(c.balances, c.vault, s.feeCollector, s.fee);
    case CallWithdraw(s) => WithdrawKeepsSupply(env, c, s);
    case CallUpdateRoot(_, _, _) =>
    case CallSetPaused(_, _) =>
    case CallRegistry(_) =>
    case CallOutside(_) =>
  }

  lemma WithdrawKeepsSupply(env: Env, c: Chain, s: Spend)
    requires c.WellFormed()
    ensures Withdraw(env, c, s).Success? ==> Supply(Withdraw(env, c, s).value.balances) == Supply(c.balances)
  {
    if Withdraw(env, c, s).Success? {
      var paid := Pay(c.balances, c.vault, s.recipient, s.exit);
      PayKeepsSupply(c.balances, c.vault, s.recipient, s.exit);
      PayKeepsSupply(paid.value, c.vault, s.feeCollector, s.fee);
    }
  }

  /** No run of the pool makes or loses a token. */
  lemma {:induction false} SupplyIsConstant(env: Env, c: Chain, calls: seq<Call>)
    requires c.WellFormed()
    ensures Supply(Execute(env, c, calls).balances) == Supply(c.balances)
  {
    if calls != [] {
      var last := |calls| - 1;
      SupplyIsConstant(env, c, calls[..last]);
      StepKeepsSupply(env, Execute(env, c, calls[..last]), calls[last]);
    }
  }

  // ----- Pausing and the authority -----

  /** Only the pool's authority can make these calls take effect. */
  predicate SignedBy(call: Call, signer: Word) {
    (call.CallUpdateRoot? || call.CallSetPaused?) && call.signer == signer
  }

  /** A call that the authority did not sign touches neither roots nor the pause, and a
      paused pool takes no deposit and no spend. */
  lemma OthersStep(env: Env, c: Chain, call: Call)
    requires c.WellFormed() && !SignedBy(call, c.authority)
    ensures var after := Step(env, c, call);
            && after.authority == c.authority
            && after.pool.window == c.pool.window && after.pool.isPaused == c.pool.isPaused
            && (c.pool.isPaused ==> after.pool == c.pool && after.balances == c.balances)
  {}

  /** Over any run without the authority's signature: the known roots and the pause stay as
      they are, and a paused pool is frozen. */
  lemma {:induction false} OthersCannotGovern(env: Env, c: Chain, calls: seq<Call>)
    requires c.WellFormed()
    requires forall i :: 0 <= i < |calls| ==> !SignedBy(calls[i], c.authority)
    ensures var after := Execute(env, c, calls);
            && after.authority == c.authority
            && after.pool.window == c.pool.window && after.pool.isPaused == c.pool.isPaused
            && (c.pool.isPaused ==> after.pool == c.pool && after.balances == c.balances)
  {
    if calls != [] {
      var last := |calls| - 1;
      OthersCannotGovern(env, c, calls[..last]);
      OthersStep(env, Execute(env, c, calls[..last]), calls[last]);
    }
  }

  lemma {:induction false} AuthorityIsFixed(env: Env, c: Chain, calls: seq<Call>)
    requires c.WellFormed()
    ensures Execute(env, c, calls).authority == c.authority
  {
    if calls != [] {
      AuthorityIsFixed(env, c, calls[..|calls| - 1]);
    }
  }

  lemma PauseStep(env: Env, c: Chain, call: Call)
    requires c.WellFormed()
    ensures Step(env, c, call).pool.isPaused
            == if call.CallSetPaused? && call.signer == c.authority then call.paused else c.pool.isPaused
  {}

  /** The pool is paused or open as the authority said last. */
  lemma {:induction false} PauseIsSet(env: Env, c: Chain, calls: seq<Call>, i: nat)
    requires c.WellFormed() && i < |calls| && calls[i].CallSetPaused? && calls[i].signer == c.authority
    requires forall j :: i < j < |calls| ==> !(calls[j].CallSetPaused? && calls[j].signer == c.authority)
    ensures Execute(env, c, calls).pool.isPaused == calls[i].paused
  {
    var last := |calls| - 1;
    AuthorityIsFixed(env, c, calls[..last]);
    PauseStep(env, Execute(env, c, calls[..last]), calls[last]);
    if i < last {
      PauseIsSet(env, c, calls[..last], i);
    }
  }
}

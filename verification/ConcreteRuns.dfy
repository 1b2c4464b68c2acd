/** Two short runs of the pool in which every accepted proof has a balanced opening, every
    deposit opens to its amount and every root is honest, and something goes wrong all the
    same (programs/holanc-pool/src/lib.rs). */
module ConcreteRuns {
  import opened Base
  import opened BridgeLocks
  import opened Pool
  import opened PoolRules
  import opened Radix
  import opened ScalarField
  import opened Solvency
  import DS = DoubleSpend
  import N = Nullifier

  // ----- The setting -----

  const VAULT: Account := 0
  const DEPOSITOR: Account := 1
  const RECIPIENT: Account := 2
  const AUTHORITY: Word := 3
  const OPERATOR: Word := 5

  /** Notes 101, 102, 103 and 203 are worth 4, 6, 10 and 10; the nullifiers of the first
      three are 10, 20 and 30; root 1000 covers notes 101 and 102. */
  function Notes(): Meaning {
    Meaning(c => if c == 101 then 4 else if c == 102 then 6 else if c == 103 || c == 203 then 10 else 0,
            n => if n == 10 then 101 else if n == 20 then 102 else if n == 30 then 103 else 0,
            r => if r == 1000 then {101, 102} else {})
  }

  /** A verifier that accepts exactly the balanced openings. */
  predicate Balanced(inputs: seq<Word>) {
    && (|inputs| == 6 || |inputs| == 7)
    && Notes().InputOpens(inputs[0], inputs[1]) && Notes().InputOpens(inputs[0], inputs[2])
    && Notes().Worth(inputs[1]) + Notes().Worth(inputs[2])
       == Notes().value(Reduced(inputs[3])) + Notes().value(Reduced(inputs[4]))
          + inputs[5] + (if |inputs| == 7 then inputs[6] else 0)
  }

  function LastByte(preimage: seq<byte>): (byte, byte) {
    (if preimage == [] then 0 else preimage[|preimage| - 1], 0)
  }

  function Environment(): Env {
    Env((a, b) => 0, LastByte, (proof, inputs) => Balanced(inputs), 7, word => word + 1000)
  }

  function Start(): Chain {
    Chain(VAULT, AUTHORITY, OPERATOR, InitialPool(), map[VAULT := 0, DEPOSITOR := 100, RECIPIENT := 0], N.EMPTY, map[])
  }

  function DepositOf(amount: nat, commitment: Word): Call {
    CallDeposit(DEPOSITOR, amount, commitment, 0)
  }

  /** A spend of two notes under root 1000, with empty accounts in place of locks. */
  function SpendOf(nullifiers: (Word, Word), outputs: (Word, Word), exit: U64): Spend {
    Spend(OPERATOR, 1000, nullifiers, outputs, exit, 0, 2, (0, 0), 0, RECIPIENT, RECIPIENT)
  }

  lemma SettingIsSound()
    ensures Start().WellFormed() && Initial(Start())
    ensures Notes().Sane() && Notes().OneNullifierEach() && SoundVerifier(Environment(), Notes())
  {
    NotesAreOneToOne();
    VerifierIsSound();
  }

  lemma NotesAreOneToOne()
    ensures Notes().OneNullifierEach()
  {
    forall a, b ensures Notes().SameNullifier(a, b) {}
  }

  lemma VerifierIsSound()
    ensures SoundVerifier(Environment(), Notes())
  {
    forall s: Spend | Environment().verify(s.proof, TransferInputs(s)) ensures Notes().Opens(s, 0) {}
    forall s: Spend | Environment().verify(s.proof, WithdrawInputs(s)) ensures Notes().Opens(s, s.exit) {}
  }

  lemma SlotIsLastByte(n: nat)
    ensures N.SlotV1(LastByte, n) == n % 256
  {
    var front := ToBytes(n / 256, 31);
    assert ToBytes(n, 32) == front + [(n % 256) as byte];
  }

  lemma SlotsOf(nullifiers: (Word, Word))
    ensures HaveSlots(nullifiers, (nullifiers.0 % 256, nullifiers.1 % 256))
  {
    SlotIsLastByte(nullifiers.0);
    SlotIsLastByte(nullifiers.1);
  }

  lemma {:induction false} ZeroRoot(filled: seq<Word>, current: Word, index: nat, level: nat)
    requires |filled| == TREE_DEPTH && level < TREE_DEPTH
    ensures Climb20((a, b) => 0, 0, filled, current, index, level).1 == 0
    decreases TREE_DEPTH - level
  {
    var next := if index % 2 == 0 then filled[level := current] else filled;
    if level + 1 < TREE_DEPTH {
      ZeroRoot(next, 0, index / 2, level + 1);
    }
  }

  // ----- Steps -----

  /** The part of the state that the runs below depend on. */
  ghost predicate At(c: Chain, leaves: nat, deposited: nat, exited: nat, slots: set<nat>) {
    && c.WellFormed() && c.vault == VAULT && c.authority == AUTHORITY && c.nullifierAuthority == OPERATOR
    && !c.pool.isPaused && c.pool.sha256Root == ZERO_WORD
    && c.pool.nextLeafIndex == leaves && exited <= deposited <= 100 && c.pool.totalDeposited == deposited - exited
    && c.balances == map[VAULT := deposited - exited, DEPOSITOR := 100 - deposited, RECIPIENT := exited]
    && c.registry.slots == slots && DataAt(c.accounts, 0) == []
  }

  lemma DepositGoes(c: Chain, amount: nat, commitment: Word, leaves: nat, deposited: nat)
    requires At(c, leaves, deposited, 0, {}) && 0 < amount && deposited + amount <= 100 && leaves < 100
    ensures Attempt(Environment(), c, DepositOf(amount, commitment)).Success?
    ensures Attempt(Environment(), c, DepositOf(amount, commitment)).value.pool.sha256Root == 0
  {
    DepositSucceedsIff(Environment(), c, DEPOSITOR, amount, commitment, 0);
    ZeroRoot(c.pool.filledSubtrees, commitment, c.pool.nextLeafIndex, 0);
  }

  lemma DepositMoves(c: Chain, after: Chain, amount: nat, leaves: nat, deposited: nat)
    requires At(c, leaves, deposited, 0, {}) && deposited + amount <= 100 && after.balances.Keys == c.balances.Keys
    requires forall a :: a in c.balances ==>
               after.balances[a] == c.balances[a] + (if a == VAULT then amount else 0)
                                                  - (if a == DEPOSITOR then amount else 0)
    ensures after.balances == map[VAULT := deposited + amount, DEPOSITOR := 100 - deposited - amount, RECIPIENT := 0]
  {}

  lemma DepositStep(c: Chain, amount: nat, commitment: Word, leaves: nat, deposited: nat)
    requires At(c, leaves, deposited, 0, {}) && 0 < amount && deposited + amount <= 100 && leaves < 100
    ensures Attempt(Environment(), c, DepositOf(amount, commitment)).Success?
    ensures At(Step(Environment(), c, DepositOf(amount, commitment)), leaves + 1, deposited + amount, 0, {})
  {
    DepositGoes(c, amount, commitment, leaves, deposited);
    DepositSucceedsIff(Environment(), c, DEPOSITOR, amount, commitment, 0);
    DepositMoves(c, Step(Environment(), c, DepositOf(amount, commitment)), amount, leaves, deposited);
  }

  lemma PublishStep(c: Chain, leaves: nat, deposited: nat)
    requires At(c, leaves, deposited, 0, {})
    ensures Attempt(Environment(), c, Publish()).Success?
    ensures var after := Step(Environment(), c, Publish());
            At(after, leaves, deposited, 0, {}) && after.pool.window.IsKnownRoot(1000)
  {}

  lemma MovedNothing(c: Chain, balances: map<Account, nat>)
    requires c.vault in balances && RECIPIENT in balances && IsU64(balances[RECIPIENT])
    ensures Affords(c, balances, RECIPIENT, 0) && Moved(c, balances, RECIPIENT, 0) == balances
  {}

  /** The slots of two nullifiers. */
  predicate HaveSlots(nullifiers: (Word, Word), r: (nat, nat)) {
    N.SlotV1(LastByte, nullifiers.0) == r.0 && N.SlotV1(LastByte, nullifiers.1) == r.1
  }

  /** A spend with free slots and a balanced opening is allowed. */
  lemma IsAllowed(c: Chain, s: Spend, inputs: seq<Word>, r: (nat, nat),
                  leaves: nat, deposited: nat, exited: nat, slots: set<nat>)
    requires At(c, leaves, deposited, exited, slots) && c.pool.window.IsKnownRoot(s.root) && leaves < 100
    requires s.signer == OPERATOR && s.encryptedNotes == 2 && s.locks == (0, 0) && Balanced(inputs)
    requires HaveSlots(s.nullifiers, r) && r.0 != r.1 && {r.0, r.1} !! slots
    ensures SpendAllowed(Environment(), c, s, inputs) && DS.SpendSlots(Environment(), s) == {r.0, r.1}
  {}

  lemma ExitIsPaid(c: Chain, s: Spend, leaves: nat, deposited: nat, exited: nat, slots: set<nat>)
    requires At(c, leaves, deposited, exited, slots) && exited + s.exit <= deposited
    requires s.recipient == RECIPIENT == s.feeCollector && s.fee == 0
    ensures AffordsBoth(c, s)
    ensures Moved(c, Moved(c, c.balances, s.recipient, s.exit), s.feeCollector, s.fee)
            == map[VAULT := deposited - exited - s.exit, DEPOSITOR := 100 - deposited, RECIPIENT := exited + s.exit]
  {
    var paid := Moved(c, c.balances, RECIPIENT, s.exit);
    assert paid
           == map[VAULT := deposited - exited - s.exit, DEPOSITOR := 100 - deposited, RECIPIENT := exited + s.exit];
    MovedNothing(c, paid);
  }

  /** Where a spend with that effect leads. */
  lemma LandsAt(c: Chain, after: Chain, s: Spend, leaves: nat, deposited: nat, exited: nat, slots: set<nat>)
    requires At(c, leaves, deposited, exited, slots) && exited + s.exit <= deposited && after.WellFormed()
    requires SpendEffect(Environment(), c, s, s.exit, after)
    requires after.balances
             == map[VAULT := deposited - exited - s.exit, DEPOSITOR := 100 - deposited, RECIPIENT := exited + s.exit]
    ensures At(after, leaves + 2, deposited, exited + s.exit, slots + DS.SpendSlots(Environment(), s))
    ensures after.pool.window == c.pool.window
  {}

  lemma WithdrawStep(c: Chain, s: Spend, r: (nat, nat), leaves: nat, deposited: nat, exited: nat, slots: set<nat>)
    requires At(c, leaves, deposited, exited, slots) && c.pool.window.IsKnownRoot(s.root) && leaves < 100
    requires s.signer == OPERATOR && s.encryptedNotes == 2 && s.locks == (0, 0) && Balanced(WithdrawInputs(s))
    requires s.recipient == RECIPIENT == s.feeCollector && s.fee == 0 && 0 < s.exit && exited + s.exit <= deposited
    requires HaveSlots(s.nullifiers, r) && r.0 != r.1 && {r.0, r.1} !! slots
    ensures Attempt(Environment(), c, CallWithdraw(s)).Success?
    ensures var after := Step(Environment(), c, CallWithdraw(s));
            && At(after, leaves + 2, deposited, exited + s.exit,
                  slots + {r.0, r.1})
            && after.pool.window == c.pool.window
  {
    IsAllowed(c, s, WithdrawInputs(s), r, leaves, deposited, exited, slots);
    ExitIsPaid(c, s, leaves, deposited, exited, slots);
    WithdrawSucceedsIff(Environment(), c, s);
    LandsAt(c, Step(Environment(), c, CallWithdraw(s)), s, leaves, deposited, exited, slots);
  }

  // ----- Runs -----

  /** The run of `calls` is honest and ends in chain `c` with books `b`. */
  ghost predicate Reaches(calls: seq<Call>, c: Chain, b: Books) {
    && Start().WellFormed()
    && Execute(Environment(), Start(), calls) == c && BooksAfter(Environment(), Start(), calls) == b
    && HonestRun(Environment(), Notes(), Start(), calls)
    && forall i :: 0 <= i < |calls| ==> HonestDeposit(Notes(), calls[i])
  }

  /** Call `i` of the run is accepted. */
  ghost predicate Accepted(calls: seq<Call>, i: nat) {
    Start().WellFormed() && i < |calls| && DS.AcceptedAt(Environment(), Start(), calls, i)
  }

  lemma Extend(calls: seq<Call>, c: Chain, b: Books, call: Call)
    requires Reaches(calls, c, b) && c.WellFormed() && Attempt(Environment(), c, call).Success?
    requires HonestRoots(Notes(), b, call) && HonestDeposit(Notes(), call)
    ensures Reaches(calls + [call], Step(Environment(), c, call), Record(c, b, call))
    ensures !call.CallRegistry? ==> Accepted(calls + [call], |calls|)
  {
    var longer := calls + [call];
    assert longer[..|calls|] == calls;
    forall i | 0 <= i < |longer| ensures HonestAt(Environment(), Notes(), Start(), longer, i) {
      if i < |calls| {
        assert longer[..i] == calls[..i] && HonestAt(Environment(), Notes(), Start(), calls, i);
      }
    }
  }

  lemma StaysAccepted(calls: seq<Call>, call: Call, i: nat)
    requires Accepted(calls, i)
    ensures Accepted(calls + [call], i)
  {
    assert (calls + [call])[..i] == calls[..i];
  }

  lemma DepositRun(calls: seq<Call>, c: Chain, b: Books, amount: nat, commitment: Word, leaves: nat, deposited: nat)
    returns (c': Chain, b': Books)
    requires Reaches(calls, c, b) && At(c, leaves, deposited, 0, {}) && leaves < 100
    requires 0 < amount && deposited + amount <= 100 && HonestDeposit(Notes(), DepositOf(amount, commitment))
    ensures Reaches(calls + [DepositOf(amount, commitment)], c', b')
    ensures At(c', leaves + 1, deposited + amount, 0, {})
    ensures b'.committed == b.committed + {Reduced(commitment)} && b'.spent == b.spent
  {
    DepositStep(c, amount, commitment, leaves, deposited);
    Extend(calls, c, b, DepositOf(amount, commitment));
    c', b' := Step(Environment(), c, DepositOf(amount, commitment)), Record(c, b, DepositOf(amount, commitment));
  }

  lemma WithdrawRun(calls: seq<Call>, c: Chain, b: Books, s: Spend, r: (nat, nat),
                    leaves: nat, deposited: nat, exited: nat, slots: set<nat>)
    returns (c': Chain, b': Books)
    requires Reaches(calls, c, b)
    requires At(c, leaves, deposited, exited, slots) && c.pool.window.IsKnownRoot(s.root) && leaves < 100
    requires s.signer == OPERATOR && s.encryptedNotes == 2 && s.locks == (0, 0) && Balanced(WithdrawInputs(s))
    requires s.recipient == RECIPIENT == s.feeCollector && s.fee == 0 && 0 < s.exit && exited + s.exit <= deposited
    requires HaveSlots(s.nullifiers, r) && r.0 != r.1 && {r.0, r.1} !! slots
    ensures Reaches(calls + [CallWithdraw(s)], c', b') && Accepted(calls + [CallWithdraw(s)], |calls|)
    ensures At(c', leaves + 2, deposited, exited + s.exit, slots + {r.0, r.1})
    ensures c'.pool.window == c.pool.window && Spent(b, b', s)
  {
    WithdrawStep(c, s, r, leaves, deposited, exited, slots);
    Extend(calls, c, b, CallWithdraw(s));
    c', b' := Step(Environment(), c, CallWithdraw(s)), Record(c, b, CallWithdraw(s));
  }

  /** How a spend changes the notes in the books. */
  ghost predicate Spent(before: Books, after: Books, s: Spend) {
    && after.committed == before.committed + {Reduced(s.outputs.0)} + {Reduced(s.outputs.1)}
    && after.spent == before.spent + {s.nullifiers.0} + {s.nullifiers.1}
  }

  lemma NothingYet() returns (calls: seq<Call>, c: Chain, b: Books)
    ensures |calls| == 0 && Reaches(calls, c, b) && At(c, 0, 0, 0, {}) && b.committed == {} == b.spent
  {
    SettingIsSound();
    calls, c, b := [], Start(), NO_BOOKS;
  }

  lemma DepositsAreHonest()
    ensures HonestDeposit(Notes(), DepositOf(4, 101)) && HonestDeposit(Notes(), DepositOf(6, 102))
    ensures HonestDeposit(Notes(), DepositOf(10, 103))
    ensures Reduced(101) == 101 && Reduced(102) == 102 && Reduced(103) == 103
  {}

  lemma OneDeposit() returns (calls: seq<Call>, c: Chain, b: Books)
    ensures |calls| == 1 && Reaches(calls, c, b) && At(c, 1, 4, 0, {})
    ensures b.committed == {101} && b.spent == {}
  {
    calls, c, b := NothingYet();
    DepositsAreHonest();
    c, b := DepositRun(calls, c, b, 4, 101, 0, 0);
    calls := calls + [DepositOf(4, 101)];
  }

  lemma TwoDeposits() returns (calls: seq<Call>, c: Chain, b: Books)
    ensures |calls| == 2 && Reaches(calls, c, b) && At(c, 2, 10, 0, {})
    ensures b.committed == {101, 102} && b.spent == {}
  {
    calls, c, b := OneDeposit();
    DepositsAreHonest();
    c, b := DepositRun(calls, c, b, 6, 102, 1, 4);
    calls := calls + [DepositOf(6, 102)];
  }

  /** Three deposits and a root over the first two. */
  lemma FundedRun() returns (calls: seq<Call>, c: Chain, b: Books)
    ensures |calls| == 4 && Reaches(calls, c, b) && At(c, 3, 20, 0, {}) && c.pool.window.IsKnownRoot(1000)
    ensures c.pool.nextLeafIndex == 3
    ensures b.committed == {101, 102, 103} && b.spent == {}
  {
    calls, c, b := TwoDeposits();
    DepositsAreHonest();
    c, b := DepositRun(calls, c, b, 10, 103, 2, 10);
    calls, c, b := PublishRun(calls + [DepositOf(10, 103)], c, b);
  }

  lemma PublishRun(before: seq<Call>, c: Chain, b: Books) returns (calls: seq<Call>, c': Chain, b': Books)
    requires Reaches(before, c, b) && At(c, 3, 20, 0, {}) && b.committed == {101, 102, 103}
    ensures calls == before + [Publish()] && Reaches(calls, c', b') && b' == b
    ensures At(c', 3, 20, 0, {}) && c'.pool.window.IsKnownRoot(1000)
  {
    PublishStep(c, 3, 20);
    Extend(before, c, b, Publish());
    calls, c', b' := before + [Publish()], Step(Environment(), c, Publish()), Record(c, b, Publish());
  }

  // ----- One withdrawal, two encodings -----

  function Publish(): Call {
    CallUpdateRoot(AUTHORITY, 1000, ZERO_WORD)
  }

  /** Withdraws notes 101 and 102, which are worth 10 together. */
  function Withdrawal(nullifiers: (Word, Word)): Call {
    CallWithdraw(SpendOf(nullifiers, (201, 202), 10))
  }

  /** Words for the nullifiers 10 and 20 whose slots are `r`. */
  predicate WordsWith(words: (Word, Word), r: (nat, nat)) {
    && Aliases(words.0, 10) && Aliases(words.1, 20)
    && words.0 % 256 == r.0 && words.1 % 256 == r.1
  }

  lemma AliasesAreOtherWords()
    ensures WordsWith((10, 20), (10, 20)) && WordsWith((10 + R, 20 + R), (11, 21))
    ensures 10 + R < Pow256(32) && 20 + R < Pow256(32)
  {
    AliasesOf(10, 1);
    AliasesOf(20, 1);
  }

  lemma SameNotes(words: (Word, Word))
    requires Aliases(words.0, 10) && Aliases(words.1, 20)
    ensures Notes().Note(words.0) == 101 && Notes().Note(words.1) == 102
    ensures Balanced(WithdrawInputs(Withdrawal(words).spend))
  {}

  lemma WorthOfThree(m: Meaning, a: Word, b: Word, c: Word)
    requires a != b && b != c && a != c
    ensures Total(m.value, {a, b, c}) == m.value(a) + m.value(b) + m.value(c)
  {
    TotalAdd(m.value, {}, a);
    assert {} + {a} == {a};
    TotalAdd(m.value, {a}, b);
    assert {a} + {b} == {a, b};
    TotalAdd(m.value, {a, b}, c);
    assert {a, b} + {c} == {a, b, c};
  }

  lemma PaidTwiceOwes(m: Meaning, first: (Word, Word), second: (Word, Word), b: Books)
    requires m.Note(first.0) == 101 == m.Note(second.0) && m.Note(first.1) == 102 == m.Note(second.1)
    requires b.committed == {101, 102, 103} + {201} + {202}
    requires b.spent == {first.0} + {first.1} + {second.0} + {second.1}
    ensures Owed(m, b) == m.value(103) + m.value(201) + m.value(202)
  {
    assert Consumed(m, b) == {101, 102} by {
      assert first.0 in b.spent && first.1 in b.spent;
    }
    assert Live(m, b) == {103, 201, 202};
    WorthOfThree(m, 103, 201, 202);
  }

  lemma BothOwe(first: (Word, Word), second: (Word, Word), start: Books, once: Books, b: Books)
    requires start.committed == {101, 102, 103} && start.spent == {}
    requires WordsWith(first, (10, 20)) && WordsWith(second, (11, 21))
    requires Spent(start, once, Withdrawal(first).spend) && Spent(once, b, Withdrawal(second).spend)
    ensures Owed(Notes(), b) == 10
  {
    SameNotes(first);
    SameNotes(second);
    assert b.committed == {101, 102, 103} + {201} + {202};
    PaidTwiceOwes(Notes(), first, second, b);
  }

  /** A withdrawal of 10 that may be run once its slots `r` are free. */
  ghost predicate IsReady(s: Spend, r: (nat, nat)) {
    && s.root == 1000 && s.exit == 10 && HaveSlots(s.nullifiers, r) && Balanced(WithdrawInputs(s))
    && s.signer == OPERATOR && s.encryptedNotes == 2 && s.locks == (0, 0)
    && s.recipient == RECIPIENT == s.feeCollector && s.fee == 0
  }

  lemma Ready(words: (Word, Word), r: (nat, nat)) returns (s: Spend)
    requires WordsWith(words, r)
    ensures CallWithdraw(s) == Withdrawal(words) && IsReady(s, r)
  {
    SameNotes(words);
    SlotsOf(words);
    s := Withdrawal(words).spend;
  }

  lemma PayOut(before: seq<Call>, c: Chain, b: Books, s: Spend, r: (nat, nat), exited: nat, slots: set<nat>)
    returns (calls: seq<Call>, c': Chain, b': Books)
    requires IsReady(s, r) && Reaches(before, c, b) && c.pool.window.IsKnownRoot(1000)
    requires At(c, c.pool.nextLeafIndex, 20, exited, slots) && c.pool.nextLeafIndex < 50 && exited + 10 <= 20
    requires r.0 != r.1 && {r.0, r.1} !! slots
    ensures calls == before + [CallWithdraw(s)] && Reaches(calls, c', b') && Accepted(calls, |before|)
    ensures At(c', c'.pool.nextLeafIndex, 20, exited + 10, slots + {r.0, r.1})
    ensures c'.pool.nextLeafIndex == c.pool.nextLeafIndex + 2
    ensures c'.pool.window == c.pool.window && Spent(b, b', s)
    ensures VAULT in c'.balances && c'.balances[VAULT] == 10 - exited
  {
    c', b' := WithdrawRun(before, c, b, s, r, c.pool.nextLeafIndex, 20, exited, slots);
    calls := before + [CallWithdraw(s)];
  }

  /** Two withdrawals with slots of their own, one after the other. */
  lemma PayBoth(funded: seq<Call>, c: Chain, b: Books, s: Spend, r: (nat, nat), t: Spend, q: (nat, nat))
    returns (calls: seq<Call>, c': Chain, once: Books, b': Books)
    requires IsReady(s, r) && IsReady(t, q) && Reaches(funded, c, b) && c.pool.window.IsKnownRoot(1000)
    requires At(c, c.pool.nextLeafIndex, 20, 0, {}) && c.pool.nextLeafIndex < 40
    requires r.0 != r.1 && q.0 != q.1 && {q.0, q.1} !! {r.0, r.1}
    ensures calls == funded + [CallWithdraw(s)] + [CallWithdraw(t)] && Reaches(calls, c', b')
    ensures Accepted(calls, |funded|) && Accepted(calls, |funded| + 1)
    ensures VAULT in c'.balances && c'.balances[VAULT] == 0 && Spent(b, once, s) && Spent(once, b', t)
  {
    hide *;
    var before, c1, b1 := PayOut(funded, c, b, s, r, 0, {});
    calls, c', b' := PayOut(before, c1, b1, t, q, 10, {} + {r.0, r.1});
    StaysAccepted(before, CallWithdraw(t), |funded|);
    once := b1;
  }

  /** A withdrawal and the same withdrawal under other words for its nullifiers are both
      accepted and paid. */
  lemma OtherWordsArePaid(first: (Word, Word), second: (Word, Word)) returns (calls: seq<Call>, c: Chain, b: Books)
    requires WordsWith(first, (10, 20)) && WordsWith(second, (11, 21))
    ensures Reaches(calls, c, b) && Accepted(calls, 4) && Accepted(calls, 5)
    ensures |calls| == 6 && calls[4] == Withdrawal(first) && calls[5] == Withdrawal(second)
    ensures Owed(Notes(), b) == 10 && VAULT in c.balances && c.balances[VAULT] == 0
  {
    hide *;
    var funded, c0, b0 := FundedRun();
    var s := Ready(first, (10, 20));
    var t := Ready(second, (11, 21));
    var b1;
    calls, c, b1, b := PayBoth(funded, c0, b0, s, (10, 20), t, (11, 21));
    BothOwe(first, second, b0, b1, b);
  }

  /** Canonical nullifiers are needed.  A withdrawal and the same withdrawal under aliases of
      its nullifiers are both accepted and paid, and the vault is then short of what is owed,
      though verifier, roots and deposits are all as they should be. */
  lemma AliasIsPaidAgain() returns (calls: seq<Call>, c: Chain, b: Books)
    ensures Initial(Start())
    ensures Notes().Sane() && Notes().OneNullifierEach() && SoundVerifier(Environment(), Notes())
    ensures Reaches(calls, c, b) && Accepted(calls, 4) && Accepted(calls, 5) && |calls| == 6
    ensures calls[4] == Withdrawal((10, 20)) && calls[5] == Withdrawal((10 + R, 20 + R))
    ensures 10 + R < Pow256(32) && 20 + R < Pow256(32)
    ensures Owed(Notes(), b) == 10 && VAULT in c.balances && c.balances[VAULT] == 0
  {
    SettingIsSound();
    AliasesAreOtherWords();
    calls, c, b := OtherWordsArePaid((10, 20), (10 + R, 20 + R));
  }

  // ----- A locked commitment -----

  /** The record that the bridge leaves for note 101: 161 bytes, not released. */
  function Lock(): Call {
    CallOutside(map[Environment().lockPda(101) := AccountInfo(7, seq(161, _ => 0))])
  }

  /** Spends notes 101 and 102 for note 203, which is worth both. */
  function Payment(): Spend {
    SpendOf((10, 20), (203, 202), 0)
  }

  lemma LockRun(before: seq<Call>, c: Chain, b: Books) returns (calls: seq<Call>, c': Chain, b': Books)
    requires Reaches(before, c, b) && At(c, 3, 20, 0, {}) && c.pool.window.IsKnownRoot(1000)
    ensures calls == before + [Lock()] && Reaches(calls, c', b') && b' == b
    ensures At(c', 3, 20, 0, {}) && c'.pool.window == c.pool.window
    ensures IsLocked(Environment(), c'.accounts, 101)
  {
    Extend(before, c, b, Lock());
    calls, c', b' := before + [Lock()], Step(Environment(), c, Lock()), Record(c, b, Lock());
  }

  lemma PaymentBalances()
    ensures Balanced(TransferInputs(Payment())) && Notes().Note(10) == 101 && Notes().Note(20) == 102
  {}

  lemma PaymentStep(c: Chain)
    requires At(c, 3, 20, 0, {}) && c.pool.window.IsKnownRoot(1000)
    ensures Attempt(Environment(), c, CallTransfer(Payment())).Success?
  {
    PaymentBalances();
    SlotsOf((10, 20));
    IsAllowed(c, Payment(), TransferInputs(Payment()), (10, 20), 3, 20, 0, {});
    MovedNothing(c, c.balances);
    TransferSucceedsIff(Environment(), c, Payment());
  }

  lemma PaymentRun(before: seq<Call>, c: Chain, b: Books) returns (calls: seq<Call>, c': Chain, b': Books)
    requires Reaches(before, c, b) && At(c, 3, 20, 0, {}) && c.pool.window.IsKnownRoot(1000)
    ensures calls == before + [CallTransfer(Payment())] && Reaches(calls, c', b') && Accepted(calls, |before|)
    ensures Spent(b, b', Payment()) && c'.accounts == c.accounts
  {
    var call := CallTransfer(Payment());
    PaymentStep(c);
    Extend(before, c, b, call);
    TransferSucceedsIff(Environment(), c, Payment());
    calls, c', b' := before + [call], Step(Environment(), c, call), Record(c, b, call);
  }

  lemma PaymentTakes(before: Books, b: Books)
    requires before.committed == {101, 102, 103} && before.spent == {} && Spent(before, b, Payment())
    ensures 101 in Live(Notes(), before) && 101 !in Live(Notes(), b)
  {
    PaymentBalances();
    assert 10 in b.spent;
  }

  /** After deposits, an honest root and a lock on note 101, a transfer that passes empty
      accounts is accepted and spends the note, which stays locked. */
  lemma LockedCommitmentIsSpent()
    returns (calls: seq<Call>, locked: Chain, before: Books, c: Chain, b: Books)
    ensures Initial(Start()) && Notes().Sane() && Notes().OneNullifierEach() && SoundVerifier(Environment(), Notes())
    ensures |calls| == 6 && calls[4] == Lock() && calls[5] == CallTransfer(Payment())
    ensures Reaches(calls[..5], locked, before) && Reaches(calls, c, b) && Accepted(calls, 5)
    ensures IsLocked(Environment(), locked.accounts, 101) && IsLocked(Environment(), c.accounts, 101)
    ensures 101 in Live(Notes(), before) && 101 !in Live(Notes(), b)
  {
    SettingIsSound();
    var funded, c0, b0 := FundedRun();
    var held;
    held, locked, before := LockRun(funded, c0, b0);
    calls, c, b := PaymentRun(held, locked, before);
    assert calls[..5] == held;
    PaymentTakes(before, b);
  }
}

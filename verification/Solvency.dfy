/** What the pool owes and what it holds, in every run of its instructions and of the
    nullifier registry (programs/holanc-pool/src/lib.rs). */
module Solvency {
  import opened Base
  import opened Pool
  import opened PoolRules
  import opened RootWindow
  import opened ScalarField
  import DS = DoubleSpend
  import N = Nullifier

  // ----- What commitments, nullifiers and roots stand for -----

  /** The meaning that the proof system gives to field elements: the value that a
      commitment opens to, the note that a nullifier spends, and the commitments of the tree
      that a root was computed from.  Words mean what their field elements mean. */
  datatype Meaning = Meaning(value: Word -> nat, note: Word -> Word, covers: Word -> set<Word>) {
    function Note(n: Word): Word {
      note(Reduced(n))
    }

    function Worth(n: Word): nat {
      value(Note(n))
    }

    /** The zero root covers nothing. */
    predicate Sane() {
      covers(ZERO_WORD) == {}
    }

    /** An input is a note under the root, or a dummy worth nothing. */
    predicate InputOpens(root: Word, n: Word) {
      Note(n) in covers(Reduced(root)) || Worth(n) == 0
    }

    /** The opening of a spend: two such inputs, and values that balance. */
    predicate Opens(s: Spend, exit: nat) {
      && InputOpens(s.root, s.nullifiers.0)
      && InputOpens(s.root, s.nullifiers.1)
      && Worth(s.nullifiers.0) + Worth(s.nullifiers.1)
         == value(Reduced(s.outputs.0)) + value(Reduced(s.outputs.1)) + exit + s.fee
    }

    predicate SameNullifier(a: Word, b: Word) {
      Canonical(a) && Canonical(b) && note(a) == note(b) && value(note(a)) > 0 ==> a == b
    }

    /** A note of worth has one nullifier, as a field element. */
    ghost predicate OneNullifierEach() {
      forall a, b :: SameNullifier(a, b)
    }
  }

  /** The verifier accepts balanced openings only. */
  ghost predicate SoundVerifier(env: Env, m: Meaning) {
    && (forall s: Spend :: env.verify(s.proof, TransferInputs(s)) ==> m.Opens(s, 0))
    && (forall s: Spend :: env.verify(s.proof, WithdrawInputs(s)) ==> m.Opens(s, s.exit))
  }

  // ----- Sums over sets of notes -----

  ghost function Total(value: Word -> nat, notes: set<Word>): nat {
    if notes == {} then 0 else var x :| x in notes; value(x) + Total(value, notes - {x})
  }

  lemma {:induction false} TotalRemove(value: Word -> nat, notes: set<Word>, x: Word)
    requires x in notes
    ensures Total(value, notes) == value(x) + Total(value, notes - {x})
    decreases notes
  {
    var y :| y in notes && Total(value, notes) == value(y) + Total(value, notes - {y});
    if y != x {
      TotalRemove(value, notes - {y}, x);
      TotalRemove(value, notes - {x}, y);
      assert notes - {y} - {x} == notes - {x} - {y};
    }
  }

  lemma TotalAdd(value: Word -> nat, notes: set<Word>, x: Word)
    requires x !in notes
    ensures Total(value, notes + {x}) == value(x) + Total(value, notes)
  {
    TotalRemove(value, notes + {x}, x);
    assert notes + {x} - {x} == notes;
  }

  // ----- Books kept beside the chain -----

  /** `committed` holds the field elements of the commitments so far and `spent` the
      nullifiers of the spends so far; the counters total the successful deposits, exits and
      fees, and `selfPaid` those exits and fees whose receiving account was the vault. */
  datatype Books = Books(committed: set<Word>, spent: set<Word>, deposits: nat, exits: nat, fees: nat, selfPaid: nat)

  ghost function Consumed(m: Meaning, b: Books): set<Word> {
    set n | n in b.spent :: m.Note(n)
  }

  /** A note is live from its commitment until it is spent, under whatever nullifier. */
  ghost function Live(m: Meaning, b: Books): set<Word> {
    b.committed - Consumed(m, b)
  }

  /** What the pool owes. */
  ghost function Owed(m: Meaning, b: Books): nat {
    Total(m.value, Live(m, b))
  }

  function Commit(b: Books, c: Word): Books {
    b.(committed := b.committed + {Reduced(c)})
  }

  function SpendNote(b: Books, n: Word): Books {
    b.(spent := b.spent + {n})
  }

  function SelfPaid(c: Chain, dst: Account, amount: nat): nat {
    if dst == c.vault then amount else 0
  }

  function BookSpend(c: Chain, b: Books, s: Spend, exit: nat): Books {
    var spent := SpendNote(SpendNote(b, s.nullifiers.0), s.nullifiers.1);
    var done := Commit(Commit(spent, s.outputs.0), s.outputs.1);
    done.(exits := b.exits + exit, fees := b.fees + s.fee,
          selfPaid := b.selfPaid + SelfPaid(c, s.recipient, exit) + SelfPaid(c, s.feeCollector, s.fee))
  }

  function Exit(call: Call): nat
    requires DS.IsSpend(call)
  {
    if call.CallWithdraw? then call.spend.exit else 0
  }

  /** The books after a successful `call`. */
  function Record(c: Chain, b: Books, call: Call): Books {
    if call.CallDeposit? then Commit(b, call.commitment).(deposits := b.deposits + call.amount)
    else if DS.IsSpend(call) then BookSpend(c, b, call.spend, Exit(call))
    else b
  }

  // ----- What one spend does to what is owed -----

  /** Notes spent without having been committed are worth nothing. */
  ghost predicate Settled(m: Meaning, b: Books) {
    forall n :: n in b.spent ==> m.Note(n) in b.committed || m.Worth(n) == 0
  }

  predicate Fresh(m: Meaning, b: Books, c: Word) {
    Reduced(c) !in b.committed || m.value(Reduced(c)) == 0
  }

  /** What a nullifier takes off the books: its note's worth, the first time. */
  ghost function LiveWorth(m: Meaning, b: Books, n: Word): nat {
    if m.Note(n) in Live(m, b) then m.Worth(n) else 0
  }

  lemma SpendLowersOwed(m: Meaning, b: Books, n: Word)
    ensures Owed(m, b) == Owed(m, SpendNote(b, n)) + LiveWorth(m, b, n)
  {
    var x := m.Note(n);
    assert Consumed(m, SpendNote(b, n)) == Consumed(m, b) + {x};
    assert Live(m, SpendNote(b, n)) == Live(m, b) - {x};
    if x in Live(m, b) {
      TotalRemove(m.value, Live(m, b), x);
    } else {
      assert Live(m, b) - {x} == Live(m, b);
    }
  }

  lemma CommitRaisesOwed(m: Meaning, b: Books, c: Word)
    requires Settled(m, b)
    ensures Settled(m, Commit(b, c))
    ensures Owed(m, b) <= Owed(m, Commit(b, c)) <= Owed(m, b) + m.value(Reduced(c))
    ensures Fresh(m, b, c) ==> Owed(m, Commit(b, c)) == Owed(m, b) + m.value(Reduced(c))
  {
    var x := Reduced(c);
    assert Consumed(m, Commit(b, c)) == Consumed(m, b);
    if x !in b.committed && x !in Consumed(m, b) {
      assert Live(m, Commit(b, c)) == Live(m, b) + {x};
      TotalAdd(m.value, Live(m, b), x);
    } else {
      assert Live(m, Commit(b, c)) == Live(m, b);
    }
  }

  /** Both notes of a spend, as far as they were live, and counted once. */
  ghost function LiveInput(m: Meaning, b: Books, s: Spend): nat {
    LiveWorth(m, b, s.nullifiers.0) + LiveWorth(m, SpendNote(b, s.nullifiers.0), s.nullifiers.1)
  }

  /** Each note of worth that the spend consumes was still live. */
  ghost predicate ConsumesLive(m: Meaning, b: Books, s: Spend) {
    && (m.Worth(s.nullifiers.0) > 0 ==> m.Note(s.nullifiers.0) in Live(m, b))
    && (m.Worth(s.nullifiers.1) > 0 ==> m.Note(s.nullifiers.1) in Live(m, SpendNote(b, s.nullifiers.0)))
  }

  /** The outputs of worth are new. */
  predicate FreshOutputs(m: Meaning, b: Books, s: Spend) {
    Fresh(m, b, s.outputs.0) && Fresh(m, Commit(b, s.outputs.0), s.outputs.1)
  }

  lemma LiveInputIff(m: Meaning, b: Books, s: Spend)
    ensures LiveInput(m, b, s) <= m.Worth(s.nullifiers.0) + m.Worth(s.nullifiers.1)
    ensures LiveInput(m, b, s) == m.Worth(s.nullifiers.0) + m.Worth(s.nullifiers.1) <==> ConsumesLive(m, b, s)
  {}

  /** What is owed falls by the live inputs and rises by at most the outputs. */
  lemma SpendMovesOwed(m: Meaning, c: Chain, b: Books, s: Spend, exit: nat)
    requires Settled(m, b) && Settled(m, SpendNote(SpendNote(b, s.nullifiers.0), s.nullifiers.1))
    ensures var after := BookSpend(c, b, s, exit);
            var outputs := m.value(Reduced(s.outputs.0)) + m.value(Reduced(s.outputs.1));
            && Settled(m, after)
            && Owed(m, after) + LiveInput(m, b, s) <= Owed(m, b) + outputs
            && (FreshOutputs(m, b, s) ==> Owed(m, after) + LiveInput(m, b, s) == Owed(m, b) + outputs)
  {
    var b1 := SpendNote(b, s.nullifiers.0);
    var b2 := SpendNote(b1, s.nullifiers.1);
    SpendLowersOwed(m, b, s.nullifiers.0);
    SpendLowersOwed(m, b1, s.nullifiers.1);
    var b3 := Commit(b2, s.outputs.0);
    CommitRaisesOwed(m, b2, s.outputs.0);
    CommitRaisesOwed(m, b3, s.outputs.1);
    SameNotesSameOwed(m, BookSpend(c, b, s, exit), Commit(b3, s.outputs.1));
  }

  lemma SameNotesSameOwed(m: Meaning, a: Books, b: Books)
    requires a.committed == b.committed && a.spent == b.spent
    ensures Owed(m, a) == Owed(m, b) && (Settled(m, a) <==> Settled(m, b))
  {
    assert Live(m, a) == Live(m, b);
  }

  // ----- Accounts: true of every run, whatever the verifier accepts -----

  /** The pool's counter is deposits less exits, and the vault holds that less the fees,
      plus whatever was paid to the vault itself. */
  ghost predicate Accounts(c: Chain, b: Books) {
    && c.WellFormed()
    && b.deposits == c.pool.totalDeposited + b.exits
    && c.balances[c.vault] + b.fees == c.pool.totalDeposited + b.selfPaid
  }

  lemma DepositKeepsAccounts(env: Env, c: Chain, b: Books, call: Call)
    requires Accounts(c, b) && call.CallDeposit? && Attempt(env, c, call).Success?
    ensures Accounts(Attempt(env, c, call).value, Record(c, b, call))
  {
    AttemptKeepsWellFormed(env, c, call);
    DepositSucceedsIff(env, c, call.depositor, call.amount, call.commitment, call.noteLength);
  }

  lemma TransferKeepsAccounts(env: Env, c: Chain, b: Books, s: Spend)
    requires Accounts(c, b) && Transfer(env, c, s).Success?
    ensures Accounts(Transfer(env, c, s).value, BookSpend(c, b, s, 0))
  {
    AttemptKeepsWellFormed(env, c, CallTransfer(s));
    TransferSucceedsIff(env, c, s);
  }

  lemma WithdrawKeepsAccounts(env: Env, c: Chain, b: Books, s: Spend)
    requires Accounts(c, b) && Withdraw(env, c, s).Success?
    ensures Accounts(Withdraw(env, c, s).value, BookSpend(c, b, s, s.exit))
  {
    AttemptKeepsWellFormed(env, c, CallWithdraw(s));
    WithdrawSucceedsIff(env, c, s);
  }

  lemma StepKeepsAccounts(env: Env, c: Chain, b: Books, call: Call)
    requires Accounts(c, b) && Attempt(env, c, call).Success?
    ensures Accounts(Attempt(env, c, call).value, Record(c, b, call))
  {
    match call
    case CallDeposit(_, _, _, _) => DepositKeepsAccounts(env, c, b, call);
    case CallTransfer(s) => TransferKeepsAccounts(env, c, b, s);
    case CallWithdraw(s) => WithdrawKeepsAccounts(env, c, b, s);
    case CallUpdateRoot(_, _, _) =>
    case CallSetPaused(_, _) =>
    case CallRegistry(_) =>
    case CallOutside(_) =>
  }

  // ----- Notes: what a sound verifier and an honest authority add -----

  ghost predicate Registered(env: Env, c: Chain, n: Word) {
    N.SlotV1(env.digest, n) in c.registry.slots
  }

  /** Known roots cover committed notes, spent notes had been committed, and their
      nullifiers are registered. */
  ghost predicate Backed(env: Env, m: Meaning, c: Chain, b: Books) {
    && (forall r :: c.pool.window.IsKnownRoot(r) ==> m.covers(Reduced(r)) <= b.committed)
    && Settled(m, b)
    && (forall n :: n in b.spent ==> Registered(env, c, n))
  }

  /** What the authority is trusted for: a published root covers committed leaves only. */
  ghost predicate HonestRoots(m: Meaning, b: Books, call: Call) {
    call.CallUpdateRoot? ==> m.covers(Reduced(call.newRoot)) <= b.committed
  }

  /** What depositors are trusted for: a commitment opens to the amount paid in. */
  ghost predicate HonestDeposit(m: Meaning, call: Call) {
    call.CallDeposit? ==> m.value(Reduced(call.commitment)) == call.amount
  }

  lemma AcceptedSpendOpens(env: Env, m: Meaning, c: Chain, call: Call)
    requires c.WellFormed() && SoundVerifier(env, m) && DS.IsSpend(call) && Attempt(env, c, call).Success?
    ensures m.Opens(call.spend, Exit(call)) && c.pool.window.IsKnownRoot(call.spend.root)
    ensures RegistryAllows(env, c, call.spend)
    ensures Attempt(env, c, call).value.registry.slots == c.registry.slots + DS.SpendSlots(env, call.spend)
    ensures Attempt(env, c, call).value.pool.window == c.pool.window
    ensures Attempt(env, c, call).value.pool.totalDeposited + Exit(call) == c.pool.totalDeposited
  {
    TransferSucceedsIff(env, c, call.spend);
    WithdrawSucceedsIff(env, c, call.spend);
  }

  lemma SpendSettles(m: Meaning, b: Books, s: Spend, exit: nat)
    requires Settled(m, b) && m.Opens(s, exit) && m.covers(Reduced(s.root)) <= b.committed
    ensures Settled(m, SpendNote(SpendNote(b, s.nullifiers.0), s.nullifiers.1))
  {}

  lemma SpendKeepsBacked(env: Env, m: Meaning, c: Chain, b: Books, call: Call)
    requires c.WellFormed() && Backed(env, m, c, b) && SoundVerifier(env, m)
    requires DS.IsSpend(call) && Attempt(env, c, call).Success?
    ensures Backed(env, m, Attempt(env, c, call).value, Record(c, b, call))
  {
    var s, after, books := call.spend, Attempt(env, c, call).value, Record(c, b, call);
    AcceptedSpendOpens(env, m, c, call);
    SpendSettles(m, b, s, Exit(call));
    SpendMovesOwed(m, c, b, s, Exit(call));
    forall n | n in books.spent ensures Registered(env, after, n) {
      assert n in b.spent ==> Registered(env, c, n);
    }
  }

  lemma OtherKeepsBacked(env: Env, m: Meaning, c: Chain, b: Books, call: Call)
    requires c.WellFormed() && Backed(env, m, c, b) && HonestRoots(m, b, call)
    requires !DS.IsSpend(call) && Attempt(env, c, call).Success?
    ensures Backed(env, m, Attempt(env, c, call).value, Record(c, b, call))
  {
    var after := Attempt(env, c, call).value;
    assert c.registry.slots <= after.registry.slots;
    forall n | n in b.spent ensures Registered(env, after, n) {
      assert Registered(env, c, n);
    }
    forall r | after.pool.window.IsKnownRoot(r) ensures m.covers(Reduced(r)) <= Record(c, b, call).committed {
      assert c.pool.window.IsKnownRoot(r) || (call.CallUpdateRoot? && r == call.newRoot);
    }
    if call.CallDeposit? {
      CommitRaisesOwed(m, b, call.commitment);
    }
  }

  lemma StepKeepsBacked(env: Env, m: Meaning, c: Chain, b: Books, call: Call)
    requires c.WellFormed() && Backed(env, m, c, b) && SoundVerifier(env, m) && HonestRoots(m, b, call)
    requires Attempt(env, c, call).Success?
    ensures Backed(env, m, Attempt(env, c, call).value, Record(c, b, call))
  {
    if DS.IsSpend(call) {
      SpendKeepsBacked(env, m, c, b, call);
    } else {
      OtherKeepsBacked(env, m, c, b, call);
    }
  }

  // ----- Solvency, step by step -----

  /** The counter covers what is owed and the fees, so that the vault covers what is owed. */
  ghost predicate Covered(m: Meaning, c: Chain, b: Books) {
    Owed(m, b) + b.fees <= c.pool.totalDeposited
  }

  ghost predicate ExactlyCovered(m: Meaning, c: Chain, b: Books) {
    Owed(m, b) + b.fees == c.pool.totalDeposited
  }

  /** The exact effect of an accepted spend: what the pool is short of grows by the worth
      that the spend consumed without its being live. */
  lemma SpendShortfall(env: Env, m: Meaning, c: Chain, b: Books, call: Call)
    requires c.WellFormed() && Backed(env, m, c, b) && SoundVerifier(env, m)
    requires DS.IsSpend(call) && Attempt(env, c, call).Success?
    ensures var s, after, books := call.spend, Attempt(env, c, call).value, Record(c, b, call);
            var dead := m.Worth(s.nullifiers.0) + m.Worth(s.nullifiers.1) - LiveInput(m, b, s);
            && Owed(m, books) + books.fees - after.pool.totalDeposited
               <= Owed(m, b) + b.fees - c.pool.totalDeposited + dead
            && (FreshOutputs(m, b, s) ==>
                  Owed(m, books) + books.fees - after.pool.totalDeposited
                  == Owed(m, b) + b.fees - c.pool.totalDeposited + dead)
  {
    AcceptedSpendOpens(env, m, c, call);
    SpendSettles(m, b, call.spend, Exit(call));
    SpendMovesOwed(m, c, b, call.spend, Exit(call));
  }

  /** An accepted spend leaves an exactly solvent pool solvent if and only if each note of
      worth that it consumes was still live. */
  lemma SpendSolventIff(env: Env, m: Meaning, c: Chain, b: Books, call: Call)
    requires c.WellFormed() && Backed(env, m, c, b) && SoundVerifier(env, m) && ExactlyCovered(m, c, b)
    requires DS.IsSpend(call) && Attempt(env, c, call).Success? && FreshOutputs(m, b, call.spend)
    ensures Covered(m, Attempt(env, c, call).value, Record(c, b, call)) <==> ConsumesLive(m, b, call.spend)
    ensures ConsumesLive(m, b, call.spend) ==> ExactlyCovered(m, Attempt(env, c, call).value, Record(c, b, call))
  {
    SpendShortfall(env, m, c, b, call);
    LiveInputIff(m, b, call.spend);
  }

  /** The trust in depositors cannot be dropped, because `deposit` never looks inside a
      commitment: a deposit into an exactly solvent pool leaves it solvent if and only if
      the new commitment opens to no more than the amount paid in. */
  lemma DepositSolventIff(env: Env, m: Meaning, c: Chain, b: Books, call: Call)
    requires c.WellFormed() && Backed(env, m, c, b) && ExactlyCovered(m, c, b)
    requires call.CallDeposit? && Fresh(m, b, call.commitment) && Attempt(env, c, call).Success?
    ensures Covered(m, Attempt(env, c, call).value, Record(c, b, call))
            <==> m.value(Reduced(call.commitment)) <= call.amount
    ensures m.value(Reduced(call.commitment)) == call.amount ==>
              ExactlyCovered(m, Attempt(env, c, call).value, Record(c, b, call))
  {
    DepositSucceedsIff(env, c, call.depositor, call.amount, call.commitment, call.noteLength);
    CommitRaisesOwed(m, b, call.commitment);
    SameNotesSameOwed(m, Record(c, b, call), Commit(b, call.commitment));
  }

  /** A call that adds no debt without cover. */
  ghost predicate Sincere(m: Meaning, b: Books, call: Call) {
    HonestDeposit(m, call) && (DS.IsSpend(call) ==> ConsumesLive(m, b, call.spend))
  }

  lemma StepKeepsCovered(env: Env, m: Meaning, c: Chain, b: Books, call: Call)
    requires c.WellFormed() && Backed(env, m, c, b) && SoundVerifier(env, m)
    requires Sincere(m, b, call) && Covered(m, c, b) && Attempt(env, c, call).Success?
    ensures Covered(m, Attempt(env, c, call).value, Record(c, b, call))
  {
    if DS.IsSpend(call) {
      SpendShortfall(env, m, c, b, call);
      LiveInputIff(m, b, call.spend);
    } else if call.CallDeposit? {
      DepositSucceedsIff(env, c, call.depositor, call.amount, call.commitment, call.noteLength);
      CommitRaisesOwed(m, b, call.commitment);
      SameNotesSameOwed(m, Record(c, b, call), Commit(b, call.commitment));
    }
  }

  /** A call that destroys no value: its commitments of worth are new. */
  predicate Lossless(m: Meaning, b: Books, call: Call) {
    && (call.CallDeposit? ==> Fresh(m, b, call.commitment))
    && (DS.IsSpend(call) ==> FreshOutputs(m, b, call.spend))
  }

  lemma StepKeepsExact(env: Env, m: Meaning, c: Chain, b: Books, call: Call)
    requires c.WellFormed() && Backed(env, m, c, b) && SoundVerifier(env, m)
    requires Sincere(m, b, call) && Lossless(m, b, call)
    requires ExactlyCovered(m, c, b) && Attempt(env, c, call).Success?
    ensures ExactlyCovered(m, Attempt(env, c, call).value, Record(c, b, call))
  {
    if DS.IsSpend(call) {
      SpendSolventIff(env, m, c, b, call);
    } else if call.CallDeposit? {
      DepositSolventIff(env, m, c, b, call);
    }
  }

  // ----- Whole runs -----

  /** The books after a run; a failed call leaves them alone. */
  function BooksAfter(env: Env, c: Chain, calls: seq<Call>): Books
    requires c.WellFormed()
  {
    if calls == [] then NO_BOOKS else
      var last := |calls| - 1;
      var before, books := Execute(env, c, calls[..last]), BooksAfter(env, c, calls[..last]);
      if Attempt(env, before, calls[last]).Success? then Record(before, books, calls[last]) else books
  }

  const NO_BOOKS: Books := Books({}, {}, 0, 0, 0, 0)

  /** A freshly initialized pool: nothing deposited, an empty vault, an empty registry. */
  ghost predicate Initial(c: Chain) {
    && c.WellFormed()
    && c.pool == InitialPool() && c.balances[c.vault] == 0 && c.registry.slots == {}
  }

  /** Call `i` of the run publishes no root but an honest one. */
  ghost predicate HonestAt(env: Env, m: Meaning, c: Chain, calls: seq<Call>, i: nat)
    requires c.WellFormed() && i < |calls|
  {
    HonestRoots(m, BooksAfter(env, c, calls[..i]), calls[i])
  }

  ghost predicate HonestRun(env: Env, m: Meaning, c: Chain, calls: seq<Call>)
    requires c.WellFormed()
  {
    forall i :: 0 <= i < |calls| ==> HonestAt(env, m, c, calls, i)
  }

  ghost predicate AcceptedAt(env: Env, c: Chain, calls: seq<Call>, i: nat)
    requires c.WellFormed() && i < |calls|
  {
    Attempt(env, Execute(env, c, calls[..i]), calls[i]).Success?
  }

  /** Accepted call `i` adds no debt without cover. */
  ghost predicate SincereAt(env: Env, m: Meaning, c: Chain, calls: seq<Call>, i: nat)
    requires c.WellFormed() && i < |calls|
  {
    AcceptedAt(env, c, calls, i) ==> Sincere(m, BooksAfter(env, c, calls[..i]), calls[i])
  }

  ghost predicate SincereRun(env: Env, m: Meaning, c: Chain, calls: seq<Call>)
    requires c.WellFormed()
  {
    forall i :: 0 <= i < |calls| ==> SincereAt(env, m, c, calls, i)
  }

  ghost predicate LosslessAt(env: Env, m: Meaning, c: Chain, calls: seq<Call>, i: nat)
    requires c.WellFormed() && i < |calls|
  {
    Lossless(m, BooksAfter(env, c, calls[..i]), calls[i])
  }

  ghost predicate LosslessRun(env: Env, m: Meaning, c: Chain, calls: seq<Call>)
    requires c.WellFormed()
  {
    forall i :: 0 <= i < |calls| ==> LosslessAt(env, m, c, calls, i)
  }

  lemma PrefixOfPrefix(calls: seq<Call>, last: nat)
    requires last <= |calls|
    ensures forall i :: 0 <= i <= last ==> calls[..last][..i] == calls[..i]
  {}

  lemma HonestPrefix(env: Env, m: Meaning, c: Chain, calls: seq<Call>, last: nat)
    requires c.WellFormed() && last <= |calls| && HonestRun(env, m, c, calls)
    ensures HonestRun(env, m, c, calls[..last])
  {
    PrefixOfPrefix(calls, last);
    forall i | 0 <= i < last ensures HonestAt(env, m, c, calls[..last], i) {
      assert HonestAt(env, m, c, calls, i);
    }
  }

  lemma SincerePrefix(env: Env, m: Meaning, c: Chain, calls: seq<Call>, last: nat)
    requires c.WellFormed() && last <= |calls| && SincereRun(env, m, c, calls)
    ensures SincereRun(env, m, c, calls[..last])
  {
    PrefixOfPrefix(calls, last);
    forall i | 0 <= i < last ensures SincereAt(env, m, c, calls[..last], i) {
      assert SincereAt(env, m, c, calls, i);
    }
  }

  lemma LosslessPrefix(env: Env, m: Meaning, c: Chain, calls: seq<Call>, last: nat)
    requires c.WellFormed() && last <= |calls| && LosslessRun(env, m, c, calls)
    ensures LosslessRun(env, m, c, calls[..last])
  {
    PrefixOfPrefix(calls, last);
    forall i | 0 <= i < last ensures LosslessAt(env, m, c, calls[..last], i) {
      assert LosslessAt(env, m, c, calls, i);
    }
  }

  /** In every run, whatever the verifier, the authority and the depositors do: the counter
      is deposits less exits, and the vault holds that less the fees. */
  lemma {:induction false} AccountsHold(env: Env, c: Chain, calls: seq<Call>)
    requires Initial(c)
    ensures Accounts(Execute(env, c, calls), BooksAfter(env, c, calls))
  {
    if calls != [] {
      var last := |calls| - 1;
      AccountsHold(env, c, calls[..last]);
      var before, books := Execute(env, c, calls[..last]), BooksAfter(env, c, calls[..last]);
      if Attempt(env, before, calls[last]).Success? {
        StepKeepsAccounts(env, before, books, calls[last]);
      }
    }
  }

  lemma {:induction false} BackedHolds(env: Env, m: Meaning, c: Chain, calls: seq<Call>)
    requires Initial(c) && m.Sane() && SoundVerifier(env, m) && HonestRun(env, m, c, calls)
    ensures Backed(env, m, Execute(env, c, calls), BooksAfter(env, c, calls))
  {
    if calls != [] {
      var last := |calls| - 1;
      HonestPrefix(env, m, c, calls, last);
      BackedHolds(env, m, c, calls[..last]);
      var before, books := Execute(env, c, calls[..last]), BooksAfter(env, c, calls[..last]);
      assert HonestAt(env, m, c, calls, last);
      if Attempt(env, before, calls[last]).Success? {
        StepKeepsBacked(env, m, before, books, calls[last]);
      }
    }
  }

  /** In every run whose accepted spends consume live notes, the vault covers what is owed. */
  lemma {:induction false} CoveredHolds(env: Env, m: Meaning, c: Chain, calls: seq<Call>)
    requires Initial(c) && m.Sane() && SoundVerifier(env, m) && HonestRun(env, m, c, calls)
    requires SincereRun(env, m, c, calls)
    ensures Covered(m, Execute(env, c, calls), BooksAfter(env, c, calls))
  {
    if calls == [] {
      assert Live(m, NO_BOOKS) == {};
    } else {
      var last := |calls| - 1;
      HonestPrefix(env, m, c, calls, last);
      SincerePrefix(env, m, c, calls, last);
      CoveredHolds(env, m, c, calls[..last]);
      BackedHolds(env, m, c, calls[..last]);
      var before, books := Execute(env, c, calls[..last]), BooksAfter(env, c, calls[..last]);
      assert SincereAt(env, m, c, calls, last);
      if Attempt(env, before, calls[last]).Success? {
        StepKeepsCovered(env, m, before, books, calls[last]);
      }
    }
  }

  /** When no call destroys value either, the counter is exactly what is owed and the fees. */
  lemma {:induction false} ExactHolds(env: Env, m: Meaning, c: Chain, calls: seq<Call>)
    requires Initial(c) && m.Sane() && SoundVerifier(env, m) && HonestRun(env, m, c, calls)
    requires SincereRun(env, m, c, calls) && LosslessRun(env, m, c, calls)
    ensures ExactlyCovered(m, Execute(env, c, calls), BooksAfter(env, c, calls))
  {
    if calls == [] {
      assert Live(m, NO_BOOKS) == {};
    } else {
      var last := |calls| - 1;
      HonestPrefix(env, m, c, calls, last);
      SincerePrefix(env, m, c, calls, last);
      LosslessPrefix(env, m, c, calls, last);
      ExactHolds(env, m, c, calls[..last]);
      BackedHolds(env, m, c, calls[..last]);
      var before, books := Execute(env, c, calls[..last]), BooksAfter(env, c, calls[..last]);
      assert SincereAt(env, m, c, calls, last) && LosslessAt(env, m, c, calls, last);
      if Attempt(env, before, calls[last]).Success? {
        StepKeepsExact(env, m, before, books, calls[last]);
      }
    }
  }

  ghost predicate CoveredAt(env: Env, m: Meaning, c: Chain, calls: seq<Call>, i: nat)
    requires c.WellFormed() && i <= |calls|
  {
    Covered(m, Execute(env, c, calls[..i]), BooksAfter(env, c, calls[..i]))
  }

  /** Over whole runs with honest deposits that destroy no value: the pool is solvent all
      along if and only if every accepted spend consumed live notes. */
  lemma {:induction false} SolventThroughoutIff(env: Env, m: Meaning, c: Chain, calls: seq<Call>)
    requires Initial(c) && m.Sane() && SoundVerifier(env, m) && HonestRun(env, m, c, calls)
    requires LosslessRun(env, m, c, calls)
    requires forall i :: 0 <= i < |calls| ==> HonestDeposit(m, calls[i])
    ensures CoveredRun(env, m, c, calls) <==> SincereRun(env, m, c, calls)
  {
    if SincereRun(env, m, c, calls) {
      forall i | 0 <= i <= |calls| ensures CoveredAt(env, m, c, calls, i) {
        HonestPrefix(env, m, c, calls, i);
        SincerePrefix(env, m, c, calls, i);
        CoveredHolds(env, m, c, calls[..i]);
      }
    }
    if CoveredRun(env, m, c, calls) {
      CoveredMeansSincere(env, m, c, calls);
    }
  }

  ghost predicate CoveredRun(env: Env, m: Meaning, c: Chain, calls: seq<Call>)
    requires c.WellFormed()
  {
    forall i :: 0 <= i <= |calls| ==> CoveredAt(env, m, c, calls, i)
  }

  lemma CoveredPrefix(env: Env, m: Meaning, c: Chain, calls: seq<Call>, last: nat)
    requires c.WellFormed() && last <= |calls| && CoveredRun(env, m, c, calls)
    ensures CoveredRun(env, m, c, calls[..last])
  {
    PrefixOfPrefix(calls, last);
    forall i | 0 <= i <= last ensures CoveredAt(env, m, c, calls[..last], i) {
      assert CoveredAt(env, m, c, calls, i);
    }
  }

  lemma SincereExtends(env: Env, m: Meaning, c: Chain, calls: seq<Call>)
    requires c.WellFormed() && calls != []
    requires SincereRun(env, m, c, calls[..|calls| - 1]) && SincereAt(env, m, c, calls, |calls| - 1)
    ensures SincereRun(env, m, c, calls)
  {
    var last := |calls| - 1;
    PrefixOfPrefix(calls, last);
    forall i | 0 <= i < |calls| ensures SincereAt(env, m, c, calls, i) {
      assert i < last ==> SincereAt(env, m, c, calls[..last], i);
    }
  }

  lemma {:induction false} CoveredMeansSincere(env: Env, m: Meaning, c: Chain, calls: seq<Call>)
    requires Initial(c) && m.Sane() && SoundVerifier(env, m) && HonestRun(env, m, c, calls)
    requires LosslessRun(env, m, c, calls) && CoveredRun(env, m, c, calls)
    requires forall i :: 0 <= i < |calls| ==> HonestDeposit(m, calls[i])
    ensures SincereRun(env, m, c, calls)
  {
    if calls != [] {
      var last := |calls| - 1;
      HonestPrefix(env, m, c, calls, last);
      LosslessPrefix(env, m, c, calls, last);
      CoveredPrefix(env, m, c, calls, last);
      CoveredMeansSincere(env, m, c, calls[..last]);
      assert CoveredAt(env, m, c, calls, |calls|);
      LastIsSincere(env, m, c, calls);
      SincereExtends(env, m, c, calls);
    }
  }

  lemma LastIsSincere(env: Env, m: Meaning, c: Chain, calls: seq<Call>)
    requires Initial(c) && m.Sane() && SoundVerifier(env, m) && HonestRun(env, m, c, calls)
    requires LosslessRun(env, m, c, calls) && calls != [] && HonestDeposit(m, calls[|calls| - 1])
    requires SincereRun(env, m, c, calls[..|calls| - 1]) && CoveredAt(env, m, c, calls, |calls|)
    ensures SincereAt(env, m, c, calls, |calls| - 1)
  {
    var last := |calls| - 1;
    HonestPrefix(env, m, c, calls, last);
    LosslessPrefix(env, m, c, calls, last);
    ExactHolds(env, m, c, calls[..last]);
    BackedHolds(env, m, c, calls[..last]);
    assert LosslessAt(env, m, c, calls, last);
    var before, books := Execute(env, c, calls[..last]), BooksAfter(env, c, calls[..last]);
    if AcceptedAt(env, c, calls, last) && DS.IsSpend(calls[last]) {
      RunEnds(env, c, calls);
      SpendSolventIff(env, m, before, books, calls[last]);
    }
  }

  /** Chain and books at the end of a run whose last call is accepted. */
  lemma RunEnds(env: Env, c: Chain, calls: seq<Call>)
    requires c.WellFormed() && calls != [] && AcceptedAt(env, c, calls, |calls| - 1)
    ensures var last := |calls| - 1;
            var before, books := Execute(env, c, calls[..last]), BooksAfter(env, c, calls[..last]);
            && Execute(env, c, calls[..|calls|]) == Attempt(env, before, calls[last]).value
            && BooksAfter(env, c, calls[..|calls|]) == Record(before, books, calls[last])
  {
    assert calls[..|calls|] == calls;
  }

  // ----- A condition that can be checked before a call -----

  predicate CanonicalSpend(s: Spend) {
    Canonical(s.nullifiers.0) && Canonical(s.nullifiers.1)
  }

  /** Every nullifier of the call is below the group order. */
  predicate CanonicalCall(call: Call) {
    DS.IsSpend(call) ==> CanonicalSpend(call.spend)
  }

  predicate CanonicalRun(calls: seq<Call>) {
    forall i :: 0 <= i < |calls| ==> CanonicalCall(calls[i])
  }

  ghost predicate CanonicalBooks(b: Books) {
    forall n :: n in b.spent ==> Canonical(n)
  }

  lemma {:induction false} CanonicalHolds(env: Env, c: Chain, calls: seq<Call>)
    requires c.WellFormed() && CanonicalRun(calls)
    ensures CanonicalBooks(BooksAfter(env, c, calls))
  {
    if calls != [] {
      CanonicalHolds(env, c, calls[..|calls| - 1]);
    }
  }

  lemma OneNullifier(m: Meaning, a: Word, b: Word)
    requires m.OneNullifierEach() && Canonical(a) && Canonical(b)
    ensures m.Note(a) == m.Note(b) && m.Worth(a) > 0 ==> a == b
  {
    assert m.SameNullifier(a, b);
  }

  /** A canonical nullifier whose slot is free spends a note that is still live. */
  lemma FreeSlotMeansLive(env: Env, m: Meaning, c: Chain, b: Books, root: Word, n: Word)
    requires m.OneNullifierEach() && Backed(env, m, c, b) && CanonicalBooks(b)
    requires c.pool.window.IsKnownRoot(root) && m.InputOpens(root, n) && Canonical(n)
    requires !Registered(env, c, n) && m.Worth(n) > 0
    ensures m.Note(n) in Live(m, b)
  {
    forall k | k in b.spent ensures m.Note(k) != m.Note(n) {
      assert Registered(env, c, k);
      OneNullifier(m, k, n);
    }
  }

  lemma CanonicalConsumesLive(env: Env, m: Meaning, c: Chain, b: Books, s: Spend, exit: nat)
    requires m.OneNullifierEach() && Backed(env, m, c, b) && CanonicalBooks(b) && CanonicalSpend(s)
    requires c.pool.window.IsKnownRoot(s.root) && m.Opens(s, exit) && RegistryAllows(env, c, s)
    ensures ConsumesLive(m, b, s)
  {
    var n0, n1 := s.nullifiers.0, s.nullifiers.1;
    if m.Worth(n0) > 0 {
      FreeSlotMeansLive(env, m, c, b, s.root, n0);
    }
    if m.Worth(n1) > 0 {
      FreeSlotMeansLive(env, m, c, b, s.root, n1);
      OneNullifier(m, n0, n1);
      assert Consumed(m, SpendNote(b, n0)) == Consumed(m, b) + {m.Note(n0)};
    }
  }

  /** With one nullifier for each note of worth, runs with canonical nullifiers and honest
      deposits are sincere. */
  lemma CanonicalIsSincere(env: Env, m: Meaning, c: Chain, calls: seq<Call>)
    requires Initial(c) && m.Sane() && SoundVerifier(env, m) && HonestRun(env, m, c, calls)
    requires m.OneNullifierEach() && CanonicalRun(calls)
    requires forall i :: 0 <= i < |calls| ==> HonestDeposit(m, calls[i])
    ensures SincereRun(env, m, c, calls)
  {
    forall i | 0 <= i < |calls| ensures SincereAt(env, m, c, calls, i) {
      HonestPrefix(env, m, c, calls, i);
      BackedHolds(env, m, c, calls[..i]);
      CanonicalHolds(env, c, calls[..i]);
      var before, books := Execute(env, c, calls[..i]), BooksAfter(env, c, calls[..i]);
      if DS.IsSpend(calls[i]) && Attempt(env, before, calls[i]).Success? {
        AcceptedSpendOpens(env, m, before, calls[i]);
        CanonicalConsumesLive(env, m, before, books, calls[i].spend, Exit(calls[i]));
      }
    }
  }

  /** What the callers of a run are trusted for. */
  ghost predicate Trusted(env: Env, m: Meaning, c: Chain, calls: seq<Call>)
    requires c.WellFormed()
  {
    && m.Sane() && m.OneNullifierEach() && SoundVerifier(env, m)
    && HonestRun(env, m, c, calls) && CanonicalRun(calls)
    && forall i :: 0 <= i < |calls| ==> HonestDeposit(m, calls[i])
  }

  /** In every such run the vault covers every committed note that has not been spent. */
  lemma Solvent(env: Env, m: Meaning, c: Chain, calls: seq<Call>)
    requires Initial(c) && Trusted(env, m, c, calls)
    ensures var after, books := Execute(env, c, calls), BooksAfter(env, c, calls);
            && after.pool.totalDeposited == books.deposits - books.exits
            && after.balances[after.vault] == after.pool.totalDeposited - books.fees + books.selfPaid
            && Owed(m, books) <= after.balances[after.vault] - books.selfPaid
  {
    AccountsHold(env, c, calls);
    CanonicalIsSincere(env, m, c, calls);
    CoveredHolds(env, m, c, calls);
  }

  /** When no call destroys value, it holds exactly what these notes are worth. */
  lemma ExactlySolvent(env: Env, m: Meaning, c: Chain, calls: seq<Call>)
    requires Initial(c) && Trusted(env, m, c, calls) && LosslessRun(env, m, c, calls)
    ensures var after, books := Execute(env, c, calls), BooksAfter(env, c, calls);
            && Owed(m, books) + books.fees == after.pool.totalDeposited
            && after.balances[after.vault] == Owed(m, books) + books.selfPaid
  {
    AccountsHold(env, c, calls);
    CanonicalIsSincere(env, m, c, calls);
    ExactHolds(env, m, c, calls);
  }

  // ----- Withdrawals are paid -----

  lemma LiveIsOwed(m: Meaning, b: Books, s: Spend)
    ensures LiveInput(m, b, s) <= Owed(m, b)
  {
    SpendLowersOwed(m, b, s.nullifiers.0);
    SpendLowersOwed(m, SpendNote(b, s.nullifiers.0), s.nullifiers.1);
  }

  /** A vault that holds exit and fee can make both payments. */
  lemma VaultPaysBoth(c: Chain, s: Spend)
    requires c.WellFormed() && s.exit + s.fee <= c.balances[c.vault]
    requires s.recipient in c.balances && s.feeCollector in c.balances
    requires IsU64(c.balances[s.recipient] + s.exit + s.fee) && IsU64(c.balances[s.feeCollector] + s.exit + s.fee)
    ensures AffordsBoth(c, s)
  {}

  /** After every such run, a withdrawal with canonical nullifiers that passes the pool's own
      checks and finds its two slots free is never refused for want of money: neither by the
      counter, which fees never lower, nor by the vault. */
  lemma AcceptedWithdrawIsPaid(env: Env, m: Meaning, c: Chain, calls: seq<Call>, s: Spend)
    requires Initial(c) && Trusted(env, m, c, calls) && CanonicalSpend(s)
    requires var now := Execute(env, c, calls);
             && SpendAllowed(env, now, s, WithdrawInputs(s)) && s.exit > 0
             && s.recipient in now.balances && s.feeCollector in now.balances
             && IsU64(now.balances[s.recipient] + s.exit + s.fee)
             && IsU64(now.balances[s.feeCollector] + s.exit + s.fee)
    ensures Withdraw(env, Execute(env, c, calls), s).Success?
  {
    var now, books := Execute(env, c, calls), BooksAfter(env, c, calls);
    Solvent(env, m, c, calls);
    CanonicalIsSincere(env, m, c, calls);
    CoveredHolds(env, m, c, calls);
    BackedHolds(env, m, c, calls);
    CanonicalHolds(env, c, calls);
    CanonicalConsumesLive(env, m, now, books, s, s.exit);
    LiveInputIff(m, books, s);
    LiveIsOwed(m, books, s);
    VaultPaysBoth(now, s);
    WithdrawSucceedsIff(env, now, s);
  }

  // ----- No note is spent twice -----

  /** Two accepted spends of a run that consume one note of worth, under canonical
      nullifiers, are the same spend, and consume it once. */
  lemma NoNoteSpentTwice(env: Env, m: Meaning, c: Chain, calls: seq<Call>, i: nat, j: nat, a: Word, b: Word)
    requires c.WellFormed() && i < |calls| && j < |calls| && DS.IsSpend(calls[i]) && DS.IsSpend(calls[j])
    requires DS.AcceptedAt(env, c, calls, i) && DS.AcceptedAt(env, c, calls, j)
    requires DS.Carries(calls[i].spend, a) && DS.Carries(calls[j].spend, b) && Canonical(a) && Canonical(b)
    requires m.OneNullifierEach() && m.Note(a) == m.Note(b) && m.Worth(a) > 0
    ensures i == j && a == b && calls[i].spend.nullifiers.0 != calls[i].spend.nullifiers.1
  {
    OneNullifier(m, a, b);
    DS.NoDoubleSpend(env, c, calls, i, j, a);
  }
}

/** Note reservation in the TypeScript wallet (sdk/typescript/src/wallet.ts).  Its
    asynchronous methods interleave only where they await, and `prepareTransfer` and
    `prepareWithdraw` select and lock their inputs before they first do, so each of the
    steps below runs without interruption. */
module SdkWallet {
  import opened Base
  import opened CoinSelection

  /** Amounts are big integers. */
  datatype Note = Note(commitment: Word, value: nat, spent: bool, pending: bool)

  function Balance(notes: seq<Note>): nat {
    if notes == [] then 0 else
      var last := |notes| - 1;
      Balance(notes[..last]) + if notes[last].spent then 0 else notes[last].value
  }

  predicate IsSpendable(n: Note) {
    !n.spent && !n.pending
  }

  /** Positions of the notes that are neither spent nor locked, in order. */
  function Spendable(notes: seq<Note>): (u: seq<nat>)
    ensures forall k :: 0 <= k < |u| ==> u[k] < |notes| && IsSpendable(notes[u[k]])
    ensures forall j, k :: 0 <= j < k < |u| ==> u[j] < u[k]
  {
    if notes == [] then [] else
      var last := |notes| - 1;
      Spendable(notes[..last]) + if IsSpendable(notes[last]) then [last] else []
  }

  lemma {:induction false} SpendableHas(notes: seq<Note>, i: nat)
    requires i < |notes| && IsSpendable(notes[i])
    ensures i in Spendable(notes)
  {
    if i < |notes| - 1 {
      SpendableHas(notes[..|notes| - 1], i);
    }
  }

  function Values(notes: seq<Note>): (values: seq<nat>)
    ensures |values| == |Spendable(notes)|
  {
    var u := Spendable(notes);
    seq(|u|, k requires 0 <= k < |u| => notes[u[k]].value)
  }

  // ----- Flag updates -----

  /** Both updates find notes by commitment. */
  function Locked(n: Note, chosen: set<Word>): Note {
    if n.commitment in chosen then n.(pending := true) else n
  }

  function Unlocked(n: Note, chosen: set<Word>): Note {
    if n.commitment in chosen then n.(pending := false) else n
  }

  function SpentBy(n: Note, chosen: set<Word>): Note {
    if n.commitment in chosen then n.(spent := true, pending := false) else n
  }

  function Each(notes: seq<Note>, f: Note -> Note): seq<Note> {
    seq(|notes|, i requires 0 <= i < |notes| => f(notes[i]))
  }

  // ----- The wallet and the transactions that hold its notes -----

  /** `outstanding` maps each prepared transaction that has neither been marked spent nor
      unlocked to the commitments of its inputs. */
  datatype State = State(notes: seq<Note>, outstanding: map<nat, set<Word>>)

  datatype Step =
    | AddNote(commitment: Word, value: nat)
    | Prepare(id: nat, total: nat, chosen: set<Word>)
    | Settle(id: nat)
    | Release(id: nat)
    | MarkOther(commitments: set<Word>)
    | UnlockOther(commitments: set<Word>)

  ghost predicate Unique(notes: seq<Note>) {
    forall i, j :: 0 <= i < j < |notes| ==> notes[i].commitment != notes[j].commitment
  }

  ghost predicate Has(notes: seq<Note>, commitment: Word) {
    exists i :: 0 <= i < |notes| && notes[i].commitment == commitment
  }

  /** The commitments at the positions that a selection stands for. */
  function Chosen(notes: seq<Note>, sel: seq<nat>): set<Word>
    requires forall k :: 0 <= k < |sel| ==> sel[k] < |Spendable(notes)|
  {
    set k | 0 <= k < |sel| :: notes[Spendable(notes)[sel[k]]].commitment
  }

  /** `selectNotes` may return these commitments. */
  ghost predicate MaySelect(notes: seq<Note>, total: nat, chosen: set<Word>) {
    exists sel :: Candidate(Values(notes), sel, total) && chosen == Chosen(notes, sel)
  }

  /** Steps that can happen: new commitments are fresh, and a new transaction has its own
      identifier.  Notes may be marked or unlocked at any time, for a transaction that is
      under way or for anything else, such as one that has been finished before. */
  ghost predicate Enabled(s: State, step: Step) {
    match step
    case AddNote(commitment, _) => !Has(s.notes, commitment)
    case Prepare(id, total, chosen) => id !in s.outstanding && MaySelect(s.notes, total, chosen)
    case Settle(id) => id in s.outstanding
    case Release(id) => id in s.outstanding
    case MarkOther(_) => true
    case UnlockOther(_) => true
  }

  ghost function Next(s: State, step: Step): State
    requires Enabled(s, step)
  {
    match step
    case AddNote(commitment, value) => s.(notes := s.notes + [Note(commitment, value, false, false)])
    case Prepare(id, _, chosen) =>
      State(Each(s.notes, n => Locked(n, chosen)), s.outstanding[id := chosen])
    case Settle(id) =>
      State(Each(s.notes, n => SpentBy(n, s.outstanding[id])), s.outstanding - {id})
    case Release(id) =>
      State(Each(s.notes, n => Unlocked(n, s.outstanding[id])), s.outstanding - {id})
    case MarkOther(commitments) => s.(notes := Each(s.notes, n => SpentBy(n, commitments)))
    case UnlockOther(commitments) => s.(notes := Each(s.notes, n => Unlocked(n, commitments)))
  }

  // ----- Invariant: a note is locked exactly while one transaction holds it -----

  ghost predicate HeldBy(s: State, commitment: Word, id: nat) {
    id in s.outstanding && commitment in s.outstanding[id]
  }

  ghost predicate Held(s: State, commitment: Word) {
    exists id :: HeldBy(s, commitment, id)
  }

  /** The step marks or unlocks no note that somebody else's transaction holds. */
  ghost predicate Harmless(s: State, step: Step) {
    match step
    case MarkOther(commitments) => forall c :: c in commitments ==> !Held(s, c)
    case UnlockOther(commitments) => forall c :: c in commitments ==> !Held(s, c)
    case _ => true
  }

  ghost predicate Inv(s: State) {
    && Unique(s.notes)
    && (forall i :: 0 <= i < |s.notes| ==> (s.notes[i].pending <==> Held(s, s.notes[i].commitment)))
    && (forall i :: 0 <= i < |s.notes| ==> !(s.notes[i].pending && s.notes[i].spent))
    && (forall id, c :: HeldBy(s, c, id) ==> Has(s.notes, c))
    && (forall id1, id2, c :: HeldBy(s, c, id1) && HeldBy(s, c, id2) ==> id1 == id2)
  }

  lemma ChosenIsSpendable(notes: seq<Note>, total: nat, chosen: set<Word>)
    requires MaySelect(notes, total, chosen)
    ensures forall c :: c in chosen ==>
              exists i :: 0 <= i < |notes| && notes[i].commitment == c && IsSpendable(notes[i])
  {}

  lemma AddKeepsInv(s: State, step: Step)
    requires Inv(s) && Enabled(s, step) && step.AddNote?
    ensures Inv(Next(s, step))
  {
    var t := Next(s, step);
    forall c, id ensures HeldBy(t, c, id) <==> HeldBy(s, c, id) {}
    forall c | Has(s.notes, c) ensures Has(t.notes, c) {
      var i :| 0 <= i < |s.notes| && s.notes[i].commitment == c;
      assert t.notes[i].commitment == c;
    }
    forall i | 0 <= i < |t.notes| ensures t.notes[i].pending <==> Held(t, t.notes[i].commitment) {
      if i < |s.notes| {
        assert t.notes[i] == s.notes[i];
        assert Held(t, s.notes[i].commitment) <==> Held(s, s.notes[i].commitment);
      }
    }
  }

  lemma PrepareKeepsInv(s: State, step: Step)
    requires Inv(s) && Enabled(s, step) && step.Prepare?
    ensures Inv(Next(s, step))
  {
    var t := Next(s, step);
    ChosenIsSpendable(s.notes, step.total, step.chosen);
    forall c, id ensures HeldBy(t, c, id) <==> HeldBy(s, c, id) || (id == step.id && c in step.chosen) {}
    forall c | Has(s.notes, c) ensures Has(t.notes, c) {
      var i :| 0 <= i < |s.notes| && s.notes[i].commitment == c;
      assert t.notes[i].commitment == c;
    }
    forall i | 0 <= i < |t.notes|
      ensures t.notes[i].pending <==> Held(t, t.notes[i].commitment)
    {
      var c := s.notes[i].commitment;
      if c in step.chosen { assert HeldBy(t, c, step.id); }
      if Held(s, c) { var id :| HeldBy(s, c, id); assert HeldBy(t, c, id); }
      if Held(t, c) { var id :| HeldBy(t, c, id); assert id != step.id ==> HeldBy(s, c, id); }
    }
    forall id, c | HeldBy(t, c, id) && c in step.chosen ensures id == step.id {
      var i :| 0 <= i < |s.notes| && s.notes[i].commitment == c && IsSpendable(s.notes[i]);
      assert !Held(s, c);
    }
  }

  lemma FinishKeepsInv(s: State, step: Step)
    requires Inv(s) && Enabled(s, step) && (step.Settle? || step.Release?)
    ensures Inv(Next(s, step))
  {
    var t := Next(s, step);
    forall c, id ensures HeldBy(t, c, id) <==> HeldBy(s, c, id) && id != step.id {}
    forall c | Has(s.notes, c) ensures Has(t.notes, c) {
      var i :| 0 <= i < |s.notes| && s.notes[i].commitment == c;
      assert t.notes[i].commitment == c;
    }
    forall i | 0 <= i < |t.notes| ensures t.notes[i].pending <==> Held(t, t.notes[i].commitment) {
      var c := s.notes[i].commitment;
      if c in s.outstanding[step.id] { assert HeldBy(s, c, step.id); }
      if Held(s, c) { var id :| HeldBy(s, c, id); assert id != step.id ==> HeldBy(t, c, id); }
      if Held(t, c) { var id :| HeldBy(t, c, id); assert HeldBy(s, c, id); }
    }
  }

  lemma OtherKeepsHeld(s: State, step: Step, c: Word)
    requires step.MarkOther? || step.UnlockOther?
    ensures Held(Next(s, step), c) <==> Held(s, c)
  {
    assert forall id :: HeldBy(Next(s, step), c, id) <==> HeldBy(s, c, id);
  }

  lemma HarmlessKeepsInv(s: State, step: Step)
    requires Inv(s) && (step.MarkOther? || step.UnlockOther?) && Harmless(s, step)
    ensures Inv(Next(s, step))
  {
    var t := Next(s, step);
    forall i | 0 <= i < |t.notes|
      ensures t.notes[i].commitment == s.notes[i].commitment && t.notes[i].pending == s.notes[i].pending
      ensures t.notes[i].pending <==> Held(t, t.notes[i].commitment)
      ensures !(t.notes[i].pending && t.notes[i].spent)
    {
      OtherKeepsHeld(s, step, s.notes[i].commitment);
    }
    forall id, c | HeldBy(t, c, id) ensures Has(t.notes, c) {
      assert HeldBy(s, c, id);
      var i :| 0 <= i < |s.notes| && s.notes[i].commitment == c;
      assert t.notes[i].commitment == c;
    }
    assert forall id, c :: HeldBy(t, c, id) ==> HeldBy(s, c, id);
  }

  /** Marking or unlocking other notes keeps every reservation intact if and only if none of
      them is held. */
  lemma OtherKeepsInvIff(s: State, step: Step)
    requires Inv(s) && (step.MarkOther? || step.UnlockOther?)
    ensures Inv(Next(s, step)) <==> Harmless(s, step)
  {
    if Harmless(s, step) {
      HarmlessKeepsInv(s, step);
    } else {
      var t := Next(s, step);
      var c :| c in step.commitments && Held(s, c);
      var id :| HeldBy(s, c, id);
      var i :| 0 <= i < |s.notes| && s.notes[i].commitment == c;
      OtherKeepsHeld(s, step, c);
      assert t.notes[i].commitment == c && !t.notes[i].pending;
    }
  }

  lemma StepKeepsInv(s: State, step: Step)
    requires Inv(s) && Enabled(s, step) && Harmless(s, step)
    ensures Inv(Next(s, step))
  {
    match step
    case AddNote(_, _) => AddKeepsInv(s, step);
    case Prepare(_, _, _) => PrepareKeepsInv(s, step);
    case Settle(_) => FinishKeepsInv(s, step);
    case Release(_) => FinishKeepsInv(s, step);
    case MarkOther(_) => OtherKeepsInvIff(s, step);
    case UnlockOther(_) => OtherKeepsInvIff(s, step);
  }

  // ----- Whole runs -----

  ghost predicate RunsFrom(s: State, steps: seq<Step>)
    decreases |steps|
  {
    steps == [] || (Enabled(s, steps[0]) && RunsFrom(Next(s, steps[0]), steps[1..]))
  }

  ghost function After(s: State, steps: seq<Step>): State
    requires RunsFrom(s, steps)
    decreases |steps|
  {
    if steps == [] then s else After(Next(s, steps[0]), steps[1..])
  }

  const NEW_WALLET: State := State([], map[])

  ghost predicate HarmlessRun(s: State, steps: seq<Step>)
    requires RunsFrom(s, steps)
    decreases |steps|
  {
    steps == [] || (Harmless(s, steps[0]) && HarmlessRun(Next(s, steps[0]), steps[1..]))
  }

  lemma {:induction false} RunKeepsInv(s: State, steps: seq<Step>)
    requires Inv(s) && RunsFrom(s, steps) && HarmlessRun(s, steps)
    ensures Inv(After(s, steps))
    decreases |steps|
  {
    if steps != [] {
      StepKeepsInv(s, steps[0]);
      RunKeepsInv(Next(s, steps[0]), steps[1..]);
    }
  }

  ghost predicate Disjoint(s: State) {
    forall a, b :: a in s.outstanding && b in s.outstanding && a != b ==> s.outstanding[a] !! s.outstanding[b]
  }

  ghost predicate NoneSpent(s: State) {
    forall id, i :: id in s.outstanding && 0 <= i < |s.notes| && s.notes[i].commitment in s.outstanding[id]
      ==> s.notes[i].pending && !s.notes[i].spent
  }

  /** Transactions that are under way at the same time hold disjoint sets of notes, and hold
      none that is spent. */
  lemma InvMeansReserved(s: State)
    requires Inv(s)
    ensures Disjoint(s) && NoneSpent(s)
  {
    forall a, b | a in s.outstanding && b in s.outstanding && a != b
      ensures s.outstanding[a] !! s.outstanding[b]
    {
      forall c | c in s.outstanding[a] ensures c !in s.outstanding[b] {
        assert HeldBy(s, c, a) && !HeldBy(s, c, b);
      }
    }
    forall id, i | id in s.outstanding && 0 <= i < |s.notes| && s.notes[i].commitment in s.outstanding[id]
      ensures s.notes[i].pending && !s.notes[i].spent
    {
      assert HeldBy(s, s.notes[i].commitment, id);
    }
  }

  /** So it is in every interleaving in which nobody marks or unlocks notes that another's
      transaction holds. */
  lemma ReservationsAreDisjoint(steps: seq<Step>)
    requires RunsFrom(NEW_WALLET, steps) && HarmlessRun(NEW_WALLET, steps)
    ensures Disjoint(After(NEW_WALLET, steps)) && NoneSpent(After(NEW_WALLET, steps))
  {
    RunKeepsInv(NEW_WALLET, steps);
    InvMeansReserved(After(NEW_WALLET, steps));
  }

  /** Every transaction that may be prepared next leaves the reservations disjoint. */
  ghost predicate StaysDisjoint(s: State) {
    forall id, total, chosen :: Enabled(s, Prepare(id, total, chosen)) ==>
      Disjoint(Next(s, Prepare(id, total, chosen)))
  }

  /** A held note that has been unlocked may be reserved once more. */
  lemma UnlockedMayBeTaken(s: State, commitments: set<Word>, c: Word)
    requires Inv(s) && c in commitments && Held(s, c)
    ensures !StaysDisjoint(Next(s, UnlockOther(commitments)))
  {
    var t := Next(s, UnlockOther(commitments));
    var holder :| HeldBy(s, c, holder);
    var i :| 0 <= i < |s.notes| && s.notes[i].commitment == c;
    assert t.notes[i] == Unlocked(s.notes[i], commitments);
    var id := FreshId(t.outstanding.Keys);
    SelectOne(t.notes, i);
    var step := Prepare(id, t.notes[i].value, {c});
    assert c in Next(t, step).outstanding[id] && c in Next(t, step).outstanding[holder];
    assert Enabled(t, step) && !Disjoint(Next(t, step));
  }

  /** The condition cannot be dropped: after unlocking other notes, such as those of a
      transaction that was released before, disjointness is safe if and only if none of them
      is held. */
  lemma UnlockIsSafeIff(s: State, commitments: set<Word>)
    requires Inv(s)
    ensures StaysDisjoint(Next(s, UnlockOther(commitments))) <==> Harmless(s, UnlockOther(commitments))
  {
    var t := Next(s, UnlockOther(commitments));
    if Harmless(s, UnlockOther(commitments)) {
      OtherKeepsInvIff(s, UnlockOther(commitments));
      PreparesStayDisjoint(t);
    } else {
      var c :| c in commitments && Held(s, c);
      UnlockedMayBeTaken(s, commitments, c);
    }
  }

  lemma PreparesStayDisjoint(t: State)
    requires Inv(t)
    ensures StaysDisjoint(t)
  {
    forall id, total, chosen | Enabled(t, Prepare(id, total, chosen))
      ensures Disjoint(Next(t, Prepare(id, total, chosen)))
    {
      PrepareKeepsInv(t, Prepare(id, total, chosen));
      InvMeansReserved(Next(t, Prepare(id, total, chosen)));
    }
  }

  lemma FreshId(ids: set<nat>) returns (id: nat)
    ensures forall j :: j in ids ==> j < id
    decreases |ids|
  {
    if ids == {} {
      id := 0;
    } else {
      var k :| k in ids;
      var rest := FreshId(ids - {k});
      id := if k < rest then rest else k + 1;
      assert forall j :: j in ids ==> j == k || j in ids - {k};
    }
  }

  /** A spendable note may be selected for exactly its value. */
  lemma SelectOne(notes: seq<Note>, i: nat)
    requires i < |notes| && IsSpendable(notes[i])
    ensures MaySelect(notes, notes[i].value, {notes[i].commitment})
  {
    SpendableHas(notes, i);
    var k :| 0 <= k < |Spendable(notes)| && Spendable(notes)[k] == i;
    WorthOfOne(Values(notes), k);
    assert Candidate(Values(notes), [k], notes[i].value);
    assert Chosen(notes, [k]) == {notes[i].commitment} by {
      assert [k][0] == k;
    }
  }

  ghost predicate IsSpent(s: State, commitment: Word) {
    exists i :: 0 <= i < |s.notes| && s.notes[i].commitment == commitment && s.notes[i].spent
  }

  lemma StepKeepsUnique(s: State, step: Step)
    requires Unique(s.notes) && Enabled(s, step)
    ensures Unique(Next(s, step).notes)
  {
    var t := Next(s, step);
    forall i | 0 <= i < |s.notes| ensures t.notes[i].commitment == s.notes[i].commitment {}
    if step.AddNote? {
      assert forall i :: 0 <= i < |s.notes| ==> s.notes[i].commitment != step.commitment;
    }
  }

  lemma SpentStays(s: State, step: Step, c: Word)
    requires Unique(s.notes) && Enabled(s, step) && IsSpent(s, c)
    ensures IsSpent(Next(s, step), c)
    ensures step.Prepare? ==> c !in step.chosen
  {
    var i :| 0 <= i < |s.notes| && s.notes[i].commitment == c && s.notes[i].spent;
    var t := Next(s, step);
    assert t.notes[i].commitment == c && t.notes[i].spent;
    if step.Prepare? {
      ChosenIsSpendable(s.notes, step.total, step.chosen);
    }
  }

  /** A spent note is never selected again, whatever is marked or unlocked. */
  lemma {:induction false} SpentNeverSelected(s: State, steps: seq<Step>, c: Word, k: nat)
    requires Unique(s.notes) && RunsFrom(s, steps) && IsSpent(s, c)
    requires k < |steps| && steps[k].Prepare?
    ensures c !in steps[k].chosen
    decreases |steps|
  {
    SpentStays(s, steps[0], c);
    if k > 0 {
      StepKeepsUnique(s, steps[0]);
      SpentNeverSelected(Next(s, steps[0]), steps[1..], c, k - 1);
    }
  }

  // ----- A settled transaction's inputs are gone -----

  ghost function StateAt(s: State, steps: seq<Step>, i: nat): State
    requires RunsFrom(s, steps) && i <= |steps|
    decreases i
  {
    if i == 0 then s else StateAt(Next(s, steps[0]), steps[1..], i - 1)
  }

  /** What every run keeps, harmless or not. */
  ghost predicate Tracked(s: State) {
    Unique(s.notes) && forall id, c :: HeldBy(s, c, id) ==> Has(s.notes, c)
  }

  lemma StepKeepsTracked(s: State, step: Step)
    requires Tracked(s) && Enabled(s, step)
    ensures Tracked(Next(s, step))
  {
    var t := Next(s, step);
    StepKeepsUnique(s, step);
    forall id, c | HeldBy(t, c, id) ensures Has(t.notes, c) {
      if step.Prepare? && id == step.id {
        ChosenIsSpendable(s.notes, step.total, step.chosen);
      } else {
        assert HeldBy(s, c, id);
      }
      var i :| 0 <= i < |s.notes| && s.notes[i].commitment == c;
      assert t.notes[i].commitment == c;
    }
  }

  /** The commitments that a step reports as spent. */
  ghost function Reported(s: State, step: Step): set<Word>
    requires Enabled(s, step)
  {
    match step
    case Settle(id) => s.outstanding[id]
    case MarkOther(commitments) => commitments
    case _ => {}
  }

  lemma ReportedIsSpent(s: State, step: Step, c: Word)
    requires Tracked(s) && Enabled(s, step) && c in Reported(s, step) && Has(s.notes, c)
    ensures IsSpent(Next(s, step), c)
  {
    var i :| 0 <= i < |s.notes| && s.notes[i].commitment == c;
    assert Next(s, step).notes[i].commitment == c && Next(s, step).notes[i].spent;
  }

  /** In every run: a note of the wallet that step `i` reports as spent is chosen by no later
      preparation. */
  lemma {:induction false} ReportedNeverChosen(s: State, steps: seq<Step>, i: nat, k: nat, c: Word)
    requires Tracked(s) && RunsFrom(s, steps) && i < k < |steps| && steps[k].Prepare?
    requires Enabled(StateAt(s, steps, i), steps[i]) && c in Reported(StateAt(s, steps, i), steps[i])
    requires Has(StateAt(s, steps, i).notes, c)
    ensures c !in steps[k].chosen
    decreases i
  {
    StepKeepsTracked(s, steps[0]);
    if i == 0 {
      ReportedIsSpent(s, steps[0], c);
      SpentNeverSelected(Next(s, steps[0]), steps[1..], c, k - 1);
    } else {
      ReportedNeverChosen(Next(s, steps[0]), steps[1..], i - 1, k - 1, c);
    }
  }

  /** No step before `i` finishes the transaction `id`. */
  ghost predicate Unfinished(steps: seq<Step>, id: nat, i: nat)
    requires i <= |steps|
  {
    forall j :: 0 <= j < i ==> steps[j] != Settle(id) && steps[j] != Release(id)
  }

  lemma {:induction false} HoldsUntilFinished(s: State, steps: seq<Step>, id: nat, i: nat)
    requires Tracked(s) && RunsFrom(s, steps) && i < |steps| && Unfinished(steps, id, i) && id in s.outstanding
    ensures var t := StateAt(s, steps, i);
            && Tracked(t) && Enabled(t, steps[i])
            && id in t.outstanding && t.outstanding[id] == s.outstanding[id]
    decreases i
  {
    if i > 0 {
      StepKeepsTracked(s, steps[0]);
      assert steps[0] != Settle(id) && steps[0] != Release(id);
      assert forall j :: 0 <= j < i - 1 ==> steps[1..][j] == steps[j + 1];
      HoldsUntilFinished(Next(s, steps[0]), steps[1..], id, i - 1);
    }
  }

  /** Said of the steps alone: what a transaction chose at step `h` and was settled with at
      step `i`, no preparation chooses after that. */
  lemma {:induction false} SettledNeverChosen(s: State, steps: seq<Step>, h: nat, i: nat, k: nat)
    requires Tracked(s) && RunsFrom(s, steps) && h < i < k < |steps|
    requires steps[h].Prepare? && steps[i] == Settle(steps[h].id) && steps[k].Prepare?
    requires forall j :: h < j < i ==> steps[j] != Settle(steps[h].id) && steps[j] != Release(steps[h].id)
    ensures steps[h].chosen !! steps[k].chosen
    decreases h
  {
    var t, rest := Next(s, steps[0]), steps[1..];
    StepKeepsTracked(s, steps[0]);
    if h > 0 {
      SettledNeverChosen(t, rest, h - 1, i - 1, k - 1);
    } else {
      var id := steps[0].id;
      HoldsUntilFinished(t, rest, id, i - 1);
      forall c | c in steps[0].chosen ensures c !in steps[k].chosen {
        assert HeldBy(StateAt(t, rest, i - 1), c, id);
        ReportedNeverChosen(t, rest, i - 1, k - 1, c);
      }
    }
  }

  // ----- What finishing a transaction does -----

  /** A failed transaction leaves no trace once it has unlocked its notes. */
  lemma ReleaseUndoesPrepare(s: State, id: nat, total: nat, chosen: set<Word>)
    requires Inv(s) && Enabled(s, Prepare(id, total, chosen))
    ensures Next(Next(s, Prepare(id, total, chosen)), Release(id)) == s
  {}

  /** What the unspent notes among `chosen` are worth. */
  function WorthOf(notes: seq<Note>, chosen: set<Word>): nat {
    if notes == [] then 0 else
      var last := |notes| - 1;
      WorthOf(notes[..last], chosen)
      + if !notes[last].spent && notes[last].commitment in chosen then notes[last].value else 0
  }

  /** Locking leaves the balance alone; marking as spent lowers it by exactly the inputs. */
  lemma {:induction false} SpendLowersBalance(notes: seq<Note>, chosen: set<Word>)
    ensures Balance(Each(notes, n => SpentBy(n, chosen))) + WorthOf(notes, chosen) == Balance(notes)
    ensures Balance(Each(notes, n => Locked(n, chosen))) == Balance(notes)
    ensures Balance(Each(notes, n => Unlocked(n, chosen))) == Balance(notes)
  {
    if notes != [] {
      var last := |notes| - 1;
      SpendLowersBalance(notes[..last], chosen);
      assert Each(notes, n => SpentBy(n, chosen))[..last] == Each(notes[..last], n => SpentBy(n, chosen));
      assert Each(notes, n => Locked(n, chosen))[..last] == Each(notes[..last], n => Locked(n, chosen));
      assert Each(notes, n => Unlocked(n, chosen))[..last] == Each(notes[..last], n => Unlocked(n, chosen));
    }
  }

  /** The balance is the sum of the values of the unspent notes. */
  lemma {:induction false} BalanceIsSum(notes: seq<Note>)
    ensures Balance(notes)
            == Sum(seq(|notes|, i requires 0 <= i < |notes| => if notes[i].spent then 0 else notes[i].value))
  {
    var values := seq(|notes|, i requires 0 <= i < |notes| => if notes[i].spent then 0 else notes[i].value);
    if notes != [] {
      var front := notes[..|notes| - 1];
      BalanceIsSum(front);
      assert values[..|notes| - 1]
             == seq(|front|, i requires 0 <= i < |front| => if front[i].spent then 0 else front[i].value);
    }
  }

  // ----- The class -----

  class HolancWallet {
    var notes: seq<Note>
    ghost var outstanding: map<nat, set<Word>>

    ghost function Now(): State
      reads this
    {
      State(notes, outstanding)
    }

    /** `inputs` are the inputs of the transaction `id`, which is under way. */
    ghost predicate Owns(id: nat, inputs: seq<Note>)
      reads this
    {
      id in outstanding && outstanding[id] == CommitmentsOf(inputs)
    }

    constructor ()
      ensures Now() == NEW_WALLET && Inv(Now())
    {
      notes, outstanding := [], map[];
    }

    method AddNewNote(commitment: Word, value: nat)
      requires Inv(Now()) && !Has(notes, commitment)
      modifies this
      ensures Now() == Next(old(Now()), AddNote(commitment, value)) && Inv(Now())
      ensures notes == old(notes) + [Note(commitment, value, false, false)]
      ensures Balance(notes) == old(Balance(notes)) + value
    {
      StepKeepsInv(Now(), AddNote(commitment, value));
      notes := notes + [Note(commitment, value, false, false)];
    }

    method SelectNotes(total: nat, random: nat) returns (r: Option<seq<Note>>)
      ensures r.Some? <==> Values(notes) != [] && TwoCoverable(Values(notes), total)
      ensures r.Some? ==>
                && 1 <= |r.value| <= 2 && total <= InputSum(r.value)
                && (forall n :: n in r.value ==> n in notes && !n.spent && !n.pending)
                && MaySelect(notes, total, CommitmentsOf(r.value))
    {
      var picked := SelectRandom(Values(notes), total, random);
      if picked.None? {
        return None;
      }
      var all, u, sel := notes, Spendable(notes), picked.value;
      var inputs := seq(|sel|, k requires 0 <= k < |sel| => all[u[sel[k]]]);
      InputSumIsWorth(notes, sel, inputs);
      ChosenAreInputs(notes, sel, inputs);
      r := Some(inputs);
    }

    /** The synchronous part of `prepareTransfer` and `prepareWithdraw`: fails without a
        trace when no selection exists, and otherwise locks one and computes the change. */
    method PrepareInputs(ghost id: nat, amount: nat, fee: nat, random: nat)
      returns (r: Option<(seq<Note>, nat)>)
      requires Inv(Now()) && id !in outstanding
      modifies this
      ensures Inv(Now())
      ensures r.Some? <==> Values(old(notes)) != [] && TwoCoverable(Values(old(notes)), amount + fee)
      ensures r.None? ==> Now() == old(Now())
      ensures r.Some? ==>
                var (inputs, change) := r.value;
                var step := Prepare(id, amount + fee, CommitmentsOf(inputs));
                && Enabled(old(Now()), step) && Now() == Next(old(Now()), step)
                && 1 <= |inputs| <= 2 && InputSum(inputs) == amount + fee + change
                && (forall n :: n in inputs ==> n in old(notes) && !n.spent && !n.pending)
                && outstanding == old(outstanding)[id := CommitmentsOf(inputs)]
                && |notes| == |old(notes)|
                && forall i :: 0 <= i < |notes| ==>
                     notes[i] == if old(notes)[i].commitment in CommitmentsOf(inputs)
                                 then old(notes)[i].(pending := true) else old(notes)[i]
    {
      var picked := SelectNotes(amount + fee, random);
      if picked.None? {
        return None;
      }
      var inputs := picked.value;
      StepKeepsInv(Now(), Prepare(id, amount + fee, CommitmentsOf(inputs)));
      notes := LockAll(notes, inputs);
      outstanding := outstanding[id := CommitmentsOf(inputs)];
      r := Some((inputs, InputSum(inputs) - (amount + fee)));
    }

    /** The wallet's notes with those commitments become spent and unlocked.  For the inputs
        of a transaction under way, that settles the transaction. */
    method MarkSpent(inputs: seq<Note>, ghost id: nat)
      modifies this
      ensures |notes| == |old(notes)|
      ensures forall i :: 0 <= i < |notes| ==>
                notes[i] == if old(notes)[i].commitment in CommitmentsOf(inputs)
                            then old(notes)[i].(spent := true, pending := false) else old(notes)[i]
      ensures outstanding == if old(Owns(id, inputs)) then old(outstanding) - {id} else old(outstanding)
      ensures Balance(notes) + WorthOf(old(notes), CommitmentsOf(inputs)) == Balance(old(notes))
      ensures var step := if old(Owns(id, inputs)) then Settle(id) else MarkOther(CommitmentsOf(inputs));
              && Now() == Next(old(Now()), step)
              && (old(Inv(Now())) && Harmless(old(Now()), step) ==> Inv(Now()))
    {
      ghost var step := if Owns(id, inputs) then Settle(id) else MarkOther(CommitmentsOf(inputs));
      if Inv(Now()) && Harmless(Now(), step) {
        StepKeepsInv(Now(), step);
      }
      var commitments := CommitmentsOf(inputs);
      var result := notes;
      for i := 0 to |notes|
        invariant |result| == |notes|
        invariant forall j :: 0 <= j < i ==> result[j] == SpentBy(notes[j], commitments)
        invariant forall j :: i <= j < |notes| ==> result[j] == notes[j]
      {
        if notes[i].commitment in commitments {
          result := result[i := notes[i].(spent := true, pending := false)];
        }
      }
      assert result == Each(notes, n => SpentBy(n, commitments));
      SpendLowersBalance(notes, commitments);
      notes := result;
      if Owns(id, inputs) {
        outstanding := outstanding - {id};
      }
    }

    /** The wallet's notes with those commitments become unlocked.  For the inputs of a
        transaction under way, that releases them. */
    method UnlockNotes(inputs: seq<Note>, ghost id: nat)
      modifies this
      ensures |notes| == |old(notes)|
      ensures forall i :: 0 <= i < |notes| ==>
                notes[i] == if old(notes)[i].commitment in CommitmentsOf(inputs)
                            then old(notes)[i].(pending := false) else old(notes)[i]
      ensures outstanding == if old(Owns(id, inputs)) then old(outstanding) - {id} else old(outstanding)
      ensures Balance(notes) == Balance(old(notes))
      ensures var step := if old(Owns(id, inputs)) then Release(id) else UnlockOther(CommitmentsOf(inputs));
              && Now() == Next(old(Now()), step)
              && (old(Inv(Now())) && Harmless(old(Now()), step) ==> Inv(Now()))
    {
      ghost var step := if Owns(id, inputs) then Release(id) else UnlockOther(CommitmentsOf(inputs));
      if Inv(Now()) && Harmless(Now(), step) {
        StepKeepsInv(Now(), step);
      }
      var commitments := CommitmentsOf(inputs);
      var result := notes;
      for i := 0 to |notes|
        invariant |result| == |notes|
        invariant forall j :: 0 <= j < i ==> result[j] == Unlocked(notes[j], commitments)
        invariant forall j :: i <= j < |notes| ==> result[j] == notes[j]
      {
        if notes[i].commitment in commitments {
          result := result[i := notes[i].(pending := false)];
        }
      }
      assert result == Each(notes, n => Unlocked(n, commitments));
      SpendLowersBalance(notes, commitments);
      notes := result;
      if Owns(id, inputs) {
        outstanding := outstanding - {id};
      }
    }
  }

  function CommitmentsOf(inputs: seq<Note>): set<Word> {
    set n | n in inputs :: n.commitment
  }

  function InputSum(inputs: seq<Note>): nat {
    if inputs == [] then 0 else InputSum(inputs[..|inputs| - 1]) + inputs[|inputs| - 1].value
  }

  lemma {:induction false} InputSumIsWorth(notes: seq<Note>, sel: seq<nat>, inputs: seq<Note>)
    requires forall k :: 0 <= k < |sel| ==> sel[k] < |Spendable(notes)|
    requires |inputs| == |sel| && forall k :: 0 <= k < |sel| ==> inputs[k] == notes[Spendable(notes)[sel[k]]]
    ensures InputSum(inputs) == Worth(Values(notes), sel)
  {
    if sel != [] {
      InputSumIsWorth(notes, sel[..|sel| - 1], inputs[..|sel| - 1]);
    }
  }

  lemma ChosenAreInputs(notes: seq<Note>, sel: seq<nat>, inputs: seq<Note>)
    requires forall k :: 0 <= k < |sel| ==> sel[k] < |Spendable(notes)|
    requires |inputs| == |sel| && forall k :: 0 <= k < |sel| ==> inputs[k] == notes[Spendable(notes)[sel[k]]]
    ensures Chosen(notes, sel) == CommitmentsOf(inputs)
  {}

  /** `for (const n of inputNotes) n.pending = true`: the inputs are the wallet's own notes. */
  method LockAll(notes: seq<Note>, inputs: seq<Note>) returns (locked: seq<Note>)
    ensures locked == Each(notes, n => Locked(n, CommitmentsOf(inputs)))
  {
    var commitments := CommitmentsOf(inputs);
    locked := notes;
    for i := 0 to |notes|
      invariant |locked| == |notes|
      invariant forall j :: 0 <= j < i ==> locked[j] == Locked(notes[j], commitments)
      invariant forall j :: i <= j < |notes| ==> locked[j] == notes[j]
    {
      if notes[i].commitment in commitments {
        locked := locked[i := notes[i].(pending := true)];
      }
    }
  }
}

/** Read replicas behind the indexer's note table (indexer/src/replicated-store.ts), under
    arbitrary failures of the replicas. */
module ReplicatedStore {
  import opened Base
  import opened NoteStore

  /** How a call to a replica can end.  A throwing insert may or may not have taken
      effect. */
  datatype Outcome = Works | ThrowsBefore | ThrowsAfter

  // ----- The store as sets of notes -----

  datatype State = State(primary: set<IndexedNote>, replicas: seq<set<IndexedNote>>, healthy: seq<bool>) {
    ghost predicate WellFormed() {
      && |replicas| == |healthy|
      && UniqueCommitments(primary)
      && forall i :: 0 <= i < |replicas| ==> UniqueCommitments(replicas[i])
    }

    /** Every replica holds a part of the primary, and a healthy one all of it. */
    ghost predicate InSync() {
      && WellFormed()
      && (forall i :: 0 <= i < |replicas| ==> replicas[i] <= primary)
      && (forall i :: 0 <= i < |replicas| && healthy[i] ==> replicas[i] == primary)
    }
  }

  ghost function ReplicaAfterInsert(notes: set<IndexedNote>, healthy: bool, n: IndexedNote, o: Outcome)
    : set<IndexedNote>
  {
    if healthy && !o.ThrowsBefore? then Insert(notes, n) else notes
  }

  /** `insertNote`: the primary, then every healthy replica; one that throws is no longer
      healthy. */
  ghost function AfterInsert(s: State, n: IndexedNote, outcomes: seq<Outcome>): State
    requires |s.replicas| == |s.healthy| == |outcomes|
  {
    State(Insert(s.primary, n),
          seq(|s.replicas|, i requires 0 <= i < |s.replicas| =>
            ReplicaAfterInsert(s.replicas[i], s.healthy[i], n, outcomes[i])),
          seq(|s.healthy|, i requires 0 <= i < |s.healthy| => s.healthy[i] && outcomes[i].Works?))
  }

  /** A note that a resync reaches: the batches start at leaf 0. */
  ghost predicate Copied(n: IndexedNote, took: IndexedNote -> bool) {
    n.leafIndex >= 0 && took(n)
  }

  ghost function AfterCopy(primary: set<IndexedNote>, replica: set<IndexedNote>, took: IndexedNote -> bool)
    : set<IndexedNote>
  {
    replica + set n | n in primary && Copied(n, took) && !HasCommitment(replica, n.commitment)
  }

  ghost predicate SomeLeafIsPlaced(primary: set<IndexedNote>) {
    exists n :: n in primary && n.leafIndex >= 0
  }

  /** `resyncReplica`: copies what is missing, swallows what throws, and trusts the replica
      again; `took` tells which inserts took effect.  It does nothing while the primary has
      no note at leaf 0 or above. */
  ghost function AfterResync(s: State, i: nat, took: IndexedNote -> bool): State
    requires |s.replicas| == |s.healthy|
  {
    if i >= |s.replicas| || !SomeLeafIsPlaced(s.primary) then s
    else s.(replicas := s.replicas[i := AfterCopy(s.primary, s.replicas[i], took)], healthy := s.healthy[i := true])
  }

  datatype Op =
    | InsertOp(note: IndexedNote, outcomes: seq<Outcome>)
    | ReadOp(stillHealthy: seq<bool>)   // a read or a health report: may only give up on replicas
    | ResyncOp(replica: nat, took: IndexedNote -> bool)

  ghost predicate Possible(s: State, op: Op) {
    match op
    case InsertOp(_, outcomes) => |outcomes| == |s.replicas|
    case ReadOp(still) => |still| == |s.healthy| && forall i :: 0 <= i < |still| && still[i] ==> s.healthy[i]
    case ResyncOp(_, _) => true
  }

  /** Every note that the replica lacks is reached by the resync and is taken. */
  ghost predicate Complete(s: State, i: nat, took: IndexedNote -> bool)
    requires i < |s.replicas|
  {
    forall n :: n in s.primary && n !in s.replicas[i] ==> Copied(n, took)
  }

  ghost function Apply(s: State, op: Op): State
    requires |s.replicas| == |s.healthy| && Possible(s, op)
  {
    match op
    case InsertOp(n, outcomes) => AfterInsert(s, n, outcomes)
    case ReadOp(still) => s.(healthy := still)
    case ResyncOp(i, took) => AfterResync(s, i, took)
  }

  // ----- Refinement -----

  lemma InsertKeepsInSync(s: State, n: IndexedNote, outcomes: seq<Outcome>)
    requires s.InSync() && |outcomes| == |s.replicas|
    ensures AfterInsert(s, n, outcomes).InSync()
  {}

  /** After a resync that is not a no-op the replica equals the primary if and only if each
      note it lacked was reached and taken; either way it is read from again. */
  lemma ResyncRestoresIff(s: State, i: nat, took: IndexedNote -> bool)
    requires s.WellFormed() && i < |s.replicas| && s.replicas[i] <= s.primary && SomeLeafIsPlaced(s.primary)
    ensures AfterResync(s, i, took).healthy[i]
    ensures AfterResync(s, i, took).replicas[i] <= s.primary
    ensures AfterResync(s, i, took).replicas[i] == s.primary <==> Complete(s, i, took)
  {}

  lemma ResyncKeepsInSync(s: State, i: nat, took: IndexedNote -> bool)
    requires s.InSync() && (i < |s.replicas| ==> Complete(s, i, took))
    ensures AfterResync(s, i, took).InSync()
  {}

  // ----- Whole runs -----

  ghost predicate RunsFrom(s: State, ops: seq<Op>)
    decreases |ops|
  {
    && |s.replicas| == |s.healthy|
    && (ops == [] || (Possible(s, ops[0]) && RunsFrom(Apply(s, ops[0]), ops[1..])))
  }

  ghost function After(s: State, ops: seq<Op>): State
    requires RunsFrom(s, ops)
    decreases |ops|
  {
    if ops == [] then s else After(Apply(s, ops[0]), ops[1..])
  }

  /** No resync of the run swallows the failure of an insert it needed. */
  ghost predicate ResyncsComplete(s: State, ops: seq<Op>)
    requires RunsFrom(s, ops)
    decreases |ops|
  {
    ops == [] ||
    ((ops[0].ResyncOp? && ops[0].replica < |s.replicas| ==> Complete(s, ops[0].replica, ops[0].took))
     && ResyncsComplete(Apply(s, ops[0]), ops[1..]))
  }

  /** Whatever the replicas do, in every interleaving each replica stays a part of the
      primary and each healthy one equals it. */
  lemma {:induction false} RunKeepsInSync(s: State, ops: seq<Op>)
    requires s.InSync() && RunsFrom(s, ops) && ResyncsComplete(s, ops)
    ensures After(s, ops).InSync()
    decreases |ops|
  {
    if ops != [] {
      match ops[0] {
        case InsertOp(n, outcomes) => InsertKeepsInSync(s, n, outcomes);
        case ReadOp(_) =>
        case ResyncOp(i, took) => ResyncKeepsInSync(s, i, took);
      }
      RunKeepsInSync(Apply(s, ops[0]), ops[1..]);
    }
  }

  /** Operation `i` is the first of the run that inserts `n`'s commitment, and it inserts `n`. */
  ghost predicate FirstWrite(ops: seq<Op>, n: IndexedNote, i: nat) {
    && i < |ops| && ops[i].InsertOp? && ops[i].note == n
    && forall j :: 0 <= j < i && ops[j].InsertOp? ==> ops[j].note.commitment != n.commitment
  }

  ghost predicate SomeFirstWrite(ops: seq<Op>, n: IndexedNote) {
    exists i: nat :: FirstWrite(ops, n, i)
  }

  lemma FirstWriteStep(ops: seq<Op>, n: IndexedNote)
    requires ops != []
    ensures SomeFirstWrite(ops, n) <==>
              if ops[0].InsertOp? && ops[0].note.commitment == n.commitment then ops[0].note == n
              else SomeFirstWrite(ops[1..], n)
  {
    if ops[0].InsertOp? && ops[0].note.commitment == n.commitment {
      assert ops[0].note == n ==> FirstWrite(ops, n, 0);
    } else {
      if SomeFirstWrite(ops, n) {
        var i: nat :| FirstWrite(ops, n, i);
        assert FirstWrite(ops[1..], n, i - 1);
      }
      if SomeFirstWrite(ops[1..], n) {
        var i: nat :| FirstWrite(ops[1..], n, i);
        forall j | 0 <= j < i + 1 && ops[j].InsertOp? ensures ops[j].note.commitment != n.commitment {
          assert j > 0 ==> ops[j] == ops[1..][j - 1];
        }
        assert FirstWrite(ops, n, i + 1);
      }
    }
  }

  /** Nothing is dropped and nothing made up: whatever the replicas do, the primary of every
      run holds what it held and the first write of each new commitment, and no more. */
  lemma {:induction false} PrimaryHoldsFirstWrites(s: State, ops: seq<Op>, n: IndexedNote)
    requires RunsFrom(s, ops)
    ensures n in After(s, ops).primary <==>
              n in s.primary || (!HasCommitment(s.primary, n.commitment) && SomeFirstWrite(ops, n))
    decreases |ops|
  {
    if ops != [] {
      FirstWriteStep(ops, n);
      PrimaryHoldsFirstWrites(Apply(s, ops[0]), ops[1..], n);
    }
  }

  /** The trust in resyncs cannot be dropped.  A replica whose only insert throws during a
      resync is declared healthy while empty, and a later insert of the same commitment
      then makes it hold a note that the primary does not. */
  lemma SwallowedResyncDiverges(a: IndexedNote, b: IndexedNote)
    requires a.commitment == b.commitment && a != b && a.leafIndex >= 0
    ensures var s := State({a}, [{}], [false]);
            var t := AfterResync(s, 0, n => false);
            var u := AfterInsert(t, b, [Works]);
            && s.InSync()
            && t.healthy[0] && t.replicas[0] != t.primary
            && u.healthy[0] && b in u.replicas[0] && b !in u.primary
  {}

  datatype ReplicaHealth = ReplicaHealth(healthy: bool, lastSyncLeaf: int, lagBehindPrimary: int)

  lemma SameMaxLeaf(r: seq<IndexedNote>, s: seq<IndexedNote>)
    requires Contents(r) == Contents(s)
    ensures MaxLeaf(r) == MaxLeaf(s)
  {
    MaxLeafIsMax(r);
    MaxLeafIsMax(s);
    assert forall n :: n in r <==> n in Contents(r);
    assert forall n :: n in s <==> n in Contents(s);
  }

  // ----- The class -----

  class ReplicatedNoteStore {
    const primary: Store
    const replicas: seq<Store>
    var replicaHealthy: seq<bool>
    var nextReplica: nat

    ghost predicate Valid()
      reads this, primary, replicas
    {
      && primary.Valid()
      && |replicaHealthy| == |replicas|
      && nextReplica < |replicas| + (if replicas == [] then 1 else 0)
      && (forall i :: 0 <= i < |replicas| ==> replicas[i].Valid() && replicas[i] != primary)
      && (forall i, j :: 0 <= i < j < |replicas| ==> replicas[i] != replicas[j])
    }

    ghost function Now(): State
      reads this, primary, replicas
    {
      State(Contents(primary.rows),
            seq(|replicas|, i requires 0 <= i < |replicas| reads replicas => Contents(replicas[i].rows)),
            replicaHealthy)
    }

    /** Opens the stores; all start out trusted. */
    constructor (primary: Store, replicas: seq<Store>)
      requires primary.Valid()
      requires forall i :: 0 <= i < |replicas| ==> replicas[i].Valid() && replicas[i] != primary
      requires forall i, j :: 0 <= i < j < |replicas| ==> replicas[i] != replicas[j]
      ensures Valid() && this.primary == primary && this.replicas == replicas && nextReplica == 0
      ensures forall i :: 0 <= i < |replicas| ==> replicaHealthy[i]
    {
      this.primary, this.replicas, nextReplica := primary, replicas, 0;
      replicaHealthy := seq(|replicas|, _ => true);
    }

    /** An insert on one replica, which may end in any of the three ways. */
    method InsertOn(i: nat, n: IndexedNote, outcome: Outcome)
      requires Valid() && i < |replicas|
      modifies replicas[i]
      ensures Valid()
      ensures replicas[i].rows == if outcome.ThrowsBefore? then old(replicas[i].rows)
                                  else RowsWith(old(replicas[i].rows), n)
      ensures Contents(replicas[i].rows) == if outcome.ThrowsBefore? then old(Contents(replicas[i].rows))
                                            else Insert(old(Contents(replicas[i].rows)), n)
    {
      if !outcome.ThrowsBefore? {
        replicas[i].InsertNote(n);
      }
    }

    method InsertNote(n: IndexedNote, outcomes: seq<Outcome>)
      requires Valid() && |outcomes| == |replicas|
      modifies this`replicaHealthy, primary, replicas
      ensures Valid()
      ensures Now() == AfterInsert(old(Now()), n, outcomes)
      ensures primary.rows == RowsWith(old(primary.rows), n)
      ensures forall k :: 0 <= k < |replicas| ==>
                && replicaHealthy[k] == (old(replicaHealthy)[k] && outcomes[k].Works?)
                && replicas[k].rows == if old(replicaHealthy)[k] && !outcomes[k].ThrowsBefore?
                                       then RowsWith(old(replicas[k].rows), n) else old(replicas[k].rows)
    {
      primary.InsertNote(n);
      for i := 0 to |replicas|
        invariant Valid() && primary.rows == RowsWith(old(primary.rows), n)
        invariant forall k :: 0 <= k < i ==>
                    && replicaHealthy[k] == (old(replicaHealthy)[k] && outcomes[k].Works?)
                    && replicas[k].rows == if old(replicaHealthy)[k] && !outcomes[k].ThrowsBefore?
                                           then RowsWith(old(replicas[k].rows), n) else old(replicas[k].rows)
        invariant forall k :: i <= k < |replicas| ==>
                    replicas[k].rows == old(replicas[k].rows) && replicaHealthy[k] == old(replicaHealthy)[k]
      {
        if replicaHealthy[i] {
          InsertOn(i, n, outcomes[i]);
          if !outcomes[i].Works? {
            replicaHealthy := replicaHealthy[i := false];
          }
        }
      }
    }

    /** Round-robin over the healthy replicas, giving up on each that throws; `throws`
        tells which would.  `server` is the replica that answered, if any did. */
    method Read(q: Query, throws: nat -> bool) returns (a: Answer, ghost server: Option<nat>)
      requires Valid()
      modifies this
      ensures Valid()
      ensures Possible(old(Now()), ReadOp(replicaHealthy)) && Now() == Apply(old(Now()), ReadOp(replicaHealthy))
      ensures server.Some? ==>
                && server.value < |replicas| && replicaHealthy[server.value] && !throws(server.value)
                && a == AnswerOf(replicas[server.value].rows, q)
                && nextReplica == (server.value + 1) % |replicas|
      ensures server.None? ==>
                && a == AnswerOf(primary.rows, q) && nextReplica == old(nextReplica)
                && forall i :: 0 <= i < |replicas| ==> !replicaHealthy[i]
      ensures forall i :: 0 <= i < |replicas| && old(replicaHealthy)[i] && !replicaHealthy[i] ==> throws(i)
      ensures Now().InSync() && DistinctLeaves(Contents(primary.rows)) ==> a == AnswerOf(primary.rows, q)
    {
      server := None;
      for attempt := 0 to |replicas|
        invariant Valid() && nextReplica == old(nextReplica)
        invariant |replicaHealthy| == |old(replicaHealthy)|
        invariant forall i :: 0 <= i < |replicas| && replicaHealthy[i] ==> old(replicaHealthy)[i]
        invariant forall i :: 0 <= i < |replicas| && old(replicaHealthy)[i] && !replicaHealthy[i] ==> throws(i)
        invariant forall k :: 0 <= k < attempt ==> !replicaHealthy[Slot(nextReplica, k, |replicas|)]
      {
        var idx := Slot(nextReplica, attempt, |replicas|);
        if replicaHealthy[idx] {
          if !throws(idx) {
            a := replicas[idx].Ask(q);
            nextReplica := (idx + 1) % |replicas|;
            server := Some(idx);
            if Now().InSync() && DistinctLeaves(Contents(primary.rows)) {
              HealthyAnswersLikePrimary(this, idx, q);
            }
            return;
          }
          replicaHealthy := replicaHealthy[idx := false];
        }
      }
      forall i | 0 <= i < |replicas| ensures !replicaHealthy[i] {
        AttemptFor(nextReplica, i, |replicas|);
      }
      a := primary.Ask(q);
    }

    /** One report per replica; a replica that throws while asked loses its trust.  A
        healthy replica of a store in sync lags by nothing. */
    method Health(throws: nat -> bool) returns (report: seq<ReplicaHealth>)
      requires Valid()
      modifies this`replicaHealthy
      ensures Valid()
      ensures Possible(old(Now()), ReadOp(replicaHealthy)) && Now() == Apply(old(Now()), ReadOp(replicaHealthy))
      ensures |report| == |replicas|
      ensures forall i :: 0 <= i < |replicas| ==>
                && report[i].healthy == replicaHealthy[i] == (old(replicaHealthy)[i] && !throws(i))
                && report[i].lastSyncLeaf == (if throws(i) then -1 else MaxLeaf(replicas[i].rows))
                && report[i].lagBehindPrimary == MaxLeaf(primary.rows) - report[i].lastSyncLeaf
                && (Now().InSync() && report[i].healthy ==> report[i].lagBehindPrimary == 0)
    {
      var primaryMax := MaxLeaf(primary.rows);
      report := [];
      for i := 0 to |replicas|
        invariant Valid() && |report| == i
        invariant forall k :: 0 <= k < i ==>
                    && replicaHealthy[k] == (old(replicaHealthy)[k] && !throws(k))
                    && report[k].healthy == replicaHealthy[k]
                    && report[k].lastSyncLeaf == (if throws(k) then -1 else MaxLeaf(replicas[k].rows))
                    && report[k].lagBehindPrimary == primaryMax - report[k].lastSyncLeaf
        invariant forall k :: i <= k < |replicas| ==> replicaHealthy[k] == old(replicaHealthy)[k]
      {
        var lastSyncLeaf := -1;
        if throws(i) {
          replicaHealthy := replicaHealthy[i := false];
        } else {
          lastSyncLeaf := MaxLeaf(replicas[i].rows);
        }
        report := report + [ReplicaHealth(replicaHealthy[i], lastSyncLeaf, primaryMax - lastSyncLeaf)];
      }
      forall i | 0 <= i < |replicas| && Now().InSync() && replicaHealthy[i]
        ensures MaxLeaf(replicas[i].rows) == primaryMax
      {
        assert Now().replicas[i] == Now().primary;
        SameMaxLeaf(replicas[i].rows, primary.rows);
      }
    }

    /** Copies the primary's notes in batches of 500 leaf indices.  Whether an insert throws
        or not, the loop goes on and the replica is trusted afterwards. */
    method ResyncReplica(i: nat, took: IndexedNote -> bool)
      requires Valid()
      modifies this`replicaHealthy, replicas
      ensures Valid()
      ensures Now() == AfterResync(old(Now()), i, took)
      ensures i < |replicas| && SomeLeafIsPlaced(Contents(primary.rows)) ==>
                && replicaHealthy == old(replicaHealthy)[i := true]
                && forall n :: n in Contents(replicas[i].rows) <==>
                     || n in old(Contents(replicas[i].rows))
                     || (n in primary.rows && n.leafIndex >= 0 && took(n)
                         && !HasCommitment(old(Contents(replicas[i].rows)), n.commitment))
    {
      if i >= |replicas| {
        return;
      }
      var maxLeaf := MaxLeaf(primary.rows);
      MaxLeafIsMax(primary.rows);
      if maxLeaf < 0 {
        return;
      }
      ghost var before := Contents(replicas[i].rows);
      var start := 0;
      while start <= maxLeaf
        invariant Valid() && start >= 0
        invariant replicaHealthy == old(replicaHealthy)
        invariant forall k :: 0 <= k < |replicas| && k != i ==> replicas[k].rows == old(replicas[k].rows)
        invariant Contents(replicas[i].rows) == CopiedBelow(Contents(primary.rows), before, took, start)
      {
        CopyBatch(i, took, start, before);
        start := start + 500;
      }
      replicaHealthy := replicaHealthy[i := true];
      assert Contents(replicas[i].rows) == AfterCopy(Contents(primary.rows), before, took);
    }

    method CopyBatch(i: nat, took: IndexedNote -> bool, start: nat, ghost before: set<IndexedNote>)
      requires Valid() && i < |replicas|
      requires Contents(replicas[i].rows) == CopiedBelow(Contents(primary.rows), before, took, start)
      modifies replicas[i]
      ensures Valid()
      ensures Contents(replicas[i].rows) == CopiedBelow(Contents(primary.rows), before, took, start + 500)
    {
      var notes := RangeRows(primary.rows, start, Some(start + 499));
      RangeIsSorted(primary.rows, start, Some(start + 499));
      for k := 0 to |notes|
        invariant Valid() && notes == RangeRows(primary.rows, start, Some(start + 499))
        invariant Contents(replicas[i].rows)
                  == CopiedBelow(Contents(primary.rows), before, took, start) + TakenOf(notes[..k], before, took)
      {
        CopyStep(primary.rows, before, took, CopiedBelow(Contents(primary.rows), before, took, start), notes, k);
        InsertOn(i, notes[k], if took(notes[k]) then Works else ThrowsBefore);
      }
      assert notes[..|notes|] == notes;
    }
  }

  /** Some attempt of the round reaches replica `i`. */
  lemma AttemptFor(start: nat, i: nat, n: nat)
    requires i < n && start < n
    ensures exists k :: 0 <= k < n && Slot(start, k, n) == i
  {
    var k := if i >= start then i - start else i + n - start;
    assert Slot(start, k, n) == i;
  }

  /** The replica tried at attempt `k` of a round. */
  function Slot(start: nat, k: nat, n: nat): (i: nat)
    requires start < n && k < n
    ensures i < n
  {
    (start + k) % n
  }

  /** A read refines the same read of the primary. */
  lemma HealthyAnswersLikePrimary(r: ReplicatedNoteStore, i: nat, q: Query)
    requires r.Valid() && r.Now().InSync() && DistinctLeaves(Contents(r.primary.rows))
    requires i < |r.replicas| && r.replicaHealthy[i]
    ensures AnswerOf(r.replicas[i].rows, q) == AnswerOf(r.primary.rows, q)
  {
    assert r.Now().replicas[i] == r.Now().primary;
    ContentsDetermineAnswers(r.replicas[i].rows, r.primary.rows, q);
  }

  /** Contents of a replica once the leaves below `bound` have been copied. */
  ghost function CopiedBelow(primary: set<IndexedNote>, replica: set<IndexedNote>, took: IndexedNote -> bool,
                             bound: nat)
    : set<IndexedNote>
  {
    replica + set n | n in primary && Copied(n, took) && n.leafIndex < bound && !HasCommitment(replica, n.commitment)
  }

  ghost function TakenOf(notes: seq<IndexedNote>, replica: set<IndexedNote>, took: IndexedNote -> bool)
    : set<IndexedNote>
  {
    set n | n in notes && took(n) && !HasCommitment(replica, n.commitment)
  }

  lemma InsertTaken(primaryRows: seq<IndexedNote>, replica: set<IndexedNote>, took: IndexedNote -> bool,
                    current: set<IndexedNote>, n: IndexedNote)
    requires NoDuplicates(primaryRows) && n in primaryRows
    requires replica <= current <= replica + Contents(primaryRows)
    ensures Insert(current, n) == if HasCommitment(replica, n.commitment) then current else current + {n}
  {}

  /** One more note of a batch. */
  lemma CopyStep(primaryRows: seq<IndexedNote>, replica: set<IndexedNote>, took: IndexedNote -> bool,
                 copied: set<IndexedNote>, notes: seq<IndexedNote>, k: nat)
    requires NoDuplicates(primaryRows) && k < |notes| && forall n :: n in notes ==> n in primaryRows
    requires replica <= copied <= replica + Contents(primaryRows)
    ensures var current := copied + TakenOf(notes[..k], replica, took);
            copied + TakenOf(notes[..k + 1], replica, took)
            == if took(notes[k]) then Insert(current, notes[k]) else current
  {
    InsertTaken(primaryRows, replica, took, copied + TakenOf(notes[..k], replica, took), notes[k]);
    TakenExtends(notes, k, replica, took);
  }

  lemma TakenExtends(notes: seq<IndexedNote>, k: nat, replica: set<IndexedNote>, took: IndexedNote -> bool)
    requires k < |notes|
    ensures TakenOf(notes[..k + 1], replica, took)
            == TakenOf(notes[..k], replica, took)
               + if took(notes[k]) && !HasCommitment(replica, notes[k].commitment) then {notes[k]} else {}
  {}
}

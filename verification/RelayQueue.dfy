/** The relay queue under overlapping asynchronous flushes (relayer/src/batcher.ts).  Each
    step below runs without interruption: it is what happens between two awaits. */
module RelayQueue {
  import opened Base

  type Id = int

  /** The `state` of a relay request. */
  datatype RelayState = Queued | Pending | Confirmed | Failed

  /** Where an entry's task is suspended. */
  datatype Phase = InQueue | Delayed | Sending(attempt: nat) | BackingOff(attempt: nat) | Finished

  /** `log` lists the states the entry has been in; `sends` counts its send attempts. */
  datatype Entry = Entry(hasDelay: bool, plausible: bool, phase: Phase, log: seq<RelayState>, sends: nat)

  datatype SendOutcome = Sent | Rejected | Transient   // `Rejected`: an error that is not retried

  /** `batches` holds the batch of each flush so far, `enqueued` every request in order. */
  datatype State = State(
    maxRetries: nat, queue: seq<Id>, batches: seq<seq<Id>>, entries: map<Id, Entry>, enqueued: seq<Id>)

  datatype Step =
    | Enqueue(id: Id, hasDelay: bool, plausible: bool)
    | Flush
    | Wake(id: Id)
    | SendEnds(id: Id, outcome: SendOutcome)
    | Retry(id: Id)

  // ----- One entry's task -----

  function NewEntry(hasDelay: bool, plausible: bool): Entry {
    Entry(hasDelay, plausible, InQueue, [Queued], 0)
  }

  /** After any delay: pending; then fail at once, or start the first attempt. */
  function Begin(e: Entry): Entry {
    var pending := e.(log := e.log + [Pending]);
    if e.plausible then pending.(phase := Sending(0), sends := e.sends + 1)
    else pending.(phase := Finished, log := pending.log + [Failed])
  }

  /** What a flush does to each entry of its batch before the first await. */
  function Start(e: Entry): Entry {
    if e.hasDelay then e.(phase := Delayed) else Begin(e)
  }

  function AfterSend(e: Entry, maxRetries: nat, outcome: SendOutcome): Entry
    requires e.phase.Sending?
  {
    match outcome
    case Sent => e.(phase := Finished, log := e.log + [Confirmed])
    case Rejected => e.(phase := Finished, log := e.log + [Failed])
    case Transient =>
      if e.phase.attempt < maxRetries then e.(phase := BackingOff(e.phase.attempt))
      else e.(phase := Finished, log := e.log + [Failed])
  }

  function AfterBackoff(e: Entry): Entry
    requires e.phase.BackingOff?
  {
    e.(phase := Sending(e.phase.attempt + 1), sends := e.sends + 1)
  }

  /** Every entry of the batch started. */
  function Started(entries: map<Id, Entry>, batch: seq<Id>): map<Id, Entry> {
    map id | id in entries :: if id in batch then Start(entries[id]) else entries[id]
  }

  // ----- Steps of the queue -----

  ghost predicate Enabled(s: State, step: Step) {
    match step
    case Enqueue(id, _, _) => id !in s.entries
    case Flush => true
    case Wake(id) => id in s.entries && s.entries[id].phase.Delayed?
    case SendEnds(id, _) => id in s.entries && s.entries[id].phase.Sending?
    case Retry(id) => id in s.entries && s.entries[id].phase.BackingOff?
  }

  ghost function Next(s: State, step: Step): State
    requires Enabled(s, step)
  {
    match step
    case Enqueue(id, hasDelay, plausible) =>
      s.(queue := s.queue + [id], enqueued := s.enqueued + [id],
         entries := s.entries[id := NewEntry(hasDelay, plausible)])
    case Flush =>
      if s.queue == [] then s
      else s.(queue := [], batches := s.batches + [s.queue],
              entries := Started(s.entries, s.queue))
    case Wake(id) => s.(entries := s.entries[id := Begin(s.entries[id])])
    case SendEnds(id, outcome) => s.(entries := s.entries[id := AfterSend(s.entries[id], s.maxRetries, outcome)])
    case Retry(id) => s.(entries := s.entries[id := AfterBackoff(s.entries[id])])
  }

  // ----- Invariant -----

  function Flatten(batches: seq<seq<Id>>): seq<Id> {
    if batches == [] then [] else Flatten(batches[..|batches| - 1]) + batches[|batches| - 1]
  }

  ghost predicate NoRepeats(ids: seq<Id>) {
    forall i, j :: 0 <= i < j < |ids| ==> ids[i] != ids[j]
  }

  /** The state only moves from queued through pending to one terminal state, and the send
      attempts stay within the retry budget.  Only a plausible transaction is ever sent,
      and only one with a delay waits. */
  ghost predicate EntryInv(e: Entry, maxRetries: nat) {
    match e.phase
    case InQueue => e.log == [Queued] && e.sends == 0
    case Delayed => e.log == [Queued] && e.sends == 0 && e.hasDelay
    case Sending(k) => e.log == [Queued, Pending] && e.plausible && e.sends == k + 1 <= maxRetries + 1
    case BackingOff(k) => e.log == [Queued, Pending] && e.plausible && e.sends == k + 1 <= maxRetries
    case Finished =>
      && e.sends <= maxRetries + 1 && (e.plausible <==> e.sends > 0)
      && (e.log == [Queued, Pending, Failed] || (e.log == [Queued, Pending, Confirmed] && e.plausible))
  }

  ghost predicate Inv(s: State) {
    && Flatten(s.batches) + s.queue == s.enqueued && NoRepeats(s.enqueued)
    && (forall id :: id in s.entries <==> id in s.enqueued)
    && (forall id :: id in s.entries ==> EntryInv(s.entries[id], s.maxRetries))
    && (forall id :: id in s.entries ==> (s.entries[id].phase.InQueue? <==> id in s.queue))
    && (forall b :: 0 <= b < |s.batches| ==> s.batches[b] != [])
  }

  lemma BeginKeepsEntryInv(e: Entry, maxRetries: nat)
    requires EntryInv(e, maxRetries) && (e.phase.InQueue? || e.phase.Delayed?)
    ensures EntryInv(Begin(e), maxRetries) && !Begin(e).phase.InQueue?
    ensures EntryInv(Start(e), maxRetries) && !Start(e).phase.InQueue?
  {}

  lemma TaskKeepsEntryInv(e: Entry, maxRetries: nat, outcome: SendOutcome)
    requires EntryInv(e, maxRetries)
    ensures e.phase.Sending? ==> EntryInv(AfterSend(e, maxRetries, outcome), maxRetries)
    ensures e.phase.BackingOff? ==> EntryInv(AfterBackoff(e), maxRetries)
  {}

  lemma FlushKeepsInv(s: State)
    requires Inv(s)
    ensures Inv(Next(s, Flush))
  {}

  lemma EnqueueKeepsInv(s: State, step: Step)
    requires Inv(s) && Enabled(s, step) && step.Enqueue?
    ensures Inv(Next(s, step))
  {}

  lemma StepKeepsInv(s: State, step: Step)
    requires Inv(s) && Enabled(s, step)
    ensures Inv(Next(s, step))
  {
    match step
    case Enqueue(_, _, _) => EnqueueKeepsInv(s, step);
    case Flush => FlushKeepsInv(s);
    case Wake(id) => BeginKeepsEntryInv(s.entries[id], s.maxRetries);
    case SendEnds(id, outcome) => TaskKeepsEntryInv(s.entries[id], s.maxRetries, outcome);
    case Retry(id) => TaskKeepsEntryInv(s.entries[id], s.maxRetries, Sent);
  }

  // ----- Whole runs -----

  ghost predicate RunsFrom(s: State, steps: seq<Step>)
    decreases |steps|
  {
    steps == [] || (Enabled(s, steps[0]) && RunsFrom(Next(s, steps[0]), steps[1..]))
  }

  ghost function After(s: State, steps: seq<Step>): State
    requires RunsFrom(s, steps)
    decreases |steps|
  {
    if steps == [] then s else After(Next(s, steps[0]), steps[1..])
  }

  function NewQueue(maxRetries: nat): State {
    State(maxRetries, [], [], map[], [])
  }

  lemma {:induction false} RunKeepsInv(s: State, steps: seq<Step>)
    requires Inv(s) && RunsFrom(s, steps)
    ensures Inv(After(s, steps))
    decreases |steps|
  {
    if steps != [] {
      StepKeepsInv(s, steps[0]);
      RunKeepsInv(Next(s, steps[0]), steps[1..]);
    }
  }

  /** How often an identifier occurs in the batches. */
  ghost function Occurrences(batches: seq<seq<Id>>, id: Id): nat {
    multiset(Flatten(batches))[id]
  }

  /** The requests of a run, in the order in which they were made. */
  function Requested(steps: seq<Step>): seq<Id> {
    if steps == [] then []
    else (if steps[0].Enqueue? then [steps[0].id] else []) + Requested(steps[1..])
  }

  lemma {:induction false} EnqueuedIsRequested(s: State, steps: seq<Step>)
    requires RunsFrom(s, steps)
    ensures After(s, steps).enqueued == s.enqueued + Requested(steps)
    decreases |steps|
  {
    if steps != [] {
      EnqueuedIsRequested(Next(s, steps[0]), steps[1..]);
    }
  }

  /** Under any overlap of enqueues and flushes, batches and queue taken together are the
      requests that the run made, in arrival order, and every request is either still queued
      or in exactly one batch, once. */
  lemma ExactlyOnce(maxRetries: nat, steps: seq<Step>, id: Id)
    requires RunsFrom(NewQueue(maxRetries), steps)
    ensures var s := After(NewQueue(maxRetries), steps);
            && Flatten(s.batches) + s.queue == Requested(steps)
            && (id in Requested(steps) ==> Occurrences(s.batches, id) == if id in s.queue then 0 else 1)
            && (id !in Requested(steps) ==> Occurrences(s.batches, id) == 0)
  {
    RunKeepsInv(NewQueue(maxRetries), steps);
    EnqueuedIsRequested(NewQueue(maxRetries), steps);
    var s := After(NewQueue(maxRetries), steps);
    var all := Flatten(s.batches) + s.queue;
    CountOnce(all, id);
    assert multiset(all)[id] == multiset(Flatten(s.batches))[id] + multiset(s.queue)[id];
    assert id in s.queue <==> multiset(s.queue)[id] > 0;
  }

  lemma {:induction false} CountOnce(ids: seq<Id>, id: Id)
    requires NoRepeats(ids)
    ensures multiset(ids)[id] == if id in ids then 1 else 0
  {
    if ids != [] {
      var last := |ids| - 1;
      CountOnce(ids[..last], id);
      assert ids == ids[..last] + [ids[last]];
    }
  }

  // ----- Terminal states and progress -----

  ghost predicate LogGrows(e: Entry, f: Entry) {
    e.log <= f.log && e.sends <= f.sends && e.hasDelay == f.hasDelay && e.plausible == f.plausible
  }

  /** A step only appends to an entry's states, and nothing happens to a finished one. */
  lemma StepAppends(s: State, step: Step, id: Id)
    requires Inv(s) && Enabled(s, step) && id in s.entries
    ensures id in Next(s, step).entries && LogGrows(s.entries[id], Next(s, step).entries[id])
    ensures s.entries[id].phase.Finished? ==> Next(s, step).entries[id] == s.entries[id]
  {}

  lemma {:induction false} RunAppends(s: State, steps: seq<Step>, id: Id)
    requires Inv(s) && RunsFrom(s, steps) && id in s.entries
    ensures id in After(s, steps).entries && LogGrows(s.entries[id], After(s, steps).entries[id])
    decreases |steps|
  {
    if steps != [] {
      StepAppends(s, steps[0], id);
      StepKeepsInv(s, steps[0]);
      RunAppends(Next(s, steps[0]), steps[1..], id);
    }
  }

  /** Every request of a run has a status for good, with the delay and the transaction it
      came with, that starts out as queued. */
  lemma {:induction false} RequestsAreKept(s: State, steps: seq<Step>, i: nat)
    requires Inv(s) && RunsFrom(s, steps) && i < |steps| && steps[i].Enqueue?
    ensures var t, id := After(s, steps), steps[i].id;
            && id in t.entries && t.entries[id].hasDelay == steps[i].hasDelay
            && t.entries[id].plausible == steps[i].plausible && [Queued] <= t.entries[id].log
    decreases |steps|
  {
    StepKeepsInv(s, steps[0]);
    if i == 0 {
      RunAppends(Next(s, steps[0]), steps[1..], steps[0].id);
    } else {
      RequestsAreKept(Next(s, steps[0]), steps[1..], i - 1);
    }
  }

  /** A flush makes the entries with a delay wait, as queued as before; it begins the others:
      a transaction is sent for the first time, anything else fails unsent.  It touches no
      entry outside its batch. */
  lemma FlushStarts(s: State, id: Id)
    requires Inv(s) && id in s.entries
    ensures var e := s.entries[id];
            id in Next(s, Flush).entries && Next(s, Flush).entries[id] ==
              if id !in s.queue then e
              else if e.hasDelay then Entry(true, e.plausible, Delayed, [Queued], 0)
              else if e.plausible then Entry(false, true, Sending(0), [Queued, Pending], 1)
              else Entry(false, false, Finished, [Queued, Pending, Failed], 0)
  {}

  /** Once confirmed or failed, for good. */
  lemma {:induction false} FinishedForGood(s: State, steps: seq<Step>, id: Id)
    requires Inv(s) && RunsFrom(s, steps) && id in s.entries && s.entries[id].phase.Finished?
    ensures id in After(s, steps).entries && After(s, steps).entries[id] == s.entries[id]
    decreases |steps|
  {
    if steps != [] {
      StepAppends(s, steps[0], id);
      StepKeepsInv(s, steps[0]);
      FinishedForGood(Next(s, steps[0]), steps[1..], id);
    }
  }

  /** An upper bound on the steps an entry still has before it. */
  function Remaining(e: Entry, maxRetries: nat): int {
    match e.phase
    case InQueue => 2 * maxRetries + 4
    case Delayed => 2 * maxRetries + 3
    case Sending(k) => 2 * (maxRetries - k) + 1
    case BackingOff(k) => 2 * (maxRetries - k)
    case Finished => 0
  }

  predicate Concerns(s: State, step: Step, id: Id) {
    match step
    case Enqueue(_, _, _) => false
    case Flush => id in s.queue
    case Wake(i) => i == id
    case SendEnds(i, _) => i == id
    case Retry(i) => i == id
  }

  /** Every step that concerns an entry brings it closer to its end, which is reached
      exactly when nothing remains. */
  lemma StepMakesProgress(s: State, step: Step, id: Id)
    requires Inv(s) && Enabled(s, step) && id in s.entries && Concerns(s, step, id)
    ensures 0 <= Remaining(Next(s, step).entries[id], s.maxRetries) < Remaining(s.entries[id], s.maxRetries)
    ensures Remaining(s.entries[id], s.maxRetries) == 0 <==> s.entries[id].phase.Finished?
  {}

  // ----- Padding -----

  function CeilDiv(n: nat, d: nat): nat
    requires d > 0
  {
    (n + d - 1) / d
  }

  /** Dummies added to a batch of `n`; with a minimum of 0 the count is not a number, and
      the loop over it adds none. */
  function Padding(n: nat, minBatchSize: nat): int {
    if minBatchSize == 0 then 0 else CeilDiv(n, minBatchSize) * minBatchSize - n
  }

  /** The padded size is the least multiple of the minimum that covers the batch. */
  lemma PaddedToLeastMultiple(n: nat, minBatchSize: nat)
    ensures minBatchSize == 0 ==> Padding(n, minBatchSize) == 0
    ensures minBatchSize > 0 ==>
              && 0 <= Padding(n, minBatchSize) < minBatchSize
              && (n + Padding(n, minBatchSize)) % minBatchSize == 0
              && forall k: nat :: Covers(k, minBatchSize, n) ==> k * minBatchSize >= n + Padding(n, minBatchSize)
  {
    if minBatchSize > 0 {
      var q, m := CeilDiv(n, minBatchSize), minBatchSize;
      assert q * m <= n + m - 1 < (q + 1) * m by { DivBounds(n + m - 1, m); }
      assert (q + 1) * m == q * m + m;
      assert n + Padding(n, m) == q * m;
      MultipleOf(q, m);
      forall k: nat | Covers(k, m, n) ensures k * m >= q * m {
        LeastMultiple(n, m, k, q);
      }
    }
  }

  /** `k` multiples of `m` hold a batch of `n`. */
  predicate Covers(k: nat, m: nat, n: nat) {
    k * m >= n
  }

  lemma LeastMultiple(n: nat, m: nat, k: nat, q: nat)
    requires k * m >= n && q * m <= n + m - 1
    ensures k * m >= q * m
  {
    assert (k + 1) * m == k * m + m;
    if k < q {
      Scale(k + 1, q, m);
    } else {
      Scale(q, k, m);
    }
  }

  lemma MultipleOf(q: nat, m: nat)
    requires m > 0
    ensures q * m % m == 0
  {
    var r, d := q * m % m, q * m / m;
    assert q * m == m * d + r;
    assert (q - d) * m == r by { assert (q - d) * m == q * m - d * m; }
    if q - d >= 1 {
      Scale(1, q - d, m);
    } else if q - d < 0 {
      Scale(1, d - q, m);
    }
  }

  lemma DivBounds(a: nat, m: nat)
    requires m > 0
    ensures a / m * m <= a < (a / m + 1) * m
  {}

  lemma Scale(a: nat, b: nat, m: nat)
    requires a <= b
    ensures a * m <= b * m
  {}

  // ----- The retry loop on its own -----

  /** How an entry's sending ends when attempt `k` ends as `outcomes(k)`. */
  function Verdict(outcomes: nat -> SendOutcome, maxRetries: nat, attempt: nat): (r: (RelayState, nat))
    requires attempt <= maxRetries
    ensures attempt < r.1 <= maxRetries + 1
    decreases maxRetries - attempt
  {
    match outcomes(attempt)
    case Sent => (Confirmed, attempt + 1)
    case Rejected => (Failed, attempt + 1)
    case Transient => if attempt < maxRetries then Verdict(outcomes, maxRetries, attempt + 1) else (Failed, attempt + 1)
  }

  method SendWithRetries(outcomes: nat -> SendOutcome, maxRetries: nat) returns (state: RelayState, sends: nat)
    ensures (state, sends) == Verdict(outcomes, maxRetries, 0)
    ensures state == Confirmed <==>
              outcomes(sends - 1) == Sent
    ensures forall k :: 0 <= k < sends - 1 ==> outcomes(k) == Transient
    ensures state == Failed ==> outcomes(sends - 1) == Rejected || sends == maxRetries + 1
  {
    sends := 0;
    for attempt := 0 to maxRetries + 1
      invariant sends == attempt
      invariant attempt <= maxRetries ==> Verdict(outcomes, maxRetries, 0) == Verdict(outcomes, maxRetries, attempt)
      invariant attempt == maxRetries + 1 ==> Verdict(outcomes, maxRetries, 0) == (Failed, maxRetries + 1)
      invariant forall k :: 0 <= k < attempt ==> outcomes(k) == Transient
    {
      sends := sends + 1;
      match outcomes(attempt) {
        case Sent => return Confirmed, sends;
        case Rejected => break;
        case Transient =>
      }
    }
    state := Failed;
  }

  // ----- Tasks among other work -----

  /** Every send of `id` in the run ends as `outcomes` says for its attempt. */
  ghost predicate SendsEndAs(s: State, steps: seq<Step>, id: Id, outcomes: nat -> SendOutcome)
    requires RunsFrom(s, steps)
    decreases |steps|
  {
    steps == [] ||
    ((steps[0].SendEnds? && steps[0].id == id ==> steps[0].outcome == outcomes(s.entries[id].phase.attempt))
     && SendsEndAs(Next(s, steps[0]), steps[1..], id, outcomes))
  }

  /** The task stands where the retry loop would stand. */
  ghost predicate OnTheWay(e: Entry, outcomes: nat -> SendOutcome, maxRetries: nat) {
    match e.phase
    case InQueue => true
    case Delayed => true
    case Sending(k) => k <= maxRetries && Verdict(outcomes, maxRetries, 0) == Verdict(outcomes, maxRetries, k)
    case BackingOff(k) => k < maxRetries && Verdict(outcomes, maxRetries, 0) == Verdict(outcomes, maxRetries, k + 1)
    case Finished =>
      if e.plausible
      then e.log == [Queued, Pending, Verdict(outcomes, maxRetries, 0).0]
           && e.sends == Verdict(outcomes, maxRetries, 0).1
      else e.log == [Queued, Pending, Failed] && e.sends == 0
  }

  lemma StepStaysOnTheWay(s: State, step: Step, id: Id, outcomes: nat -> SendOutcome)
    requires Inv(s) && Enabled(s, step)
    requires step.SendEnds? && step.id == id ==> step.outcome == outcomes(s.entries[id].phase.attempt)
    requires id in s.entries ==> OnTheWay(s.entries[id], outcomes, s.maxRetries)
    ensures id in Next(s, step).entries ==> OnTheWay(Next(s, step).entries[id], outcomes, s.maxRetries)
  {
    if id in s.entries {
      assert EntryInv(s.entries[id], s.maxRetries);
    }
  }

  lemma {:induction false} RunStaysOnTheWay(s: State, steps: seq<Step>, id: Id, outcomes: nat -> SendOutcome)
    requires Inv(s) && RunsFrom(s, steps) && SendsEndAs(s, steps, id, outcomes)
    requires id in s.entries ==> OnTheWay(s.entries[id], outcomes, s.maxRetries)
    ensures id in After(s, steps).entries ==> OnTheWay(After(s, steps).entries[id], outcomes, s.maxRetries)
    decreases |steps|
  {
    if steps != [] {
      StepKeepsInv(s, steps[0]);
      StepStaysOnTheWay(s, steps[0], id, outcomes);
      RunStaysOnTheWay(Next(s, steps[0]), steps[1..], id, outcomes);
    }
  }

  /** In every run, however its tasks interleave: a request that has finished ended as the
      retry loop ends on the outcomes of its sends, after as many of them; one that was not
      a transaction failed without being sent. */
  lemma FinishedAsVerdict(maxRetries: nat, steps: seq<Step>, id: Id, outcomes: nat -> SendOutcome)
    requires RunsFrom(NewQueue(maxRetries), steps) && SendsEndAs(NewQueue(maxRetries), steps, id, outcomes)
    ensures var s, verdict := After(NewQueue(maxRetries), steps), Verdict(outcomes, maxRetries, 0);
            id in s.entries && s.entries[id].phase.Finished? ==>
              var e := s.entries[id];
              if e.plausible then e.log == [Queued, Pending, verdict.0] && e.sends == verdict.1
              else e.log == [Queued, Pending, Failed] && e.sends == 0
  {
    RunStaysOnTheWay(NewQueue(maxRetries), steps, id, outcomes);
    MaxRetriesFixed(NewQueue(maxRetries), steps);
  }

  lemma {:induction false} MaxRetriesFixed(s: State, steps: seq<Step>)
    requires RunsFrom(s, steps)
    ensures After(s, steps).maxRetries == s.maxRetries
    decreases |steps|
  {
    if steps != [] {
      MaxRetriesFixed(Next(s, steps[0]), steps[1..]);
    }
  }

  // ----- The class -----

  class Relay {
    const maxRetries: nat
    const minBatchSize: nat
    var queue: seq<Id>
    var statuses: map<Id, Entry>
    ghost var batches: seq<seq<Id>>
    ghost var enqueued: seq<Id>

    ghost function Now(): State
      reads this
    {
      State(maxRetries, queue, batches, statuses, enqueued)
    }

    constructor (maxRetries: nat, minBatchSize: nat)
      ensures Now() == NewQueue(maxRetries) && Inv(Now())
      ensures this.minBatchSize == minBatchSize
    {
      this.maxRetries, this.minBatchSize := maxRetries, minBatchSize;
      queue, statuses, batches, enqueued := [], map[], [], [];
    }

    /** The identifier is a fresh UUID, so it is not in use. */
    method Enqueue(id: Id, hasDelay: bool, plausible: bool)
      requires Inv(Now()) && id !in statuses
      modifies this
      ensures Inv(Now()) && Now() == Next(old(Now()), Step.Enqueue(id, hasDelay, plausible))
      ensures queue == old(queue) + [id]
      ensures statuses == old(statuses)[id := Entry(hasDelay, plausible, InQueue, [Queued], 0)]
      ensures batches == old(batches) && enqueued == old(enqueued) + [id]
    {
      ghost var step := Step.Enqueue(id, hasDelay, plausible);
      StepKeepsInv(Now(), step);
      queue := queue + [id];
      enqueued := enqueued + [id];
      statuses := statuses[id := NewEntry(hasDelay, plausible)];
    }

    /** Up to the first await: empties the queue into a batch, starts the dummies, then
        starts every entry's task once. */
    method Flush() returns (dummies: nat)
      requires Inv(Now())
      modifies this
      ensures Inv(Now()) && Now() == Next(old(Now()), Step.Flush)
      ensures queue == [] && enqueued == old(enqueued)
      ensures batches == if old(queue) == [] then old(batches) else old(batches) + [old(queue)]
      ensures statuses.Keys == old(statuses).Keys
      ensures forall id :: id in statuses && id !in old(queue) ==> statuses[id] == old(statuses)[id]
      ensures forall id :: id in statuses && id in old(queue) ==>
                var e := old(statuses)[id];
                statuses[id] == if e.hasDelay then Entry(true, e.plausible, Delayed, [Queued], 0)
                                else if e.plausible then Entry(false, true, Sending(0), [Queued, Pending], 1)
                                else Entry(false, false, Finished, [Queued, Pending, Failed], 0)
      ensures dummies == if old(queue) == [] then 0 else Padding(|old(queue)|, minBatchSize)
    {
      dummies := 0;
      if queue == [] {
        return;
      }
      StepKeepsInv(Now(), Step.Flush);
      QueueIsDistinct(Now());
      var batch := queue;
      queue := [];
      batches := batches + [batch];
      PaddedToLeastMultiple(|batch|, minBatchSize);
      var paddingCount := Padding(|batch|, minBatchSize);
      while dummies < paddingCount
        invariant dummies <= paddingCount
      {
        dummies := dummies + 1;
      }
      StartAll(batch);
    }

    method StartAll(batch: seq<Id>)
      requires NoRepeats(batch) && forall id :: id in batch ==> id in statuses
      modifies this`statuses
      ensures statuses == Started(old(statuses), batch)
    {
      for i := 0 to |batch|
        invariant statuses == Started(old(statuses), batch[..i])
      {
        assert batch[i] in batch && batch[i] !in batch[..i];
        assert batch[..i + 1] == batch[..i] + [batch[i]];
        statuses := statuses[batch[i] := Start(statuses[batch[i]])];
      }
      assert batch[..|batch|] == batch;
    }

    /** An entry's delay is over. */
    method Wake(id: Id)
      requires Inv(Now()) && id in statuses && statuses[id].phase.Delayed?
      modifies this`statuses
      ensures Inv(Now()) && Now() == Next(old(Now()), Step.Wake(id))
      ensures statuses == old(statuses)[id :=
                if old(statuses)[id].plausible then Entry(true, true, Sending(0), [Queued, Pending], 1)
                else Entry(true, false, Finished, [Queued, Pending, Failed], 0)]
    {
      StepKeepsInv(Now(), Step.Wake(id));
      statuses := statuses[id := Begin(statuses[id])];
    }

    /** A send attempt came back. */
    method SendEnds(id: Id, outcome: SendOutcome)
      requires Inv(Now()) && id in statuses && statuses[id].phase.Sending?
      modifies this`statuses
      ensures Inv(Now()) && Now() == Next(old(Now()), Step.SendEnds(id, outcome))
      ensures var e := old(statuses)[id];
              statuses == old(statuses)[id :=
                if outcome.Sent? then e.(phase := Finished, log := [Queued, Pending, Confirmed])
                else if outcome.Transient? && e.sends <= maxRetries then e.(phase := BackingOff(e.sends - 1))
                else e.(phase := Finished, log := [Queued, Pending, Failed])]
    {
      StepKeepsInv(Now(), Step.SendEnds(id, outcome));
      assert EntryInv(statuses[id], maxRetries);
      assert forall last :: statuses[id].log + [last] == [Queued, Pending, last];
      statuses := statuses[id := AfterSend(statuses[id], maxRetries, outcome)];
    }

    /** An entry's backoff is over: the next attempt. */
    method Retry(id: Id)
      requires Inv(Now()) && id in statuses && statuses[id].phase.BackingOff?
      modifies this`statuses
      ensures Inv(Now()) && Now() == Next(old(Now()), Step.Retry(id))
      ensures var e := old(statuses)[id];
              statuses == old(statuses)[id := e.(phase := Sending(e.sends), sends := e.sends + 1)]
              && e.sends <= maxRetries
    {
      StepKeepsInv(Now(), Step.Retry(id));
      statuses := statuses[id := AfterBackoff(statuses[id])];
    }
  }

  lemma QueueIsDistinct(s: State)
    requires Inv(s)
    ensures NoRepeats(s.queue) && forall id :: id in s.queue ==> id in s.entries
  {
    var n := |Flatten(s.batches)|;
    assert forall i :: 0 <= i < |s.queue| ==> s.queue[i] == s.enqueued[n + i];
  }
}

/** The bitmap nullifier registry of one pool, with a single bitmap page
    (programs/holanc-nullifier/src/lib.rs). */
module Nullifier {
  import opened Base
  import opened Radix

  const SLOTS_PER_PAGE: nat := 2048
  const BITMAP_BYTES: nat := 256

  /** The first two bytes of the SHA-256 digest, which is all that is used of it. */
  type Digest = seq<byte> -> (byte, byte)

  function SlotOf(sha: Digest, preimage: seq<byte>): (slot: nat)
    ensures slot < SLOTS_PER_PAGE
  {
    var (d0, d1) := sha(preimage);
    (d0 as nat + 256 * d1 as nat) % SLOTS_PER_PAGE
  }

  function SlotV1(sha: Digest, nullifier: Word): (slot: nat)
    ensures slot < SLOTS_PER_PAGE
  {
    SlotOf(sha, ToBytes(nullifier, 32))
  }

  function SlotV2(sha: Digest, nullifier: Word, chainId: nat, appId: nat): (slot: nat)
    ensures slot < SLOTS_PER_PAGE
  {
    SlotOf(sha, ToBytes(nullifier, 32) + LittleEndian64(chainId) + LittleEndian64(appId))
  }

  // ----- The registry as a set of slots -----

  datatype EpochRecord = EpochRecord(epoch: nat, nullifierRoot: Word, finalizedSlot: nat, nullifierCount: nat)

  datatype NullifierError = NullifierAlreadySpent | Unauthorized | Overflow

  datatype Registry = Registry(
    slots: set<nat>, count: nat, totalNullifiers: nat,
    currentEpoch: nat, epochStartSlot: nat, epochs: map<nat, EpochRecord>)
  {
    /** Counters agree with the slots, and the records of past epochs are exactly those
        before the current one, with counts that never fall. */
    ghost predicate Inv() {
      && (forall i :: i in slots ==> 0 <= i < SLOTS_PER_PAGE)
      && count == totalNullifiers == |slots| <= SLOTS_PER_PAGE
      && (forall e :: e in epochs <==> 0 <= e < currentEpoch)
      && (forall e :: e in epochs ==> epochs[e].epoch == e && epochs[e].nullifierCount <= totalNullifiers)
      && (forall e, f :: e in epochs && f in epochs && e <= f ==> epochs[e].nullifierCount <= epochs[f].nullifierCount)
    }
  }

  const EMPTY: Registry := Registry({}, 0, 0, 0, 0, map[])

  function Mark(s: Registry, slot: nat): Result<Registry, NullifierError> {
    if slot in s.slots then Failure(NullifierAlreadySpent)
    else Success(s.(slots := s.slots + {slot}, count := s.count + 1, totalNullifiers := s.totalNullifiers + 1))
  }

  function Finalize(s: Registry, root: Word, clock: nat): Result<Registry, NullifierError> {
    if s.currentEpoch + 1 >= U64_LIMIT then Failure(Overflow)
    else
      var record := EpochRecord(s.currentEpoch, root, clock, s.totalNullifiers);
      Success(s.(epochs := s.epochs[s.currentEpoch := record],
                 currentEpoch := s.currentEpoch + 1, epochStartSlot := clock))
  }

  lemma SlotsFit(slots: set<nat>, n: nat)
    requires forall i :: i in slots ==> 0 <= i < n
    ensures |slots| <= n
    ensures |slots| == n ==> forall i: nat :: i < n ==> i in slots
  {
    if n == 0 {
      assert slots == {};
    } else {
      SlotsFit(slots - {n - 1}, n - 1);
      assert slots == if n - 1 in slots then (slots - {n - 1}) + {n - 1} else slots - {n - 1};
    }
  }

  lemma MarkKeepsInv(s: Registry, slot: nat)
    requires s.Inv() && slot < SLOTS_PER_PAGE
    ensures Mark(s, slot).Success? ==> Mark(s, slot).value.Inv()
  {
    if slot !in s.slots {
      SlotsFit(s.slots + {slot}, SLOTS_PER_PAGE);
    }
  }

  // ----- Whole runs -----

  /** `Foreign` is any instruction signed by someone other than the authority. */
  datatype Call =
    | RegisterV1(nullifier: Word)
    | RegisterV2(nullifier: Word, chainId: nat, appId: nat)
    | FinalizeEpoch(root: Word, clock: nat)
    | Foreign

  function Attempt(sha: Digest, s: Registry, call: Call): Result<Registry, NullifierError> {
    match call
    case RegisterV1(n) => Mark(s, SlotV1(sha, n))
    case RegisterV2(n, chainId, appId) => Mark(s, SlotV2(sha, n, chainId, appId))
    case FinalizeEpoch(root, clock) => Finalize(s, root, clock)
    case Foreign => Failure(Unauthorized)
  }

  /** A failed instruction leaves no trace. */
  function Step(sha: Digest, s: Registry, call: Call): Registry {
    var r := Attempt(sha, s, call);
    if r.Success? then r.value else s
  }

  function Run(sha: Digest, s: Registry, calls: seq<Call>): Registry {
    if calls == [] then s else Step(sha, Run(sha, s, calls[..|calls| - 1]), calls[|calls| - 1])
  }

  predicate Registers(call: Call) {
    call.RegisterV1? || call.RegisterV2?
  }

  function Slot(sha: Digest, call: Call): nat
    requires Registers(call)
  {
    match call
    case RegisterV1(n) => SlotV1(sha, n)
    case RegisterV2(n, chainId, appId) => SlotV2(sha, n, chainId, appId)
  }

  predicate SucceedsAt(sha: Digest, s: Registry, calls: seq<Call>, i: nat)
    requires i < |calls|
  {
    Attempt(sha, Run(sha, s, calls[..i]), calls[i]).Success?
  }

  /** How many registrations of a run succeed. */
  function Registered(sha: Digest, s: Registry, calls: seq<Call>): nat {
    if calls == [] then 0 else
      var last := |calls| - 1;
      Registered(sha, s, calls[..last])
      + if Registers(calls[last]) && SucceedsAt(sha, s, calls, last) then 1 else 0
  }

  lemma {:induction false} RunKeepsInv(sha: Digest, s: Registry, calls: seq<Call>)
    requires s.Inv()
    ensures Run(sha, s, calls).Inv()
  {
    if calls != [] {
      var last := |calls| - 1;
      RunKeepsInv(sha, s, calls[..last]);
      var before := Run(sha, s, calls[..last]);
      if Registers(calls[last]) {
        MarkKeepsInv(before, Slot(sha, calls[last]));
      }
    }
  }

  /** The counter is the number of set bits and the number of successful
      registrations, and never exceeds the page. */
  lemma {:induction false} CountIsSuccesses(sha: Digest, calls: seq<Call>)
    ensures var s := Run(sha, EMPTY, calls);
            s.count == s.totalNullifiers == |s.slots| == Registered(sha, EMPTY, calls) <= SLOTS_PER_PAGE
  {
    RunKeepsInv(sha, EMPTY, calls);
    if calls != [] {
      CountIsSuccesses(sha, calls[..|calls| - 1]);
    }
  }

  /** A set bit stays set: a registered nullifier reads as spent ever after. */
  lemma {:induction false} SlotsOnlyGrow(sha: Digest, s: Registry, calls: seq<Call>, i: nat)
    requires i <= |calls|
    ensures Run(sha, s, calls[..i]).slots <= Run(sha, s, calls).slots
  {
    if i < |calls| {
      var last := |calls| - 1;
      assert calls[..last][..i] == calls[..i];
      SlotsOnlyGrow(sha, s, calls[..last], i);
    } else {
      assert calls[..i] == calls;
    }
  }

  lemma SpentForever(sha: Digest, s: Registry, calls: seq<Call>, i: nat)
    requires i < |calls| && Registers(calls[i]) && SucceedsAt(sha, s, calls, i)
    ensures Slot(sha, calls[i]) in Run(sha, s, calls).slots
  {
    assert calls[..i + 1][..i] == calls[..i];
    SlotsOnlyGrow(sha, s, calls, i + 1);
  }

  /** A finalized epoch's record never changes. */
  lemma {:induction false} RecordsAreFinal(sha: Digest, s: Registry, calls: seq<Call>, i: nat, e: nat)
    requires s.Inv() && i <= |calls| && e in Run(sha, s, calls[..i]).epochs
    ensures e in Run(sha, s, calls).epochs
    ensures Run(sha, s, calls).epochs[e] == Run(sha, s, calls[..i]).epochs[e]
  {
    if i < |calls| {
      var last := |calls| - 1;
      assert calls[..last][..i] == calls[..i];
      RecordsAreFinal(sha, s, calls[..last], i, e);
      RunKeepsInv(sha, s, calls[..last]);
    } else {
      assert calls[..i] == calls;
    }
  }

  /** Call `i` of a run finalized epoch `e`, and the record says so. */
  ghost predicate FinalizedBy(sha: Digest, calls: seq<Call>, e: nat, record: EpochRecord, i: nat)
    requires i < |calls|
  {
    && SucceedsAt(sha, EMPTY, calls, i)
    && calls[i] == FinalizeEpoch(record.nullifierRoot, record.finalizedSlot)
    && Run(sha, EMPTY, calls[..i]).currentEpoch == e
    && record.nullifierCount == Registered(sha, EMPTY, calls[..i])
  }

  /** Every record of a run tells the truth: it holds the root and the slot of the call
      that finalized its epoch, and how many registrations had succeeded before it. */
  lemma {:induction false} RecordsAreTrue(sha: Digest, calls: seq<Call>, e: nat) returns (i: nat)
    requires e in Run(sha, EMPTY, calls).epochs
    ensures i < |calls| && FinalizedBy(sha, calls, e, Run(sha, EMPTY, calls).epochs[e], i)
  {
    var last := |calls| - 1;
    var before := Run(sha, EMPTY, calls[..last]);
    RunKeepsInv(sha, EMPTY, calls[..last]);
    if e in before.epochs {
      i := RecordsAreTrue(sha, calls[..last], e);
      assert calls[..last][..i] == calls[..i];
    } else {
      i := last;
      CountIsSuccesses(sha, calls[..last]);
    }
  }

  /** And every successful finalization of a run stays on record. */
  lemma FinalizedIsRecorded(sha: Digest, calls: seq<Call>, i: nat)
    requires i < |calls| && calls[i].FinalizeEpoch? && SucceedsAt(sha, EMPTY, calls, i)
    ensures var e := Run(sha, EMPTY, calls[..i]).currentEpoch;
            && e in Run(sha, EMPTY, calls).epochs
            && Run(sha, EMPTY, calls).epochs[e]
               == EpochRecord(e, calls[i].root, calls[i].clock, Registered(sha, EMPTY, calls[..i]))
  {
    assert calls[..i + 1][..i] == calls[..i];
    CountIsSuccesses(sha, calls[..i]);
    RecordsAreFinal(sha, EMPTY, calls, i + 1, Run(sha, EMPTY, calls[..i]).currentEpoch);
  }

  /** No slot, hence no nullifier, is registered twice in a run. */
  lemma NoDoubleRegistration(sha: Digest, s: Registry, calls: seq<Call>, i: nat, j: nat)
    requires i < j < |calls| && Registers(calls[i]) && Registers(calls[j])
    requires SucceedsAt(sha, s, calls, i) && SucceedsAt(sha, s, calls, j)
    ensures Slot(sha, calls[i]) != Slot(sha, calls[j])
    ensures calls[i] != calls[j]
  {
    assert calls[..j][..i] == calls[..i] && calls[..j][i] == calls[i];
    SpentForever(sha, s, calls[..j], i);
  }

  /** The registry refuses more than double spends: a registration succeeds exactly
      when no earlier success of the run shares its slot. */
  lemma {:induction false} RegistrationSucceedsIff(sha: Digest, calls: seq<Call>, j: nat)
    requires j < |calls| && Registers(calls[j])
    ensures SucceedsAt(sha, EMPTY, calls, j) <==>
              forall i :: 0 <= i < j && Registers(calls[i]) && SucceedsAt(sha, EMPTY, calls, i)
                ==> Slot(sha, calls[i]) != Slot(sha, calls[j])
  {
    if SucceedsAt(sha, EMPTY, calls, j) {
      forall i | 0 <= i < j && Registers(calls[i]) && SucceedsAt(sha, EMPTY, calls, i)
        ensures Slot(sha, calls[i]) != Slot(sha, calls[j])
      {
        NoDoubleRegistration(sha, EMPTY, calls, i, j);
      }
    } else {
      var i := WhoSetSlot(sha, calls[..j], Slot(sha, calls[j]));
      assert calls[..j][..i] == calls[..i];
    }
  }

  lemma {:induction false} WhoSetSlot(sha: Digest, calls: seq<Call>, slot: nat) returns (i: nat)
    requires slot in Run(sha, EMPTY, calls).slots
    ensures i < |calls| && Registers(calls[i]) && SucceedsAt(sha, EMPTY, calls, i) && Slot(sha, calls[i]) == slot
  {
    var last := |calls| - 1;
    if slot in Run(sha, EMPTY, calls[..last]).slots {
      i := WhoSetSlot(sha, calls[..last], slot);
      assert calls[..last][..i] == calls[..i];
    } else {
      i := last;
    }
  }

  /** A page serves 2048 registrations and then refuses every further one. */
  lemma FullPageRefuses(sha: Digest, calls: seq<Call>, call: Call)
    requires Registered(sha, EMPTY, calls) == SLOTS_PER_PAGE && Registers(call)
    ensures Attempt(sha, Run(sha, EMPTY, calls), call) == Failure(NullifierAlreadySpent)
  {
    CountIsSuccesses(sha, calls);
    RunKeepsInv(sha, EMPTY, calls);
    SlotsFit(Run(sha, EMPTY, calls).slots, SLOTS_PER_PAGE);
  }

  // ----- Bits of a byte -----

  function Bit(b: bv8, offset: nat): bv8
    requires offset < 8
  {
    (b >> offset) & 1
  }

  lemma SetBit(b: bv8, offset: nat, other: nat)
    requires offset < 8 && other < 8
    ensures Bit(b | (1 << offset), other) == if other == offset then 1 else Bit(b, other)
    ensures Bit(b, other) == 0 || Bit(b, other) == 1
  {}

  predicate IsSet(bitmap: seq<bv8>, slot: nat)
    requires |bitmap| == BITMAP_BYTES && slot < SLOTS_PER_PAGE
  {
    Bit(bitmap[slot / 8], slot % 8) == 1
  }

  ghost function SlotsOf(bitmap: seq<bv8>): set<nat>
    requires |bitmap| == BITMAP_BYTES
  {
    set slot | 0 <= slot < SLOTS_PER_PAGE && IsSet(bitmap, slot)
  }

  /** Setting one bit adds one slot and moves no other. */
  lemma SetBitAddsSlot(bitmap: seq<bv8>, slot: nat)
    requires |bitmap| == BITMAP_BYTES && slot < SLOTS_PER_PAGE
    ensures SlotsOf(bitmap[slot / 8 := bitmap[slot / 8] | (1 << slot % 8)]) == SlotsOf(bitmap) + {slot}
  {
    var marked := bitmap[slot / 8 := bitmap[slot / 8] | (1 << slot % 8)];
    forall other | 0 <= other < SLOTS_PER_PAGE
      ensures IsSet(marked, other) <==> IsSet(bitmap, other) || other == slot
    {
      SetBit(bitmap[slot / 8], slot % 8, other % 8);
      assert other / 8 == slot / 8 && other % 8 == slot % 8 ==> other == slot;
    }
  }

  // ----- The accounts -----

  class NullifierAccounts {
    const authority: Word
    const sha: Digest
    const bitmap: array<bv8>
    var count: nat
    var totalNullifiers: nat
    var currentEpoch: nat
    var epochStartSlot: nat
    var epochs: map<nat, EpochRecord>

    ghost function State(): Registry
      requires bitmap.Length == BITMAP_BYTES
      reads this, bitmap
    {
      Registry(SlotsOf(bitmap[..]), count, totalNullifiers, currentEpoch, epochStartSlot, epochs)
    }

    ghost predicate Valid()
      reads this, bitmap
    {
      bitmap.Length == BITMAP_BYTES && State().Inv()
    }

    constructor (authority: Word, sha: Digest, clock: nat)
      ensures Valid() && fresh(bitmap)
      ensures this.authority == authority && this.sha == sha
      ensures State() == EMPTY.(epochStartSlot := clock)
    {
      this.authority, this.sha := authority, sha;
      bitmap := new bv8[BITMAP_BYTES](_ => 0);
      count, totalNullifiers, currentEpoch, epochStartSlot, epochs := 0, 0, 0, clock, map[];
      new;
      assert SlotsOf(bitmap[..]) == {};
    }

    /** Sets one bit unless it is set already. */
    method TestAndSet(slot: nat) returns (alreadySpent: bool)
      requires bitmap.Length == BITMAP_BYTES && slot < SLOTS_PER_PAGE
      modifies bitmap
      ensures alreadySpent ==> bitmap[..] == old(bitmap[..])
      ensures alreadySpent <==> slot in SlotsOf(old(bitmap[..]))
      ensures SlotsOf(bitmap[..]) == SlotsOf(old(bitmap[..])) + {slot}
    {
      var byteIndex, bitOffset := slot / 8, slot % 8;
      ghost var before := bitmap[..];
      SetBit(bitmap[byteIndex], bitOffset, bitOffset);
      assert IsSet(before, slot) <==> slot in SlotsOf(before);
      alreadySpent := Bit(bitmap[byteIndex], bitOffset) != 0;
      if !alreadySpent {
        SetBitAddsSlot(before, slot);
        bitmap[byteIndex] := bitmap[byteIndex] | (1 << bitOffset);
        assert bitmap[..] == before[byteIndex := before[byteIndex] | (1 << bitOffset)];
      }
    }

    method MarkSlot(slot: nat) returns (r: Result<(), NullifierError>)
      requires Valid() && slot < SLOTS_PER_PAGE
      modifies this`count, this`totalNullifiers, bitmap
      ensures Valid()
      ensures var spec := Mark(old(State()), slot);
              if spec.Success? then r == Success(()) && State() == spec.value
              else r == Failure(spec.error) && State() == old(State())
      ensures r.Success? <==> slot !in SlotsOf(old(bitmap[..]))
      ensures r.Success? ==>
                && SlotsOf(bitmap[..]) == SlotsOf(old(bitmap[..])) + {slot}
                && count == old(count) + 1 && totalNullifiers == old(totalNullifiers) + 1
      ensures r.Failure? ==> bitmap[..] == old(bitmap[..]) && unchanged(this)
    {
      ghost var spec := Mark(State(), slot);
      MarkKeepsInv(State(), slot);
      var alreadySpent := TestAndSet(slot);
      if alreadySpent {
        assert State() == old(State());
        return Failure(NullifierAlreadySpent);
      }
      count := count + 1;
      totalNullifiers := totalNullifiers + 1;
      assert State() == spec.value;
      r := Success(());
    }

    /** Puts back a saved page and counters, as the runtime does with the accounts of
        a failed transaction. */
    method Restore(savedBitmap: seq<bv8>, savedCount: nat, savedTotal: nat)
      requires bitmap.Length == BITMAP_BYTES == |savedBitmap|
      modifies this`count, this`totalNullifiers, bitmap
      ensures State()
              == old(State()).(slots := SlotsOf(savedBitmap), count := savedCount, totalNullifiers := savedTotal)
    {
      forall i | 0 <= i < BITMAP_BYTES {
        bitmap[i] := savedBitmap[i];
      }
      assert bitmap[..] == savedBitmap;
      count, totalNullifiers := savedCount, savedTotal;
    }

    /** How registering the hashed message must end, said of the page and the counters: with
        the bit of the first two digest bytes, read little-endian modulo 2048, newly set. */
    twostate predicate TookSlot(signer: Word, message: seq<byte>, r: Result<(), NullifierError>)
      requires bitmap.Length == BITMAP_BYTES
      reads this, bitmap
    {
      var slot := (sha(message).0 as nat + 256 * sha(message).1 as nat) % 2048;
      var taken := slot in SlotsOf(old(bitmap[..]));
      && (r.Success? <==> signer == authority && !taken)
      && (r.Success? ==>
            && SlotsOf(bitmap[..]) == SlotsOf(old(bitmap[..])) + {slot}
            && count == old(count) + 1 && totalNullifiers == old(totalNullifiers) + 1)
      && (r.Failure? ==>
            && r.error == (if signer != authority then Unauthorized else NullifierAlreadySpent)
            && bitmap[..] == old(bitmap[..]) && count == old(count) && totalNullifiers == old(totalNullifiers))
    }

    ghost predicate Outcome(spec: Result<Registry, NullifierError>, before: Registry, r: Result<(), NullifierError>)
      requires bitmap.Length == BITMAP_BYTES
      reads this, bitmap
    {
      match spec
      case Success(after) => r == Success(()) && State() == after
      case Failure(e) => r == Failure(e) && State() == before
    }

    method RegisterNullifier(signer: Word, nullifier: Word) returns (r: Result<(), NullifierError>)
      requires Valid()
      modifies this`count, this`totalNullifiers, bitmap
      ensures Valid()
      ensures Outcome(Attempt(sha, old(State()), if signer == authority then RegisterV1(nullifier) else Foreign),
                      old(State()), r)
      ensures TookSlot(signer, ToBytes(nullifier, 32), r)
    {
      if signer != authority {
        return Failure(Unauthorized);
      }
      r := MarkSlot(SlotV1(sha, nullifier));
    }

    method RegisterNullifierV2(signer: Word, nullifier: Word, chainId: nat, appId: nat)
      returns (r: Result<(), NullifierError>)
      requires Valid()
      modifies this`count, this`totalNullifiers, bitmap
      ensures Valid()
      ensures var call := if signer == authority then RegisterV2(nullifier, chainId, appId) else Foreign;
              Outcome(Attempt(sha, old(State()), call), old(State()), r)
      ensures TookSlot(signer, ToBytes(nullifier, 32) + LittleEndian64(chainId) + LittleEndian64(appId), r)
    {
      if signer != authority {
        return Failure(Unauthorized);
      }
      r := MarkSlot(SlotV2(sha, nullifier, chainId, appId));
    }

    method IsNullifierSpent(nullifier: Word) returns (spent: bool)
      requires Valid()
      ensures spent <==> SlotV1(sha, nullifier) in State().slots
      ensures var digest := sha(ToBytes(nullifier, 32));
              spent <==> (digest.0 as nat + 256 * digest.1 as nat) % 2048 in SlotsOf(bitmap[..])
    {
      spent := IsSet(bitmap[..], SlotV1(sha, nullifier));
    }

    /** The record of the current epoch never exists yet, so creating it cannot fail. */
    method FinalizeCurrentEpoch(signer: Word, root: Word, clock: nat) returns (r: Result<(), NullifierError>)
      requires Valid()
      modifies this
      ensures Valid()
      ensures old(currentEpoch) !in old(epochs)
      ensures r.Success? <==> signer == authority && old(currentEpoch) + 1 < U64_LIMIT
      ensures r.Success? ==>
                && epochs == old(epochs)[old(currentEpoch) :=
                     EpochRecord(old(currentEpoch), root, clock, old(totalNullifiers))]
                && currentEpoch == old(currentEpoch) + 1 && epochStartSlot == clock
      ensures r.Failure? ==> unchanged(this)
      ensures unchanged(this`count, this`totalNullifiers)
      ensures Outcome(Attempt(sha, old(State()), if signer == authority then FinalizeEpoch(root, clock) else Foreign),
                      old(State()), r)
    {
      if signer != authority {
        return Failure(Unauthorized);
      }
      if currentEpoch + 1 >= U64_LIMIT {
        return Failure(Overflow);
      }
      assert currentEpoch !in epochs;
      epochs := epochs[currentEpoch := EpochRecord(currentEpoch, root, clock, totalNullifiers)];
      currentEpoch := currentEpoch + 1;
      epochStartSlot := clock;
      r := Success(());
    }
  }
}

/** No nullifier is spent twice: the pool's spends and direct registrations share the
    slots of one registry (programs/holanc-pool/src/lib.rs, programs/holanc-nullifier/src/lib.rs). */
module DoubleSpend {
  import opened Base
  import opened Pool
  import CW = ClientWallet
  import N = Nullifier

  function SpendSlots(env: Env, s: Spend): set<nat> {
    {N.SlotV1(env.digest, s.nullifiers.0), N.SlotV1(env.digest, s.nullifiers.1)}
  }

  /** The slots that a call claims. */
  function Slots(env: Env, call: Call): set<nat> {
    match call
    case CallTransfer(s) => SpendSlots(env, s)
    case CallWithdraw(s) => SpendSlots(env, s)
    case CallRegistry(r) => if N.Registers(r) then {N.Slot(env.digest, r)} else {}
    case _ => {}
  }

  predicate IsSpend(call: Call) {
    call.CallTransfer? || call.CallWithdraw?
  }

  predicate Accepted(env: Env, c: Chain, call: Call)
    requires c.pool.window.Valid() && |c.pool.filledSubtrees| == TREE_DEPTH
  {
    && Attempt(env, c, call).Success?
    && (call.CallRegistry? ==> N.Attempt(env.digest, c.registry, call.call).Success?)
  }

  ghost predicate AcceptedAt(env: Env, c: Chain, calls: seq<Call>, i: nat)
    requires c.WellFormed() && i < |calls|
  {
    Accepted(env, Execute(env, c, calls[..i]), calls[i])
  }

  // ----- One call -----

  /** Both registrations of a spend go through exactly when the registry's authority
      signs and the two slots are free and different. */
  lemma RegisterBothIff(env: Env, signer: Word, c: Chain, nullifiers: (Word, Word))
    ensures var s0, s1 := N.SlotV1(env.digest, nullifiers.0), N.SlotV1(env.digest, nullifiers.1);
            var r := RegisterBoth(env, signer, c, nullifiers);
            && (r.Success? <==> signer == c.nullifierAuthority && s0 != s1 && {s0, s1} !! c.registry.slots)
            && (r.Success? ==> r.value.slots == c.registry.slots + {s0, s1})
  {}

  /** An accepted call finds its slots free and takes them; any other call takes none. */
  lemma CallTakesSlots(env: Env, c: Chain, call: Call)
    requires c.WellFormed()
    ensures Accepted(env, c, call) ==> Slots(env, call) !! c.registry.slots
    ensures Step(env, c, call).registry.slots
            == if Accepted(env, c, call) then c.registry.slots + Slots(env, call) else c.registry.slots
  {}

  // ----- Whole runs -----

  lemma {:induction false} SlotsOnlyGrow(env: Env, c: Chain, calls: seq<Call>, i: nat)
    requires c.WellFormed() && i <= |calls|
    ensures Execute(env, c, calls[..i]).registry.slots <= Execute(env, c, calls).registry.slots
  {
    if i < |calls| {
      var last := |calls| - 1;
      assert calls[..last][..i] == calls[..i];
      SlotsOnlyGrow(env, c, calls[..last], i);
      CallTakesSlots(env, Execute(env, c, calls[..last]), calls[last]);
    } else {
      assert calls[..i] == calls;
    }
  }

  lemma SlotsTaken(env: Env, c: Chain, calls: seq<Call>, i: nat)
    requires c.WellFormed() && i < |calls| && AcceptedAt(env, c, calls, i)
    ensures Slots(env, calls[i]) <= Execute(env, c, calls).registry.slots
  {
    assert calls[..i + 1][..i] == calls[..i];
    CallTakesSlots(env, Execute(env, c, calls[..i]), calls[i]);
    SlotsOnlyGrow(env, c, calls, i + 1);
  }

  /** Two accepted calls of a run never share a slot, whether they spend through the
      pool or register directly. */
  lemma SlotsUsedOnce(env: Env, c: Chain, calls: seq<Call>, i: nat, j: nat)
    requires c.WellFormed() && i < j < |calls|
    requires AcceptedAt(env, c, calls, i) && AcceptedAt(env, c, calls, j)
    ensures Slots(env, calls[i]) !! Slots(env, calls[j])
  {
    assert calls[..j][..i] == calls[..i];
    SlotsTaken(env, c, calls[..j], i);
    CallTakesSlots(env, Execute(env, c, calls[..j]), calls[j]);
  }

  predicate Carries(s: Spend, nullifier: Word) {
    nullifier == s.nullifiers.0 || nullifier == s.nullifiers.1
  }

  /** No nullifier is spent twice: neither by two spends of a run nor within one. */
  lemma NoDoubleSpend(env: Env, c: Chain, calls: seq<Call>, i: nat, j: nat, nullifier: Word)
    requires c.WellFormed() && i < |calls| && j < |calls| && IsSpend(calls[i]) && IsSpend(calls[j])
    requires AcceptedAt(env, c, calls, i) && AcceptedAt(env, c, calls, j)
    requires Carries(calls[i].spend, nullifier) && Carries(calls[j].spend, nullifier)
    ensures i == j && calls[i].spend.nullifiers.0 != calls[i].spend.nullifiers.1
  {
    var slot := N.SlotV1(env.digest, nullifier);
    assert slot in Slots(env, calls[i]) && slot in Slots(env, calls[j]);
    if i < j {
      SlotsUsedOnce(env, c, calls, i, j);
    } else if j < i {
      SlotsUsedOnce(env, c, calls, j, i);
    }
    var before := Execute(env, c, calls[..i]);
    RegisterBothIff(env, calls[i].spend.signer, before, calls[i].spend.nullifiers);
  }

  /** A taken slot was free at the start or taken by an accepted call. */
  lemma {:induction false} WhoTookSlot(env: Env, c: Chain, calls: seq<Call>, slot: nat) returns (i: nat)
    requires c.WellFormed() && slot !in c.registry.slots && slot in Execute(env, c, calls).registry.slots
    ensures i < |calls| && AcceptedAt(env, c, calls, i) && slot in Slots(env, calls[i])
  {
    var last := |calls| - 1;
    if slot in Execute(env, c, calls[..last]).registry.slots {
      i := WhoTookSlot(env, c, calls[..last], slot);
      assert calls[..last][..i] == calls[..i];
    } else {
      i := last;
      CallTakesSlots(env, Execute(env, c, calls[..last]), calls[last]);
    }
  }

  ghost predicate NoEarlierClaim(env: Env, c: Chain, calls: seq<Call>, slots: set<nat>)
    requires c.WellFormed()
  {
    forall i :: 0 <= i < |calls| && AcceptedAt(env, c, calls, i) ==> Slots(env, calls[i]) !! slots
  }

  /** Nothing but an earlier claim on one of its slots makes the registry refuse a spend
      that its authority signs and whose slots differ. */
  lemma SpendRegistersIff(env: Env, c: Chain, calls: seq<Call>, s: Spend)
    requires c.WellFormed() && c.registry.slots == {}
    ensures var now := Execute(env, c, calls);
            RegisterBoth(env, s.signer, now, s.nullifiers).Success? <==>
              && s.signer == now.nullifierAuthority
              && N.SlotV1(env.digest, s.nullifiers.0) != N.SlotV1(env.digest, s.nullifiers.1)
              && NoEarlierClaim(env, c, calls, SpendSlots(env, s))
  {
    var now := Execute(env, c, calls);
    RegisterBothIff(env, s.signer, now, s.nullifiers);
    if SpendSlots(env, s) !! now.registry.slots {
      forall i | 0 <= i < |calls| && AcceptedAt(env, c, calls, i) ensures Slots(env, calls[i]) !! SpendSlots(env, s) {
        SlotsTaken(env, c, calls, i);
      }
    } else {
      var slot :| slot in SpendSlots(env, s) && slot in now.registry.slots;
      var i := WhoTookSlot(env, c, calls, slot);
    }
  }

  // ----- A consequence for the client wallet -----

  /** The nullifiers of a prepared transaction: a hash of the spending key and each
      input's commitment. */
  function Nullifiers(derive: (Word, Word) -> Word, h: CW.Hashes, key: Word, p: CW.Prepared): (Word, Word)
    requires |p.inputNotes| == 2
  {
    (derive(key, CW.Commitment(h, p.inputNotes[0])), derive(key, CW.Commitment(h, p.inputNotes[1])))
  }

  /** The padding note of the client wallet is the same in every transaction, so of all
      the transactions that one key prepares from a single note of one asset, a run
      accepts at most one. */
  lemma OnePaddedSpend(env: Env, c: Chain, calls: seq<Call>, i: nat, j: nat, assetId: Word,
                       derive: (Word, Word) -> Word, h: CW.Hashes, key: Word, p: CW.Prepared, q: CW.Prepared)
    requires c.WellFormed() && i < j < |calls| && IsSpend(calls[i]) && IsSpend(calls[j])
    requires |p.inputNotes| == 2 == |q.inputNotes|
    requires p.inputNotes[1] == CW.Dummy(assetId) == q.inputNotes[1]
    requires calls[i].spend.nullifiers == Nullifiers(derive, h, key, p)
    requires calls[j].spend.nullifiers == Nullifiers(derive, h, key, q)
    ensures !(AcceptedAt(env, c, calls, i) && AcceptedAt(env, c, calls, j))
  {
    if AcceptedAt(env, c, calls, i) && AcceptedAt(env, c, calls, j) {
      NoDoubleSpend(env, c, calls, i, j, calls[i].spend.nullifiers.1);
    }
  }
}

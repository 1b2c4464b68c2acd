/** Receiving foreign epoch roots under a guardian quorum
    (programs/holanc-bridge/src/lib.rs). */
module Bridge {
  import opened Base
  import opened Ed25519
  import opened Radix

  const GUARDIAN_THRESHOLD: nat := 13
  const MAX_GUARDIANS: nat := 19

  datatype GuardianSignature = GuardianSignature(guardianIndex: nat, signature: Signature)

  datatype GuardianSet = GuardianSet(pool: Word, keys: seq<Key>, numGuardians: nat, isActive: bool) {
    /** What `initialize_guardian_set` establishes. */
    predicate Valid() {
      |keys| == MAX_GUARDIANS && GUARDIAN_THRESHOLD <= numGuardians <= MAX_GUARDIANS
    }
  }

  // ----- The body of a message and its hash -----

  datatype Body = Body(sourceChain: U64, epoch: U64, nullifierRoot: Bytes32, nullifierCount: U64)

  type Sha256 = seq<byte> -> seq<byte>

  function Preimage(b: Body): seq<byte> {
    LittleEndian64(b.sourceChain) + LittleEndian64(b.epoch) + b.nullifierRoot + LittleEndian64(b.nullifierCount)
  }

  /** Fields have fixed widths, so different bodies have different preimages. */
  lemma PreimageInjective(a: Body, b: Body)
    requires Preimage(a) == Preimage(b)
    ensures a == b
  {
    var p, q := Preimage(a), Preimage(b);
    assert LittleEndian64(a.sourceChain) == p[..8] && LittleEndian64(b.sourceChain) == q[..8];
    assert LittleEndian64(a.epoch) == p[8..16] && LittleEndian64(b.epoch) == q[8..16];
    assert a.nullifierRoot == p[16..48] && b.nullifierRoot == q[16..48];
    assert LittleEndian64(a.nullifierCount) == p[48..] && LittleEndian64(b.nullifierCount) == q[48..];
    LittleEndian64Injective(a.sourceChain, b.sourceChain);
    LittleEndian64Injective(a.epoch, b.epoch);
    LittleEndian64Injective(a.nullifierCount, b.nullifierCount);
  }

  function LowByte(n: nat, i: nat): nat {
    n / Pow256(i) % 256
  }

  /** Byte by byte: source chain, epoch and count least significant byte first, and the root
      between epoch and count. */
  lemma PreimageLayout(b: Body)
    ensures |Preimage(b)| == 56
    ensures forall i :: 0 <= i < 8 ==> Preimage(b)[i] as nat == LowByte(b.sourceChain, i)
    ensures forall i :: 0 <= i < 8 ==> Preimage(b)[8 + i] as nat == LowByte(b.epoch, i)
    ensures forall i :: 0 <= i < 32 ==> Preimage(b)[16 + i] == b.nullifierRoot[i]
    ensures forall i :: 0 <= i < 8 ==> Preimage(b)[48 + i] as nat == LowByte(b.nullifierCount, i)
  {
    forall i | 0 <= i < 8
      ensures Preimage(b)[i] as nat == LowByte(b.sourceChain, i)
      ensures Preimage(b)[8 + i] as nat == LowByte(b.epoch, i)
      ensures Preimage(b)[48 + i] as nat == LowByte(b.nullifierCount, i)
    {
      LittleEndian64At(b.sourceChain, i);
      LittleEndian64At(b.epoch, i);
      LittleEndian64At(b.nullifierCount, i);
    }
  }

  // ----- Quorums -----

  /** `indices` are guardians of the set, at least thirteen of them, who signed `message`. */
  ghost predicate Quorum(signed: (Key, seq<byte>) -> bool, gs: GuardianSet, indices: set<nat>, message: Bytes32)
    requires gs.Valid()
  {
    && |indices| >= GUARDIAN_THRESHOLD
    && forall i :: i in indices ==> 0 <= i < gs.numGuardians && signed(gs.keys[i], message)
  }

  /** Signature `i` names a guardian of the set that no earlier signature names, and is
      backed by instruction `i` of the transaction. */
  ghost predicate Accepted(tx: seq<Instruction>, gs: GuardianSet, message: Bytes32,
                           signatures: seq<GuardianSignature>, i: nat)
    requires gs.Valid() && i < |signatures|
  {
    var idx := signatures[i].guardianIndex;
    && idx < gs.numGuardians
    && (forall j :: 0 <= j < i ==> signatures[j].guardianIndex != idx)
    && VerifyEd25519Ix(tx, i, gs.keys[idx], signatures[i].signature, message).Success?
  }

  /** The guardians named by the first `k` signatures. */
  ghost function Named(signatures: seq<GuardianSignature>, k: nat): set<nat>
    requires k <= |signatures|
  {
    set i | 0 <= i < k :: signatures[i].guardianIndex
  }

  lemma NamedStep(signatures: seq<GuardianSignature>, k: nat)
    requires k < |signatures|
    ensures Named(signatures, k + 1) == Named(signatures, k) + {signatures[k].guardianIndex}
  {}

  /** `k` accepted signatures name `k` guardians, so there are never more than nineteen. */
  lemma {:induction false} AcceptedAreDistinct(tx: seq<Instruction>, gs: GuardianSet, message: Bytes32,
                                               signatures: seq<GuardianSignature>, k: nat)
    requires gs.Valid() && k <= |signatures|
    requires forall i :: 0 <= i < k ==> Accepted(tx, gs, message, signatures, i)
    ensures |Named(signatures, k)| == k <= gs.numGuardians
  {
    if k > 0 {
      AcceptedAreDistinct(tx, gs, message, signatures, k - 1);
      NamedStep(signatures, k - 1);
      assert Accepted(tx, gs, message, signatures, k - 1);
    }
    forall g | g in Named(signatures, k) ensures g < gs.numGuardians {
      var i :| 0 <= i < k && signatures[i].guardianIndex == g;
      assert Accepted(tx, gs, message, signatures, i);
    }
    BoundedSet(Named(signatures, k), gs.numGuardians);
  }

  ghost predicate AllAccepted(tx: seq<Instruction>, gs: GuardianSet, message: Bytes32,
                              signatures: seq<GuardianSignature>)
    requires gs.Valid()
  {
    |signatures| >= GUARDIAN_THRESHOLD && forall i :: 0 <= i < |signatures| ==> Accepted(tx, gs, message, signatures, i)
  }

  /** The runtime verified what signature `i` claims: the message, under its guardian's key. */
  ghost predicate Vouched(tx: seq<Instruction>, gs: GuardianSet, message: Bytes32,
                          signatures: seq<GuardianSignature>, i: nat)
    requires gs.Valid() && i < |signatures|
  {
    signatures[i].guardianIndex < MAX_GUARDIANS && Verifies(tx, gs.keys[signatures[i].guardianIndex], message)
  }

  ghost predicate AllVouched(tx: seq<Instruction>, gs: GuardianSet, message: Bytes32,
                             signatures: seq<GuardianSignature>)
    requires gs.Valid()
  {
    forall i :: 0 <= i < |signatures| ==> Vouched(tx, gs, message, signatures, i)
  }

  lemma AcceptedIsQuorum(signed: (Key, seq<byte>) -> bool, tx: seq<Instruction>, gs: GuardianSet, message: Bytes32,
                         signatures: seq<GuardianSignature>)
    requires gs.Valid() && Ed25519Sound(signed, tx)
    requires AllAccepted(tx, gs, message, signatures) && AllVouched(tx, gs, message, signatures)
    ensures Quorum(signed, gs, Named(signatures, |signatures|), message)
  {
    AcceptedAreDistinct(tx, gs, message, signatures, |signatures|);
    forall g | g in Named(signatures, |signatures|)
      ensures 0 <= g < gs.numGuardians && signed(gs.keys[g], message)
    {
      var i :| 0 <= i < |signatures| && signatures[i].guardianIndex == g;
      assert Accepted(tx, gs, message, signatures, i) && Vouched(tx, gs, message, signatures, i);
    }
  }

  /** Whoever signed anything consistently with the runtime, the named guardians signed the
      message. */
  ghost predicate SurelyQuorum(tx: seq<Instruction>, gs: GuardianSet, message: Bytes32, indices: set<nat>)
    requires gs.Valid()
  {
    forall signed :: Ed25519Sound(signed, tx) ==> Quorum(signed, gs, indices, message)
  }

  /** For every transaction that lands and every accepted list of signatures: the guardians
      it names are sure to have signed the message if and only if the runtime verified
      every one of the signatures it claims. */
  lemma QuorumIffVouched(tx: seq<Instruction>, gs: GuardianSet, message: Bytes32, signatures: seq<GuardianSignature>)
    requires gs.Valid() && Lands(tx) && AllAccepted(tx, gs, message, signatures)
    ensures SurelyQuorum(tx, gs, message, Named(signatures, |signatures|)) <==> AllVouched(tx, gs, message, signatures)
  {
    var named := Named(signatures, |signatures|);
    if AllVouched(tx, gs, message, signatures) {
      forall signed | Ed25519Sound(signed, tx) ensures Quorum(signed, gs, named, message) {
        AcceptedIsQuorum(signed, tx, gs, message, signatures);
      }
    }
    if SurelyQuorum(tx, gs, message, named) {
      ghost var least := (key, m) => Verifies(tx, key, m);
      assert Ed25519Sound(least, tx);
      assert Quorum(least, gs, named, message);
      forall i | 0 <= i < |signatures| ensures Vouched(tx, gs, message, signatures, i) {
        assert signatures[i].guardianIndex in named;
      }
    }
  }

  /** Instructions that take key and message from themselves are enough, and easy to check. */
  lemma OwnEntriesVouch(tx: seq<Instruction>, gs: GuardianSet, message: Bytes32, signatures: seq<GuardianSignature>)
    requires gs.Valid() && Lands(tx) && AllAccepted(tx, gs, message, signatures)
    requires forall i :: 0 <= i < |signatures| ==> OwnEntry(tx, i)
    ensures AllVouched(tx, gs, message, signatures)
  {
    forall i | 0 <= i < |signatures| ensures Vouched(tx, gs, message, signatures, i) {
      assert Accepted(tx, gs, message, signatures, i);
      var g := signatures[i].guardianIndex;
      OwnEntryVerifies(tx, i, gs.keys[g], signatures[i].signature, message);
    }
  }

  // ----- An entry that points elsewhere -----

  /** An instruction that embeds what the program looks for, and whose entry takes all three
      parts from the same offsets of instruction 13. */
  function PointsElsewhere(signature: Signature, key: Key, message: Bytes32): Instruction {
    Instruction(ED25519_PROGRAM, [1, 0, 16, 0, 13, 0, 80, 0, 13, 0, 112, 0, 32, 0, 13, 0] + signature + key + message)
  }

  function ElsewhereTx(gs: GuardianSet, message: Bytes32, signature: Signature, other: seq<byte>): seq<Instruction>
    requires gs.Valid()
  {
    seq(13, g requires 0 <= g < 13 => PointsElsewhere(signature, gs.keys[g], message)) + [Instruction(0, other)]
  }

  function FirstGuardians(signature: Signature): seq<GuardianSignature> {
    seq(13, g requires 0 <= g < 13 => GuardianSignature(g, signature))
  }

  lemma ElsewhereEmbeds(signature: Signature, key: Key, message: Bytes32)
    requires |key| == 32 && |signature| == 64
    ensures var data := PointsElsewhere(signature, key, message).data;
            && |data| == 144 && data[0] == 1
            && HeaderAt(data, 0) == Header(16, 13, 80, 13, 112, 32, 13)
            && ReadEmbedded(data) == Success(Embedded(signature, key, message))
  {
    var data := PointsElsewhere(signature, key, message).data;
    assert data[16..80] == signature && data[80..112] == key && data[112..144] == message;
  }

  lemma ElsewhereReads(gs: GuardianSet, message: Bytes32, signature: Signature, other: seq<byte>, g: nat)
    requires g < 13 && gs.Valid() && |gs.keys[g]| == 32 && |signature| == 64 && |other| == 144
    ensures var tx := ElsewhereTx(gs, message, signature, other);
            && VerifyEd25519Ix(tx, g, gs.keys[g], signature, message).Success?
            && (forall n :: IsEntry(tx, g, n) ==> n == 0)
            && EntryReads(tx, g, 0)
            && Resolve(tx, g, 0) == Some(Embedded(other[16..80], other[80..112], other[112..]))
  {
    var tx := ElsewhereTx(gs, message, signature, other);
    ElsewhereEmbeds(signature, gs.keys[g], message);
    assert tx[g] == PointsElsewhere(signature, gs.keys[g], message);
    assert tx[13].data == other && other[112..144] == other[112..];
  }

  /** The condition cannot be dropped.  With entries that point at instruction 13 the loop
      accepts the first thirteen guardians, for any message, in a transaction that lands and
      in which nothing is signed but what instruction 13 holds. */
  lemma UnvouchedIsAccepted(signed: (Key, seq<byte>) -> bool, gs: GuardianSet, message: Bytes32,
                            signature: Signature, other: seq<byte>)
    requires gs.Valid() && (forall g :: 0 <= g < MAX_GUARDIANS ==> |gs.keys[g]| == 32)
    requires |signature| == 64 && |other| == 144 && other[80..112] !in gs.keys
    requires forall key, m :: signed(key, m) <==> key == other[80..112] && m == other[112..]
    ensures var tx, signatures := ElsewhereTx(gs, message, signature, other), FirstGuardians(signature);
            && Ed25519Sound(signed, tx) && AllAccepted(tx, gs, message, signatures)
            && forall g :: 0 <= g < gs.numGuardians ==> !signed(gs.keys[g], message)
  {
    var tx, signatures := ElsewhereTx(gs, message, signature, other), FirstGuardians(signature);
    forall i, n | IsEntry(tx, i, n) ensures EntryReads(tx, i, n) && n == 0 && i < 13 {
      ElsewhereReads(gs, message, signature, other, i);
    }
    forall key, m | Verifies(tx, key, m) ensures signed(key, m) {
      var i, n :| EntryVerifies(tx, i, n, key, m);
      ElsewhereReads(gs, message, signature, other, i);
    }
    forall i | 0 <= i < 13 ensures Accepted(tx, gs, message, signatures, i) {
      ElsewhereReads(gs, message, signature, other, i);
    }
    assert forall g :: 0 <= g < gs.numGuardians ==> gs.keys[g] in gs.keys;
  }

  // ----- The signature loop -----

  /** The signature loop of `receive_epoch_root`: it succeeds exactly when there are
      thirteen signatures or more and each is accepted. */
  method CountSignatures(tx: seq<Instruction>, gs: GuardianSet, message: Bytes32, signatures: seq<GuardianSignature>)
    returns (r: Result<(), BridgeError>)
    requires gs.Valid()
    ensures r.Success? <==> AllAccepted(tx, gs, message, signatures)
  {
    if |signatures| < GUARDIAN_THRESHOLD {
      return Failure(InsufficientGuardianSignatures);
    }
    var seenIndices := new bool[MAX_GUARDIANS](_ => false);
    var validCount := 0;
    for k := 0 to |signatures|
      invariant validCount == k
      invariant forall i :: 0 <= i < k ==> Accepted(tx, gs, message, signatures, i)
      invariant forall g :: 0 <= g < MAX_GUARDIANS ==> (seenIndices[g] <==> g in Named(signatures, k))
    {
      NamedStep(signatures, k);
      var next := CheckSignature(tx, gs, message, signatures, k, seenIndices);
      if next.Failure? {
        assert !Accepted(tx, gs, message, signatures, k);
        return Failure(next.error);
      }
      AcceptedAreDistinct(tx, gs, message, signatures, k + 1);
      validCount := validCount + 1;
      assert validCount <= 19 < 256;
    }
    if validCount < GUARDIAN_THRESHOLD {
      return Failure(InsufficientGuardianSignatures);
    }
    r := Success(());
  }

  method CheckSignature(tx: seq<Instruction>, gs: GuardianSet, message: Bytes32, signatures: seq<GuardianSignature>,
                        k: nat, seenIndices: array<bool>)
    returns (r: Result<(), BridgeError>)
    requires gs.Valid() && k < |signatures| && seenIndices.Length == MAX_GUARDIANS
    requires forall g :: 0 <= g < MAX_GUARDIANS ==> (seenIndices[g] <==> g in Named(signatures, k))
    modifies seenIndices
    ensures r.Success? <==> Accepted(tx, gs, message, signatures, k)
    ensures r.Success? ==>
              forall g :: 0 <= g < MAX_GUARDIANS ==>
                (seenIndices[g] <==> g in Named(signatures, k) || g == signatures[k].guardianIndex)
  {
    var sig := signatures[k];
    var idx := sig.guardianIndex;
    if idx >= gs.numGuardians {
      return Failure(InvalidGuardianIndex);
    }
    if seenIndices[idx] {
      return Failure(DuplicateGuardianSignature);
    }
    assert forall j :: 0 <= j < k ==> signatures[j].guardianIndex in Named(signatures, k);
    seenIndices[idx] := true;
    r := VerifyEd25519Ix(tx, k, gs.keys[idx], sig.signature, message);
  }

  lemma {:induction false} BoundedSet(s: set<nat>, n: nat)
    requires forall i :: i in s ==> 0 <= i < n
    ensures |s| <= n
  {
    if n == 0 {
      assert s == {};
    } else {
      BoundedSet(s - {n - 1}, n - 1);
      assert |s| <= |s - {n - 1}| + 1;
    }
  }

  /** Two quorums of one guardian set share at least seven guardians. */
  lemma QuorumsIntersect(gs: GuardianSet, a: set<nat>, b: set<nat>)
    requires gs.Valid()
    requires |a| >= GUARDIAN_THRESHOLD && |b| >= GUARDIAN_THRESHOLD
    requires forall i :: i in a + b ==> 0 <= i < gs.numGuardians
    ensures |a * b| >= 26 - gs.numGuardians >= 7
  {
    BoundedSet(a + b, gs.numGuardians);
    assert |a + b| == |a| + |b| - |a * b|;
  }

  // ----- Bridge state -----

  datatype ForeignRoot = ForeignRoot(body: Body, vaaHash: Bytes32, receivedAt: int)

  datatype OutboundMessage = OutboundMessage(
    sourceChain: U64, sourceApp: U64, epoch: U64, nullifierRoot: Bytes32, nullifierCount: U64, sequence: nat)

  /** Accounts that an instruction creates are maps keyed by their address seeds. */
  datatype BridgeState = BridgeState(
    authority: Word, pool: Word, localChainId: U64, localAppId: U64, epochCounter: nat, isActive: bool,
    guardianSet: Option<GuardianSet>,
    foreignRoots: map<(U64, U64), ForeignRoot>,
    outbound: map<nat, OutboundMessage>)

  datatype Call =
    | InitializeGuardianSet(signer: Word, keys: seq<Key>, numGuardians: nat)
    | ReceiveEpochRoot(
        tx: seq<Instruction>, body: Body, vaaHash: Bytes32, signatures: seq<GuardianSignature>, clock: int)
    | PublishEpochRoot(epoch: U64, nullifierRoot: Bytes32, nullifierCount: U64)
    | SetActive(signer: Word, active: bool)

  /** The conditions under which `receive_epoch_root` stores a record. */
  ghost predicate Receives(sha: Sha256, s: BridgeState, tx: seq<Instruction>, body: Body, vaaHash: Bytes32,
                           signatures: seq<GuardianSignature>)
  {
    && (body.sourceChain, body.epoch) !in s.foreignRoots
    && s.guardianSet.Some? && s.guardianSet.value.Valid() && s.guardianSet.value.pool == s.pool
    && s.isActive && body.sourceChain != s.localChainId && s.guardianSet.value.isActive
    && sha(Preimage(body)) == vaaHash
    && AllAccepted(tx, s.guardianSet.value, vaaHash, signatures)
  }

  /** One instruction; a failed one changes nothing. */
  ghost function Step(sha: Sha256, s: BridgeState, call: Call): BridgeState {
    match call
    case InitializeGuardianSet(signer, keys, n) =>
      if s.guardianSet.None? && signer == s.authority && |keys| == MAX_GUARDIANS
        && GUARDIAN_THRESHOLD <= n <= MAX_GUARDIANS
      then s.(guardianSet := Some(GuardianSet(s.pool, keys, n, true)))
      else s
    case ReceiveEpochRoot(tx, body, vaaHash, signatures, clock) =>
      if Receives(sha, s, tx, body, vaaHash, signatures)
      then s.(foreignRoots := s.foreignRoots[(body.sourceChain, body.epoch) := ForeignRoot(body, vaaHash, clock)])
      else s
    case PublishEpochRoot(epoch, root, count) =>
      if s.isActive && IsU64(s.epochCounter + 1) && s.epochCounter !in s.outbound
      then s.(epochCounter := s.epochCounter + 1,
              outbound := s.outbound[s.epochCounter :=
                OutboundMessage(s.localChainId, s.localAppId, epoch, root, count, s.epochCounter)])
      else s
    case SetActive(signer, active) =>
      if signer == s.authority then s.(isActive := active) else s
  }

  /** The transaction that the call belongs to landed. */
  ghost predicate Landed(signed: (Key, seq<byte>) -> bool, call: Call) {
    call.ReceiveEpochRoot? ==> Ed25519Sound(signed, call.tx)
  }

  /** If the call stores a root, the runtime verified the signatures it claims. */
  ghost predicate CallVouched(sha: Sha256, s: BridgeState, call: Call) {
    call.ReceiveEpochRoot? && Receives(sha, s, call.tx, call.body, call.vaaHash, call.signatures) ==>
      AllVouched(call.tx, s.guardianSet.value, call.vaaHash, call.signatures)
  }

  /** The call's Ed25519 instructions take key and message from themselves. */
  predicate OwnEntries(call: Call) {
    call.ReceiveEpochRoot? ==> forall i :: 0 <= i < |call.signatures| ==> OwnEntry(call.tx, i)
  }

  /** Signature `i` is `g`'s, and instruction `i` carries it in the form that clients send. */
  ghost predicate Genuine(tx: seq<Instruction>, gs: GuardianSet, message: Bytes32,
                          signatures: seq<GuardianSignature>, i: nat)
    requires gs.Valid() && i < |signatures|
  {
    var g := signatures[i].guardianIndex;
    && g < gs.numGuardians && |gs.keys[g]| == 32 && |signatures[i].signature| == 64
    && (forall j :: 0 <= j < i ==> signatures[j].guardianIndex != g)
    && i < |tx| && tx[i] == OwnInstruction(gs.keys[g], signatures[i].signature, message)
  }

  /** Nothing genuine is turned away: an active bridge receives every foreign root that it
      has no record of, from any thirteen guardians or more. */
  lemma GenuineIsReceived(sha: Sha256, s: BridgeState, tx: seq<Instruction>, body: Body, vaaHash: Bytes32,
                          signatures: seq<GuardianSignature>)
    requires s.isActive && s.guardianSet.Some? && s.guardianSet.value.Valid()
    requires s.guardianSet.value.isActive && s.guardianSet.value.pool == s.pool
    requires body.sourceChain != s.localChainId && (body.sourceChain, body.epoch) !in s.foreignRoots
    requires sha(Preimage(body)) == vaaHash && |signatures| >= 13
    requires forall i :: 0 <= i < |signatures| ==> Genuine(tx, s.guardianSet.value, vaaHash, signatures, i)
    ensures Receives(sha, s, tx, body, vaaHash, signatures)
    ensures AllVouched(tx, s.guardianSet.value, vaaHash, signatures)
  {
    var gs := s.guardianSet.value;
    forall i | 0 <= i < |signatures|
      ensures Accepted(tx, gs, vaaHash, signatures, i) && Vouched(tx, gs, vaaHash, signatures, i)
    {
      assert Genuine(tx, gs, vaaHash, signatures, i);
      OwnInstructionVerifies(tx, i, gs.keys[signatures[i].guardianIndex], signatures[i].signature, vaaHash);
    }
  }

  // ----- Whole runs -----

  ghost predicate Backed(sha: Sha256, signed: (Key, seq<byte>) -> bool, gs: GuardianSet, root: ForeignRoot)
    requires gs.Valid()
  {
    sha(Preimage(root.body)) == root.vaaHash && exists seen :: Quorum(signed, gs, seen, root.vaaHash)
  }

  ghost predicate Inv(sha: Sha256, signed: (Key, seq<byte>) -> bool, s: BridgeState) {
    && (s.guardianSet.Some? ==> s.guardianSet.value.Valid())
    && (s.guardianSet.None? ==> s.foreignRoots == map[])
    && (forall k :: k in s.foreignRoots ==>
          && (s.foreignRoots[k].body.sourceChain, s.foreignRoots[k].body.epoch) == k
          && k.0 != s.localChainId
          && Backed(sha, signed, s.guardianSet.value, s.foreignRoots[k]))
    && (forall q :: q in s.outbound <==> 0 <= q < s.epochCounter)
    && (forall q :: q in s.outbound ==> s.outbound[q].sequence == q && s.outbound[q].sourceChain == s.localChainId)
  }

  /** What `initialize` sets up. */
  function InitialBridge(authority: Word, pool: Word, localChainId: U64, localAppId: U64): BridgeState {
    BridgeState(authority, pool, localChainId, localAppId, 0, true, None, map[], map[])
  }

  /** Every root of `s` is still in `t`, unchanged, and so is the guardian set. */
  ghost predicate KeepsRoots(s: BridgeState, t: BridgeState) {
    && (s.guardianSet.Some? ==> t.guardianSet == s.guardianSet)
    && forall k :: k in s.foreignRoots ==> k in t.foreignRoots && t.foreignRoots[k] == s.foreignRoots[k]
  }

  lemma StepKeepsInv(sha: Sha256, signed: (Key, seq<byte>) -> bool, s: BridgeState, call: Call)
    requires Inv(sha, signed, s) && Landed(signed, call) && CallVouched(sha, s, call)
    ensures Inv(sha, signed, Step(sha, s, call))
  {
    if call.ReceiveEpochRoot? && Receives(sha, s, call.tx, call.body, call.vaaHash, call.signatures) {
      AcceptedIsQuorum(signed, call.tx, s.guardianSet.value, call.vaaHash, call.signatures);
    }
  }

  ghost function Run(sha: Sha256, s: BridgeState, calls: seq<Call>): BridgeState {
    if calls == [] then s else Step(sha, Run(sha, s, calls[..|calls| - 1]), calls[|calls| - 1])
  }

  /** Every call of the run landed, and the runtime verified the signatures of each stored
      root. */
  ghost predicate VouchedRun(sha: Sha256, signed: (Key, seq<byte>) -> bool, s: BridgeState, calls: seq<Call>) {
    forall i :: 0 <= i < |calls| ==> Landed(signed, calls[i]) && CallVouched(sha, Run(sha, s, calls[..i]), calls[i])
  }

  /** A condition on the transactions alone. */
  lemma OwnEntriesVouchForRun(sha: Sha256, signed: (Key, seq<byte>) -> bool, s: BridgeState, calls: seq<Call>)
    requires forall i :: 0 <= i < |calls| ==> Landed(signed, calls[i]) && OwnEntries(calls[i])
    ensures VouchedRun(sha, signed, s, calls)
  {
    forall i | 0 <= i < |calls| ensures CallVouched(sha, Run(sha, s, calls[..i]), calls[i]) {
      var before, call := Run(sha, s, calls[..i]), calls[i];
      if call.ReceiveEpochRoot? && Receives(sha, before, call.tx, call.body, call.vaaHash, call.signatures) {
        OwnEntriesVouch(call.tx, before.guardianSet.value, call.vaaHash, call.signatures);
      }
    }
  }

  /** In every such run from a new bridge, each stored root was signed by a quorum, and the
      outbound messages are numbered without gaps. */
  lemma {:induction false} RunKeepsInv(sha: Sha256, signed: (Key, seq<byte>) -> bool, s: BridgeState, calls: seq<Call>)
    requires Inv(sha, signed, s) && VouchedRun(sha, signed, s, calls)
    ensures Inv(sha, signed, Run(sha, s, calls))
  {
    if calls != [] {
      var last := |calls| - 1;
      assert forall i :: 0 <= i < last ==> calls[..last][..i] == calls[..i];
      RunKeepsInv(sha, signed, s, calls[..last]);
      StepKeepsInv(sha, signed, Run(sha, s, calls[..last]), calls[last]);
    }
  }

  /** A stored root is never overwritten, nor is the guardian set. */
  lemma {:induction false} RootsAreFinal(sha: Sha256, s: BridgeState, calls: seq<Call>, i: nat)
    requires i <= |calls|
    ensures KeepsRoots(Run(sha, s, calls[..i]), Run(sha, s, calls))
  {
    if i < |calls| {
      var last := |calls| - 1;
      assert calls[..last][..i] == calls[..i];
      RootsAreFinal(sha, s, calls[..last], i);
    } else {
      assert calls[..i] == calls;
    }
  }

  /** A run changes none of the bridge's identity. */
  lemma {:induction false} IdentityIsFixed(sha: Sha256, s: BridgeState, calls: seq<Call>)
    ensures var t := Run(sha, s, calls);
            && t.authority == s.authority && t.pool == s.pool
            && t.localChainId == s.localChainId && t.localAppId == s.localAppId
  {
    if calls != [] {
      IdentityIsFixed(sha, s, calls[..|calls| - 1]);
    }
  }

  ghost predicate ReceivesAt(sha: Sha256, s: BridgeState, calls: seq<Call>, i: nat)
    requires i < |calls|
  {
    calls[i].ReceiveEpochRoot? &&
    Receives(sha, Run(sha, s, calls[..i]), calls[i].tx, calls[i].body, calls[i].vaaHash, calls[i].signatures)
  }

  /** What a call that passes every check delivers is on record ever after: its body, its
      hash and its time, under its chain and epoch. */
  lemma ReceivedIsStored(sha: Sha256, s: BridgeState, calls: seq<Call>, i: nat)
    requires i < |calls| && ReceivesAt(sha, s, calls, i)
    ensures var k := (calls[i].body.sourceChain, calls[i].body.epoch);
            && k in Run(sha, s, calls).foreignRoots
            && Run(sha, s, calls).foreignRoots[k] == ForeignRoot(calls[i].body, calls[i].vaaHash, calls[i].clock)
  {
    assert calls[..i + 1][..i] == calls[..i];
    RootsAreFinal(sha, s, calls, i + 1);
  }

  /** Nothing else is on record. */
  lemma {:induction false} StoredWasReceived(sha: Sha256, s: BridgeState, calls: seq<Call>, k: (U64, U64))
    returns (i: nat)
    requires s.foreignRoots == map[] && k in Run(sha, s, calls).foreignRoots
    ensures i < |calls| && ReceivesAt(sha, s, calls, i)
    ensures (calls[i].body.sourceChain, calls[i].body.epoch) == k
    ensures Run(sha, s, calls).foreignRoots[k] == ForeignRoot(calls[i].body, calls[i].vaaHash, calls[i].clock)
  {
    var last := |calls| - 1;
    if k in Run(sha, s, calls[..last]).foreignRoots {
      i := StoredWasReceived(sha, s, calls[..last], k);
      assert calls[..last][..i] == calls[..i];
    } else {
      i := last;
    }
  }

  /** A chain's epoch is received at most once in a run. */
  lemma ReceivedOnce(sha: Sha256, s: BridgeState, calls: seq<Call>, i: nat, j: nat)
    requires i < j < |calls| && ReceivesAt(sha, s, calls, i) && ReceivesAt(sha, s, calls, j)
    ensures (calls[i].body.sourceChain, calls[i].body.epoch) != (calls[j].body.sourceChain, calls[j].body.epoch)
  {
    assert calls[..j][..i] == calls[..i] && calls[..j][i] == calls[i];
    ReceivedIsStored(sha, s, calls[..j], i);
  }

  /** The first acceptable guardian set is stored, with its keys and its size, for good. */
  lemma GuardianSetIsStored(sha: Sha256, s: BridgeState, calls: seq<Call>, i: nat)
    requires i < |calls| && calls[i].InitializeGuardianSet? && calls[i].signer == s.authority
    requires |calls[i].keys| == 19 && 13 <= calls[i].numGuardians <= 19
    requires Run(sha, s, calls[..i]).guardianSet.None?
    ensures Run(sha, s, calls).guardianSet == Some(GuardianSet(s.pool, calls[i].keys, calls[i].numGuardians, true))
  {
    assert calls[..i + 1][..i] == calls[..i];
    IdentityIsFixed(sha, s, calls[..i]);
    RootsAreFinal(sha, s, calls, i + 1);
  }

  lemma {:induction false} OutboundIsFinal(sha: Sha256, s: BridgeState, calls: seq<Call>, i: nat, q: nat)
    requires i <= |calls| && q in Run(sha, s, calls[..i]).outbound
    ensures q in Run(sha, s, calls).outbound
    ensures Run(sha, s, calls).outbound[q] == Run(sha, s, calls[..i]).outbound[q]
  {
    if i < |calls| {
      var last := |calls| - 1;
      assert calls[..last][..i] == calls[..i];
      OutboundIsFinal(sha, s, calls[..last], i, q);
    } else {
      assert calls[..i] == calls;
    }
  }

  ghost predicate Numbered(s: BridgeState) {
    forall q :: q in s.outbound <==> 0 <= q < s.epochCounter
  }

  lemma {:induction false} RunStaysNumbered(sha: Sha256, s: BridgeState, calls: seq<Call>)
    requires Numbered(s)
    ensures Numbered(Run(sha, s, calls))
  {
    if calls != [] {
      RunStaysNumbered(sha, s, calls[..|calls| - 1]);
    }
  }

  /** What an active bridge publishes is on record ever after, under the number that was
      next, with the bridge's own chain and application; and the next number is one more. */
  lemma PublishedIsStored(sha: Sha256, s: BridgeState, calls: seq<Call>, i: nat)
    requires Numbered(s) && i < |calls| && calls[i].PublishEpochRoot?
    requires Run(sha, s, calls[..i]).isActive && IsU64(Run(sha, s, calls[..i]).epochCounter + 1)
    ensures var q := Run(sha, s, calls[..i]).epochCounter;
            && Run(sha, s, calls[..i + 1]).epochCounter == q + 1
            && q in Run(sha, s, calls).outbound
            && Run(sha, s, calls).outbound[q]
               == OutboundMessage(s.localChainId, s.localAppId, calls[i].epoch, calls[i].nullifierRoot,
                                  calls[i].nullifierCount, q)
  {
    assert calls[..i + 1][..i] == calls[..i];
    IdentityIsFixed(sha, s, calls[..i]);
    RunStaysNumbered(sha, s, calls[..i]);
    OutboundIsFinal(sha, s, calls, i + 1, Run(sha, s, calls[..i]).epochCounter);
  }

  /** While the authority does not switch it on again, an inactive bridge receives and
      publishes nothing. */
  lemma {:induction false} InactiveIsFrozen(sha: Sha256, s: BridgeState, calls: seq<Call>)
    requires !s.isActive
    requires forall i :: 0 <= i < |calls| ==> !(calls[i].SetActive? && calls[i].signer == s.authority)
    ensures Run(sha, s, calls) == s.(guardianSet := Run(sha, s, calls).guardianSet)
  {
    if calls != [] {
      InactiveIsFrozen(sha, s, calls[..|calls| - 1]);
    }
  }

  /** The flag is what the authority set last. */
  lemma {:induction false} ActiveIsSet(sha: Sha256, s: BridgeState, calls: seq<Call>, i: nat)
    requires i < |calls| && calls[i].SetActive? && calls[i].signer == s.authority
    requires forall j :: i < j < |calls| ==> !(calls[j].SetActive? && calls[j].signer == s.authority)
    ensures Run(sha, s, calls).isActive == calls[i].active
  {
    var last := |calls| - 1;
    IdentityIsFixed(sha, s, calls[..last]);
    if i < last {
      ActiveIsSet(sha, s, calls[..last], i);
    }
  }

  /** Call `i` of a run published `m`. */
  ghost predicate PublishedBy(sha: Sha256, s: BridgeState, calls: seq<Call>, m: OutboundMessage, i: nat)
    requires i < |calls|
  {
    && calls[i] == PublishEpochRoot(m.epoch, m.nullifierRoot, m.nullifierCount)
    && Run(sha, s, calls[..i]).epochCounter == m.sequence && Run(sha, s, calls[..i]).isActive
  }

  /** Every outbound message of a run is what some call published while the bridge was
      active, under the sequence number that was next at the time. */
  lemma {:induction false} OutboundIsHistory(sha: Sha256, s: BridgeState, calls: seq<Call>, q: nat) returns (i: nat)
    requires s.outbound == map[] && q in Run(sha, s, calls).outbound
    ensures var m := Run(sha, s, calls).outbound[q];
            i < |calls| && m.sequence == q && PublishedBy(sha, s, calls, m, i)
  {
    var last := |calls| - 1;
    if q in Run(sha, s, calls[..last]).outbound {
      i := OutboundIsHistory(sha, s, calls[..last], q);
      assert calls[..last][..i] == calls[..i];
    } else {
      i := last;
    }
  }

  // ----- Agreement between chains -----

  /** A key equivocates when it signs different hashes for one chain and epoch. */
  ghost predicate Equivocates(sha: Sha256, signed: (Key, seq<byte>) -> bool, key: Key) {
    exists a: Body, b: Body ::
      && (a.sourceChain, a.epoch) == (b.sourceChain, b.epoch)
      && sha(Preimage(a)) != sha(Preimage(b))
      && signed(key, sha(Preimage(a))) && signed(key, sha(Preimage(b)))
  }

  ghost predicate DistinctKeys(gs: GuardianSet)
    requires gs.Valid()
  {
    forall i, j :: 0 <= i < j < gs.numGuardians ==> gs.keys[i] != gs.keys[j]
  }

  /** More guardians than bad keys means a guardian with a good key. */
  lemma {:induction false} HonestGuardian(gs: GuardianSet, indices: set<nat>, bad: set<Key>) returns (i: nat)
    requires gs.Valid() && DistinctKeys(gs)
    requires forall i :: i in indices ==> 0 <= i < gs.numGuardians
    requires |indices| > |bad|
    ensures i in indices && gs.keys[i] !in bad
    decreases |indices|
  {
    i :| i in indices;
    if gs.keys[i] in bad {
      var j := HonestGuardian(gs, indices - {i}, bad - {gs.keys[i]});
      i := j;
    }
  }

  /** Two bridges that trust the same guardians never hold different roots for one chain
      and epoch, if a quorum backs each root and at most six guardian keys equivocate; or
      else SHA-256 collides. */
  lemma BridgesAgree(sha: Sha256, signed: (Key, seq<byte>) -> bool, s: BridgeState, t: BridgeState,
                     k: (U64, U64), bad: set<Key>)
    requires Inv(sha, signed, s) && Inv(sha, signed, t)
    requires k in s.foreignRoots && k in t.foreignRoots
    requires s.guardianSet.value.keys == t.guardianSet.value.keys
    requires s.guardianSet.value.numGuardians == t.guardianSet.value.numGuardians
    requires DistinctKeys(s.guardianSet.value)
    requires |bad| <= 6 && forall key :: Equivocates(sha, signed, key) ==> key in bad
    ensures var a, b := s.foreignRoots[k].body, t.foreignRoots[k].body;
            || a == b
            || (Preimage(a) != Preimage(b) && sha(Preimage(a)) == sha(Preimage(b)))
  {
    var gs := s.guardianSet.value;
    var a, b := s.foreignRoots[k], t.foreignRoots[k];
    var qa :| Quorum(signed, gs, qa, a.vaaHash);
    var qb :| Quorum(signed, t.guardianSet.value, qb, b.vaaHash);
    QuorumsIntersect(gs, qa, qb);
    var i := HonestGuardian(gs, qa * qb, bad);
    assert !Equivocates(sha, signed, gs.keys[i]);
    assert signed(gs.keys[i], a.vaaHash) && signed(gs.keys[i], b.vaaHash);
    if Preimage(a.body) == Preimage(b.body) {
      PreimageInjective(a.body, b.body);
    }
  }

  /** The same for any two runs of any two new bridges: whatever each received, and in
      whatever order, they hold one root per chain and epoch. */
  lemma RunsAgree(sha: Sha256, signed: (Key, seq<byte>) -> bool, s0: BridgeState, t0: BridgeState,
                  sCalls: seq<Call>, tCalls: seq<Call>, k: (U64, U64), bad: set<Key>)
    requires s0 == InitialBridge(s0.authority, s0.pool, s0.localChainId, s0.localAppId)
    requires t0 == InitialBridge(t0.authority, t0.pool, t0.localChainId, t0.localAppId)
    requires VouchedRun(sha, signed, s0, sCalls) && VouchedRun(sha, signed, t0, tCalls)
    requires var s, t := Run(sha, s0, sCalls), Run(sha, t0, tCalls);
             && k in s.foreignRoots && k in t.foreignRoots
             && s.guardianSet.Some? && t.guardianSet.Some? && s.guardianSet.value.Valid()
             && s.guardianSet.value.keys == t.guardianSet.value.keys
             && s.guardianSet.value.numGuardians == t.guardianSet.value.numGuardians
             && DistinctKeys(s.guardianSet.value)
    requires |bad| <= 6 && forall key :: Equivocates(sha, signed, key) ==> key in bad
    ensures var a, b := Run(sha, s0, sCalls).foreignRoots[k].body, Run(sha, t0, tCalls).foreignRoots[k].body;
            || a == b
            || (Preimage(a) != Preimage(b) && sha(Preimage(a)) == sha(Preimage(b)))
  {
    RunKeepsInv(sha, signed, s0, sCalls);
    RunKeepsInv(sha, signed, t0, tCalls);
    BridgesAgree(sha, signed, Run(sha, s0, sCalls), Run(sha, t0, tCalls), k, bad);
  }
}

/** The bridge program as it runs (programs/holanc-bridge/src/lib.rs). */
module BridgeProgram {
  import opened Base
  import opened Bridge
  import opened Ed25519

  class Program {
    const sha: Sha256
    const authority: Word
    const pool: Word
    const localChainId: U64
    const localAppId: U64
    var epochCounter: nat
    var isActive: bool
    var guardianSet: Option<GuardianSet>
    var foreignRoots: map<(U64, U64), ForeignRoot>
    var outbound: map<nat, OutboundMessage>

    ghost function State(): BridgeState
      reads this
    {
      BridgeState(authority, pool, localChainId, localAppId, epochCounter, isActive,
                  guardianSet, foreignRoots, outbound)
    }

    ghost predicate Valid()
      reads this
    {
      && (guardianSet.Some? ==> guardianSet.value.Valid())
      && forall q :: q in outbound ==> 0 <= q < epochCounter
    }

    constructor (sha: Sha256, authority: Word, pool: Word, localChainId: U64, localAppId: U64)
      ensures Valid() && State() == InitialBridge(authority, pool, localChainId, localAppId) && this.sha == sha
      ensures this.authority == authority && this.pool == pool
      ensures this.localChainId == localChainId && this.localAppId == localAppId
      ensures epochCounter == 0 && isActive && guardianSet == None && foreignRoots == map[] && outbound == map[]
    {
      this.sha, this.authority, this.pool := sha, authority, pool;
      this.localChainId, this.localAppId := localChainId, localAppId;
      epochCounter, isActive, guardianSet, foreignRoots, outbound := 0, true, None, map[], map[];
    }

    method InitializeGuardianSet(signer: Word, keys: seq<Key>, numGuardians: nat) returns (r: Result<(), BridgeError>)
      requires Valid() && |keys| == MAX_GUARDIANS
      modifies this
      ensures Valid()
      ensures State() == Step(sha, old(State()), Call.InitializeGuardianSet(signer, keys, numGuardians))
      ensures r.Success? <==> old(guardianSet).None? && signer == authority && 13 <= numGuardians <= 19
      ensures r.Success? ==> guardianSet == Some(GuardianSet(pool, keys, numGuardians, true))
      ensures r.Failure? ==> unchanged(this)
      ensures unchanged(this`epochCounter, this`isActive, this`foreignRoots, this`outbound)
    {
      if guardianSet.Some? { return Failure(AccountAlreadyExists); }
      if authority != signer { return Failure(Unauthorized); }
      if !(numGuardians >= GUARDIAN_THRESHOLD && numGuardians <= 19) { return Failure(InvalidGuardianCount); }
      guardianSet := Some(GuardianSet(pool, keys, numGuardians, true));
      r := Success(());
    }

    /** Stores the root exactly when every check passes; the record of a chain and epoch
        can be created only once. */
    method ReceiveEpochRoot(tx: seq<Instruction>, body: Body, vaaHash: Bytes32,
                            signatures: seq<GuardianSignature>, clock: int)
      returns (r: Result<(), BridgeError>)
      requires Valid()
      modifies this
      ensures Valid()
      ensures State() == Step(sha, old(State()), Call.ReceiveEpochRoot(tx, body, vaaHash, signatures, clock))
      ensures r.Success? <==>
                && (body.sourceChain, body.epoch) !in old(foreignRoots)
                && old(guardianSet).Some? && old(guardianSet).value.pool == pool && old(guardianSet).value.isActive
                && old(isActive) && body.sourceChain != localChainId
                && sha(Preimage(body)) == vaaHash && AllAccepted(tx, old(guardianSet).value, vaaHash, signatures)
      ensures r.Success? ==>
                foreignRoots == old(foreignRoots)[(body.sourceChain, body.epoch) := ForeignRoot(body, vaaHash, clock)]
      ensures r.Failure? ==> unchanged(this)
      ensures unchanged(this`epochCounter, this`isActive, this`guardianSet, this`outbound)
    {
      if (body.sourceChain, body.epoch) in foreignRoots { return Failure(AccountAlreadyExists); }
      if guardianSet.None? || guardianSet.value.pool != pool { return Failure(GuardianSetPoolMismatch); }
      if !isActive { return Failure(BridgeInactive); }
      if body.sourceChain == localChainId { return Failure(CannotReceiveOwnChain); }
      if !guardianSet.value.isActive { return Failure(GuardianSetInactive); }
      var computedBodyHash := sha(Preimage(body));
      if computedBodyHash != vaaHash { return Failure(VaaBodyHashMismatch); }
      r := CountSignatures(tx, guardianSet.value, vaaHash, signatures);
      if r.Success? {
        foreignRoots := foreignRoots[(body.sourceChain, body.epoch) := ForeignRoot(body, vaaHash, clock)];
      }
    }

    method PublishEpochRoot(epoch: U64, nullifierRoot: Bytes32, nullifierCount: U64)
      returns (r: Result<(), BridgeError>)
      requires Valid()
      modifies this
      ensures Valid()
      ensures State() == Step(sha, old(State()), Call.PublishEpochRoot(epoch, nullifierRoot, nullifierCount))
      ensures r.Success? <==> old(isActive) && IsU64(old(epochCounter) + 1)
      ensures r.Success? ==>
                && outbound == old(outbound)[old(epochCounter) :=
                     OutboundMessage(localChainId, localAppId, epoch, nullifierRoot, nullifierCount, old(epochCounter))]
                && old(epochCounter) !in old(outbound) && epochCounter == old(epochCounter) + 1
      ensures r.Failure? ==> unchanged(this)
      ensures unchanged(this`isActive, this`guardianSet, this`foreignRoots)
    {
      if !isActive { return Failure(BridgeInactive); }
      if !IsU64(epochCounter + 1) { return Failure(Panic); }
      outbound := outbound[epochCounter :=
        OutboundMessage(localChainId, localAppId, epoch, nullifierRoot, nullifierCount, epochCounter)];
      epochCounter := epochCounter + 1;
      r := Success(());
    }

    method SetActive(signer: Word, active: bool) returns (r: Result<(), BridgeError>)
      requires Valid()
      modifies this
      ensures Valid()
      ensures State() == Step(sha, old(State()), Call.SetActive(signer, active))
      ensures r.Success? <==> signer == authority
      ensures isActive == if signer == authority then active else old(isActive)
      ensures unchanged(this`epochCounter, this`guardianSet, this`foreignRoots, this`outbound)
    {
      if signer != authority { return Failure(Unauthorized); }
      isActive := active;
      r := Success(());
    }
  }
}

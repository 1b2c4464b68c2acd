/** The Ed25519 instructions that must accompany guardian signatures: what the runtime
    verifies of them, and what `verify_ed25519_ix` reads of them
    (programs/holanc-bridge/src/lib.rs). */
module Ed25519 {
  import opened Base

  const ED25519_PROGRAM: nat := 1

  /** The instruction index that means "this instruction". */
  const THIS_INSTRUCTION: nat := 0xFFFF

  type Key = seq<byte>
  type Signature = seq<byte>

  /** An instruction of the enclosing transaction. */
  datatype Instruction = Instruction(programId: nat, data: seq<byte>)

  datatype BridgeError =
    | BridgeInactive | CannotReceiveOwnChain | Unauthorized | GuardianSetInactive | VaaBodyHashMismatch
    | InsufficientGuardianSignatures | InvalidGuardianIndex | DuplicateGuardianSignature
    | InvalidGuardianSignature | InvalidGuardianCount | GuardianSetPoolMismatch | InvalidEd25519Instruction
    | AccountAlreadyExists | Panic

  /** A little-endian `u16` at `at`. */
  function U16At(data: seq<byte>, at: nat): nat
    requires at + 1 < |data|
  {
    data[at] as nat + 256 * data[at + 1] as nat
  }

  datatype Embedded = Embedded(signature: Signature, key: Key, message: seq<byte>)

  // ----- What the program reads -----

  /** Reads an instruction as `verify_ed25519_ix` does: always from its own data, whatever
      its instruction indices say.  The header is read without a length check, so 2 to 13
      bytes of data abort the transaction. */
  function ReadEmbedded(data: seq<byte>): Result<Embedded, BridgeError> {
    if |data| < 2 || data[0] == 0 then Failure(InvalidEd25519Instruction)
    else if |data| < 14 then Failure(Panic)
    else
      var sigAt, keyAt, msgAt, msgSize := U16At(data, 2), U16At(data, 6), U16At(data, 10), U16At(data, 12);
      if |data| < sigAt + 64 || |data| < keyAt + 32 || |data| < msgAt + msgSize || msgSize != 32 then
        Failure(InvalidEd25519Instruction)
      else
        Success(Embedded(data[sigAt..sigAt + 64], data[keyAt..keyAt + 32], data[msgAt..msgAt + 32]))
  }

  function VerifyEd25519Ix(tx: seq<Instruction>, sigIdx: nat, key: Key, signature: Signature, message: Bytes32)
    : Result<(), BridgeError>
  {
    if sigIdx >= |tx| || tx[sigIdx].programId != ED25519_PROGRAM then Failure(InvalidEd25519Instruction)
    else
      var read := ReadEmbedded(tx[sigIdx].data);
      if read.Failure? then Failure(read.error)
      else if read.value != Embedded(signature, key, message) then Failure(InvalidGuardianSignature)
      else Success(())
  }

  // ----- What the runtime verifies -----

  /** Entry `n` of an Ed25519 instruction: offsets, and the index of the instruction that
      each offset counts in. */
  datatype Header = Header(
    sigAt: nat, sigFrom: nat, keyAt: nat, keyFrom: nat, msgAt: nat, msgSize: nat, msgFrom: nat)

  function HeaderAt(data: seq<byte>, n: nat): Header
    requires 14 * n + 16 <= |data|
  {
    var b := 14 * n + 2;
    Header(U16At(data, b), U16At(data, b + 2), U16At(data, b + 4), U16At(data, b + 6),
           U16At(data, b + 8), U16At(data, b + 10), U16At(data, b + 12))
  }

  /** `size` bytes at `at` in the instruction that `from` names, seen from instruction `own`. */
  function Part(tx: seq<Instruction>, own: nat, from: nat, at: nat, size: nat): Option<seq<byte>> {
    var source := if from == THIS_INSTRUCTION then own else from;
    if source < |tx| && at + size <= |tx[source].data| then Some(tx[source].data[at..at + size]) else None
  }

  /** The signature, key and message that entry `n` of instruction `i` resolves to. */
  function Resolve(tx: seq<Instruction>, i: nat, n: nat): Option<Embedded>
    requires i < |tx| && 14 * n + 16 <= |tx[i].data|
  {
    var h := HeaderAt(tx[i].data, n);
    var signature := Part(tx, i, h.sigFrom, h.sigAt, 64);
    var key := Part(tx, i, h.keyFrom, h.keyAt, 32);
    var message := Part(tx, i, h.msgFrom, h.msgAt, h.msgSize);
    if signature.Some? && key.Some? && message.Some? then Some(Embedded(signature.value, key.value, message.value))
    else None
  }

  /** Instruction `i` is an Ed25519 instruction with an entry `n`. */
  predicate IsEntry(tx: seq<Instruction>, i: nat, n: nat) {
    && i < |tx| && tx[i].programId == ED25519_PROGRAM
    && 1 <= |tx[i].data| && n < tx[i].data[0] as nat
  }

  predicate EntryReads(tx: seq<Instruction>, i: nat, n: nat) {
    i < |tx| && 14 * n + 16 <= |tx[i].data| && Resolve(tx, i, n).Some?
  }

  /** The runtime can read every entry of the transaction. */
  ghost predicate Lands(tx: seq<Instruction>) {
    forall i, n :: IsEntry(tx, i, n) ==> EntryReads(tx, i, n)
  }

  predicate EntryVerifies(tx: seq<Instruction>, i: nat, n: nat, key: Key, message: seq<byte>) {
    && IsEntry(tx, i, n) && EntryReads(tx, i, n)
    && Resolve(tx, i, n).value.key == key && Resolve(tx, i, n).value.message == message
  }

  /** Some entry of the transaction has the runtime verify a signature of `message` under
      `key`. */
  ghost predicate Verifies(tx: seq<Instruction>, key: Key, message: seq<byte>) {
    exists i, n :: EntryVerifies(tx, i, n, key, message)
  }

  /** `signed(key, message)`: the key's holder signed the message.  What the runtime has
      verified in a transaction that landed was signed. */
  ghost predicate Ed25519Sound(signed: (Key, seq<byte>) -> bool, tx: seq<Instruction>) {
    Lands(tx) && forall key, message :: Verifies(tx, key, message) ==> signed(key, message)
  }

  // ----- Where the two agree -----

  /** The first entry of instruction `i` takes its key and its message from the instruction
      itself, which whoever assembles or relays the transaction can see. */
  predicate OwnEntry(tx: seq<Instruction>, i: nat) {
    i < |tx| && tx[i].programId == ED25519_PROGRAM && |tx[i].data| >= 16 ==>
      var h := HeaderAt(tx[i].data, 0);
      (h.keyFrom == THIS_INSTRUCTION || h.keyFrom == i) && (h.msgFrom == THIS_INSTRUCTION || h.msgFrom == i)
  }

  /** The program's reading of an instruction whose first entry is its own is what the
      runtime verified. */
  lemma OwnEntryVerifies(tx: seq<Instruction>, i: nat, key: Key, signature: Signature, message: Bytes32)
    requires Lands(tx) && OwnEntry(tx, i)
    requires VerifyEd25519Ix(tx, i, key, signature, message).Success?
    ensures Verifies(tx, key, message)
  {
    assert IsEntry(tx, i, 0);
    assert EntryReads(tx, i, 0);
    assert EntryVerifies(tx, i, 0, key, message);
  }

  /** The program's reading is what the runtime verified, at this entry, exactly when the
      bytes that the entry's indices resolve to are the bytes it embeds. */
  lemma EntryVerifiesIff(tx: seq<Instruction>, i: nat, key: Key, signature: Signature, message: Bytes32)
    requires Lands(tx) && VerifyEd25519Ix(tx, i, key, signature, message).Success?
    ensures EntryReads(tx, i, 0)
    ensures EntryVerifies(tx, i, 0, key, message) <==>
              Resolve(tx, i, 0).value.key == ReadEmbedded(tx[i].data).value.key
              && Resolve(tx, i, 0).value.message == ReadEmbedded(tx[i].data).value.message
  {
    assert IsEntry(tx, i, 0);
  }

  /** An instruction backs one signature of one message under one key. */
  lemma BacksOneClaim(tx: seq<Instruction>, i: nat, key: Key, signature: Signature, message: Bytes32,
                      key': Key, signature': Signature, message': Bytes32)
    requires VerifyEd25519Ix(tx, i, key, signature, message).Success?
    requires VerifyEd25519Ix(tx, i, key', signature', message').Success?
    ensures (key, signature, message) == (key', signature', message')
    ensures |key| == 32 && |signature| == 64
  {}

  // ----- The instruction that clients send -----

  /** One entry with its own key, signature and message behind the header, in this order. */
  function OwnInstruction(key: Key, signature: Signature, message: seq<byte>): Instruction {
    Instruction(ED25519_PROGRAM, [1, 0, 48, 0, 255, 255, 16, 0, 255, 255, 112, 0, 32, 0, 255, 255]
                                 + key + signature + message)
  }

  /** It verifies what it embeds, to the program and to the runtime. */
  lemma OwnInstructionVerifies(tx: seq<Instruction>, i: nat, key: Key, signature: Signature, message: Bytes32)
    requires |key| == 32 && |signature| == 64 && i < |tx| && tx[i] == OwnInstruction(key, signature, message)
    ensures VerifyEd25519Ix(tx, i, key, signature, message) == Success(())
    ensures OwnEntry(tx, i) && EntryVerifies(tx, i, 0, key, message)
  {
    var data := tx[i].data;
    assert data[16..48] == key && data[48..112] == signature && data[112..144] == message;
    assert HeaderAt(data, 0) == Header(48, 0xFFFF, 16, 0xFFFF, 112, 32, 0xFFFF);
  }
}

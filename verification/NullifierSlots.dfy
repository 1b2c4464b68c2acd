/** Which slot a nullifier gets, from the bytes that are hashed
    (programs/holanc-nullifier/src/lib.rs). */
module NullifierSlots {
  import opened Base
  import opened Nullifier
  import opened Radix

  // ----- The hashed bytes -----

  /** Byte `i` of the 32 bytes of a word, most significant first. */
  function WordByte(n: nat, i: nat): nat
    requires i < 32
  {
    n / Pow256(31 - i) % 256
  }

  /** Byte `i` of a `u64`, least significant first. */
  function LowByte(n: nat, i: nat): nat {
    n / Pow256(i) % 256
  }

  /** A V1 registration hashes the 32 bytes of the nullifier, a V2 registration these, the
      chain id and the application id. */
  ghost predicate IsMessage(call: Call, m: seq<byte>)
    requires Registers(call)
  {
    match call
    case RegisterV1(nullifier) =>
      |m| == 32 && forall i :: 0 <= i < 32 ==> m[i] as nat == WordByte(nullifier, i)
    case RegisterV2(nullifier, chainId, appId) =>
      && |m| == 48
      && (forall i :: 0 <= i < 32 ==> m[i] as nat == WordByte(nullifier, i))
      && (forall i :: 0 <= i < 8 ==> m[32 + i] as nat == LowByte(chainId, i))
      && (forall i :: 0 <= i < 8 ==> m[40 + i] as nat == LowByte(appId, i))
  }

  /** The arguments have the widths of the instruction's parameters. */
  predicate InRange(call: Call)
    requires Registers(call)
  {
    match call
    case RegisterV1(nullifier) => nullifier < Pow256(32)
    case RegisterV2(nullifier, chainId, appId) => nullifier < Pow256(32) && IsU64(chainId) && IsU64(appId)
  }

  lemma WordBytes(n: nat)
    ensures forall i :: 0 <= i < 32 ==> ToBytes(n, 32)[i] as nat == WordByte(n, i)
  {
    forall i | 0 <= i < 32 ensures ToBytes(n, 32)[i] as nat == WordByte(n, i) {
      ToBytesAt(n, 32, 31 - i);
    }
  }

  lemma LowBytes(n: nat)
    ensures forall i :: 0 <= i < 8 ==> LittleEndian64(n)[i] as nat == LowByte(n, i)
  {
    forall i | 0 <= i < 8 ensures LittleEndian64(n)[i] as nat == LowByte(n, i) {
      LittleEndian64At(n, i);
    }
  }

  lemma MessageV1(nullifier: Word, m: seq<byte>)
    ensures IsMessage(RegisterV1(nullifier), m) <==> m == ToBytes(nullifier, 32)
  {
    WordBytes(nullifier);
  }

  lemma MessageV2(nullifier: Word, chainId: nat, appId: nat, m: seq<byte>)
    ensures IsMessage(RegisterV2(nullifier, chainId, appId), m)
            <==> m == ToBytes(nullifier, 32) + LittleEndian64(chainId) + LittleEndian64(appId)
  {
    WordBytes(nullifier);
    LowBytes(chainId);
    LowBytes(appId);
  }

  /** Every registration has one message. */
  lemma MessageOf(call: Call) returns (m: seq<byte>)
    requires Registers(call)
    ensures forall n :: IsMessage(call, n) <==> n == m
  {
    match call {
      case RegisterV1(nullifier) =>
        m := ToBytes(nullifier, 32);
        forall n ensures IsMessage(call, n) <==> n == m { MessageV1(nullifier, n); }
      case RegisterV2(nullifier, chainId, appId) =>
        m := ToBytes(nullifier, 32) + LittleEndian64(chainId) + LittleEndian64(appId);
        forall n ensures IsMessage(call, n) <==> n == m { MessageV2(nullifier, chainId, appId, n); }
    }
  }

  lemma ToBytesInjective(a: nat, b: nat, k: nat)
    requires a < Pow256(k) && b < Pow256(k) && ToBytes(a, k) == ToBytes(b, k)
    ensures a == b
  {
    ToBytesValue(a, k);
    ToBytesValue(b, k);
  }

  lemma V2Injective(n: Word, chain: U64, app: U64, n': Word, chain': U64, app': U64)
    requires n < Pow256(32) && n' < Pow256(32)
    requires ToBytes(n, 32) + LittleEndian64(chain) + LittleEndian64(app)
             == ToBytes(n', 32) + LittleEndian64(chain') + LittleEndian64(app')
    ensures n == n' && chain == chain' && app == app'
  {
    hide *;
    var m := ToBytes(n, 32) + LittleEndian64(chain) + LittleEndian64(app);
    assert ToBytes(n, 32) == m[..32] == ToBytes(n', 32);
    assert LittleEndian64(chain) == m[32..40] == LittleEndian64(chain');
    assert LittleEndian64(app) == m[40..] == LittleEndian64(app');
    ToBytesInjective(n, n', 32);
    LittleEndian64Injective(chain, chain');
    LittleEndian64Injective(app, app');
  }

  /** Different registrations hash different messages: chain and application separate equal
      nullifiers, and the two versions of the instruction never meet. */
  lemma MessagesDiffer(a: Call, b: Call, m: seq<byte>)
    requires Registers(a) && Registers(b) && InRange(a) && InRange(b)
    requires IsMessage(a, m) && IsMessage(b, m)
    ensures a == b
  {
    match (a, b) {
      case (RegisterV1(n), RegisterV1(n')) =>
        MessageV1(n, m);
        MessageV1(n', m);
        ToBytesInjective(n, n', 32);
      case (RegisterV2(n, chain, app), RegisterV2(n', chain', app')) =>
        MessageV2(n, chain, app, m);
        MessageV2(n', chain', app', m);
        V2Injective(n, chain, app, n', chain', app');
      case _ =>
    }
  }

  // ----- The slot -----

  /** The slot is the little-endian number that the first two bytes of the message's digest
      spell, modulo 2048. */
  lemma SlotIs(sha: Digest, call: Call, m: seq<byte>)
    requires Registers(call) && IsMessage(call, m)
    ensures Slot(sha, call) == (sha(m).0 as nat + 256 * sha(m).1 as nat) % 2048
  {
    match call
    case RegisterV1(nullifier) => MessageV1(nullifier, m);
    case RegisterV2(nullifier, chainId, appId) => MessageV2(nullifier, chainId, appId, m);
  }

  /** The same for the slot that the pool's spends and `is_nullifier_spent` look at. */
  lemma SlotV1Is(sha: Digest, nullifier: Word, m: seq<byte>)
    requires |m| == 32 && forall i :: 0 <= i < 32 ==> m[i] as nat == WordByte(nullifier, i)
    ensures SlotV1(sha, nullifier) == (sha(m).0 as nat + 256 * sha(m).1 as nat) % 2048
  {
    SlotIs(sha, RegisterV1(nullifier), m);
  }

  /** Two registrations stand in each other's way if and only if the 16-bit numbers at the
      head of their digests agree modulo 2048. */
  lemma SecondSucceedsIff(sha: Digest, s: Registry, a: Call, b: Call, m: seq<byte>, n: seq<byte>)
    requires Registers(a) && Registers(b) && IsMessage(a, m) && IsMessage(b, n)
    requires Attempt(sha, s, a).Success? && Attempt(sha, s, b).Success?
    ensures Attempt(sha, Step(sha, s, a), b).Success? <==>
              (sha(m).0 as nat + 256 * sha(m).1 as nat) % 2048 != (sha(n).0 as nat + 256 * sha(n).1 as nat) % 2048
  {
    SlotIs(sha, a, m);
    SlotIs(sha, b, n);
  }

  function TwoBytes(slot: nat): (d: (byte, byte))
    requires slot < SLOTS_PER_PAGE
    ensures (d.0 as nat + 256 * d.1 as nat) % 2048 == slot
  {
    ((slot % 256) as byte, (slot / 256) as byte)
  }

  lemma MessagesOfTwo(a: Call, b: Call) returns (m: seq<byte>, n: seq<byte>)
    requires Registers(a) && Registers(b) && InRange(a) && InRange(b) && a != b
    ensures IsMessage(a, m) && IsMessage(b, n) && m != n
  {
    hide *;
    m := MessageOf(a);
    n := MessageOf(b);
    if m == n {
      MessagesDiffer(a, b, m);
    }
  }

  /** Nothing but the digest ties two different registrations together: some digest sends
      them to any two slots one likes. */
  lemma AnySlots(a: Call, b: Call, i: nat, j: nat) returns (sha: Digest)
    requires Registers(a) && Registers(b) && InRange(a) && InRange(b) && a != b
    requires i < SLOTS_PER_PAGE && j < SLOTS_PER_PAGE
    ensures Slot(sha, a) == i && Slot(sha, b) == j
  {
    hide *;
    var m, n := MessagesOfTwo(a, b);
    sha := x => if x == m then TwoBytes(i) else TwoBytes(j);
    SlotIs(sha, a, m);
    SlotIs(sha, b, n);
  }

  /** So whenever two slots are free, some digest lets both registrations succeed, in this
      order. */
  lemma BothMaySucceed(s: Registry, a: Call, b: Call, i: nat, j: nat) returns (sha: Digest)
    requires Registers(a) && Registers(b) && InRange(a) && InRange(b) && a != b
    requires i < SLOTS_PER_PAGE && j < SLOTS_PER_PAGE && i != j && i !in s.slots && j !in s.slots
    ensures Attempt(sha, s, a).Success? && Attempt(sha, Step(sha, s, a), b).Success?
  {
    sha := AnySlots(a, b, i, j);
  }
}

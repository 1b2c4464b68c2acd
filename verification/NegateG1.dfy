/** Negation of a serialized alt_bn128 G1 point
    (`negate_g1`, programs/holanc-verifier/src/lib.rs). */
module NegateG1 {
  import opened Base
  import opened Radix

  const G1_SIZE: nat := 64

  /** The base field prime of alt_bn128, big-endian. */
  const Q_BYTES: seq<byte> := [
    0x30, 0x64, 0x4e, 0x72, 0xe1, 0x31, 0xa0, 0x29,
    0xb8, 0x50, 0x45, 0xb6, 0x81, 0x81, 0x58, 0x5d,
    0x97, 0x81, 0x6a, 0x91, 0x68, 0x71, 0xca, 0x8d,
    0x3c, 0x20, 0x8c, 0x16, 0xd8, 0x7c, 0xfd, 0x47]

  const Q: nat := BigEndian(Q_BYTES)

  /** The coordinates that 64 bytes spell. */
  function X(point: seq<byte>): nat
    requires |point| == G1_SIZE
  {
    BigEndian(point[..32])
  }

  function Y(point: seq<byte>): nat
    requires |point| == G1_SIZE
  {
    BigEndian(point[32..])
  }

  // ----- Schoolbook subtraction from the right -----

  /** `a - b - borrow`, byte by byte, and the borrow that is left over. */
  function Subtract(a: seq<byte>, b: seq<byte>, borrow: nat): (r: (seq<byte>, nat))
    requires |a| == |b| && borrow <= 1
    ensures |r.0| == |a| && r.1 <= 1
  {
    if a == [] then ([], borrow) else
      var last := |a| - 1;
      var diff := a[last] as nat + 256 - b[last] as nat - borrow;
      var (front, out) := Subtract(a[..last], b[..last], if diff < 256 then 1 else 0);
      (front + [(diff % 256) as byte], out)
  }

  lemma BigEndianAppend(s: seq<byte>, x: byte)
    ensures BigEndian(s + [x]) == BigEndian(s) * 256 + x as nat
  {
    assert (s + [x])[..|s|] == s;
  }

  // ----- The prime -----

  function Four(a: byte, b: byte, c: byte, d: byte): nat {
    ((a as nat * 256 + b as nat) * 256 + c as nat) * 256 + d as nat
  }

  /** Four more bytes. */
  lemma BigEndianAppend4(s: seq<byte>, a: byte, b: byte, c: byte, d: byte)
    ensures BigEndian(s + [a, b, c, d]) == BigEndian(s) * 0x1_0000_0000 + Four(a, b, c, d)
  {
    BigEndianAppend(s, a);
    BigEndianAppend(s + [a], b);
    BigEndianAppend(s + [a] + [b], c);
    BigEndianAppend(s + [a] + [b] + [c], d);
    assert s + [a, b, c, d] == s + [a] + [b] + [c] + [d];
  }

  lemma PrimeHigh() returns (s: seq<byte>)
    ensures s == Q_BYTES[..16] && BigEndian(s) == 0x30644e72_e131a029_b85045b6_8181585d
  {
    s := [];
    assert BigEndian(s) == 0;
    hide BigEndian;
    BigEndianAppend4(s, 0x30, 0x64, 0x4e, 0x72);
    s := s + [0x30, 0x64, 0x4e, 0x72];
    BigEndianAppend4(s, 0xe1, 0x31, 0xa0, 0x29);
    s := s + [0xe1, 0x31, 0xa0, 0x29];
    BigEndianAppend4(s, 0xb8, 0x50, 0x45, 0xb6);
    s := s + [0xb8, 0x50, 0x45, 0xb6];
    BigEndianAppend4(s, 0x81, 0x81, 0x58, 0x5d);
    s := s + [0x81, 0x81, 0x58, 0x5d];
  }

  lemma PrimeLow(high: seq<byte>) returns (s: seq<byte>)
    requires high == Q_BYTES[..16]
    ensures s == Q_BYTES
    ensures BigEndian(s)
            == BigEndian(high) * 0x1_00000000_00000000_00000000_00000000 + 0x97816a91_6871ca8d_3c208c16_d87cfd47
  {
    hide BigEndian;
    s := high;
    BigEndianAppend4(s, 0x97, 0x81, 0x6a, 0x91);
    s := s + [0x97, 0x81, 0x6a, 0x91];
    BigEndianAppend4(s, 0x68, 0x71, 0xca, 0x8d);
    s := s + [0x68, 0x71, 0xca, 0x8d];
    BigEndianAppend4(s, 0x3c, 0x20, 0x8c, 0x16);
    s := s + [0x3c, 0x20, 0x8c, 0x16];
    BigEndianAppend4(s, 0xd8, 0x7c, 0xfd, 0x47);
    s := s + [0xd8, 0x7c, 0xfd, 0x47];
  }

  /** q is the base field prime of alt_bn128, section "Definition of the groups" of EIP-197. */
  lemma PrimeIs()
    ensures Q == 0x30644e72_e131a029_b85045b6_8181585d_97816a91_6871ca8d_3c208c16_d87cfd47
  {
    hide BigEndian;
    var high := PrimeHigh();
    var s := PrimeLow(high);
    AddHalves(BigEndian(high), BigEndian(s));
  }

  lemma AddHalves(high: nat, all: nat)
    requires high == 0x30644e72_e131a029_b85045b6_8181585d
    requires all == high * 0x1_00000000_00000000_00000000_00000000 + 0x97816a91_6871ca8d_3c208c16_d87cfd47
    ensures all == 0x30644e72_e131a029_b85045b6_8181585d_97816a91_6871ca8d_3c208c16_d87cfd47
  {}

  /** The weight of a borrow left over after `n` bytes. */
  function Wrap(out: nat, n: nat): nat {
    if out == 1 then Pow256(n) else 0
  }

  lemma {:induction false} SubtractValue(a: seq<byte>, b: seq<byte>, borrow: nat)
    requires |a| == |b| && borrow <= 1
    ensures BigEndian(Subtract(a, b, borrow).0)
            == BigEndian(a) - BigEndian(b) - borrow + Wrap(Subtract(a, b, borrow).1, |a|)
  {
    if a != [] {
      var last := |a| - 1;
      var diff := a[last] as nat + 256 - b[last] as nat - borrow;
      var next := if diff < 256 then 1 else 0;
      SubtractValue(a[..last], b[..last], next);
      var rest := Subtract(a[..last], b[..last], next);
      BigEndianAppend(rest.0, (diff % 256) as byte);
      BorrowArithmetic(diff, BigEndian(rest.0), BigEndian(a[..last]), BigEndian(b[..last]), Wrap(rest.1, last));
    }
  }

  lemma BorrowArithmetic(diff: nat, front: int, x: int, y: int, wrap: int)
    requires diff < 512 && front == x - y - (if diff < 256 then 1 else 0) + wrap
    ensures front * 256 + diff % 256 == (x - y) * 256 + (diff - 256) + 256 * wrap
  {
    assert diff % 256 == if diff < 256 then diff else diff - 256;
  }

  /** A borrow is left over exactly when the subtrahend is larger. */
  lemma SubtractBorrows(a: seq<byte>, b: seq<byte>)
    requires |a| == |b|
    ensures Subtract(a, b, 0).1 == 1 <==> BigEndian(a) < BigEndian(b)
  {
    SubtractValue(a, b, 0);
    BigEndianBound(Subtract(a, b, 0).0);
    BigEndianBound(a);
    BigEndianBound(b);
  }

  // ----- What negation does to the ordinate, for all 2^256 byte patterns -----

  /** Ordinates above the prime wrap around 2^256; the rest are negated modulo it. */
  function NegatedY(y: nat): int {
    NegatedIn(y, Q, Pow256(32))
  }

  function NegatedIn(y: nat, q: nat, wrap: nat): int {
    if y == 0 then 0 else if y <= q then q - y else q - y + wrap
  }

  method Negate(point: seq<byte>) returns (result: seq<byte>, ghost borrow: nat)
    requires |point| == G1_SIZE
    ensures |result| == G1_SIZE && result[..32] == point[..32]
    ensures Y(result) == NegatedY(Y(point))
    ensures borrow == 0 <==> Y(point) <= Q
  {
    var y := point[32..];
    ZeroBytes(y);
    var low: seq<byte>;
    if forall i :: 0 <= i < 32 ==> y[i] == 0 {
      low, borrow := y, 0;
    } else {
      var q := Q_BYTES;
      low, borrow := BorrowLoop(q, y);
      SubtractValue(q, y, 0);
      SubtractBorrows(q, y);
    }
    result := point[..32] + low;
    assert result[32..] == low;
  }

  /** Every difference lies between 0 and 511, inside a `u16`. */
  method BorrowLoop(a: seq<byte>, b: seq<byte>) returns (low: seq<byte>, borrow: nat)
    requires |a| == |b|
    ensures low == Subtract(a, b, 0).0 && borrow == Subtract(a, b, 0).1
  {
    low := seq(|a|, _ => 0);
    borrow := 0;
    var i := |a|;
    assert a[..i] == a && b[..i] == b;
    while i > 0
      invariant 0 <= i <= |a| == |low| && borrow <= 1
      invariant Subtract(a, b, 0).0 == Subtract(a[..i], b[..i], borrow).0 + low[i..]
      invariant Subtract(a, b, 0).1 == Subtract(a[..i], b[..i], borrow).1
      decreases i
    {
      i := i - 1;
      ghost var right := low[i + 1..];
      SubtractStep(a, b, i, borrow);
      var diff := a[i] as nat + 256 - b[i] as nat - borrow;
      assert 0 <= diff < 512;
      low := low[i := (diff % 256) as byte];
      borrow := if diff < 256 then 1 else 0;
      assert low[i..] == [(diff % 256) as byte] + right;
    }
    assert a[..0] == [] && low[0..] == low;
  }

  lemma SubtractStep(a: seq<byte>, b: seq<byte>, i: nat, borrow: nat)
    requires |a| == |b| && i < |a| && borrow <= 1
    ensures var diff := a[i] as nat + 256 - b[i] as nat - borrow;
            var rest := Subtract(a[..i], b[..i], if diff < 256 then 1 else 0);
            && Subtract(a[..i + 1], b[..i + 1], borrow).0 == rest.0 + [(diff % 256) as byte]
            && Subtract(a[..i + 1], b[..i + 1], borrow).1 == rest.1
  {
    assert a[..i + 1][..i] == a[..i] && b[..i + 1][..i] == b[..i];
  }

  lemma {:induction false} ZeroBytes(bytes: seq<byte>)
    ensures BigEndian(bytes) == 0 <==> forall i :: 0 <= i < |bytes| ==> bytes[i] == 0
  {
    if bytes != [] {
      var last := |bytes| - 1;
      ZeroBytes(bytes[..last]);
      assert forall i :: 0 <= i < last ==> bytes[..last][i] == bytes[i];
    }
  }

  // ----- What that means in the field -----

  /** 5q < 2^256 < 6q, read off the leading byte of q. */
  lemma PrimeBrackets()
    ensures 0 < Q && 5 * Q < Pow256(32) < 6 * Q
  {
    LeadingByte(Q_BYTES);
    assert Pow256(32) == 256 * Pow256(31);
  }

  /** The negated ordinate cancels the ordinate modulo q exactly when the ordinate is
      at most q, and is a canonical field element exactly then. */
  lemma NegationCancels(y: nat)
    requires y < Pow256(32)
    ensures (y + NegatedY(y)) % Q == 0 <==> y <= Q
    ensures 0 <= NegatedY(y) < Pow256(32)
    ensures NegatedY(y) < Q <==> y <= Q
  {
    PrimeBrackets();
    CancelsIn(y, Q, Pow256(32));
  }

  lemma CancelsIn(y: nat, q: nat, wrap: nat)
    requires 0 < q && 5 * q < wrap < 6 * q && y < wrap
    ensures (y + NegatedIn(y, q, wrap)) % q == 0 <==> y <= q
    ensures 0 <= NegatedIn(y, q, wrap) < wrap
    ensures NegatedIn(y, q, wrap) < q <==> y <= q
  {
    RemainderOf(0, 0, q);
    RemainderOf(1, 0, q);
    RemainderOf(6, wrap - 5 * q, q);
  }

  lemma RemainderOf(k: nat, r: nat, q: nat)
    requires r < q
    ensures (k * q + r) % q == r
  {
    if k > 0 {
      RemainderOf(k - 1, r, q);
      OneMore(k - 1, r, q);
      Peel((k - 1) * q + r, q);
    }
  }

  lemma OneMore(k: nat, r: nat, q: nat)
    ensures (k + 1) * q + r == k * q + r + q
  {}

  lemma Peel(x: nat, q: nat)
    requires q > 0
    ensures (x + q) % q == x % q
  {
    var d, m := x / q, x % q;
    assert x == q * d + m;
    QuotientIs(x + q, q, d + 1, m);
  }

  lemma QuotientIs(x: nat, q: nat, d: nat, m: nat)
    requires m < q && x == q * d + m
    ensures x % q == m
  {
    var d', m' := x / q, x % q;
    assert x == q * d' + m';
    if d' < d {
      Multiples(q, d' + 1, d);
    } else if d < d' {
      Multiples(q, d + 1, d');
    }
  }

  lemma Multiples(q: nat, a: nat, b: nat)
    requires a <= b
    ensures q * a <= q * b && q * a == q * (a - 1) + q
  {}

  /** Negation is an involution on every byte pattern except the ordinate q itself. */
  lemma NegationInvolutive(y: nat)
    requires y < Pow256(32)
    ensures NegatedY(y) >= 0 && (NegatedY(NegatedY(y)) == y <==> y != Q)
  {
    PrimeBrackets();
    InvolutiveIn(y, Q, Pow256(32));
  }

  lemma InvolutiveIn(y: nat, q: nat, wrap: nat)
    requires 0 < q && 5 * q < wrap < 6 * q && y < wrap
    ensures NegatedIn(y, q, wrap) >= 0
    ensures NegatedIn(NegatedIn(y, q, wrap), q, wrap) == y <==> y != q
  {}
}

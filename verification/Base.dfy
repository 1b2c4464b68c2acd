/** Vocabulary shared by every component: optional values, fallible results,
    the machine-integer bounds of the original programs and 32-byte words. */
module Base {

  datatype Option<+T> = None | Some(value: T)

  datatype Result<+R, +E> = Success(value: R) | Failure(error: E)

  /** One past the largest `u64`. */
  const U64_LIMIT: int := 0x1_0000_0000_0000_0000

  type U64 = n: nat | n < 0x1_0000_0000_0000_0000

  predicate IsU64(n: int) {
    0 <= n < U64_LIMIT
  }

  newtype byte = n: int | 0 <= n < 256

  type Bytes32 = s: seq<byte> | |s| == 32
    witness [0, 0, 0, 0, 0, 0, 0, 0, 0, 0, 0, 0, 0, 0, 0, 0, 0, 0, 0, 0, 0, 0, 0, 0, 0, 0, 0, 0, 0, 0, 0, 0]

  /** A 32-byte word (hash, key, commitment, nullifier, root), read as the
      number it encodes.  The programs only compare and hash such words. */
  type Word = nat

  const ZERO_WORD: Word := 0

  function Pow2(e: nat): (p: nat)
    ensures p > 0
  {
    if e == 0 then 1 else 2 * Pow2(e - 1)
  }

  function Sum(values: seq<nat>): nat {
    if values == [] then 0 else Sum(values[..|values| - 1]) + values[|values| - 1]
  }

  lemma {:induction false} SumAppend(a: seq<nat>, b: seq<nat>)
    ensures Sum(a + b) == Sum(a) + Sum(b)
  {
    if b == [] {
      assert a + b == a;
    } else {
      var last := |b| - 1;
      assert (a + b)[..|a + b| - 1] == a + b[..last];
      SumAppend(a, b[..last]);
    }
  }

  /** Each entry is at most the total, and changing one entry moves the total
      by the difference. */
  lemma {:induction false} SumUpdate(values: seq<nat>, i: nat, v: nat)
    requires i < |values|
    ensures Sum(values[i := v]) == Sum(values) - values[i] + v
    ensures values[i] <= Sum(values)
  {
    var last := |values| - 1;
    if i == last {
      assert values[i := v][..last] == values[..last];
    } else {
      assert values[i := v][..last] == values[..last][i := v];
      SumUpdate(values[..last], i, v);
    }
  }
}

/** Positional numerals. */
module Radix {
  import opened Base

  /** The number that a byte string encodes, most significant byte first. */
  function BigEndian(bytes: seq<byte>): nat {
    if bytes == [] then 0 else BigEndian(bytes[..|bytes| - 1]) * 256 + bytes[|bytes| - 1] as nat
  }

  function Pow256(e: nat): (p: nat)
    ensures p > 0
  {
    if e == 0 then 1 else 256 * Pow256(e - 1)
  }

  lemma {:induction false} BigEndianBound(bytes: seq<byte>)
    ensures BigEndian(bytes) < Pow256(|bytes|)
  {
    if bytes != [] {
      BigEndianBound(bytes[..|bytes| - 1]);
    }
  }

  /** The `k`-byte big-endian encoding of `n`. */
  function ToBytes(n: nat, k: nat): (bytes: seq<byte>)
    ensures |bytes| == k
  {
    if k == 0 then [] else ToBytes(n / 256, k - 1) + [(n % 256) as byte]
  }

  lemma {:induction false} ToBytesValue(n: nat, k: nat)
    requires n < Pow256(k)
    ensures BigEndian(ToBytes(n, k)) == n
  {
    if k > 0 {
      ToBytesValue(n / 256, k - 1);
      var front := ToBytes(n / 256, k - 1);
      assert (front + [(n % 256) as byte])[..k - 1] == front;
    }
  }

  /** The eight bytes of a `u64`, least significant first. */
  function LittleEndian64(n: nat): (bytes: seq<byte>)
    ensures |bytes| == 8
  {
    var b := ToBytes(n, 8);
    [b[7], b[6], b[5], b[4], b[3], b[2], b[1], b[0]]
  }

  lemma {:induction false} ToBytesAt(n: nat, k: nat, i: nat)
    requires i < k
    ensures ToBytes(n, k)[k - 1 - i] as nat == n / Pow256(i) % 256
  {
    if i == 0 {
      assert n / 1 == n;
    } else {
      ToBytesAt(n / 256, k - 1, i - 1);
      DivideTwice(n, Pow256(i - 1));
    }
  }

  lemma DivideTwice(n: nat, b: nat)
    requires b > 0
    ensures n / 256 / b == n / (256 * b)
  {
    var q := n / 256;
    var p, t := q / b, q % b;
    assert q == b * p + t;
    Reassociate(b, p);
    QuotientUnique(n, 256 * b, p, 256 * t + n % 256);
  }

  lemma Reassociate(b: nat, p: nat)
    ensures (256 * b) * p == 256 * (b * p)
  {}

  lemma Grow(a: nat, x: nat, y: nat)
    requires x <= y
    ensures a * x <= a * y
  {}

  lemma QuotientUnique(n: nat, d: nat, p: nat, r: nat)
    requires d > 0 && n == d * p + r && r < d
    ensures n / d == p
  {
    var q, m := n / d, n % d;
    assert n == d * q + m;
    assert d * (q + 1) == d * q + d && d * (p + 1) == d * p + d;
    if q < p {
      Grow(d, q + 1, p);
    } else if p < q {
      Grow(d, p + 1, q);
    }
  }

  /** Byte `i` of the little-endian encoding has weight 256^i. */
  lemma LittleEndian64At(n: nat, i: nat)
    requires i < 8
    ensures LittleEndian64(n)[i] as nat == n / Pow256(i) % 256
  {
    ToBytesAt(n, 8, i);
  }

  lemma LittleEndian64Injective(m: U64, n: U64)
    requires LittleEndian64(m) == LittleEndian64(n)
    ensures m == n
  {
    var a, b, c, d := ToBytes(m, 8), ToBytes(n, 8), LittleEndian64(m), LittleEndian64(n);
    assert a == [c[7], c[6], c[5], c[4], c[3], c[2], c[1], c[0]];
    assert b == [d[7], d[6], d[5], d[4], d[3], d[2], d[1], d[0]];
    assert Pow256(8) == 0x1_0000_0000_0000_0000 by { Pow256Of8(); }
    ToBytesValue(m, 8);
    ToBytesValue(n, 8);
  }

  lemma Pow256Of8()
    ensures Pow256(8) == 0x1_0000_0000_0000_0000
  {}

  lemma {:induction false} BigEndianInjective(a: seq<byte>, b: seq<byte>)
    requires |a| == |b| && BigEndian(a) == BigEndian(b)
    ensures a == b
  {
    if a != [] {
      var last := |a| - 1;
      BigEndianInjective(a[..last], b[..last]);
      assert a == a[..last] + [a[last]] && b == b[..last] + [b[last]];
    }
  }

  /** The leading byte brackets the value. */
  lemma {:induction false} LeadingByte(bytes: seq<byte>)
    requires bytes != []
    ensures bytes[0] as nat * Pow256(|bytes| - 1) <= BigEndian(bytes) < (bytes[0] as nat + 1) * Pow256(|bytes| - 1)
  {
    var last := |bytes| - 1;
    if last > 0 {
      LeadingByte(bytes[..last]);
      ShiftBracket(bytes[0] as nat, Pow256(last - 1), BigEndian(bytes[..last]), bytes[last] as nat);
    } else {
      assert bytes[..0] == [];
    }
  }

  lemma ShiftBracket(d: nat, p: nat, v: nat, b: nat)
    requires d * p <= v < (d + 1) * p && b < 256
    ensures d * (256 * p) <= v * 256 + b < (d + 1) * (256 * p)
  {}
}

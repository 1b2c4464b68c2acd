/** The scalar field of alt_bn128, in which public inputs live. */
module ScalarField {
  import opened Base
  import opened Radix

  /** The group order, section "Definition of the groups" of EIP-197. */
  const R: nat := 0x30644e72e131a029b85045b68181585d2833e84879b9709143e1f593f0000001

  /** The field element that a word stands for when it is used as a scalar. */
  function Reduced(n: Word): Word {
    if n < R then n else n % R
  }

  predicate Canonical(n: Word) {
    n < R
  }

  /** Words that stand for one field element. */
  predicate Aliases(a: Word, b: Word) {
    Reduced(a) == Reduced(b)
  }

  /** A canonical word has five or six aliases of 32 bytes, and is the only canonical one. */
  lemma AliasesOf(n: Word, k: nat)
    requires Canonical(n) && k < 5
    ensures n + k * R < Pow256(32) && Aliases(n + k * R, n)
    ensures Canonical(n + k * R) <==> k == 0
  {
    OrderBracket();
    assert (n + k * R) % R == n;
  }

  lemma OrderBracket()
    ensures 5 * R < Pow256(32) < 6 * R
  {
    assert Pow256(8) == 0x1_0000_0000_0000_0000 by { Pow256Of8(); }
    PowDoubles(8);
    PowDoubles(16);
  }

  lemma PowDoubles(e: nat)
    ensures Pow256(2 * e) == Pow256(e) * Pow256(e)
  {
    PowAdds(e, e);
  }

  lemma {:induction false} PowAdds(d: nat, e: nat)
    ensures Pow256(d + e) == Pow256(d) * Pow256(e)
  {
    if d > 0 {
      PowAdds(d - 1, e);
      Shift(Pow256(d - 1), Pow256(e));
    }
  }

  lemma Shift(a: nat, b: nat)
    ensures 256 * (a * b) == (256 * a) * b
  {}
}

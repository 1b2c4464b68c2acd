/** The full Merkle tree that the incremental trees of the repository stand for,
    over an arbitrary two-to-one hash `h` and an arbitrary empty leaf `z`. */
module Merkle {
  import opened Base

  // The hash never changes; naming it in the termination measures below keeps the
  // verifier from unfolding trees whose height is a known constant.

  /** Root of an empty subtree of height `l`. */
  function Zero<T>(h: (T, T) -> T, z: T, l: nat): T
    decreases l, h
  {
    if l == 0 then z else var below := Zero(h, z, l - 1); h(below, below)
  }

  /** Index, at height `l`, of the ancestor of leaf `n`. */
  function Anc(n: nat, l: nat): nat {
    if l == 0 then n else Anc(n, l - 1) / 2
  }

  /** Node `i` at height `l` of the full tree whose leaves are `leaves` followed by
      empty leaves. */
  function NodeAt<T>(h: (T, T) -> T, z: T, leaves: seq<T>, l: nat, i: nat): T
    decreases l, h
  {
    if l == 0 then
      if i < |leaves| then leaves[i] else z
    else
      h(NodeAt(h, z, leaves, l - 1, 2 * i), NodeAt(h, z, leaves, l - 1, 2 * i + 1))
  }

  function Root<T>(h: (T, T) -> T, z: T, leaves: seq<T>, depth: nat): T {
    NodeAt(h, z, leaves, depth, 0)
  }

  /** What an incremental tree remembers at height `l`: the last node it saw there
      in a left position, as that node was when it was seen. */
  function Filled<T>(h: (T, T) -> T, z: T, leaves: seq<T>, l: nat): T
    decreases |leaves|
  {
    if leaves == [] then
      Zero(h, z, l)
    else
      var n := |leaves| - 1;
      if Anc(n, l) % 2 == 0 then NodeAt(h, z, leaves, l, Anc(n, l)) else Filled(h, z, leaves[..n], l)
  }

  // ----- Positions -----

  lemma {:induction false} AncZero(n: nat, l: nat)
    ensures Anc(n, l) == 0 <==> n < Pow2(l)
  {
    AncBounds(n, l);
    if Anc(n, l) > 0 {
      MulMono(1, Anc(n, l), Pow2(l));
    }
  }

  lemma {:induction false} AncBounds(n: nat, l: nat)
    ensures Anc(n, l) * Pow2(l) <= n < (Anc(n, l) + 1) * Pow2(l)
  {
    if l > 0 {
      AncBounds(n, l - 1);
      HalveBounds(Anc(n, l - 1), Pow2(l - 1));
    }
  }

  lemma HalveBounds(a: nat, p: nat)
    ensures a / 2 * (2 * p) <= a * p
    ensures (a + 1) * p <= (a / 2 + 1) * (2 * p)
  {
    var q := a / 2;
    assert q * (2 * p) == (2 * q) * p && (q + 1) * (2 * p) == (2 * q + 2) * p;
    MulMono(2 * q, a, p);
    MulMono(a + 1, 2 * q + 2, p);
  }

  lemma MulMono(a: int, b: int, p: nat)
    requires a <= b
    ensures a * p <= b * p
  {}

  lemma {:induction false} AncStep(n: nat, l: nat)
    ensures Anc(n, l) <= Anc(n + 1, l) <= Anc(n, l) + 1
  {
    if l > 0 { AncStep(n, l - 1); }
  }

  // ----- Appending a leaf -----

  /** Everything to the right of the last leaf is empty. */
  lemma {:induction false} EmptyRight<T>(h: (T, T) -> T, z: T, leaves: seq<T>, l: nat, i: nat)
    requires leaves == [] || Anc(|leaves| - 1, l) < i
    ensures NodeAt(h, z, leaves, l, i) == Zero(h, z, l)
  {
    if l > 0 {
      EmptyRight(h, z, leaves, l - 1, 2 * i);
      EmptyRight(h, z, leaves, l - 1, 2 * i + 1);
    }
  }

  /** Appending changes only the ancestors of the new leaf. */
  lemma {:induction false} AppendElsewhere<T>(h: (T, T) -> T, z: T, leaves: seq<T>, x: T, l: nat, i: nat)
    requires i != Anc(|leaves|, l)
    ensures NodeAt(h, z, leaves + [x], l, i) == NodeAt(h, z, leaves, l, i)
  {
    if l > 0 {
      AppendElsewhere(h, z, leaves, x, l - 1, 2 * i);
      AppendElsewhere(h, z, leaves, x, l - 1, 2 * i + 1);
    }
  }

  /** Wherever bit `l` of the next index is 1, the remembered node is the completed
      left sibling of the position that the next leaf climbs through. */
  lemma {:induction false} FilledIsLeftSibling<T>(h: (T, T) -> T, z: T, leaves: seq<T>, l: nat)
    requires Anc(|leaves|, l) % 2 == 1
    ensures Filled(h, z, leaves, l) == NodeAt(h, z, leaves, l, Anc(|leaves|, l) - 1)
    decreases |leaves|
  {
    if leaves == [] {
      AncZero(0, l);
    } else {
      var n := |leaves| - 1;
      AncStep(n, l);
      if Anc(n, l) % 2 == 1 {
        var before := leaves[..n];
        FilledIsLeftSibling(h, z, before, l);
        assert leaves == before + [leaves[n]];
        AppendElsewhere(h, z, before, leaves[n], l, Anc(n, l) - 1);
      }
    }
  }

  /** One level of the incremental update: how the ancestor of a new leaf `x` at
      height `l + 1` comes from its ancestor at height `l`, and what is then
      remembered at height `l`. */
  lemma ClimbOneLevel<T>(h: (T, T) -> T, z: T, leaves: seq<T>, x: T, l: nat)
    ensures var a := Anc(|leaves|, l);
            var grown := leaves + [x];
            var here := NodeAt(h, z, grown, l, a);
            && NodeAt(h, z, grown, l + 1, Anc(|leaves|, l + 1))
               == (if a % 2 == 0 then h(here, Zero(h, z, l)) else h(Filled(h, z, leaves, l), here))
            && Filled(h, z, grown, l) == (if a % 2 == 0 then here else Filled(h, z, leaves, l))
  {
    var a := Anc(|leaves|, l);
    var grown := leaves + [x];
    assert grown[..|leaves|] == leaves;
    assert Anc(|leaves|, l + 1) == a / 2;
    if a % 2 == 0 {
      EmptyRight(h, z, grown, l, a + 1);
    } else {
      FilledIsLeftSibling(h, z, leaves, l);
      AppendElsewhere(h, z, leaves, x, l, a - 1);
    }
  }

  /** A node off the left edge is the root of the leaves from its own first one on. */
  lemma {:induction false} NodeIsRootOfSuffix<T>(h: (T, T) -> T, z: T, leaves: seq<T>, l: nat, d: nat, i: nat)
    requires d * Pow2(l) <= |leaves|
    ensures NodeAt(h, z, leaves, l, d + i) == NodeAt(h, z, leaves[d * Pow2(l)..], l, i)
  {
    if l > 0 {
      assert (2 * d) * Pow2(l - 1) == d * Pow2(l) by { assert Pow2(l) == 2 * Pow2(l - 1); }
      NodeIsRootOfSuffix(h, z, leaves, l - 1, 2 * d, 2 * i);
      NodeIsRootOfSuffix(h, z, leaves, l - 1, 2 * d, 2 * i + 1);
    } else {
      assert Pow2(0) == 1;
    }
  }

  // ----- Inclusion paths -----

  function Sibling(i: nat): nat {
    if i % 2 == 0 then i + 1 else i - 1
  }

  /** Climb `l` levels from `leaf` through `path`; bit 0 means the climbing node is
      on the left. */
  function Climb<T>(h: (T, T) -> T, leaf: T, path: seq<T>, bits: seq<nat>, l: nat): T
    requires l <= |path| && l <= |bits|
    decreases l, h
  {
    if l == 0 then leaf else
      var below := Climb(h, leaf, path, bits, l - 1);
      if bits[l - 1] == 0 then h(below, path[l - 1]) else h(path[l - 1], below)
  }

  function Fold<T>(h: (T, T) -> T, leaf: T, path: seq<T>, bits: seq<nat>): T
    requires |path| == |bits|
  {
    Climb(h, leaf, path, bits, |path|)
  }

  /** The first `l` entries of `path` and `bits` are the siblings and sides met on the
      way up from leaf `index`. */
  ghost predicate IsPathTo<T>(h: (T, T) -> T, z: T, leaves: seq<T>, index: nat, path: seq<T>, bits: seq<nat>, l: nat)
    requires l <= |path| == |bits|
  {
    forall k :: 0 <= k < l ==>
      path[k] == NodeAt(h, z, leaves, k, Sibling(Anc(index, k))) && bits[k] == Anc(index, k) % 2
  }

  ghost predicate IsPath<T>(h: (T, T) -> T, z: T, leaves: seq<T>, index: nat, path: seq<T>, bits: seq<nat>) {
    |path| == |bits| && IsPathTo(h, z, leaves, index, path, bits, |path|)
  }

  /** `layer` is the whole row of nodes at height `l`, as far as it reaches. */
  ghost predicate IsLayer<T>(h: (T, T) -> T, z: T, leaves: seq<T>, layer: seq<T>, l: nat) {
    forall i :: 0 <= i < |layer| ==> layer[i] == NodeAt(h, z, leaves, l, i)
  }

  function PathOf<T>(h: (T, T) -> T, z: T, leaves: seq<T>, index: nat, depth: nat): seq<T> {
    seq(depth, l requires 0 <= l < depth => NodeAt(h, z, leaves, l, Sibling(Anc(index, l))))
  }

  function BitsOf(index: nat, depth: nat): seq<nat> {
    seq(depth, l requires 0 <= l < depth => Anc(index, l) % 2)
  }

  lemma ParentOf<T>(h: (T, T) -> T, z: T, leaves: seq<T>, l: nat, a: nat)
    ensures var here, beside := NodeAt(h, z, leaves, l, a), NodeAt(h, z, leaves, l, Sibling(a));
            NodeAt(h, z, leaves, l + 1, a / 2) == if a % 2 == 0 then h(here, beside) else h(beside, here)
  {}

  /** The sibling path of a position leads from its leaf through its ancestors. */
  lemma {:induction false} PathClimbs<T>(h: (T, T) -> T, z: T, leaves: seq<T>, index: nat,
                                         path: seq<T>, bits: seq<nat>, l: nat)
    requires IsPath(h, z, leaves, index, path, bits) && l <= |path|
    ensures Climb(h, NodeAt(h, z, leaves, 0, index), path, bits, l) == NodeAt(h, z, leaves, l, Anc(index, l))
  {
    if l > 0 {
      PathClimbs(h, z, leaves, index, path, bits, l - 1);
      ParentOf(h, z, leaves, l - 1, Anc(index, l - 1));
    }
  }

  // ----- Binding: disagreement costs a collision -----

  ghost predicate Collision<T>(h: (T, T) -> T, a: (T, T), b: (T, T)) {
    a != b && h(a.0, a.1) == h(b.0, b.1)
  }

  /** Two different leaves that climb to one node from one position, by whatever
      paths, exhibit a collision of the hash. */
  lemma {:induction false} ClimbBinds<T>(h: (T, T) -> T, x: T, y: T, p: seq<T>, q: seq<T>, bits: seq<nat>, l: nat)
    returns (a: (T, T), b: (T, T))
    requires l <= |p| && l <= |q| && l <= |bits|
    requires x != y && Climb(h, x, p, bits, l) == Climb(h, y, q, bits, l)
    ensures Collision(h, a, b)
  {
    var fx, fy := Climb(h, x, p, bits, l - 1), Climb(h, y, q, bits, l - 1);
    if fx == fy {
      a, b := ClimbBinds(h, x, y, p, q, bits, l - 1);
    } else if bits[l - 1] == 0 {
      a, b := (fx, p[l - 1]), (fy, q[l - 1]);
    } else {
      a, b := (p[l - 1], fx), (q[l - 1], fy);
    }
  }

  /** A root binds every leaf below it: equal roots over padded leaf sequences that
      differ at position `i` exhibit a collision. */
  lemma RootBinds<T>(h: (T, T) -> T, z: T, s: seq<T>, t: seq<T>, depth: nat, i: nat)
    returns (a: (T, T), b: (T, T))
    requires i < Pow2(depth)
    requires NodeAt(h, z, s, 0, i) != NodeAt(h, z, t, 0, i)
    requires Root(h, z, s, depth) == Root(h, z, t, depth)
    ensures Collision(h, a, b)
  {
    AncZero(i, depth);
    var p, q, bits := PathOf(h, z, s, i, depth), PathOf(h, z, t, i, depth), BitsOf(i, depth);
    PathClimbs(h, z, s, i, p, bits, depth);
    PathClimbs(h, z, t, i, q, bits, depth);
    a, b := ClimbBinds(h, NodeAt(h, z, s, 0, i), NodeAt(h, z, t, 0, i), p, q, bits, depth);
  }
}

/** The client-side incremental tree (crates/holanc-tree/src/lib.rs). */
module IncrementalTree {
  import opened Base
  import opened Merkle

  const TREE_DEPTH: nat := 20

  datatype TreeError = TreeFull(max: nat) | IndexOutOfRange(index: nat)

  datatype MerkleProof<T> = MerkleProof(leafIndex: nat, pathElements: seq<T>, pathIndices: seq<nat>, root: T)

  datatype TreeSnapshot<T> = TreeSnapshot(depth: nat, leaves: seq<T>)

  class MerkleTree<T> {
    const hash: (T, T) -> T
    const emptyLeaf: T
    const depth: nat
    var nextIndex: nat
    var filledSubtrees: seq<T>
    var zeros: seq<T>
    var root: T
    var leaves: seq<T>

    /** Every field is determined by the depth and the leaves. */
    ghost predicate Valid()
      reads this
    {
      && depth < 64
      && nextIndex == |leaves| <= Pow2(depth)
      && |zeros| == depth + 1 == |filledSubtrees|
      && (forall l :: 0 <= l <= depth ==> zeros[l] == Zero(hash, emptyLeaf, l))
      && (forall l :: 0 <= l < depth ==> filledSubtrees[l] == Filled(hash, emptyLeaf, leaves, l))
      && filledSubtrees[depth] == Zero(hash, emptyLeaf, depth)
      && root == Root(hash, emptyLeaf, leaves, depth)
    }

    /** The shift `1 << depth` of a 64-bit word is what bounds the depth. */
    constructor (depth: nat, hash: (T, T) -> T, emptyLeaf: T)
      requires depth < 64
      ensures Valid() && leaves == []
      ensures this.depth == depth && this.hash == hash && this.emptyLeaf == emptyLeaf
    {
      this.depth, this.hash, this.emptyLeaf := depth, hash, emptyLeaf;
      var zs := ComputeZeros(depth, hash, emptyLeaf);
      zeros, filledSubtrees, root := zs, zs, zs[depth];
      nextIndex, leaves := 0, [];
      new;
      EmptyRight(hash, emptyLeaf, [], depth, 0);
    }

    static method ComputeZeros(depth: nat, hash: (T, T) -> T, emptyLeaf: T) returns (zeros: seq<T>)
      ensures |zeros| == depth + 1
      ensures forall l :: 0 <= l <= depth ==> zeros[l] == Zero(hash, emptyLeaf, l)
    {
      zeros := seq(depth + 1, _ => emptyLeaf);
      for i := 1 to depth + 1
        invariant |zeros| == depth + 1
        invariant forall l :: 0 <= l < i ==> zeros[l] == Zero(hash, emptyLeaf, l)
      {
        zeros := zeros[i := hash(zeros[i - 1], zeros[i - 1])];
      }
    }

    method Append(leaf: T) returns (r: Result<(nat, T), TreeError>)
      requires Valid()
      modifies this
      ensures Valid()
      ensures old(nextIndex) == Pow2(depth) ==> r == Failure(TreeFull(Pow2(depth))) && leaves == old(leaves)
      ensures old(nextIndex) < Pow2(depth) ==>
                && r == Success((old(nextIndex), root))
                && leaves == old(leaves) + [leaf]
                && root == Root(hash, emptyLeaf, leaves, depth)
      ensures r.Failure? ==> unchanged(this)
    {
      var max := Pow2(depth);
      if nextIndex >= max {
        return Failure(TreeFull(max));
      }
      var leafIndex := nextIndex;
      ghost var before := leaves;
      leaves := leaves + [leaf];
      var current, index := leaf, leafIndex;
      for level := 0 to depth
        invariant leafIndex == nextIndex == |before| && leaves == before + [leaf] && zeros == old(zeros)
        invariant index == Anc(leafIndex, level)
        invariant current == NodeAt(hash, emptyLeaf, leaves, level, index)
        invariant |filledSubtrees| == depth + 1 && filledSubtrees[depth] == old(filledSubtrees[depth])
        invariant forall l :: 0 <= l < level ==> filledSubtrees[l] == Filled(hash, emptyLeaf, leaves, l)
        invariant forall l :: level <= l < depth ==> filledSubtrees[l] == Filled(hash, emptyLeaf, before, l)
      {
        ClimbOneLevel(hash, emptyLeaf, before, leaf, level);
        if index % 2 == 0 {
          filledSubtrees := filledSubtrees[level := current];
          current := hash(current, zeros[level]);
        } else {
          current := hash(filledSubtrees[level], current);
        }
        index := index / 2;
      }
      AncZero(leafIndex, depth);
      root := current;
      nextIndex := nextIndex + 1;
      r := Success((leafIndex, root));
    }

    /** Rebuilds the tree layer by layer, independently of `filledSubtrees`. */
    method Proof(index: nat) returns (r: Result<MerkleProof<T>, TreeError>)
      requires Valid()
      ensures r.Failure? <==> index >= nextIndex
      ensures r.Failure? ==> r.error == IndexOutOfRange(index)
      ensures r.Success? ==>
                && r.value.leafIndex == index && r.value.root == root && |r.value.pathElements| == depth
                && IsPath(hash, emptyLeaf, leaves, index, r.value.pathElements, r.value.pathIndices)
                && Fold(hash, leaves[index], r.value.pathElements, r.value.pathIndices) == root
    {
      if index >= nextIndex {
        return Failure(IndexOutOfRange(index));
      }
      var pathElements: seq<T> := seq(depth, _ => emptyLeaf);
      var pathIndices: seq<nat> := seq(depth, _ => 0);
      var padding := zeros[0];
      var layer := leaves + seq(Pow2(depth) - |leaves|, _ => padding);
      var idx := index;
      for level := 0 to depth
        invariant |pathElements| == depth == |pathIndices|
        invariant idx == Anc(index, level) < Pow2(depth - level) == |layer|
        invariant IsLayer(hash, emptyLeaf, leaves, layer, level)
        invariant IsPathTo(hash, emptyLeaf, leaves, index, pathElements, pathIndices, level)
      {
        pathElements, pathIndices := Record(layer, index, idx, level, pathElements, pathIndices);
        layer := NextLayer(layer, level);
        idx := idx / 2;
      }
      AncZero(index, depth);
      PathClimbs(hash, emptyLeaf, leaves, index, pathElements, pathIndices, depth);
      r := Success(MerkleProof(index, pathElements, pathIndices, root));
    }

    /** Notes the sibling and the side of `idx`, the ancestor of `index` at `level`. */
    method Record(layer: seq<T>, ghost index: nat, idx: nat, level: nat, path: seq<T>, bits: seq<nat>)
      returns (path': seq<T>, bits': seq<nat>)
      requires level < |path| == |bits| && idx == Anc(index, level) < |layer| && |layer| % 2 == 0
      requires IsLayer(hash, emptyLeaf, leaves, layer, level)
      requires IsPathTo(hash, emptyLeaf, leaves, index, path, bits, level)
      ensures |path'| == |path| == |bits'|
      ensures IsPathTo(hash, emptyLeaf, leaves, index, path', bits', level + 1)
    {
      var siblingIdx := if idx % 2 == 0 then idx + 1 else idx - 1;
      path' := path[level := layer[siblingIdx]];
      bits' := bits[level := idx % 2];
    }

    method NextLayer(layer: seq<T>, ghost level: nat) returns (next: seq<T>)
      requires |layer| % 2 == 0
      requires IsLayer(hash, emptyLeaf, leaves, layer, level)
      ensures 2 * |next| == |layer|
      ensures IsLayer(hash, emptyLeaf, leaves, next, level + 1)
    {
      next := [];
      var i := 0;
      while i < |layer|
        invariant i == 2 * |next| <= |layer|
        invariant IsLayer(hash, emptyLeaf, leaves, next, level + 1)
      {
        assert NodeAt(hash, emptyLeaf, leaves, level + 1, |next|) == hash(layer[i], layer[i + 1]);
        next := next + [hash(layer[i], layer[i + 1])];
        i := i + 2;
      }
    }

    method Snapshot() returns (s: TreeSnapshot<T>)
      ensures s == TreeSnapshot(depth, leaves)
    {
      s := TreeSnapshot(depth, leaves);
    }
  }

  /** Replays every leaf.  The snapshot of a valid tree restores to a tree that
      agrees with the original in every field. */
  method FromSnapshot<T>(s: TreeSnapshot<T>, hash: (T, T) -> T, emptyLeaf: T)
    returns (tree: MerkleTree<T>, r: Result<(), TreeError>)
    requires s.depth < 64
    ensures fresh(tree) && tree.Valid()
    ensures tree.depth == s.depth && tree.hash == hash && tree.emptyLeaf == emptyLeaf
    ensures r.Success? <==> |s.leaves| <= Pow2(s.depth)
    ensures r.Success? ==> tree.leaves == s.leaves
    ensures r.Failure? ==> r.error == TreeFull(Pow2(s.depth))
  {
    tree := new MerkleTree(s.depth, hash, emptyLeaf);
    r := Success(());
    for i := 0 to |s.leaves|
      invariant fresh(tree) && tree.Valid()
      invariant tree.depth == s.depth && tree.hash == hash && tree.emptyLeaf == emptyLeaf
      invariant r.Success? && tree.leaves == s.leaves[..i]
    {
      var appended := tree.Append(s.leaves[i]);
      if appended.Failure? {
        r := Failure(appended.error);
        return;
      }
    }
  }

  /** Two valid trees over one hash with the same depth and leaves agree in every
      other field, so a restored snapshot is the tree that was saved. */
  lemma LeavesDetermineTree<T>(t: MerkleTree<T>, u: MerkleTree<T>)
    requires t.Valid() && u.Valid()
    requires t.depth == u.depth && t.hash == u.hash && t.emptyLeaf == u.emptyLeaf && t.leaves == u.leaves
    ensures t.root == u.root && t.nextIndex == u.nextIndex
    ensures t.zeros == u.zeros && t.filledSubtrees == u.filledSubtrees
  {}

  /** Each position of the tree admits one leaf, the empty leaf beyond the last: any other
      leaf that folds to the tree's root from that position, through any path of the tree's
      depth, exhibits a collision of the hash. */
  lemma ProofBindsLeaf<T>(t: MerkleTree<T>, index: nat, other: T, path: seq<T>)
    returns (a: (T, T), b: (T, T))
    requires t.Valid() && index < Pow2(t.depth) && |path| == t.depth
    requires other != if index < t.nextIndex then t.leaves[index] else t.emptyLeaf
    requires Fold(t.hash, other, path, BitsOf(index, t.depth)) == t.root
    ensures Collision(t.hash, a, b)
  {
    var p, bits := PathOf(t.hash, t.emptyLeaf, t.leaves, index, t.depth), BitsOf(index, t.depth);
    PathClimbs(t.hash, t.emptyLeaf, t.leaves, index, p, bits, t.depth);
    AncZero(index, t.depth);
    a, b := ClimbBinds(t.hash, NodeAt(t.hash, t.emptyLeaf, t.leaves, 0, index), other, p, path, bits, t.depth);
  }

  /** Trees of one depth with the same root and number of leaves hold the same
      leaves, or their roots exhibit a collision. */
  lemma RootDeterminesLeaves<T>(t: MerkleTree<T>, u: MerkleTree<T>)
    returns (a: (T, T), b: (T, T))
    requires t.Valid() && u.Valid()
    requires t.depth == u.depth && t.hash == u.hash && t.emptyLeaf == u.emptyLeaf
    requires t.root == u.root && t.nextIndex == u.nextIndex && t.leaves != u.leaves
    ensures Collision(t.hash, a, b)
  {
    var i: nat :| i < |t.leaves| && t.leaves[i] != u.leaves[i];
    a, b := RootBinds(t.hash, t.emptyLeaf, t.leaves, u.leaves, t.depth, i);
  }
}

/** The SHA-256 tree that `deposit` maintains on chain
    (programs/holanc-pool/src/lib.rs). */
module DepositTree {
  import opened Base
  import opened Merkle
  import opened Pool

  // ----- The lazily built table of empty subtrees -----

  /** Entry 0 is already the hash of two zero words, so the tree that the table belongs
      to has that hash for its empty leaf. */
  method Zeros(h: (Word, Word) -> Word) returns (z: seq<Word>)
    ensures |z| == TREE_DEPTH
    ensures forall l :: 0 <= l < TREE_DEPTH ==> z[l] == Zero(h, h(ZERO_WORD, ZERO_WORD), l)
  {
    z := seq(TREE_DEPTH, _ => ZERO_WORD);
    z := z[0 := h(ZERO_WORD, ZERO_WORD)];
    for i := 1 to TREE_DEPTH
      invariant |z| == TREE_DEPTH
      invariant forall l :: 0 <= l < i ==> z[l] == Zero(h, h(ZERO_WORD, ZERO_WORD), l)
    {
      z := z[i := h(z[i - 1], z[i - 1])];
    }
  }

  // ----- Deposits and nothing else -----

  /** Subtrees and root after depositing `commitments` in order into a new pool. */
  function Deposited(h: (Word, Word) -> Word, z: Word, commitments: seq<Word>): (r: (seq<Word>, Word))
    ensures |r.0| == TREE_DEPTH
  {
    if commitments == [] then (seq(TREE_DEPTH, _ => ZERO_WORD), ZERO_WORD) else
      var n := |commitments| - 1;
      Climb20(h, z, Deposited(h, z, commitments[..n]).0, commitments[n], n, 0)
  }

  /** What the subtrees hold: `Filled`, once a deposit has passed there. */
  ghost predicate SubtreesHold(h: (Word, Word) -> Word, z: Word, filled: seq<Word>, leaves: seq<Word>, lo: nat, hi: nat)
    requires lo <= hi <= |filled|
  {
    forall l :: lo <= l < hi && leaves != [] ==> filled[l] == Filled(h, z, leaves, l)
  }

  lemma {:induction false} ClimbComputes(h: (Word, Word) -> Word, z: Word, before: seq<Word>, x: Word,
                                         filled: seq<Word>, current: Word, level: nat)
    requires |filled| == TREE_DEPTH && level <= TREE_DEPTH
    requires current == NodeAt(h, z, before + [x], level, Anc(|before|, level))
    requires SubtreesHold(h, z, filled, before + [x], 0, level)
    requires SubtreesHold(h, z, filled, before, level, TREE_DEPTH)
    ensures var r := Climb20(h, z, filled, current, Anc(|before|, level), level);
            && SubtreesHold(h, z, r.0, before + [x], 0, TREE_DEPTH)
            && r.1 == NodeAt(h, z, before + [x], TREE_DEPTH, Anc(|before|, TREE_DEPTH))
    decreases TREE_DEPTH - level
  {
    if level < TREE_DEPTH {
      var a := Anc(|before|, level);
      ClimbOneLevel(h, z, before, x, level);
      if a % 2 == 0 {
        var filled' := filled[level := current];
        ClimbComputes(h, z, before, x, filled', h(current, Zero(h, z, level)), level + 1);
      } else {
        AncOfEmpty(before, level);
        ClimbComputes(h, z, before, x, filled, h(filled[level], current), level + 1);
      }
    }
  }

  lemma AncOfEmpty(before: seq<Word>, level: nat)
    requires Anc(|before|, level) % 2 == 1
    ensures before != []
  {
    AncZero(|before|, level);
  }

  /** For any number of deposits: the stored root is that of the height-20 subtree that
      contains the last commitment. */
  lemma {:induction false} DepositedRoot(h: (Word, Word) -> Word, z: Word, commitments: seq<Word>)
    ensures SubtreesHold(h, z, Deposited(h, z, commitments).0, commitments, 0, TREE_DEPTH)
    ensures commitments != [] ==>
              Deposited(h, z, commitments).1
              == NodeAt(h, z, commitments, TREE_DEPTH, Anc(|commitments| - 1, TREE_DEPTH))
  {
    if commitments != [] {
      var n := |commitments| - 1;
      var before, x := commitments[..n], commitments[n];
      DepositedRoot(h, z, before);
      assert commitments == before + [x];
      ClimbComputes(h, z, before, x, Deposited(h, z, before).0, x, 0);
    }
  }

  /** The leaves that share a height-20 subtree with the last one. */
  function CurrentBlock(leaves: seq<Word>): (block: seq<Word>)
    ensures |leaves| <= Pow2(TREE_DEPTH) ==> block == leaves
    ensures |leaves| > Pow2(TREE_DEPTH) ==> |block| < |leaves|
    ensures leaves != [] ==> block != []
  {
    if leaves == [] then [] else
      var a := Anc(|leaves| - 1, TREE_DEPTH);
      AncZero(|leaves| - 1, TREE_DEPTH);
      AncBounds(|leaves| - 1, TREE_DEPTH);
      MulMono(if a == 0 then 0 else 1, a, Pow2(TREE_DEPTH));
      leaves[a * Pow2(TREE_DEPTH)..]
  }

  /** Up to the capacity of 2^20 leaves the stored root is the root over all
      commitments.  `deposit` does not stop there: each further block of 2^20 deposits
      starts a tree of its own, and the root covers that block only. */
  lemma DepositedIsRootOfBlock(h: (Word, Word) -> Word, z: Word, commitments: seq<Word>)
    requires commitments != []
    ensures Deposited(h, z, commitments).1 == Root(h, z, CurrentBlock(commitments), TREE_DEPTH)
  {
    var n := |commitments| - 1;
    DepositedRoot(h, z, commitments);
    AncBounds(n, TREE_DEPTH);
    NodeIsRootOfSuffix(h, z, commitments, TREE_DEPTH, Anc(n, TREE_DEPTH), 0);
  }

  // ----- In the pool -----

  predicate Spends(call: Call) {
    call.CallTransfer? || call.CallWithdraw?
  }

  function Inserted(env: Env, c: Chain, call: Call): seq<Word>
    requires c.WellFormed()
  {
    if call.CallDeposit? && Attempt(env, c, call).Success? then [call.commitment] else []
  }

  /** The commitments of the successful deposits of a run. */
  function Commitments(env: Env, c: Chain, calls: seq<Call>): seq<Word>
    requires c.WellFormed()
  {
    if calls == [] then [] else
      var last := |calls| - 1;
      Commitments(env, c, calls[..last]) + Inserted(env, Execute(env, c, calls[..last]), calls[last])
  }

  /** The pool's tree fields are those of depositing `leaves`. */
  ghost predicate Follows(env: Env, pool: PoolState, leaves: seq<Word>) {
    var tree := Deposited(env.sha256Pair, env.EmptyLeaf(), leaves);
    pool.nextLeafIndex == |leaves| && pool.filledSubtrees == tree.0 && pool.sha256Root == tree.1
  }

  lemma StepFollows(env: Env, c: Chain, call: Call, leaves: seq<Word>)
    requires c.WellFormed() && Follows(env, c.pool, leaves) && !Spends(call)
    ensures Follows(env, Step(env, c, call).pool, leaves + Inserted(env, c, call))
  {
    if Inserted(env, c, call) == [] {
      assert leaves + [] == leaves;
    } else {
      assert (leaves + [call.commitment])[..|leaves|] == leaves;
    }
  }

  lemma NewPoolFollows(env: Env)
    ensures Follows(env, InitialPool(), [])
  {}

  lemma {:induction false} PoolFollowsDeposits(env: Env, c: Chain, calls: seq<Call>)
    requires c.WellFormed() && c.pool == InitialPool()
    requires forall i :: 0 <= i < |calls| ==> !Spends(calls[i])
    ensures Follows(env, Execute(env, c, calls).pool, Commitments(env, c, calls))
  {
    if calls == [] {
      NewPoolFollows(env);
    } else {
      var last := |calls| - 1;
      PoolFollowsDeposits(env, c, calls[..last]);
      StepFollows(env, Execute(env, c, calls[..last]), calls[last], Commitments(env, c, calls[..last]));
    }
  }

  /** In every run without spends the stored root is the depth-20 root over the deposited
      commitments, or, past 2^20 of them, over those of the current block. */
  lemma Sha256RootIsTreeRoot(env: Env, c: Chain, calls: seq<Call>)
    requires c.WellFormed() && c.pool == InitialPool()
    requires forall i :: 0 <= i < |calls| ==> !Spends(calls[i])
    ensures var root, leaves := Execute(env, c, calls).pool.sha256Root, Commitments(env, c, calls);
            if leaves == [] then root == ZERO_WORD
            else root == Root(env.sha256Pair, env.EmptyLeaf(), CurrentBlock(leaves), TREE_DEPTH)
  {
    PoolFollowsDeposits(env, c, calls);
    var leaves := Commitments(env, c, calls);
    if leaves != [] {
      DepositedIsRootOfBlock(env.sha256Pair, env.EmptyLeaf(), leaves);
    }
  }

  /** A spend takes two leaf positions but leaves the SHA-256 tree alone.  So after one
      the stored root can only be the root over all leaves, outputs included, if SHA-256
      collides or the outputs are empty leaves. */
  lemma SpendLeavesRootStale(env: Env, c: Chain, call: Call, leaves: seq<Word>)
    returns (a: (Word, Word), b: (Word, Word))
    requires c.WellFormed() && Spends(call) && Attempt(env, c, call).Success?
    requires |leaves| + 2 <= Pow2(TREE_DEPTH)
    requires c.pool.sha256Root == Root(env.sha256Pair, env.EmptyLeaf(), leaves, TREE_DEPTH)
    requires (call.spend.outputs.0, call.spend.outputs.1) != (env.EmptyLeaf(), env.EmptyLeaf())
    requires Attempt(env, c, call).value.pool.sha256Root
             == Root(env.sha256Pair, env.EmptyLeaf(), leaves + [call.spend.outputs.0, call.spend.outputs.1], TREE_DEPTH)
    ensures Collision(env.sha256Pair, a, b)
  {
    var all := leaves + [call.spend.outputs.0, call.spend.outputs.1];
    var i := if call.spend.outputs.0 != env.EmptyLeaf() then |leaves| else |leaves| + 1;
    a, b := RootBinds(env.sha256Pair, env.EmptyLeaf(), leaves, all, TREE_DEPTH, i);
  }

  // ----- What the root commits to in any run -----

  /** The tree that a stored hash stands for; `Untouched` is the zero word that every subtree
      field starts as. */
  datatype Tree = Leaf(word: Word) | Untouched | Node(left: Tree, right: Tree)

  function Eval(h: (Word, Word) -> Word, t: Tree): Word {
    match t
    case Leaf(w) => w
    case Untouched => ZERO_WORD
    case Node(l, r) => h(Eval(h, l), Eval(h, r))
  }

  /** A tree of height `l` over words of `allowed`. */
  predicate Over(t: Tree, l: nat, allowed: set<Word>) {
    match t
    case Leaf(w) => l == 0 && w in allowed
    case Untouched => true
    case Node(a, b) => l > 0 && Over(a, l - 1, allowed) && Over(b, l - 1, allowed)
  }

  ghost predicate StandsFor(h: (Word, Word) -> Word, x: Word, l: nat, allowed: set<Word>) {
    exists t :: Over(t, l, allowed) && Eval(h, t) == x
  }

  lemma {:induction false} OverGrows(t: Tree, l: nat, small: set<Word>, large: set<Word>)
    requires Over(t, l, small) && small <= large
    ensures Over(t, l, large)
  {
    if t.Node? {
      OverGrows(t.left, l - 1, small, large);
      OverGrows(t.right, l - 1, small, large);
    }
  }

  lemma {:induction false} ZeroStandsFor(h: (Word, Word) -> Word, z: Word, l: nat, allowed: set<Word>)
    requires z in allowed
    ensures StandsFor(h, Zero(h, z, l), l, allowed)
  {
    if l == 0 {
      assert Over(Leaf(z), 0, allowed);
    } else {
      ZeroStandsFor(h, z, l - 1, allowed);
      NodeStandsFor(h, Zero(h, z, l - 1), Zero(h, z, l - 1), l - 1, allowed);
    }
  }

  lemma NodeStandsFor(h: (Word, Word) -> Word, x: Word, y: Word, l: nat, allowed: set<Word>)
    requires StandsFor(h, x, l, allowed) && StandsFor(h, y, l, allowed)
    ensures StandsFor(h, h(x, y), l + 1, allowed)
  {
    var a :| Over(a, l, allowed) && Eval(h, a) == x;
    var b :| Over(b, l, allowed) && Eval(h, b) == y;
    assert Over(Node(a, b), l + 1, allowed);
  }

  ghost predicate AllStandFor(h: (Word, Word) -> Word, filled: seq<Word>, allowed: set<Word>) {
    forall l :: 0 <= l < |filled| ==> StandsFor(h, filled[l], l, allowed)
  }

  /** A deposit builds its nodes from the stored ones, whatever these stand for. */
  lemma {:induction false} ClimbStandsFor(h: (Word, Word) -> Word, z: Word, filled: seq<Word>, current: Word,
                                          index: nat, level: nat, allowed: set<Word>)
    requires |filled| == TREE_DEPTH && level <= TREE_DEPTH && z in allowed
    requires AllStandFor(h, filled, allowed) && StandsFor(h, current, level, allowed)
    ensures var r := Climb20(h, z, filled, current, index, level);
            AllStandFor(h, r.0, allowed) && StandsFor(h, r.1, TREE_DEPTH, allowed)
    decreases TREE_DEPTH - level
  {
    if level < TREE_DEPTH {
      if index % 2 == 0 {
        ZeroStandsFor(h, z, level, allowed);
        NodeStandsFor(h, current, Zero(h, z, level), level, allowed);
        ClimbStandsFor(h, z, filled[level := current], h(current, Zero(h, z, level)), index / 2, level + 1, allowed);
      } else {
        NodeStandsFor(h, filled[level], current, level, allowed);
        ClimbStandsFor(h, z, filled, h(filled[level], current), index / 2, level + 1, allowed);
      }
    }
  }

  /** The pool's hashes stand for trees over `allowed`. */
  ghost predicate Remembers(env: Env, pool: PoolState, allowed: set<Word>) {
    && |pool.filledSubtrees| == TREE_DEPTH && AllStandFor(env.sha256Pair, pool.filledSubtrees, allowed)
    && StandsFor(env.sha256Pair, pool.sha256Root, TREE_DEPTH, allowed)
  }

  lemma StandsForGrows(h: (Word, Word) -> Word, x: Word, l: nat, small: set<Word>, large: set<Word>)
    requires StandsFor(h, x, l, small) && small <= large
    ensures StandsFor(h, x, l, large)
  {
    var t :| Over(t, l, small) && Eval(h, t) == x;
    OverGrows(t, l, small, large);
  }

  lemma RemembersGrows(env: Env, pool: PoolState, small: set<Word>, large: set<Word>)
    requires Remembers(env, pool, small) && small <= large
    ensures Remembers(env, pool, large)
  {
    forall l | 0 <= l < TREE_DEPTH ensures StandsFor(env.sha256Pair, pool.filledSubtrees[l], l, large) {
      StandsForGrows(env.sha256Pair, pool.filledSubtrees[l], l, small, large);
    }
    StandsForGrows(env.sha256Pair, pool.sha256Root, TREE_DEPTH, small, large);
  }

  /** The empty leaf and the commitments deposited so far. */
  ghost function Known(env: Env, commitments: seq<Word>): set<Word> {
    {env.EmptyLeaf()} + set w | w in commitments
  }

  lemma DepositRemembers(env: Env, c: Chain, call: Call, allowed: set<Word>)
    requires c.WellFormed() && Remembers(env, c.pool, allowed) && env.EmptyLeaf() in allowed
    requires call.CallDeposit? && Attempt(env, c, call).Success? && call.commitment in allowed
    ensures Remembers(env, Attempt(env, c, call).value.pool, allowed)
  {
    assert Over(Leaf(call.commitment), 0, allowed);
    ClimbStandsFor(env.sha256Pair, env.EmptyLeaf(), c.pool.filledSubtrees, call.commitment,
                   c.pool.nextLeafIndex, 0, allowed);
  }

  /** Only deposits touch the tree. */
  lemma OthersKeepTree(env: Env, c: Chain, call: Call)
    requires c.WellFormed() && Inserted(env, c, call) == []
    ensures Step(env, c, call).pool.filledSubtrees == c.pool.filledSubtrees
    ensures Step(env, c, call).pool.sha256Root == c.pool.sha256Root
  {}

  lemma NewPoolRemembers(env: Env, allowed: set<Word>)
    ensures Remembers(env, InitialPool(), allowed)
  {
    forall l: nat | l <= TREE_DEPTH ensures StandsFor(env.sha256Pair, ZERO_WORD, l, allowed) {
      assert Over(Untouched, l, allowed);
    }
  }

  lemma {:induction false} RunRemembers(env: Env, c: Chain, calls: seq<Call>)
    requires c.WellFormed() && c.pool == InitialPool()
    ensures Remembers(env, Execute(env, c, calls).pool, Known(env, Commitments(env, c, calls)))
  {
    if calls == [] {
      NewPoolRemembers(env, Known(env, []));
    } else {
      var last := |calls| - 1;
      var before, known := Execute(env, c, calls[..last]), Commitments(env, c, calls[..last]);
      RunRemembers(env, c, calls[..last]);
      var now := Known(env, known + Inserted(env, before, calls[last]));
      RemembersGrows(env, before.pool, Known(env, known), now);
      if Inserted(env, before, calls[last]) == [] {
        OthersKeepTree(env, before, calls[last]);
      } else {
        DepositRemembers(env, before, calls[last], now);
      }
    }
  }

  /** Two trees with one root agree at every position, or the hash gives a pair of words for
      the price of a collision or of a preimage of the zero word. */
  lemma {:induction false} TreeBinds(h: (Word, Word) -> Word, z: Word, t: Tree, l: nat, allowed: set<Word>,
                                     leaves: seq<Word>, p: nat)
    returns (a: (Word, Word), b: (Word, Word))
    requires Over(t, l, allowed) && Eval(h, t) == NodeAt(h, z, leaves, l, Anc(p, l))
    ensures NodeAt(h, z, leaves, 0, p) in allowed + {ZERO_WORD} || Collision(h, a, b) || h(a.0, a.1) == ZERO_WORD
  {
    a, b := (0, 0), (0, 0);
    if l > 0 {
      var i := Anc(p, l);
      var left, right := NodeAt(h, z, leaves, l - 1, 2 * i), NodeAt(h, z, leaves, l - 1, 2 * i + 1);
      a := (left, right);
      if t.Node? {
        b := (Eval(h, t.left), Eval(h, t.right));
        if a == b {
          var below := if Anc(p, l - 1) % 2 == 0 then t.left else t.right;
          a, b := TreeBinds(h, z, below, l - 1, allowed, leaves, p);
        }
      }
    }
  }

  /** In every run, spends or not: whatever leaves have `sha256_root` as their root are empty
      leaves, zero words and deposited commitments only.  So once a spend has put an output
      of its own among the first 2^20 leaves, no later call makes `sha256_root` the root
      over all leaves again; or else SHA-256 collides or has a preimage of the zero word. */
  lemma RootCoversDepositsOnly(env: Env, c: Chain, calls: seq<Call>, leaves: seq<Word>, p: nat)
    returns (a: (Word, Word), b: (Word, Word))
    requires c.WellFormed() && c.pool == InitialPool() && p < |leaves| && p < Pow2(TREE_DEPTH)
    requires Execute(env, c, calls).pool.sha256Root == Root(env.sha256Pair, env.EmptyLeaf(), leaves, TREE_DEPTH)
    ensures || leaves[p] == env.EmptyLeaf() || leaves[p] == ZERO_WORD || leaves[p] in Commitments(env, c, calls)
            || Collision(env.sha256Pair, a, b) || env.sha256Pair(a.0, a.1) == ZERO_WORD
  {
    RunRemembers(env, c, calls);
    var known := Known(env, Commitments(env, c, calls));
    var t :| Over(t, TREE_DEPTH, known) && Eval(env.sha256Pair, t) == Execute(env, c, calls).pool.sha256Root;
    AncZero(p, TREE_DEPTH);
    a, b := TreeBinds(env.sha256Pair, env.EmptyLeaf(), t, TREE_DEPTH, known, leaves, p);
  }

  // ----- All leaves -----

  function Appended(env: Env, c: Chain, call: Call): seq<Word>
    requires c.WellFormed()
  {
    if Attempt(env, c, call).Failure? then []
    else if call.CallDeposit? then [call.commitment]
    else if Spends(call) then [call.spend.outputs.0, call.spend.outputs.1]
    else []
  }

  /** Deposited commitments and spend outputs, in the order of their leaf positions. */
  function Leaves(env: Env, c: Chain, calls: seq<Call>): seq<Word>
    requires c.WellFormed()
  {
    if calls == [] then [] else
      var last := |calls| - 1;
      Leaves(env, c, calls[..last]) + Appended(env, Execute(env, c, calls[..last]), calls[last])
  }

  lemma StepPlaces(env: Env, c: Chain, call: Call)
    requires c.WellFormed()
    ensures Step(env, c, call).pool.nextLeafIndex == c.pool.nextLeafIndex + |Appended(env, c, call)|
  {}

  /** The next leaf index counts them. */
  lemma {:induction false} LeavesAreCounted(env: Env, c: Chain, calls: seq<Call>)
    requires c.WellFormed()
    ensures Execute(env, c, calls).pool.nextLeafIndex == c.pool.nextLeafIndex + |Leaves(env, c, calls)|
  {
    if calls != [] {
      LeavesAreCounted(env, c, calls[..|calls| - 1]);
      StepPlaces(env, Execute(env, c, calls[..|calls| - 1]), calls[|calls| - 1]);
    }
  }

  lemma {:induction false} LeavesGrow(env: Env, c: Chain, calls: seq<Call>, i: nat)
    requires c.WellFormed() && i <= |calls|
    ensures Leaves(env, c, calls[..i]) <= Leaves(env, c, calls)
  {
    if i < |calls| {
      assert calls[..|calls| - 1][..i] == calls[..i];
      LeavesGrow(env, c, calls[..|calls| - 1], i);
    } else {
      assert calls[..i] == calls;
    }
  }

  /** After a spend whose outputs are not all deposited commitments as well, the root stays
      stale for good. */
  lemma StaleForGood(env: Env, c: Chain, calls: seq<Call>, i: nat) returns (a: (Word, Word), b: (Word, Word))
    requires c.WellFormed() && c.pool == InitialPool() && |Leaves(env, c, calls)| <= Pow2(TREE_DEPTH)
    requires i < |calls| && Spends(calls[i]) && Attempt(env, Execute(env, c, calls[..i]), calls[i]).Success?
    requires var s, known := calls[i].spend, Known(env, Commitments(env, c, calls)) + {ZERO_WORD};
             s.outputs.0 !in known || s.outputs.1 !in known
    requires Execute(env, c, calls).pool.sha256Root
             == Root(env.sha256Pair, env.EmptyLeaf(), Leaves(env, c, calls), TREE_DEPTH)
    ensures Collision(env.sha256Pair, a, b) || env.sha256Pair(a.0, a.1) == ZERO_WORD
  {
    var all, before := Leaves(env, c, calls), Leaves(env, c, calls[..i]);
    assert calls[..i + 1][..i] == calls[..i];
    LeavesGrow(env, c, calls, i + 1);
    assert Leaves(env, c, calls[..i + 1]) == before + [calls[i].spend.outputs.0, calls[i].spend.outputs.1];
    var known := Known(env, Commitments(env, c, calls)) + {ZERO_WORD};
    var p := if calls[i].spend.outputs.0 !in known then |before| else |before| + 1;
    assert all[p] !in known;
    a, b := RootCoversDepositsOnly(env, c, calls, all, p);
  }
}

/** The Rust client wallet (crates/holanc-client/src/lib.rs) and the value checks of the
    circuit inputs (crates/holanc-prover/src/inputs.rs). */
module ClientWallet {
  import opened Base
  import opened Merkle
  import opened IncrementalTree
  import opened CoinSelection

  datatype Note = Note(
    owner: Word, value: U64, assetId: Word, blinding: Word, leafIndex: Option<nat>, spent: bool)

  datatype TxRecord = DepositRecord(amount: U64, leafIndex: nat)

  datatype WalletError =
    | SelectionFailed(error: SelectError)
    | AmountOverflow
    | PersistenceFailed
    | WalletTreeFull

  /** Hash functions that the wallet calls and the model leaves uninterpreted. */
  datatype Hashes = Hashes(pair: (Word, Word) -> Word, commitment: (Word, U64, Word, Word) -> Word)

  function Commitment(h: Hashes, n: Note): Word {
    h.commitment(n.owner, n.value, n.assetId, n.blinding)
  }

  /** Notes of one commitment agree in owner, value, asset and blinding, or else the
      commitment hash collides. */
  lemma CommitmentBinds(h: Hashes, a: Note, b: Note)
    requires Commitment(h, a) == Commitment(h, b)
    ensures || (a.owner, a.value, a.assetId, a.blinding) == (b.owner, b.value, b.assetId, b.blinding)
            || ((a.owner, a.value, a.assetId, a.blinding) != (b.owner, b.value, b.assetId, b.blinding)
                && h.commitment(a.owner, a.value, a.assetId, a.blinding)
                   == h.commitment(b.owner, b.value, b.assetId, b.blinding))
  {}

  // ----- Notes and what they are worth -----

  function Balance(notes: seq<Note>): nat {
    if notes == [] then 0 else
      var last := |notes| - 1;
      Balance(notes[..last]) + if notes[last].spent then 0 else notes[last].value
  }

  /** Positions of the unspent notes, in order. */
  function Unspent(notes: seq<Note>): (u: seq<nat>)
    ensures forall k :: 0 <= k < |u| ==> u[k] < |notes| && !notes[u[k]].spent
    ensures forall j, k :: 0 <= j < k < |u| ==> u[j] < u[k]
    ensures forall i :: 0 <= i < |notes| && !notes[i].spent ==> i in u
  {
    if notes == [] then [] else
      var last := |notes| - 1;
      Unspent(notes[..last]) + if notes[last].spent then [] else [last]
  }

  function Values(notes: seq<Note>, u: seq<nat>): (values: seq<nat>)
    requires forall k :: 0 <= k < |u| ==> u[k] < |notes|
    ensures |values| == |u|
    ensures forall k :: 0 <= k < |u| ==> values[k] == notes[u[k]].value
  {
    seq(|u|, k requires 0 <= k < |u| => notes[u[k]].value)
  }

  lemma {:induction false} BalanceIsSum(notes: seq<Note>)
    ensures Balance(notes) == Sum(Values(notes, Unspent(notes)))
  {
    if notes != [] {
      BalanceIsSum(notes[..|notes| - 1]);
      LastNoteValue(notes);
    }
  }

  lemma LastNoteValue(notes: seq<Note>)
    requires notes != []
    ensures var last := |notes| - 1;
            var front := Values(notes[..last], Unspent(notes[..last]));
            Sum(Values(notes, Unspent(notes))) == Sum(front) + if notes[last].spent then 0 else notes[last].value
  {
    var last := |notes| - 1;
    var u := Unspent(notes[..last]);
    ValuesOfPrefix(notes, last, u);
    if notes[last].spent {
      assert Unspent(notes) == u;
    } else {
      assert Unspent(notes) == u + [last];
      ValuesAppend(notes, u, last);
      SumAppend(Values(notes, u), [notes[last].value]);
      assert Sum([notes[last].value]) == notes[last].value by {
        assert [notes[last].value][..0] == [];
      }
    }
  }

  lemma ValuesOfPrefix(notes: seq<Note>, n: nat, u: seq<nat>)
    requires n <= |notes| && forall k :: 0 <= k < |u| ==> u[k] < n
    ensures Values(notes[..n], u) == Values(notes, u)
  {}

  lemma ValuesAppend(notes: seq<Note>, u: seq<nat>, i: nat)
    requires i < |notes| && forall k :: 0 <= k < |u| ==> u[k] < |notes|
    ensures Values(notes, u + [i]) == Values(notes, u) + [notes[i].value]
  {}

  // ----- Spending notes -----

  function Marked(n: Note, leafIndices: seq<nat>): Note {
    if n.leafIndex.Some? && n.leafIndex.value in leafIndices then n.(spent := true) else n
  }

  /** The notes with those at the listed leaves marked as spent. */
  function MarkSpent(notes: seq<Note>, leafIndices: seq<nat>): (r: seq<Note>)
    ensures |r| == |notes|
  {
    seq(|notes|, i requires 0 <= i < |notes| => Marked(notes[i], leafIndices))
  }

  /** Note `i` sits at leaf `i`. */
  ghost predicate Aligned(notes: seq<Note>) {
    forall i :: 0 <= i < |notes| ==> notes[i].leafIndex == Some(i)
  }

  lemma {:induction false} BalanceAfterOne(notes: seq<Note>, i: nat)
    requires i < |notes| && !notes[i].spent
    ensures Balance(notes) == Balance(notes[i := notes[i].(spent := true)]) + notes[i].value
  {
    var last := |notes| - 1;
    if i == last {
      assert notes[i := notes[i].(spent := true)][..last] == notes[..last];
    } else {
      BalanceAfterOne(notes[..last], i);
      assert notes[i := notes[i].(spent := true)][..last] == notes[..last][i := notes[i].(spent := true)];
    }
  }

  /** Different positions of unspent notes. */
  ghost predicate Spendable(notes: seq<Note>, indices: seq<nat>) {
    && (forall k :: 0 <= k < |indices| ==> indices[k] < |notes| && !notes[indices[k]].spent)
    && (forall j, k :: 0 <= j < k < |indices| ==> indices[j] != indices[k])
  }

  /** Marking different unspent notes lowers the balance by exactly what they are worth. */
  lemma {:induction false} MarkSpentLowersBalance(notes: seq<Note>, indices: seq<nat>)
    requires Aligned(notes) && Spendable(notes, indices)
    ensures Balance(notes) == Balance(MarkSpent(notes, indices)) + WorthOf(notes, indices)
  {
    if indices == [] {
      assert MarkSpent(notes, []) == notes;
    } else {
      var last := |indices| - 1;
      var i, front := indices[last], indices[..last];
      assert indices == front + [i];
      MarkSpentLowersBalance(notes, front);
      MarkOneMore(notes, front, i);
    }
  }

  lemma MarkOneMore(notes: seq<Note>, front: seq<nat>, i: nat)
    requires Aligned(notes) && i < |notes| && !notes[i].spent && i !in front
    ensures Balance(MarkSpent(notes, front)) == Balance(MarkSpent(notes, front + [i])) + notes[i].value
  {
    var before := MarkSpent(notes, front);
    assert before[i] == notes[i];
    MarkAppends(notes, front, i);
    BalanceAfterOne(before, i);
  }

  lemma MarkAppends(notes: seq<Note>, front: seq<nat>, i: nat)
    requires Aligned(notes) && i < |notes|
    ensures MarkSpent(notes, front + [i])
            == MarkSpent(notes, front)[i := MarkSpent(notes, front)[i].(spent := true)]
  {}

  function WorthOf(notes: seq<Note>, indices: seq<nat>): nat
    requires forall k :: 0 <= k < |indices| ==> indices[k] < |notes|
  {
    if indices == [] then 0 else
      WorthOf(notes, indices[..|indices| - 1]) + notes[indices[|indices| - 1]].value
  }

  // ----- Prepared transactions -----

  datatype Prepared = Prepared(
    inputNotes: seq<Note>, outputNotes: seq<Note>, inputProofs: seq<MerkleProof<Word>>, exitValue: U64, fee: U64)

  /** The note that pads unused inputs and outputs. */
  function Dummy(assetId: Word): Note {
    Note(ZERO_WORD, 0, assetId, ZERO_WORD, None, false)
  }

  function PaddingProof(root: Word): MerkleProof<Word> {
    MerkleProof(0, seq(TREE_DEPTH, _ => ZERO_WORD), seq(TREE_DEPTH, _ => 0), root)
  }

  function Total(notes: seq<Note>): nat {
    if notes == [] then 0 else Total(notes[..|notes| - 1]) + notes[|notes| - 1].value
  }

  datatype ProverError = InsufficientValue | SumOverflow

  /** The value check of `build_transfer_input` and `build_withdraw_input`; the former has
      no exit value.  Sums are checked `u64` sums. */
  function CheckValues(p: Prepared): Result<(), ProverError> {
    if !IsU64(Total(p.inputNotes)) || !IsU64(Total(p.outputNotes) + p.exitValue + p.fee) then Failure(SumOverflow)
    else if Total(p.inputNotes) < Total(p.outputNotes) + p.exitValue + p.fee then Failure(InsufficientValue)
    else Success(())
  }

  /** The check passes exactly when the sums fit a `u64` and the inputs cover the outputs, the
      exit and the fee. */
  lemma CheckPassesIff(p: Prepared)
    ensures CheckValues(p) == Success(()) <==>
              Total(p.outputNotes) + p.exitValue + p.fee <= Total(p.inputNotes) < 0x1_0000_0000_0000_0000
  {}

  lemma TotalOfTwo(a: Note, b: Note)
    ensures Total([a, b]) == a.value + b.value
  {
    assert [a, b][..1] == [a] && [a][..0] == [];
    assert Total([a]) == Total([]) + a.value;
  }

  /** The positions that a selection among the unspent notes stands for. */
  function Through(u: seq<nat>, sel: seq<nat>): seq<nat>
    requires forall k :: 0 <= k < |sel| ==> sel[k] < |u|
  {
    seq(|sel|, k requires 0 <= k < |sel| => u[sel[k]])
  }

  lemma {:induction false} WorthThrough(notes: seq<Note>, u: seq<nat>, sel: seq<nat>)
    requires forall k :: 0 <= k < |u| ==> u[k] < |notes|
    requires forall k :: 0 <= k < |sel| ==> sel[k] < |u|
    ensures Worth(Values(notes, u), sel) == WorthOf(notes, Through(u, sel))
  {
    if sel != [] {
      var last := |sel| - 1;
      WorthThrough(notes, u, sel[..last]);
      assert Through(u, sel)[..last] == Through(u, sel[..last]);
    }
  }

  lemma SelectionIsSpendable(notes: seq<Note>, sel: seq<nat>)
    requires Selection(Values(notes, Unspent(notes)), sel)
    ensures Spendable(notes, Through(Unspent(notes), sel))
  {}

  lemma {:induction false} PositionsIn(u: seq<nat>, indices: seq<nat>) returns (sel: seq<nat>)
    requires forall k :: 0 <= k < |indices| ==> indices[k] in u
    ensures |sel| == |indices| && forall k :: 0 <= k < |sel| ==> sel[k] < |u| && u[sel[k]] == indices[k]
  {
    if indices == [] {
      sel := [];
    } else {
      var last := |indices| - 1;
      var front := PositionsIn(u, indices[..last]);
      var k :| 0 <= k < |u| && u[k] == indices[last];
      sel := front + [k];
    }
  }

  /** Every choice of different unspent notes is a selection among them. */
  lemma SelectionFor(notes: seq<Note>, indices: seq<nat>) returns (sel: seq<nat>)
    requires Spendable(notes, indices)
    ensures Selection(Values(notes, Unspent(notes)), sel) && Through(Unspent(notes), sel) == indices
  {
    sel := PositionsIn(Unspent(notes), indices);
  }

  /** No fewer unspent notes would do. */
  ghost predicate FewestNotes(notes: seq<Note>, chosen: seq<nat>, amount: nat) {
    forall other :: Spendable(notes, other) && WorthOf(notes, other) >= amount ==> |chosen| <= |other|
  }

  /** No unspent note that is left over is worth more than one that was chosen. */
  ghost predicate LargestFirst(notes: seq<Note>, chosen: seq<nat>)
    requires Spendable(notes, chosen)
  {
    forall i, k :: 0 <= i < |notes| && !notes[i].spent && i !in chosen && 0 <= k < |chosen| ==>
      notes[i].value <= notes[chosen[k]].value
  }

  lemma MinimalMeansFewest(notes: seq<Note>, sel: seq<nat>, amount: nat)
    requires Minimal(Values(notes, Unspent(notes)), sel, amount)
    ensures FewestNotes(notes, Through(Unspent(notes), sel), amount)
  {
    var u := Unspent(notes);
    forall other | Spendable(notes, other) && WorthOf(notes, other) >= amount ensures |sel| <= |other| {
      var otherSel := SelectionFor(notes, other);
      WorthThrough(notes, u, otherSel);
      assert Covers(Values(notes, u), otherSel, amount);
    }
  }

  /** What a prefix of the sorted order leaves over is worth no more than what it takes. */
  lemma LeftOverIsSmaller(values: seq<nat>, sel: seq<nat>, p: nat, k: nat)
    requires sel <= Sorted(values, |values|) && p < |values| && p !in sel && k < |sel|
    ensures values[p] <= values[sel[k]]
  {
    var order := Sorted(values, |values|);
    SortedIsFalling(values, |values|);
    assert p in order;
    var q :| 0 <= q < |order| && order[q] == p;
    assert q >= |sel|;
    assert values[order[k]] >= values[order[q]];
  }

  lemma PrefixIsLargest(notes: seq<Note>, sel: seq<nat>)
    requires var values := Values(notes, Unspent(notes));
             Selection(values, sel) && sel <= Sorted(values, |values|)
    ensures var chosen := Through(Unspent(notes), sel);
            Spendable(notes, chosen) && LargestFirst(notes, chosen)
  {
    var u := Unspent(notes);
    var values, chosen := Values(notes, u), Through(u, sel);
    SelectionIsSpendable(notes, sel);
    forall i, k | 0 <= i < |notes| && !notes[i].spent && i !in chosen && 0 <= k < |chosen|
      ensures notes[i].value <= notes[chosen[k]].value
    {
      LeftOverNote(notes, u, values, sel, i, k);
    }
  }

  lemma LeftOverNote(notes: seq<Note>, u: seq<nat>, values: seq<nat>, sel: seq<nat>, i: nat, k: nat)
    requires u == Unspent(notes) && values == Values(notes, u) && sel <= Sorted(values, |values|)
    requires forall j :: 0 <= j < |sel| ==> sel[j] < |u|
    requires i < |notes| && !notes[i].spent && i !in Through(u, sel) && k < |sel|
    ensures notes[i].value <= notes[u[sel[k]]].value
  {
    assert i in u;
    var p :| 0 <= p < |u| && u[p] == i;
    forall j | 0 <= j < |sel| ensures sel[j] != p {
      assert Through(u, sel)[j] in Through(u, sel);
    }
    hide Sorted, Unspent;
    LeftOverIsSmaller(values, sel, p, k);
  }

  // ----- Saved wallets -----

  datatype WalletState = WalletState(spendingKey: Word, notes: seq<Note>, history: seq<TxRecord>, assetId: Word)

  /** A file encrypted under a key; only that key opens it. */
  datatype SealedFile = SealedFile(key: Word, state: WalletState)

  /** The leaves that loading replays. */
  function Committed(h: Hashes, notes: seq<Note>): seq<Word> {
    if notes == [] then [] else
      var n := notes[|notes| - 1];
      Committed(h, notes[..|notes| - 1]) + if n.leafIndex.Some? then [Commitment(h, n)] else []
  }

  lemma {:induction false} AlignedCommitted(h: Hashes, notes: seq<Note>)
    requires Aligned(notes)
    ensures |Committed(h, notes)| == |notes|
    ensures forall i :: 0 <= i < |notes| ==> Committed(h, notes)[i] == Commitment(h, notes[i])
  {
    if notes != [] {
      AlignedCommitted(h, notes[..|notes| - 1]);
    }
  }

  // ----- The wallet -----

  class Wallet {
    const hashes: Hashes
    const spendingKey: Word
    const tree: MerkleTree<Word>
    var notes: seq<Note>
    var history: seq<TxRecord>
    var assetId: Word

    /** Every note sits at its own leaf: alignment is what makes proofs findable. */
    ghost predicate Valid()
      reads this, tree
    {
      && tree.Valid() && tree.depth == TREE_DEPTH && tree.hash == hashes.pair && tree.emptyLeaf == ZERO_WORD
      && Aligned(notes) && |notes| == |tree.leaves|
      && forall i :: 0 <= i < |notes| ==> tree.leaves[i] == Commitment(hashes, notes[i])
    }

    constructor (hashes: Hashes, spendingKey: Word)
      ensures Valid() && fresh(tree)
      ensures this.hashes == hashes && this.spendingKey == spendingKey
      ensures notes == [] && history == [] && assetId == ZERO_WORD && tree.leaves == []
    {
      this.hashes, this.spendingKey := hashes, spendingKey;
      tree := new MerkleTree<Word>(TREE_DEPTH, hashes.pair, ZERO_WORD);
      notes, history, assetId := [], [], ZERO_WORD;
    }

    method AddDepositNote(value: U64, blinding: Word) returns (r: Result<Note, WalletError>)
      requires Valid()
      modifies this`notes, this`history, tree
      ensures Valid()
      ensures r.Failure? <==> |old(notes)| == Pow2(TREE_DEPTH)
      ensures r.Failure? ==> r.error == WalletTreeFull && unchanged(this) && unchanged(tree)
      ensures r.Success? ==>
                && r.value == Note(spendingKey, value, assetId, blinding, Some(|old(notes)|), false)
                && notes == old(notes) + [r.value]
                && tree.leaves == old(tree.leaves) + [hashes.commitment(spendingKey, value, assetId, blinding)]
                && history == old(history) + [DepositRecord(value, |old(notes)|)]
    {
      var note := Note(spendingKey, value, assetId, blinding, None, false);
      var appended := tree.Append(Commitment(hashes, note));
      if appended.Failure? {
        return Failure(WalletTreeFull);
      }
      var leafIndex := appended.value.0;
      note := note.(leafIndex := Some(leafIndex));
      notes := notes + [note];
      history := history + [DepositRecord(value, leafIndex)];
      r := Success(note);
    }

    /** The result holds positions in `notes`. */
    method SelectNotes(amount: nat) returns (r: Result<seq<nat>, SelectError>)
      requires Valid()
      ensures var values := Values(notes, Unspent(notes));
              r.Success? <==> values != [] && Sum(values) < U64_LIMIT && TwoCoverable(values, amount)
      ensures r.Success? ==>
                && |r.value| <= 2 && Spendable(notes, r.value)
                && amount <= WorthOf(notes, r.value) <= Balance(notes) < U64_LIMIT
      ensures r.Success? ==> FewestNotes(notes, r.value, amount) && LargestFirst(notes, r.value)
    {
      var u := Unspent(notes);
      var picked := SelectGreedy(Values(notes, u), amount);
      if picked.Failure? {
        return Failure(picked.error);
      }
      r := Success(Through(u, picked.value));
      PrefixIsLargest(notes, picked.value);
      MinimalMeansFewest(notes, picked.value, amount);
      WorthThrough(notes, u, picked.value);
      BalanceIsSum(notes);
      MarkSpentLowersBalance(notes, r.value);
    }

    /** Copies the selected notes and proves each, then pads both lists to two. */
    method GatherInputs(selected: seq<nat>) returns (inputs: seq<Note>, proofs: seq<MerkleProof<Word>>)
      requires Valid() && |selected| <= 2
      requires forall k :: 0 <= k < |selected| ==> selected[k] < |notes|
      ensures |inputs| == 2 == |proofs|
      ensures forall k :: 0 <= k < 2 ==> Input(selected, k, inputs[k], proofs[k])
      ensures forall k :: |selected| <= k < 2 ==>
                && inputs[k] == Note(ZERO_WORD, 0, assetId, ZERO_WORD, None, false)
                && proofs[k] == MerkleProof(0, seq(20, _ => ZERO_WORD), seq(20, _ => 0), tree.root)
    {
      inputs := [Dummy(assetId), Dummy(assetId)];
      proofs := [];
      for k := 0 to |selected|
        invariant |inputs| == 2 && |proofs| == k <= 2
        invariant forall j :: 0 <= j < k ==> Input(selected, j, inputs[j], proofs[j])
        invariant forall j :: k <= j < 2 ==> inputs[j] == Dummy(assetId)
      {
        inputs := inputs[k := notes[selected[k]]];
        var proof := ProveNote(selected, k);
        proofs := proofs + [proof];
      }
      while |proofs| < 2
        invariant |selected| <= |proofs| <= 2
        invariant forall j :: 0 <= j < |proofs| ==> Input(selected, j, inputs[j], proofs[j])
        invariant forall j :: |proofs| <= j < 2 ==> inputs[j] == Dummy(assetId)
        decreases 2 - |proofs|
      {
        proofs := proofs + [PaddingProof(tree.root)];
      }
    }

    method ProveNote(selected: seq<nat>, k: nat) returns (proof: MerkleProof<Word>)
      requires Valid() && k < |selected| && selected[k] < |notes|
      ensures Input(selected, k, notes[selected[k]], proof)
    {
      var note := notes[selected[k]];
      var proved := tree.Proof(note.leafIndex.value);
      proof := proved.value;
    }

    lemma WorthOfInputs(selected: seq<nat>, inputs: seq<Note>, proofs: seq<MerkleProof<Word>>)
      requires |selected| <= 2 == |inputs| == |proofs|
      requires forall k :: 0 <= k < |selected| ==> selected[k] < |notes|
      requires forall k :: 0 <= k < 2 ==> Input(selected, k, inputs[k], proofs[k])
      ensures Total(inputs) == WorthOf(notes, selected)
    {
      assert Input(selected, 0, inputs[0], proofs[0]) && Input(selected, 1, inputs[1], proofs[1]);
      assert inputs == [inputs[0], inputs[1]];
      TotalOfTwo(inputs[0], inputs[1]);
      if |selected| == 2 {
        assert selected[..1] == [selected[0]] && [selected[0]][..0] == [];
        assert WorthOf(notes, [selected[0]]) == notes[selected[0]].value;
      } else if |selected| == 1 {
        assert selected[..0] == [];
      }
    }

    /** Input `k` of a prepared transaction: a selected note of the wallet with a proof
        that folds from its commitment to the wallet's root, or padding. */
    ghost predicate Input(selected: seq<nat>, k: nat, note: Note, proof: MerkleProof<Word>)
      reads this, tree
    {
      && proof.root == tree.root
      && (k < |selected| ==>
            && selected[k] < |notes| && note == notes[selected[k]]
            && proof.leafIndex == selected[k]
            && |proof.pathElements| == |proof.pathIndices| == TREE_DEPTH
            && Fold(hashes.pair, Commitment(hashes, note), proof.pathElements, proof.pathIndices) == tree.root)
      && (k >= |selected| ==> note == Dummy(assetId) && proof == PaddingProof(tree.root))
    }

    /** Inputs taken from the wallet, together worth at least `total`. */
    ghost predicate Gathered(inputs: seq<Note>, proofs: seq<MerkleProof<Word>>, selected: seq<nat>, total: nat)
      reads this, tree
    {
      && |inputs| == |proofs| == 2 >= |selected|
      && (forall k :: 0 <= k < 2 ==> Input(selected, k, inputs[k], proofs[k]))
      && Spendable(notes, selected)
      && total <= Total(inputs) == WorthOf(notes, selected) <= Balance(notes) < U64_LIMIT
    }

    /** When the wallet can fund `total` from two notes or fewer. */
    ghost predicate CanFund(total: nat)
      reads this
    {
      var values := Values(notes, Unspent(notes));
      IsU64(total) && values != [] && Sum(values) < U64_LIMIT && TwoCoverable(values, total)
    }

    method FundInputs(amount: U64, fee: U64)
      returns (r: Result<(seq<Note>, seq<MerkleProof<Word>>), WalletError>, ghost selected: seq<nat>)
      requires Valid()
      ensures r.Success? <==> CanFund(amount + fee)
      ensures r.Success? ==> Gathered(r.value.0, r.value.1, selected, amount + fee)
    {
      selected := [];
      if !IsU64(amount + fee) {
        return Failure(AmountOverflow), selected;
      }
      var picked := SelectNotes(amount + fee);
      if picked.Failure? {
        return Failure(SelectionFailed(picked.error)), selected;
      }
      selected := picked.value;
      var inputs, proofs := GatherInputs(picked.value);
      WorthOfInputs(selected, inputs, proofs);
      r := Success((inputs, proofs));
    }

    /** A transaction that spends `selected`, balances, and passes the value check of the
        circuit inputs. */
    ghost predicate Prepares(p: Prepared, selected: seq<nat>)
      reads this, tree
    {
      && Gathered(p.inputNotes, p.inputProofs, selected, p.exitValue + p.fee)
      && |p.outputNotes| == 2
      && Total(p.inputNotes) == Total(p.outputNotes) + p.exitValue + p.fee
      && CheckValues(p) == Success(())
    }

    /** Pays `owner` when there is something to pay, and pads otherwise. */
    predicate IsChange(note: Note, change: int, blinding: Word)
      reads this
    {
      if change == 0 then note == Note(ZERO_WORD, 0, assetId, ZERO_WORD, None, false)
      else IsU64(change) && note == Note(spendingKey, change, assetId, blinding, None, false)
    }

    lemma GatheredCovers(inputs: seq<Note>, proofs: seq<MerkleProof<Word>>, selected: seq<nat>, total: nat, part: nat)
      requires Gathered(inputs, proofs, selected, total) && part <= total
      ensures Gathered(inputs, proofs, selected, part)
    {}

    /** Two outputs that balance the inputs make a prepared transaction. */
    lemma BalancedIsPrepared(inputs: seq<Note>, proofs: seq<MerkleProof<Word>>, selected: seq<nat>,
                             first: Note, second: Note, exit: U64, fee: U64)
      requires Gathered(inputs, proofs, selected, exit + fee)
      requires first.value + second.value + exit + fee == Total(inputs)
      ensures Prepares(Prepared(inputs, [first, second], proofs, exit, fee), selected)
    {
      TotalOfTwo(first, second);
    }

    function ChangeNote(change: U64, blinding: Word): (note: Note)
      reads this
      ensures IsChange(note, change, blinding) && note.value == change
    {
      if change > 0 then Note(spendingKey, change, assetId, blinding, None, false) else Dummy(assetId)
    }

    method PrepareTransfer(recipient: Word, amount: U64, fee: U64, blindings: (Word, Word))
      returns (r: Result<Prepared, WalletError>, ghost selected: seq<nat>)
      requires Valid()
      ensures r.Success? <==> CanFund(amount + fee)
      ensures r.Success? ==>
                && Prepares(r.value, selected) && r.value.fee == fee && r.value.exitValue == 0
                && r.value.outputNotes[0] == Note(recipient, amount, assetId, blindings.0, None, false)
                && IsChange(r.value.outputNotes[1], Total(r.value.inputNotes) - amount - fee, blindings.1)
    {
      var funded;
      funded, selected := FundInputs(amount, fee);
      if funded.Failure? {
        return Failure(funded.error), selected;
      }
      var (inputs, proofs) := funded.value;
      var changeNote := ChangeNote(Total(inputs) - (amount + fee), blindings.1);
      var recipientNote := Note(recipient, amount, assetId, blindings.0, None, false);
      GatheredCovers(inputs, proofs, selected, amount + fee, fee);
      BalancedIsPrepared(inputs, proofs, selected, recipientNote, changeNote, 0, fee);
      r := Success(Prepared(inputs, [recipientNote, changeNote], proofs, 0, fee));
    }

    method PrepareWithdraw(amount: U64, fee: U64, blinding: Word)
      returns (r: Result<Prepared, WalletError>, ghost selected: seq<nat>)
      requires Valid()
      ensures r.Success? <==> CanFund(amount + fee)
      ensures r.Success? ==>
                && Prepares(r.value, selected) && r.value.fee == fee && r.value.exitValue == amount
                && IsChange(r.value.outputNotes[0], Total(r.value.inputNotes) - amount - fee, blinding)
                && r.value.outputNotes[1] == Note(ZERO_WORD, 0, assetId, ZERO_WORD, None, false)
    {
      var funded;
      funded, selected := FundInputs(amount, fee);
      if funded.Failure? {
        return Failure(funded.error), selected;
      }
      var (inputs, proofs) := funded.value;
      var changeNote := ChangeNote(Total(inputs) - (amount + fee), blinding);
      BalancedIsPrepared(inputs, proofs, selected, changeNote, Dummy(assetId), amount, fee);
      r := Success(Prepared(inputs, [changeNote, Dummy(assetId)], proofs, amount, fee));
    }

    method MarkNotesSpent(leafIndices: seq<nat>)
      requires Valid()
      modifies this`notes
      ensures Valid()
      ensures notes == MarkSpent(old(notes), leafIndices)
      ensures forall i :: 0 <= i < |notes| ==>
                notes[i] == if i in leafIndices then old(notes)[i].(spent := true) else old(notes)[i]
    {
      var result := notes;
      for i := 0 to |notes|
        invariant |result| == |notes|
        invariant forall j :: 0 <= j < i ==> result[j] == Marked(notes[j], leafIndices)
        invariant forall j :: i <= j < |notes| ==> result[j] == notes[j]
      {
        if notes[i].leafIndex.Some? && notes[i].leafIndex.value in leafIndices {
          result := result[i := notes[i].(spent := true)];
        }
      }
      assert result == MarkSpent(notes, leafIndices);
      notes := result;
    }

    method Save() returns (file: SealedFile)
      ensures file == SealedFile(spendingKey, WalletState(spendingKey, notes, history, assetId))
    {
      file := SealedFile(spendingKey, WalletState(spendingKey, notes, history, assetId));
    }
  }

  /** The leaves that fit a tree. */
  function Fitting(leaves: seq<Word>): seq<Word> {
    if |leaves| <= Pow2(TREE_DEPTH) then leaves else leaves[..Pow2(TREE_DEPTH)]
  }

  lemma FittingStep(before: seq<Word>, x: Word)
    ensures Fitting(before + [x]) == if |before| < Pow2(TREE_DEPTH) then Fitting(before) + [x] else Fitting(before)
    ensures |Fitting(before)| == Pow2(TREE_DEPTH) <==> |before| >= Pow2(TREE_DEPTH)
  {}

  /** The tree that replaying the commitments of `notes` builds. */
  ghost predicate Replayed(tree: MerkleTree<Word>, hashes: Hashes, notes: seq<Note>)
    reads tree
  {
    && tree.Valid() && tree.depth == TREE_DEPTH && tree.hash == hashes.pair && tree.emptyLeaf == ZERO_WORD
    && tree.leaves == Fitting(Committed(hashes, notes))
  }

  /** Replays the commitment of a placed note; a full tree silently drops it. */
  method ReplayNote(tree: MerkleTree<Word>, hashes: Hashes, note: Note, ghost before: seq<Note>)
    requires Replayed(tree, hashes, before)
    modifies tree
    ensures Replayed(tree, hashes, before + [note])
  {
    assert (before + [note])[..|before|] == before;
    if note.leafIndex.Some? {
      FittingStep(Committed(hashes, before), Commitment(hashes, note));
      var _ := tree.Append(Commitment(hashes, note));
    }
  }

  /** `w` has the fields of `state`, and a tree over the commitments of its placed notes. */
  ghost predicate Restores(w: Wallet, hashes: Hashes, state: WalletState)
    reads w, w.tree
  {
    && w.hashes == hashes && w.notes == state.notes && w.history == state.history && w.assetId == state.assetId
    && Replayed(w.tree, hashes, state.notes)
  }

  /** Decrypts, restores the fields and replays the placed notes into a new tree. */
  method Load(hashes: Hashes, file: SealedFile, spendingKey: Word) returns (r: Result<Wallet, WalletError>)
    ensures r.Success? <==> file.key == spendingKey
    ensures r.Failure? ==> r.error == PersistenceFailed
    ensures r.Success? ==>
              && fresh(r.value) && fresh(r.value.tree)
              && r.value.spendingKey == spendingKey && Restores(r.value, hashes, file.state)
  {
    if file.key != spendingKey {
      return Failure(PersistenceFailed);
    }
    var w := new Wallet(hashes, spendingKey);
    var notes := file.state.notes;
    w.notes, w.history, w.assetId := notes, file.state.history, file.state.assetId;
    for i := 0 to |notes|
      modifies w.tree
      invariant Replayed(w.tree, hashes, notes[..i])
    {
      ReplayNote(w.tree, hashes, notes[i], notes[..i]);
      assert notes[..i + 1] == notes[..i] + [notes[i]];
    }
    assert notes[..|notes|] == notes;
    r := Success(w);
  }

  ghost predicate SameWallet(w: Wallet, l: Wallet)
    reads w, w.tree, l, l.tree
  {
    && l.hashes == w.hashes && l.spendingKey == w.spendingKey
    && l.notes == w.notes && l.history == w.history && l.assetId == w.assetId
    && l.tree.leaves == w.tree.leaves && l.tree.root == w.tree.root && l.tree.nextIndex == w.tree.nextIndex
    && l.tree.filledSubtrees == w.tree.filledSubtrees && l.tree.zeros == w.tree.zeros
  }

  /** A wallet restored from the fields of a valid one is valid, and agrees with it in every
      field of its tree. */
  lemma RestoredEqualsSaved(w: Wallet, l: Wallet)
    requires w.Valid() && l.spendingKey == w.spendingKey
    requires Restores(l, w.hashes, WalletState(w.spendingKey, w.notes, w.history, w.assetId))
    ensures l.Valid() && SameWallet(w, l)
  {
    AlignedCommitted(w.hashes, w.notes);
    assert Committed(w.hashes, w.notes) == w.tree.leaves;
    LeavesDetermineTree(l.tree, w.tree);
  }

  /** Saving and loading: the wallet's own key gives back a valid wallet that is equal to it,
      tree included, and any other key gives nothing. */
  method SaveAndLoad(w: Wallet, spendingKey: Word) returns (r: Result<Wallet, WalletError>)
    requires w.Valid()
    ensures r.Success? <==> spendingKey == w.spendingKey
    ensures r.Success? ==> fresh(r.value) && fresh(r.value.tree) && r.value.Valid() && SameWallet(w, r.value)
  {
    var file := w.Save();
    r := Load(w.hashes, file, spendingKey);
    if r.Success? {
      RestoredEqualsSaved(w, r.value);
    }
  }

  /** Marking the real inputs of a prepared transaction as spent lowers the balance by
      exactly the sum of its inputs. */
  lemma SpendingLowersBalance(w: Wallet, p: Prepared, selected: seq<nat>)
    requires w.Valid() && w.Prepares(p, selected)
    ensures Balance(w.notes) == Balance(MarkSpent(w.notes, selected)) + Total(p.outputNotes) + p.exitValue + p.fee
  {
    MarkSpentLowersBalance(w.notes, selected);
  }

  /** What the circuits ask of every input, padding included: that its proof folds from its
      commitment to the root. */
  ghost predicate InputProves(h: Hashes, note: Note, proof: MerkleProof<Word>) {
    && |proof.pathElements| == |proof.pathIndices|
    && Fold(h.pair, Commitment(h, note), proof.pathElements, proof.pathIndices) == proof.root
  }

  function FirstLeaf(leaves: seq<Word>): Word {
    if leaves == [] then ZERO_WORD else leaves[0]
  }

  /** A real input of a prepared transaction proves.  Its padding does only if the wallet's
      first leaf is the padding's own commitment, or else the hash collides: a transaction
      prepared from one note does not prove otherwise. */
  lemma PaddingProvesOnlyIf(w: Wallet, p: Prepared, selected: seq<nat>, k: nat)
    returns (a: (Word, Word), b: (Word, Word))
    requires w.Valid() && w.Prepares(p, selected) && k < 2
    ensures k < |selected| ==> InputProves(w.hashes, p.inputNotes[k], p.inputProofs[k])
    ensures k >= |selected| && InputProves(w.hashes, p.inputNotes[k], p.inputProofs[k]) ==>
              FirstLeaf(w.tree.leaves) == Commitment(w.hashes, Dummy(w.assetId)) || Collision(w.hashes.pair, a, b)
  {
    a, b := (0, 0), (0, 0);
    assert w.Input(selected, k, p.inputNotes[k], p.inputProofs[k]);
    if k >= |selected| && InputProves(w.hashes, p.inputNotes[k], p.inputProofs[k])
      && FirstLeaf(w.tree.leaves) != Commitment(w.hashes, Dummy(w.assetId))
    {
      LeftmostBits(TREE_DEPTH);
      AncZero(0, TREE_DEPTH);
      a, b := ProofBindsLeaf(w.tree, 0, Commitment(w.hashes, Dummy(w.assetId)), PaddingProof(w.tree.root).pathElements);
    }
  }

  lemma LeftmostBits(depth: nat)
    ensures BitsOf(0, depth) == seq(depth, _ => 0)
  {
    forall l | 0 <= l < depth ensures Anc(0, l) == 0 {
      AncZero(0, l);
    }
  }
}

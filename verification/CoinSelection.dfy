/** Coin selection in the two wallets: the sorted greedy of the Rust client
    (`select_notes`, crates/holanc-client/src/lib.rs) and the single-then-pair search of
    the TypeScript SDK (`selectNotes`, sdk/typescript/src/wallet.ts). */
module CoinSelection {
  import opened Base

  // ----- What a selection is for -----

  /** A selection is a list of different positions in the list of spendable values. */
  ghost predicate Selection(values: seq<nat>, sel: seq<nat>) {
    && (forall k :: 0 <= k < |sel| ==> sel[k] < |values|)
    && (forall j, k :: 0 <= j < k < |sel| ==> sel[j] != sel[k])
  }

  function Worth(values: seq<nat>, sel: seq<nat>): nat
    requires forall k :: 0 <= k < |sel| ==> sel[k] < |values|
  {
    if sel == [] then 0 else Worth(values, sel[..|sel| - 1]) + values[sel[|sel| - 1]]
  }

  ghost predicate Covers(values: seq<nat>, sel: seq<nat>, amount: nat) {
    Selection(values, sel) && Worth(values, sel) >= amount
  }

  /** The circuits take two inputs. */
  ghost predicate TwoCoverable(values: seq<nat>, amount: nat) {
    exists sel :: |sel| <= 2 && Covers(values, sel, amount)
  }

  ghost predicate Minimal(values: seq<nat>, sel: seq<nat>, amount: nat) {
    Covers(values, sel, amount) && forall other :: Covers(values, other, amount) ==> |sel| <= |other|
  }

  lemma WorthOfOne(values: seq<nat>, a: nat)
    requires a < |values|
    ensures Worth(values, [a]) == values[a]
  {}

  lemma WorthOfTwo(values: seq<nat>, a: nat, b: nat)
    requires a < |values| && b < |values|
    ensures Worth(values, [a, b]) == values[a] + values[b]
  {
    assert [a, b][..1] == [a];
    WorthOfOne(values, a);
  }

  lemma SmallSelection(values: seq<nat>, sel: seq<nat>)
    requires Selection(values, sel) && |sel| <= 2
    ensures |sel| == 0 ==> Worth(values, sel) == 0
    ensures |sel| == 1 ==> Worth(values, sel) == values[sel[0]]
    ensures |sel| == 2 ==> sel[0] != sel[1] && Worth(values, sel) == values[sel[0]] + values[sel[1]]
  {}

  // ----- The stable descending sort -----

  function Insert(values: seq<nat>, order: seq<nat>, p: nat): seq<nat>
    requires p < |values| && forall k :: 0 <= k < |order| ==> order[k] < |values|
  {
    if order == [] || values[order[|order| - 1]] >= values[p] then order + [p]
    else Insert(values, order[..|order| - 1], p) + [order[|order| - 1]]
  }

  /** Positions of `values[..n]` by falling value, equal values in their own order. */
  function Sorted(values: seq<nat>, n: nat): (order: seq<nat>)
    requires n <= |values|
    ensures |order| == n && forall k :: 0 <= k < n ==> order[k] < n
  {
    if n == 0 then [] else
      var before := Sorted(values, n - 1);
      var order := Insert(values, before, n - 1);
      InsertMembers(values, before, n - 1);
      assert forall k :: 0 <= k < |order| ==> order[k] in order;
      order
  }

  lemma {:induction false} InsertMembers(values: seq<nat>, order: seq<nat>, p: nat)
    requires p < |values| && forall k :: 0 <= k < |order| ==> order[k] < |values|
    ensures |Insert(values, order, p)| == |order| + 1
    ensures forall x :: x in Insert(values, order, p) <==> x in order || x == p
  {
    if order != [] && values[order[|order| - 1]] < values[p] {
      var last := |order| - 1;
      InsertMembers(values, order[..last], p);
      assert order == order[..last] + [order[last]];
    }
  }

  ghost predicate Distinct(order: seq<nat>) {
    forall j, k :: 0 <= j < k < |order| ==> order[j] != order[k]
  }

  lemma {:induction false} InsertKeepsDistinct(values: seq<nat>, order: seq<nat>, p: nat)
    requires p < |values| && forall k :: 0 <= k < |order| ==> order[k] < |values|
    requires Distinct(order) && p !in order
    ensures Distinct(Insert(values, order, p))
  {
    if order != [] && values[order[|order| - 1]] < values[p] {
      var last := |order| - 1;
      InsertKeepsDistinct(values, order[..last], p);
      InsertMembers(values, order[..last], p);
      var front := Insert(values, order[..last], p);
      forall j | 0 <= j < |front| ensures front[j] != order[last] {
        assert front[j] in front;
      }
    }
  }

  ghost predicate Falling(values: seq<nat>, order: seq<nat>)
    requires forall k :: 0 <= k < |order| ==> order[k] < |values|
  {
    forall j, k :: 0 <= j <= k < |order| ==> values[order[j]] >= values[order[k]]
  }

  lemma {:induction false} InsertKeepsFalling(values: seq<nat>, order: seq<nat>, p: nat)
    requires p < |values| && forall k :: 0 <= k < |order| ==> order[k] < |values|
    requires Falling(values, order)
    ensures forall k :: 0 <= k < |Insert(values, order, p)| ==> Insert(values, order, p)[k] < |values|
    ensures Falling(values, Insert(values, order, p))
  {
    InsertMembers(values, order, p);
    if order != [] && values[order[|order| - 1]] < values[p] {
      var last := |order| - 1;
      InsertKeepsFalling(values, order[..last], p);
      InsertMembers(values, order[..last], p);
      var front := Insert(values, order[..last], p);
      forall j | 0 <= j < |front| ensures front[j] < |values| && values[front[j]] >= values[order[last]] {
        assert front[j] in front;
      }
    }
  }

  lemma {:induction false} SortedIsFalling(values: seq<nat>, n: nat)
    requires n <= |values|
    ensures Falling(values, Sorted(values, n)) && Distinct(Sorted(values, n))
    ensures forall p: nat :: p < n ==> p in Sorted(values, n)
  {
    if n > 0 {
      var before := Sorted(values, n - 1);
      SortedIsFalling(values, n - 1);
      InsertKeepsFalling(values, before, n - 1);
      InsertKeepsDistinct(values, before, n - 1);
      InsertMembers(values, before, n - 1);
    }
  }

  /** The head of the order is worth at least as much as any selection of its size. */
  lemma HeadIsLargest(values: seq<nat>, sel: seq<nat>)
    requires Selection(values, sel) && |sel| <= 2
    ensures var order := Sorted(values, |values|);
            |sel| <= |order| && Worth(values, sel) <= Worth(values, order[..|sel|])
  {
    var order := Sorted(values, |values|);
    SortedIsFalling(values, |values|);
    SmallSelection(values, sel);
    if |sel| == 1 {
      assert sel[0] in order;
      var i :| 0 <= i < |order| && order[i] == sel[0];
      HeadWorth(values, order, 1);
    } else if |sel| == 2 {
      assert sel[0] in order && sel[1] in order;
      var i :| 0 <= i < |order| && order[i] == sel[0];
      var j :| 0 <= j < |order| && order[j] == sel[1];
      assert i != j;
      HeadWorth(values, order, 2);
      var lo, hi := if i < j then i else j, if i < j then j else i;
      assert values[order[0]] >= values[order[lo]] && values[order[1]] >= values[order[hi]];
    }
  }

  lemma HeadWorth(values: seq<nat>, order: seq<nat>, k: nat)
    requires 1 <= k <= 2 && k <= |order| && forall k :: 0 <= k < |order| ==> order[k] < |values|
    ensures Worth(values, order[..k]) == values[order[0]] + if k == 2 then values[order[1]] else 0
  {
    if k == 1 {
      assert order[..1] == [order[0]];
      WorthOfOne(values, order[0]);
    } else {
      assert order[..2] == [order[0], order[1]];
      WorthOfTwo(values, order[0], order[1]);
    }
  }

  lemma {:induction false} PrefixMonotone(values: seq<nat>, order: seq<nat>, j: nat, k: nat)
    requires j <= k <= |order| && forall i :: 0 <= i < |order| ==> order[i] < |values|
    ensures Worth(values, order[..j]) <= Worth(values, order[..k])
  {
    if j < k {
      assert order[..k][..k - 1] == order[..k - 1];
      PrefixMonotone(values, order, j, k - 1);
    }
  }

  // ----- Rust -----

  datatype SelectError =
    | NoUnspentNotes
    | InsufficientBalance(have: nat, need: nat)
    | ArithmeticPanic

  /** Success exactly when two notes can cover the amount, and then with as few notes as
      any cover takes. */
  ghost predicate GreedyResult(values: seq<nat>, amount: nat, r: Result<seq<nat>, SelectError>) {
    && (r.Success? <==> values != [] && Sum(values) < U64_LIMIT && TwoCoverable(values, amount))
    && (r.Success? ==> |r.value| <= 2 && Minimal(values, r.value, amount))
    && (r == Failure(NoUnspentNotes) <==> values == [])
    && (r == Failure(ArithmeticPanic) <==> values != [] && Sum(values) >= U64_LIMIT)
  }

  /** The greedy loop takes a prefix of the sorted order.  Release builds check `u64`
      sums, so a total that does not fit aborts the call. */
  method SelectGreedy(values: seq<nat>, amount: nat) returns (r: Result<seq<nat>, SelectError>)
    ensures GreedyResult(values, amount, r)
    ensures r.Success? ==> r.value <= Sorted(values, |values|)
    ensures r.Failure? && r.error.InsufficientBalance? ==> r.error.have < r.error.need == amount
  {
    if values == [] {
      return Failure(NoUnspentNotes);
    }
    var order := Sorted(values, |values|);
    SortedIsFalling(values, |values|);
    var total := Sum(values);
    if total >= U64_LIMIT {
      return Failure(ArithmeticPanic);
    }
    if total < amount {
      forall sel | |sel| <= 2 && Selection(values, sel) ensures Worth(values, sel) < amount {
        WorthAtMostTotal(values, sel);
      }
      return Failure(InsufficientBalance(total, amount));
    }
    var selected, covered := TakeUntilCovered(values, order, amount);
    GreedyIsMinimal(values, selected, amount);
    if covered < amount {
      return Failure(InsufficientBalance(covered, amount));
    }
    r := Success(selected);
  }

  method TakeUntilCovered(values: seq<nat>, order: seq<nat>, amount: nat) returns (selected: seq<nat>, covered: nat)
    requires forall k :: 0 <= k < |order| ==> order[k] < |values|
    ensures |selected| <= 2 && |selected| <= |order| && selected == order[..|selected|]
    ensures covered == Worth(values, selected)
    ensures |selected| > 0 ==> Worth(values, order[..|selected| - 1]) < amount
    ensures covered >= amount || |selected| == 2 || |selected| == |order|
  {
    selected, covered := [], 0;
    var i := 0;
    while i < |order| && covered < amount && |selected| < 2
      invariant |selected| == i <= 2 && i <= |order| && selected == order[..i]
      invariant covered == Worth(values, selected)
      invariant i > 0 ==> Worth(values, order[..i - 1]) < amount
    {
      WorthExtend(values, order, i);
      selected := selected + [order[i]];
      covered := covered + values[order[i]];
      i := i + 1;
    }
  }

  lemma WorthExtend(values: seq<nat>, order: seq<nat>, i: nat)
    requires i < |order| && forall k :: 0 <= k < |order| ==> order[k] < |values|
    ensures order[..i] + [order[i]] == order[..i + 1]
    ensures Worth(values, order[..i + 1]) == Worth(values, order[..i]) + values[order[i]]
  {}

  lemma WorthAtMostTotal(values: seq<nat>, sel: seq<nat>)
    requires Selection(values, sel) && |sel| <= 2
    ensures Worth(values, sel) <= Sum(values)
  {
    SmallSelection(values, sel);
    if |sel| == 1 {
      SumUpdate(values, sel[0], 0);
    } else if |sel| == 2 {
      SumUpdate(values, sel[0], 0);
      SumUpdate(values[sel[0] := 0], sel[1], 0);
    }
  }

  /** Where the loop stops: the prefix taken is a smallest cover, or nothing that the
      circuits can spend covers the amount. */
  lemma GreedyIsMinimal(values: seq<nat>, taken: seq<nat>, amount: nat)
    requires |taken| <= 2 && |taken| <= |values| && taken == Sorted(values, |values|)[..|taken|]
    requires |taken| > 0 ==> Worth(values, Sorted(values, |values|)[..|taken| - 1]) < amount
    requires Worth(values, taken) >= amount || |taken| == 2 || |taken| == |values|
    ensures Selection(values, taken)
    ensures Worth(values, taken) >= amount ==> Minimal(values, taken, amount)
    ensures Worth(values, taken) < amount ==> !TwoCoverable(values, amount)
  {
    HeadIsSelection(values, taken);
    if Worth(values, taken) >= amount {
      forall other | Covers(values, other, amount) ensures |taken| <= |other| {
        if |other| < |taken| {
          SelectionFallsShort(values, taken, amount, other);
        }
      }
    } else {
      forall sel | |sel| <= 2 && Selection(values, sel) ensures Worth(values, sel) < amount {
        SelectionFallsShort(values, taken, amount, sel);
      }
    }
  }

  lemma HeadIsSelection(values: seq<nat>, taken: seq<nat>)
    requires |taken| <= |values| && taken == Sorted(values, |values|)[..|taken|]
    ensures Selection(values, taken)
  {
    SortedIsFalling(values, |values|);
  }

  lemma SelectionFallsShort(values: seq<nat>, taken: seq<nat>, amount: nat, sel: seq<nat>)
    requires |taken| <= 2 && |taken| <= |values| && taken == Sorted(values, |values|)[..|taken|]
    requires |taken| > 0 ==> Worth(values, Sorted(values, |values|)[..|taken| - 1]) < amount
    requires |sel| <= 2 && Selection(values, sel)
    ensures |sel| < |taken| ==> Worth(values, sel) < amount
    ensures Worth(values, taken) < amount && (|taken| == 2 || |taken| == |values|) ==> Worth(values, sel) < amount
  {
    var order := Sorted(values, |values|);
    HeadIsLargest(values, sel);
    if |sel| < |taken| {
      PrefixMonotone(values, order, |sel|, |taken| - 1);
    }
  }

  // ----- TypeScript -----

  /** Whom the SDK may pick: any single that suffices, otherwise any pair that does. */
  ghost predicate Candidate(values: seq<nat>, sel: seq<nat>, amount: nat) {
    && Covers(values, sel, amount)
    && (|sel| == 1 || (|sel| == 2 && sel[0] < sel[1] && forall k :: 0 <= k < |values| ==> values[k] < amount))
  }

  ghost predicate SearchResult(values: seq<nat>, amount: nat, r: Option<seq<nat>>) {
    && (r.Some? <==> values != [] && TwoCoverable(values, amount))
    && (r.Some? ==> Candidate(values, r.value, amount))
    && (r.Some? ==> (Minimal(values, r.value, amount) <==> amount > 0))
  }

  /** `random` stands for the word drawn from the random source; it is reduced modulo the
      number of candidates.  Big integers never overflow. */
  method SelectRandom(values: seq<nat>, amount: nat, random: nat) returns (r: Option<seq<nat>>)
    ensures SearchResult(values, amount, r)
    ensures r.None? ==> forall sel :: !Candidate(values, sel, amount)
  {
    var singles: seq<nat> := [];
    for k := 0 to |values|
      invariant forall s :: s in singles <==> 0 <= s < k && values[s] >= amount
    {
      if values[k] >= amount { singles := singles + [k]; }
    }
    if |singles| > 0 {
      var s := singles[random % |singles|];
      assert s in singles;
      WorthOfOne(values, s);
      SingleIsMinimal(values, s, amount);
      return Some([s]);
    }
    var pairs: seq<(nat, nat)> := [];
    for i := 0 to |values|
      invariant forall p :: p in pairs <==> p.0 < i && p.0 < p.1 < |values| && values[p.0] + values[p.1] >= amount
    {
      for j := i + 1 to |values|
        invariant forall p :: p in pairs <==>
                    && ((p.0 < i && p.0 < p.1 < |values|) || (p.0 == i && i < p.1 < j))
                    && values[p.0] + values[p.1] >= amount
      {
        if values[i] + values[j] >= amount { pairs := pairs + [(i, j)]; }
      }
    }
    forall k | 0 <= k < |values| ensures values[k] < amount {
      assert k !in singles;
    }
    if |pairs| > 0 {
      var (a, b) := pairs[random % |pairs|];
      assert (a, b) in pairs;
      WorthOfTwo(values, a, b);
      PairIsMinimal(values, a, b, amount);
      return Some([a, b]);
    }
    forall a, b | 0 <= a < b < |values| ensures values[a] + values[b] < amount {
      assert (a, b) !in pairs;
    }
    NothingCovers(values, amount);
    r := None;
  }

  lemma SingleIsMinimal(values: seq<nat>, s: nat, amount: nat)
    requires s < |values| && values[s] >= amount
    ensures Covers(values, [s], amount)
    ensures Minimal(values, [s], amount) <==> amount > 0
  {}

  lemma PairIsMinimal(values: seq<nat>, a: nat, b: nat, amount: nat)
    requires a < b < |values| && values[a] + values[b] >= amount
    requires forall k :: 0 <= k < |values| ==> values[k] < amount
    ensures Covers(values, [a, b], amount) && Minimal(values, [a, b], amount)
  {
    WorthOfTwo(values, a, b);
    forall other | Covers(values, other, amount) ensures |other| >= 2 {
      if |other| < 2 {
        SmallSelection(values, other);
      }
    }
  }

  lemma NothingCovers(values: seq<nat>, amount: nat)
    requires forall k :: 0 <= k < |values| ==> values[k] < amount
    requires forall a, b :: 0 <= a < b < |values| ==> values[a] + values[b] < amount
    ensures values != [] ==> !TwoCoverable(values, amount)
    ensures forall sel :: !Candidate(values, sel, amount)
  {
    assert values != [] ==> values[0] < amount;
    forall sel | |sel| <= 2 && Covers(values, sel, amount) ensures sel == [] && values == [] {
      SmallSelection(values, sel);
    }
  }

  // ----- Equivalence -----

  /** Over the same spendable notes the two wallets agree: the greedy succeeds exactly
      when the search does and the sum fits a `u64`, and then both spend the same,
      smallest, number of notes, unless the amount is 0. */
  lemma WalletsAgree(values: seq<nat>, amount: nat, greedy: Result<seq<nat>, SelectError>, search: Option<seq<nat>>)
    requires GreedyResult(values, amount, greedy) && SearchResult(values, amount, search)
    ensures greedy.Success? <==> search.Some? && Sum(values) < U64_LIMIT
    ensures greedy.Success? ==> (|greedy.value| == |search.value| <==> amount > 0)
  {}
}

/** The indexer's note table: insert-or-ignore by commitment, and queries by leaf index
    (indexer/src/store.ts). */
module NoteStore {
  import opened Base

  datatype IndexedNote = IndexedNote(
    commitment: string, leafIndex: int, encryptedNote: string, txSignature: string, slot: int, blockTime: int)

  ghost predicate UniqueCommitments(notes: set<IndexedNote>) {
    forall m, n :: m in notes && n in notes && m.commitment == n.commitment ==> m == n
  }

  ghost predicate DistinctLeaves(notes: set<IndexedNote>) {
    forall m, n :: m in notes && n in notes && m.leafIndex == n.leafIndex ==> m == n
  }

  ghost predicate HasCommitment(notes: set<IndexedNote>, commitment: string) {
    exists n :: n in notes && n.commitment == commitment
  }

  /** What inserting means for the contents: the first write of a commitment wins. */
  ghost function Insert(notes: set<IndexedNote>, n: IndexedNote): set<IndexedNote> {
    if HasCommitment(notes, n.commitment) then notes else notes + {n}
  }

  // ----- Rows and queries -----

  ghost function Contents(rows: seq<IndexedNote>): set<IndexedNote> {
    set n | n in rows
  }

  ghost predicate NoDuplicates(rows: seq<IndexedNote>) {
    forall i, j :: 0 <= i < j < |rows| ==> rows[i].commitment != rows[j].commitment
  }

  /** Inserts before the rows with a larger leaf index and after those with an equal one. */
  function Place(sorted: seq<IndexedNote>, n: IndexedNote): seq<IndexedNote> {
    if sorted == [] || sorted[|sorted| - 1].leafIndex <= n.leafIndex then sorted + [n]
    else Place(sorted[..|sorted| - 1], n) + [sorted[|sorted| - 1]]
  }

  /** `SELECT ... WHERE lo <= leaf_index AND leaf_index <= hi ORDER BY leaf_index`; rows with
      equal leaf indices come in insertion order. */
  function RangeRows(rows: seq<IndexedNote>, lo: int, hi: Option<int>): seq<IndexedNote> {
    if rows == [] then [] else
      var n := rows[|rows| - 1];
      var before := RangeRows(rows[..|rows| - 1], lo, hi);
      if lo <= n.leafIndex && (hi.Some? ==> n.leafIndex <= hi.value) then Place(before, n) else before
  }

  function Find(rows: seq<IndexedNote>, commitment: string): Option<IndexedNote> {
    if rows == [] then None
    else if rows[0].commitment == commitment then Some(rows[0])
    else Find(rows[1..], commitment)
  }

  /** `MAX(leaf_index)`, or -1 for an empty table. */
  function MaxLeaf(rows: seq<IndexedNote>): int {
    if rows == [] then -1 else
      var before, last := MaxLeaf(rows[..|rows| - 1]), rows[|rows| - 1].leafIndex;
      if |rows| == 1 || last > before then last else before
  }

  datatype Query =
    | Range(lo: int, hi: int) | After(lo: int, limit: int) | ByCommitment(commitment: string) | Count | MaxLeafIndex

  datatype Answer = Notes(notes: seq<IndexedNote>) | One(note: Option<IndexedNote>) | Number(n: int)

  /** A negative `LIMIT` is no limit. */
  function AnswerOf(rows: seq<IndexedNote>, q: Query): Answer {
    match q
    case Range(lo, hi) => Notes(RangeRows(rows, lo, Some(hi)))
    case After(lo, limit) =>
      var all := RangeRows(rows, lo, None);
      Notes(if 0 <= limit < |all| then all[..limit] else all)
    case ByCommitment(c) => One(Find(rows, c))
    case Count => Number(|rows|)
    case MaxLeafIndex => Number(MaxLeaf(rows))
  }

  // ----- Queries see the contents only -----

  ghost predicate Ascending(s: seq<IndexedNote>) {
    forall i, j :: 0 <= i < j < |s| ==> s[i].leafIndex <= s[j].leafIndex
  }

  ghost predicate InRange(n: IndexedNote, lo: int, hi: Option<int>) {
    lo <= n.leafIndex && (hi.Some? ==> n.leafIndex <= hi.value)
  }

  lemma {:induction false} PlaceSorts(sorted: seq<IndexedNote>, n: IndexedNote)
    requires Ascending(sorted)
    ensures Ascending(Place(sorted, n))
    ensures forall m :: m in Place(sorted, n) <==> m in sorted || m == n
    ensures |Place(sorted, n)| == |sorted| + 1
  {
    if sorted != [] && sorted[|sorted| - 1].leafIndex > n.leafIndex {
      var last := |sorted| - 1;
      var front := Place(sorted[..last], n);
      PlaceSorts(sorted[..last], n);
      forall i | 0 <= i < |front| ensures front[i].leafIndex <= sorted[last].leafIndex {
        assert front[i] in front;
      }
      assert sorted == sorted[..last] + [sorted[last]];
    }
  }

  lemma {:induction false} RangeIsSorted(rows: seq<IndexedNote>, lo: int, hi: Option<int>)
    ensures Ascending(RangeRows(rows, lo, hi))
    ensures forall m :: m in RangeRows(rows, lo, hi) <==> m in rows && InRange(m, lo, hi)
  {
    if rows != [] {
      var last := |rows| - 1;
      RangeIsSorted(rows[..last], lo, hi);
      PlaceSorts(RangeRows(rows[..last], lo, hi), rows[last]);
      assert rows == rows[..last] + [rows[last]];
    }
  }

  ghost predicate StrictlyAscending(s: seq<IndexedNote>) {
    forall i, j :: 0 <= i < j < |s| ==> s[i].leafIndex < s[j].leafIndex
  }

  /** A strictly ascending list is determined by its members. */
  lemma {:induction false} AscendingUnique(s: seq<IndexedNote>, t: seq<IndexedNote>)
    requires StrictlyAscending(s) && StrictlyAscending(t)
    requires forall m :: m in s <==> m in t
    ensures s == t
  {
    if t != [] {
      assert t[0] in s;
    }
    if s != [] {
      assert s[|s| - 1] in t;
      var i, j := |s| - 1, |t| - 1;
      assert t[j] in s;
      assert s[i] == t[j];
      forall m ensures m in s[..i] <==> m in t[..j] {
        assert m in s[..i] ==> m in s && m.leafIndex < s[i].leafIndex;
        assert m in t[..j] ==> m in t && m.leafIndex < t[j].leafIndex;
      }
      AscendingUnique(s[..i], t[..j]);
      assert s == s[..i] + [s[i]] && t == t[..j] + [t[j]];
    }
  }

  lemma {:induction false} RangeHasNoRepeats(rows: seq<IndexedNote>, lo: int, hi: Option<int>)
    requires NoDuplicates(rows) && DistinctLeaves(Contents(rows))
    ensures StrictlyAscending(RangeRows(rows, lo, hi))
  {
    if rows != [] {
      var last := |rows| - 1;
      var before := RangeRows(rows[..last], lo, hi);
      assert Contents(rows[..last]) <= Contents(rows);
      RangeHasNoRepeats(rows[..last], lo, hi);
      RangeIsSorted(rows[..last], lo, hi);
      forall m | m in before ensures m.leafIndex != rows[last].leafIndex {
        var k :| 0 <= k < last && rows[..last][k] == m;
        assert rows[k] == m && m in Contents(rows) && rows[last] in Contents(rows);
      }
      PlaceStrictly(before, rows[last]);
    }
  }

  lemma {:induction false} PlaceStrictly(sorted: seq<IndexedNote>, n: IndexedNote)
    requires StrictlyAscending(sorted) && forall m :: m in sorted ==> m.leafIndex != n.leafIndex
    ensures StrictlyAscending(Place(sorted, n))
  {
    if sorted != [] && sorted[|sorted| - 1].leafIndex > n.leafIndex {
      var last := |sorted| - 1;
      var front := Place(sorted[..last], n);
      PlaceStrictly(sorted[..last], n);
      PlaceSorts(sorted[..last], n);
      forall i | 0 <= i < |front| ensures front[i].leafIndex < sorted[last].leafIndex {
        assert front[i] in front;
      }
    }
  }

  lemma {:induction false} FindFinds(rows: seq<IndexedNote>, commitment: string)
    ensures Find(rows, commitment).Some? ==>
              Find(rows, commitment).value in rows && Find(rows, commitment).value.commitment == commitment
    ensures Find(rows, commitment).None? ==> forall n :: n in rows ==> n.commitment != commitment
  {
    if rows != [] {
      FindFinds(rows[1..], commitment);
    }
  }

  lemma {:induction false} MaxLeafIsMax(rows: seq<IndexedNote>)
    ensures forall n :: n in rows ==> n.leafIndex <= MaxLeaf(rows)
    ensures rows != [] ==> exists n :: n in rows && n.leafIndex == MaxLeaf(rows)
  {
    if rows != [] {
      var last := |rows| - 1;
      MaxLeafIsMax(rows[..last]);
      assert forall n :: n in rows <==> n in rows[..last] || n == rows[last] by {
        assert rows == rows[..last] + [rows[last]];
      }
    }
  }

  lemma {:induction false} CountIsSize(rows: seq<IndexedNote>)
    requires NoDuplicates(rows)
    ensures |rows| == |Contents(rows)|
  {
    if rows != [] {
      var last := |rows| - 1;
      CountIsSize(rows[..last]);
      assert Contents(rows) == Contents(rows[..last]) + {rows[last]};
    }
  }

  /** A range query returns each row as often as the table holds it. */
  lemma {:induction false} RangeCounts(rows: seq<IndexedNote>, lo: int, hi: Option<int>, m: IndexedNote)
    ensures multiset(RangeRows(rows, lo, hi))[m] == if InRange(m, lo, hi) then multiset(rows)[m] else 0
  {
    if rows != [] {
      var last := |rows| - 1;
      RangeCounts(rows[..last], lo, hi, m);
      PlaceCounts(RangeRows(rows[..last], lo, hi), rows[last], m);
      assert rows == rows[..last] + [rows[last]];
    }
  }

  lemma {:induction false} PlaceCounts(sorted: seq<IndexedNote>, n: IndexedNote, m: IndexedNote)
    ensures multiset(Place(sorted, n))[m] == multiset(sorted)[m] + if m == n then 1 else 0
  {
    if sorted != [] && sorted[|sorted| - 1].leafIndex > n.leafIndex {
      var last := |sorted| - 1;
      PlaceCounts(sorted[..last], n, m);
      assert sorted == sorted[..last] + [sorted[last]];
    }
  }

  /** `m` is in `s` as often as in `rows` if it is in the range, and not otherwise. */
  ghost predicate CountsInRange(rows: seq<IndexedNote>, s: seq<IndexedNote>, lo: int, hi: Option<int>, m: IndexedNote) {
    multiset(s)[m] == if InRange(m, lo, hi) then multiset(rows)[m] else 0
  }

  /** The rows in the range, each as often as the table has it, by ascending leaf index. */
  ghost predicate IsRange(rows: seq<IndexedNote>, s: seq<IndexedNote>, lo: int, hi: Option<int>) {
    Ascending(s) && forall m :: CountsInRange(rows, s, lo, hi, m)
  }

  /** What an answer means, query by query. */
  ghost predicate Means(rows: seq<IndexedNote>, q: Query, a: Answer) {
    match q
    case Range(lo, hi) => a.Notes? && IsRange(rows, a.notes, lo, Some(hi))
    case After(lo, limit) =>
      a.Notes? && exists all ::
        && IsRange(rows, all, lo, None) && a.notes <= all
        && |a.notes| == if 0 <= limit < |all| then limit else |all|
    case ByCommitment(c) =>
      a.One? && if a.note.Some? then a.note.value in rows && a.note.value.commitment == c
                else forall n :: n in rows ==> n.commitment != c
    case Count => a == Number(|Contents(rows)|)
    case MaxLeafIndex =>
      && a.Number? && (rows == [] ==> a.n == -1)
      && (rows != [] ==> (exists n :: n in rows && n.leafIndex == a.n) && forall n :: n in rows ==> n.leafIndex <= a.n)
  }

  /** Every query of a table gets the answer it asks for. */
  lemma AnswersMean(rows: seq<IndexedNote>, q: Query)
    requires NoDuplicates(rows)
    ensures Means(rows, q, AnswerOf(rows, q))
  {
    match q
    case Range(lo, hi) => RangeIsRange(rows, lo, Some(hi));
    case After(lo, _) => RangeIsRange(rows, lo, None);
    case ByCommitment(c) => FindFinds(rows, c);
    case Count => CountIsSize(rows);
    case MaxLeafIndex => MaxLeafIsMax(rows);
  }

  lemma RangeIsRange(rows: seq<IndexedNote>, lo: int, hi: Option<int>)
    ensures IsRange(rows, RangeRows(rows, lo, hi), lo, hi)
  {
    RangeIsSorted(rows, lo, hi);
    forall m ensures CountsInRange(rows, RangeRows(rows, lo, hi), lo, hi, m) {
      RangeCounts(rows, lo, hi, m);
    }
  }

  /** Two tables with the same notes, in whatever order they were inserted, answer every
      query alike when leaf indices are distinct. */
  lemma ContentsDetermineAnswers(r: seq<IndexedNote>, s: seq<IndexedNote>, q: Query)
    requires NoDuplicates(r) && NoDuplicates(s) && Contents(r) == Contents(s)
    requires DistinctLeaves(Contents(r))
    ensures AnswerOf(r, q) == AnswerOf(s, q)
  {
    assert forall n :: n in r <==> n in Contents(r);
    assert forall n :: n in s <==> n in Contents(s);
    match q
    case Range(lo, hi) => RangesAgree(r, s, lo, Some(hi));
    case After(lo, _) => RangesAgree(r, s, lo, None);
    case ByCommitment(c) => FindsAgree(r, s, c);
    case Count =>
      CountIsSize(r);
      CountIsSize(s);
    case MaxLeafIndex =>
      MaxLeafIsMax(r);
      MaxLeafIsMax(s);
  }

  lemma FindsAgree(r: seq<IndexedNote>, s: seq<IndexedNote>, c: string)
    requires NoDuplicates(r) && NoDuplicates(s) && forall n :: n in r <==> n in s
    ensures Find(r, c) == Find(s, c)
  {
    FindFinds(r, c);
    FindFinds(s, c);
  }

  lemma RangesAgree(r: seq<IndexedNote>, s: seq<IndexedNote>, lo: int, hi: Option<int>)
    requires NoDuplicates(r) && NoDuplicates(s) && Contents(r) == Contents(s) && DistinctLeaves(Contents(r))
    ensures RangeRows(r, lo, hi) == RangeRows(s, lo, hi)
  {
    RangeIsSorted(r, lo, hi);
    RangeIsSorted(s, lo, hi);
    RangeHasNoRepeats(r, lo, hi);
    RangeHasNoRepeats(s, lo, hi);
    forall m ensures m in RangeRows(r, lo, hi) <==> m in RangeRows(s, lo, hi) {
      assert m in r <==> m in Contents(r);
      assert m in s <==> m in Contents(s);
    }
    AscendingUnique(RangeRows(r, lo, hi), RangeRows(s, lo, hi));
  }

  /** A table after `INSERT OR IGNORE`. */
  ghost function RowsWith(rows: seq<IndexedNote>, n: IndexedNote): (r: seq<IndexedNote>)
    ensures Contents(r) == Insert(Contents(rows), n)
  {
    if HasCommitment(Contents(rows), n.commitment) then rows else rows + [n]
  }

  // ----- The class -----

  class Store {
    var rows: seq<IndexedNote>

    ghost predicate Valid()
      reads this
    {
      NoDuplicates(rows)
    }

    constructor ()
      ensures Valid() && rows == []
    {
      rows := [];
    }

    method InsertNote(n: IndexedNote)
      requires Valid()
      modifies this
      ensures Valid()
      ensures Contents(rows) == Insert(old(Contents(rows)), n)
      ensures rows == if HasCommitment(old(Contents(rows)), n.commitment) then old(rows) else old(rows) + [n]
    {
      var existing := Find(rows, n.commitment);
      FindFinds(rows, n.commitment);
      if existing.None? {
        rows := rows + [n];
      } else {
        assert existing.value in Contents(rows);
      }
    }

    method Ask(q: Query) returns (a: Answer)
      ensures a == AnswerOf(rows, q)
      ensures NoDuplicates(rows) ==> Means(rows, q, a)
    {
      if NoDuplicates(rows) {
        AnswersMean(rows, q);
      }
      a := AnswerOf(rows, q);
    }
  }
}

/** The window of historical roots of the pool
    (`update_root` and `is_known_root`, programs/holanc-pool/src/lib.rs). */
module RootWindow {
  import opened Base

  const ROOT_HISTORY_SIZE: nat := 100

  datatype Window = Window(currentRoot: Word, rootHistory: seq<Word>, rootHistoryIndex: nat) {
    predicate Valid() {
      |rootHistory| == ROOT_HISTORY_SIZE && rootHistoryIndex < ROOT_HISTORY_SIZE
    }

    predicate IsKnownRoot(root: Word) {
      currentRoot == root || root in rootHistory
    }

    function Publish(root: Word): Window
      requires Valid()
    {
      Window(root, rootHistory[rootHistoryIndex := root], (rootHistoryIndex + 1) % ROOT_HISTORY_SIZE)
    }
  }

  function EmptyWindow(): Window {
    Window(ZERO_WORD, seq(ROOT_HISTORY_SIZE, _ => ZERO_WORD), 0)
  }

  /** The window after publishing `roots` in order. */
  function Published(roots: seq<Word>): (w: Window)
    ensures w.Valid()
  {
    if roots == [] then EmptyWindow() else Published(roots[..|roots| - 1]).Publish(roots[|roots| - 1])
  }

  /** What ring position `j` holds: the latest root published there, if any. */
  function Latest(roots: seq<Word>, j: nat): Word {
    if j < |roots| then roots[j + 100 * ((|roots| - 1 - j) / 100)] else ZERO_WORD
  }

  /** The ring holds, at each position, the latest root published there. */
  ghost predicate Holds(w: Window, roots: seq<Word>) {
    && w.Valid()
    && w.rootHistoryIndex == |roots| % ROOT_HISTORY_SIZE
    && (forall j :: 0 <= j < ROOT_HISTORY_SIZE ==> w.rootHistory[j] == Latest(roots, j))
    && w.currentRoot == if roots == [] then ZERO_WORD else roots[|roots| - 1]
  }

  lemma PublishHolds(w: Window, before: seq<Word>, root: Word)
    requires Holds(w, before)
    ensures Holds(w.Publish(root), before + [root])
  {
    var after, k := before + [root], |before|;
    forall j | 0 <= j < ROOT_HISTORY_SIZE
      ensures Latest(after, j) == if j == k % 100 then root else Latest(before, j)
    {
      LatestStep(before, root, j);
    }
  }

  lemma LatestStep(before: seq<Word>, root: Word, j: nat)
    requires j < 100
    ensures Latest(before + [root], j) == if j == |before| % 100 then root else Latest(before, j)
  {}

  lemma {:induction false} RingContents(roots: seq<Word>)
    ensures Holds(Published(roots), roots)
  {
    if roots != [] {
      var k := |roots| - 1;
      RingContents(roots[..k]);
      PublishHolds(Published(roots[..k]), roots[..k], roots[k]);
      assert roots == roots[..k] + [roots[k]];
    }
  }

  ghost predicate AmongLatest(roots: seq<Word>, root: Word) {
    exists p :: 0 <= p < |roots| && |roots| - ROOT_HISTORY_SIZE <= p && roots[p] == root
  }

  lemma LatestIsRecent(roots: seq<Word>, j: nat)
    requires j < 100 && j < |roots|
    ensures AmongLatest(roots, Latest(roots, j))
  {}

  lemma RecentIsLatest(roots: seq<Word>, p: nat)
    requires p < |roots| <= p + 100
    ensures Latest(roots, p % 100) == roots[p]
  {}

  lemma WindowMembers(w: Window, roots: seq<Word>, root: Word)
    requires Holds(w, roots)
    ensures w.IsKnownRoot(root) <==>
              AmongLatest(roots, root) || (root == ZERO_WORD && |roots| < ROOT_HISTORY_SIZE)
  {
    var k := |roots|;
    if AmongLatest(roots, root) {
      var p: nat :| p < k && k - 100 <= p && roots[p] == root;
      RecentIsLatest(roots, p);
      assert w.rootHistory[p % 100] == root;
    } else if root == ZERO_WORD && k < 100 {
      assert w.rootHistory[99] == Latest(roots, 99);
    } else if root in w.rootHistory {
      var j: nat :| j < 100 && w.rootHistory[j] == root;
      if j < k {
        LatestIsRecent(roots, j);
      }
    }
    if root == w.currentRoot && k > 0 {
      assert roots[k - 1] == root;
    }
  }

  /** A root is known exactly when it is among the last hundred published, or is the
      zero root and the ring has not been filled yet. */
  lemma KnownRoots(roots: seq<Word>, root: Word)
    ensures Published(roots).IsKnownRoot(root) <==>
              AmongLatest(roots, root) || (root == ZERO_WORD && |roots| < ROOT_HISTORY_SIZE)
    ensures Published(roots).rootHistoryIndex == |roots| % ROOT_HISTORY_SIZE
  {
    RingContents(roots);
    WindowMembers(Published(roots), roots, root);
  }
}

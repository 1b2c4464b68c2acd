/** Which roots the pool accepts, in every run of its instructions
    (programs/holanc-pool/src/lib.rs). */
module PublishedRoots {
  import opened Base
  import opened RootWindow
  import opened Pool

  function NewRoot(env: Env, c: Chain, call: Call): seq<Word>
    requires c.WellFormed()
  {
    if call.CallUpdateRoot? && Attempt(env, c, call).Success? then [call.newRoot] else []
  }

  /** The roots published by the successful `update_root` calls of a run, in order. */
  function Roots(env: Env, c: Chain, calls: seq<Call>): seq<Word>
    requires c.WellFormed()
  {
    if calls == [] then [] else
      var last := |calls| - 1;
      Roots(env, c, calls[..last]) + NewRoot(env, Execute(env, c, calls[..last]), calls[last])
  }

  /** A root is published exactly when the authority submits it against the current root
      of the SHA-256 tree. */
  lemma StepPublishes(env: Env, c: Chain, call: Call)
    requires c.WellFormed()
    ensures NewRoot(env, c, call) == []
            <==> !(call.CallUpdateRoot? && call.signer == c.authority && call.expectedSha256Root == c.pool.sha256Root)
    ensures Step(env, c, call).pool.window
            == if NewRoot(env, c, call) == [] then c.pool.window else c.pool.window.Publish(NewRoot(env, c, call)[0])
  {}

  lemma {:induction false} WindowFollows(env: Env, c: Chain, calls: seq<Call>)
    requires c.WellFormed() && c.pool.window == EmptyWindow()
    ensures Execute(env, c, calls).pool.window == Published(Roots(env, c, calls))
  {
    if calls != [] {
      var last := |calls| - 1;
      WindowFollows(env, c, calls[..last]);
      var before, roots := Execute(env, c, calls[..last]), Roots(env, c, calls[..last]);
      StepPublishes(env, before, calls[last]);
      if NewRoot(env, before, calls[last]) != [] {
        assert (roots + [calls[last].newRoot])[..|roots|] == roots;
      } else {
        assert roots + [] == roots;
      }
    }
  }

  /** In every run, whatever else happens in it, exactly the last hundred published roots
      are known, and the zero root until the ring has been filled. */
  lemma KnownInRun(env: Env, c: Chain, calls: seq<Call>, root: Word)
    requires c.WellFormed() && c.pool.window == EmptyWindow()
    ensures var window, roots := Execute(env, c, calls).pool.window, Roots(env, c, calls);
            && (window.IsKnownRoot(root) <==>
                  AmongLatest(roots, root) || (root == ZERO_WORD && |roots| < ROOT_HISTORY_SIZE))
            && window.rootHistoryIndex == |roots| % ROOT_HISTORY_SIZE
  {
    WindowFollows(env, c, calls);
    KnownRoots(Roots(env, c, calls), root);
  }
}

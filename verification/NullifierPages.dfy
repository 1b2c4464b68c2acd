/** Nullifiers over many bitmap pages (programs/holanc-nullifier/src/lib.rs).  The pool
    passes on whatever manager and page accounts a spend names
    (programs/holanc-pool/src/lib.rs); only the nullifier program checks them, against each
    other. */
module NullifierPages {
  import opened Base
  import N = Nullifier

  type Address = nat

  datatype Page = Page(pool: Word, slots: set<nat>)

  datatype Manager = Manager(pool: Word, authority: Word)

  datatype State = State(managers: map<Address, Manager>, pages: map<Address, Page>)

  /** The two registrations of one spend. */
  datatype Spend = Spend(signer: Word, manager: Address, page: Address, nullifiers: (Word, Word))

  /** The manager is the signer's, and the page is of its pool. */
  predicate Authorized(s: State, spend: Spend) {
    && spend.manager in s.managers && spend.page in s.pages
    && s.managers[spend.manager].authority == spend.signer
    && s.pages[spend.page].pool == s.managers[spend.manager].pool
  }

  function Slots(sha: N.Digest, spend: Spend): set<nat> {
    {N.SlotV1(sha, spend.nullifiers.0), N.SlotV1(sha, spend.nullifiers.1)}
  }

  predicate Carries(spend: Spend, nullifier: Word) {
    nullifier == spend.nullifiers.0 || nullifier == spend.nullifiers.1
  }

  /** `register_nullifier` on one page. */
  function Register(sha: N.Digest, page: Page, nullifier: Word): Option<Page> {
    var slot := N.SlotV1(sha, nullifier);
    if slot in page.slots then None else Some(page.(slots := page.slots + {slot}))
  }

  function Attempt(sha: N.Digest, s: State, spend: Spend): Option<State> {
    if !Authorized(s, spend) then None else
      var first := Register(sha, s.pages[spend.page], spend.nullifiers.0);
      if first.None? then None else
        var second := Register(sha, first.value, spend.nullifiers.1);
        if second.None? then None else Some(s.(pages := s.pages[spend.page := second.value]))
  }

  function Step(sha: N.Digest, s: State, spend: Spend): State {
    var r := Attempt(sha, s, spend);
    if r.Some? then r.value else s
  }

  function Run(sha: N.Digest, s: State, spends: seq<Spend>): State {
    if spends == [] then s else Step(sha, Run(sha, s, spends[..|spends| - 1]), spends[|spends| - 1])
  }

  predicate AcceptedAt(sha: N.Digest, s: State, spends: seq<Spend>, i: nat)
    requires i < |spends|
  {
    Attempt(sha, Run(sha, s, spends[..i]), spends[i]).Some?
  }

  /** A spend is accepted exactly when it is authorized and its two slots are different and
      free on the page it names; it takes them there and touches no other page. */
  lemma AttemptIff(sha: N.Digest, s: State, spend: Spend)
    ensures Attempt(sha, s, spend).Some? <==>
              && Authorized(s, spend)
              && N.SlotV1(sha, spend.nullifiers.0) != N.SlotV1(sha, spend.nullifiers.1)
              && Slots(sha, spend) !! s.pages[spend.page].slots
    ensures Step(sha, s, spend).managers == s.managers && Step(sha, s, spend).pages.Keys == s.pages.Keys
    ensures forall p :: p in s.pages ==>
              && Step(sha, s, spend).pages[p].pool == s.pages[p].pool
              && Step(sha, s, spend).pages[p].slots
                 == s.pages[p].slots
                    + if Attempt(sha, s, spend).Some? && p == spend.page then Slots(sha, spend) else {}
  {}

  // ----- Whole runs -----

  lemma {:induction false} PagesGrow(sha: N.Digest, s: State, spends: seq<Spend>, i: nat, p: Address)
    requires i <= |spends| && p in s.pages
    ensures p in Run(sha, s, spends[..i]).pages && p in Run(sha, s, spends).pages
    ensures Run(sha, s, spends[..i]).pages[p].slots <= Run(sha, s, spends).pages[p].slots
    decreases |spends|
  {
    if spends == [] {
      assert spends[..i] == spends;
    } else if i < |spends| {
      var last := |spends| - 1;
      assert spends[..last][..i] == spends[..i];
      PagesGrow(sha, s, spends[..last], i, p);
      AttemptIff(sha, Run(sha, s, spends[..last]), spends[last]);
    } else {
      assert spends[..i] == spends;
      var last := |spends| - 1;
      PagesGrow(sha, s, spends[..last], last, p);
      AttemptIff(sha, Run(sha, s, spends[..last]), spends[last]);
    }
  }

  lemma {:induction false} AccountsStay(sha: N.Digest, s: State, spends: seq<Spend>)
    ensures Run(sha, s, spends).managers == s.managers && Run(sha, s, spends).pages.Keys == s.pages.Keys
    ensures forall p :: p in s.pages ==> Run(sha, s, spends).pages[p].pool == s.pages[p].pool
  {
    if spends != [] {
      AccountsStay(sha, s, spends[..|spends| - 1]);
      AttemptIff(sha, Run(sha, s, spends[..|spends| - 1]), spends[|spends| - 1]);
    }
  }

  /** On one page no nullifier is spent twice, in any run over any number of pages and
      managers. */
  lemma OncePerPage(sha: N.Digest, s: State, spends: seq<Spend>, i: nat, j: nat, nullifier: Word)
    requires i < j < |spends| && AcceptedAt(sha, s, spends, i) && AcceptedAt(sha, s, spends, j)
    requires Carries(spends[i], nullifier) && Carries(spends[j], nullifier)
    ensures spends[i].page != spends[j].page
  {
    var before, at := Run(sha, s, spends[..i]), Run(sha, s, spends[..j]);
    AccountsStay(sha, s, spends[..i]);
    AttemptIff(sha, before, spends[i]);
    AttemptIff(sha, at, spends[j]);
    assert spends[..j][..i + 1] == spends[..i + 1] && spends[..i + 1][..i] == spends[..i];
    PagesGrow(sha, s, spends[..j], i + 1, spends[i].page);
  }

  /** A spend that would be accepted now still is after another one that carries one of its
      nullifiers, if and only if the two name different pages. */
  lemma SpentAgainIff(sha: N.Digest, s: State, a: Spend, b: Spend, nullifier: Word)
    requires Attempt(sha, s, a).Some? && Attempt(sha, s, b).Some?
    requires Carries(a, nullifier) && Carries(b, nullifier)
    ensures AcceptedAt(sha, s, [a, b], 1) <==> a.page != b.page
  {
    assert [a, b][..1] == [a] && [a][..0] == [];
    assert Run(sha, s, [a]) == Step(sha, Run(sha, s, []), a);
    AttemptIff(sha, s, a);
    AttemptIff(sha, s, b);
    AttemptIff(sha, Step(sha, s, a), b);
  }

  // ----- One page of many -----

  /** The spends of a run that name page `p`, as registrations with a registry of one page;
      any other spend leaves that registry alone. */
  function OnPage(sha: N.Digest, s: State, spends: seq<Spend>, p: Address): seq<N.Call> {
    if spends == [] then [] else
      var last := |spends| - 1;
      OnPage(sha, s, spends[..last], p)
      + if spends[last].page == p && AcceptedAt(sha, s, spends, last)
        then [N.RegisterV1(spends[last].nullifiers.0), N.RegisterV1(spends[last].nullifiers.1)]
        else []
  }

  lemma RunTwo(sha: N.Digest, r: N.Registry, calls: seq<N.Call>, a: N.Call, b: N.Call)
    ensures N.Run(sha, r, calls + [a, b]) == N.Step(sha, N.Step(sha, N.Run(sha, r, calls), a), b)
  {
    assert (calls + [a, b])[..|calls| + 1] == calls + [a];
    assert (calls + [a])[..|calls|] == calls;
  }

  /** Each page of a run holds what a registry of one page holds after the run's spends on
      that page: what is proved of the registry holds of every page by itself. */
  lemma {:induction false} PageIsRegistry(sha: N.Digest, s: State, spends: seq<Spend>, p: Address)
    requires p in s.pages && s.pages[p].slots == {}
    ensures p in Run(sha, s, spends).pages
    ensures Run(sha, s, spends).pages[p].slots == N.Run(sha, N.EMPTY, OnPage(sha, s, spends, p)).slots
  {
    if spends != [] {
      var last := |spends| - 1;
      PageIsRegistry(sha, s, spends[..last], p);
      AccountsStay(sha, s, spends[..last]);
      var spend, before := spends[last], Run(sha, s, spends[..last]);
      AttemptIff(sha, before, spend);
      var calls := OnPage(sha, s, spends[..last], p);
      if spend.page == p && AcceptedAt(sha, s, spends, last) {
        RunTwo(sha, N.EMPTY, calls, N.RegisterV1(spend.nullifiers.0), N.RegisterV1(spend.nullifiers.1));
      } else {
        assert calls + [] == calls;
      }
    }
  }
}

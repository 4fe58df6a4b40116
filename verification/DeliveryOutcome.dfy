/** When `inspect` (scripts/release_history.py) succeeds and what it then reports, stated on the trees of the commits
    and without its loops. */
module DeliveryOutcome {
  import opened ChangelogRender
  import opened DeliveryHistory
  import opened Ordering
  import opened Text

  // ---------------------------------------------------------------- one delivery

  predicate Differs(a: Tree, b: Tree, p: Path) {
    Lookup(a, p) != Lookup(b, p)
  }

  ghost predicate Edits(q: Inspection, d: Delivery, p: Path) {
    Differs(q.repo.tree(d.parent), q.repo.tree(d.commit), p)
  }

  /** It touches no note of the previous release, and every note that it touches can be read. */
  ghost predicate Orderly(q: Inspection, d: Delivery) {
    forall p | q.rules.isFragment(p) && Edits(q, d, p) ::
      p !in q.repo.tree(q.previous) && q.Readable(q.repo.tree(d.commit), p)
  }

  /** It changes something that users see, and adds or edits no note. */
  ghost predicate Unnoted(q: Inspection, d: Delivery) {
    && (exists p :: q.rules.isVisible(p) && Edits(q, d, p))
    && (forall p | q.rules.isFragment(p) && Edits(q, d, p) :: p !in q.repo.tree(d.commit))
  }

  /** The head of the pull request by the state of that request, any other delivery by its own label. */
  predicate LetThrough(q: Inspection, d: Delivery) {
    if q.pull.Some? && d.commit == q.pull.value.head then q.pull.value.noChangelog
    else q.exemption(d.commit) == Some(true)
  }

  ghost predicate Passes(q: Inspection, d: Delivery) {
    Orderly(q, d) && (Unnoted(q, d) ==> LetThrough(q, d))
  }

  /** The commits of the deliveries without a note, in their order. */
  ghost function UnnotedCommits(q: Inspection, ds: seq<Delivery>): seq<Commit> {
    if ds == [] then []
    else
      var n := |ds| - 1;
      UnnotedCommits(q, ds[..n]) + if Unnoted(q, ds[n]) then [ds[n].commit] else []
  }

  // ---------------------------------------------------------------- where the inspection begins and ends

  /** Where the chain of deliveries ends: at the head, or in a pull request at its base, or at the adoption where that
      base lies before it. */
  predicate EndsAt(q: Inspection, tip: Commit)
    requires Acyclic(q.repo)
  {
    match q.pull
    case None => tip == q.head
    case Some(pull) =>
      && (q.head == pull.head || q.repo.parents(q.head) == [pull.base, pull.head])
      && if Ancestor(q.repo, pull.base, q.adoption) then
           tip == q.adoption && Ancestor(q.repo, q.previous, pull.base) && Ancestor(q.repo, q.adoption, pull.head)
         else tip == pull.base
  }

  /** The later of the release and the adoption; a release before the adoption must be the pinned one. */
  predicate BeginsAt(q: Inspection, base: Commit)
    requires Acyclic(q.repo)
  {
    if Ancestor(q.repo, q.previous, q.adoption) then base == q.adoption && q.previous == q.legacy
    else base == q.previous && Ancestor(q.repo, q.adoption, q.previous)
  }

  predicate InOrder(q: Inspection, tip: Commit)
    requires Acyclic(q.repo)
  {
    && Ancestor(q.repo, q.legacy, q.adoption)
    && Ancestor(q.repo, q.adoption, q.head) && Ancestor(q.repo, q.adoption, tip)
    && Ancestor(q.repo, q.previous, q.head) && Ancestor(q.repo, q.previous, tip)
  }

  /** Something that users see changed between an earlier release and the adoption. */
  ghost predicate HasLegacy(q: Inspection)
    requires Acyclic(q.repo)
  {
    && Ancestor(q.repo, q.previous, q.adoption)
    && exists p :: q.rules.isVisible(p) && Differs(q.repo.tree(q.previous), q.repo.tree(q.adoption), p)
  }

  /** The chain of deliveries that an inspection looks at, and the commit that it counts from. */
  ghost predicate Looks(q: Inspection, base: Commit, chain: seq<Delivery>)
    requires Acyclic(q.repo)
  {
    exists tip ::
      && EndsAt(q, tip) && InOrder(q, tip) && BeginsAt(q, base)
      && IsChain(q.repo, base, tip, chain) && |chain| <= 512
  }

  /** The pull request as one more delivery, from where it branched off. */
  function WithPull(q: Inspection, chain: seq<Delivery>): seq<Delivery> {
    match q.pull
    case None => chain
    case Some(pull) => chain + [Delivery(pull.head, q.mergeBase(pull.base, pull.head))]
  }

  // ---------------------------------------------------------------- the notes of the working tree

  ghost predicate IsPending(q: Inspection, p: Path) {
    Differs(q.repo.tree(q.head), q.worktree, p)
  }

  ghost predicate IsChanged(q: Inspection, base: Commit, p: Path) {
    Differs(q.repo.tree(base), q.repo.tree(q.head), p) || IsPending(q, p)
  }

  /** No changed note is published, and every one that is there can be read. */
  ghost predicate NotesPass(q: Inspection, base: Commit) {
    forall p | q.rules.isFragment(p) && IsChanged(q, base, p) ::
      p !in q.repo.tree(q.previous) && (p in q.worktree ==> q.Readable(q.worktree, p))
  }

  /** Uncommitted changes that users see come with an uncommitted note. */
  ghost predicate PendingNoted(q: Inspection) {
    (exists p :: q.rules.isVisible(p) && IsPending(q, p)) ==>
      exists p :: q.rules.isFragment(p) && IsPending(q, p) && p in q.worktree
  }

  /** Nothing stands in the way of the inspection. */
  ghost predicate AllPass(q: Inspection, base: Commit, chain: seq<Delivery>)
    requires Acyclic(q.repo)
  {
    && q.changelogFits(HasLegacy(q))
    && (forall i | 0 <= i < |WithPull(q, chain)| :: Passes(q, WithPull(q, chain)[i]))
    && NotesPass(q, base) && PendingNoted(q)
  }

  /** The changed notes that are there, by path. */
  function PresentNotes(q: Inspection, base: Commit): set<Path> {
    set p | p in q.worktree && q.rules.isFragment(p)
            && (Differs(q.repo.tree(base), q.repo.tree(q.head), p) || Differs(q.repo.tree(q.head), q.worktree, p))
  }

  function ReadAll(q: Inspection, paths: seq<Path>): (r: seq<Fragment>)
    requires forall i | 0 <= i < |paths| :: paths[i] in q.worktree && q.parse(q.worktree[paths[i]]).Some?
    ensures |r| == |paths| && forall i | 0 <= i < |paths| :: Some(r[i]) == q.parse(q.worktree[paths[i]])
  {
    seq(|paths|, i requires 0 <= i < |paths| => q.parse(q.worktree[paths[i]]).value)
  }

  ghost predicate AllParse(q: Inspection, paths: seq<Path>) {
    forall i | 0 <= i < |paths| :: paths[i] in q.worktree && q.parse(q.worktree[paths[i]]).Some?
  }

  /** What is reported: the changed notes in the order of their paths, whether history before the adoption is included,
      the deliveries let through without a note, and all the changed paths. */
  ghost predicate IsReport(q: Inspection, base: Commit, chain: seq<Delivery>, report: Report)
    requires Acyclic(q.repo)
  {
    && AllParse(q, Sorted(PresentNotes(q, base)))
    && report.fragments == ReadAll(q, Sorted(PresentNotes(q, base)))
    && (report.includeLegacy <==> HasLegacy(q))
    && report.exempt == UnnotedCommits(q, WithPull(q, chain))
    && forall p :: p in report.changed <==> IsChanged(q, base, p)
  }

  // ---------------------------------------------------------------- the loops

  /** What the loop makes of one delivery. */
  lemma JudgeMeaning(q: Inspection, d: Delivery)
    ensures Judge(q, d).Refused? <==> !Passes(q, d)
    ensures Judge(q, d).Exempt? <==> Passes(q, d) && Unnoted(q, d)
  {
    var paths, t := DeliveryHistory.Paths(q.repo, d), q.repo.tree(d.commit);
    assert forall p :: p in paths <==> Edits(q, d, p);
    assert Orderly(q, d) <==> !q.Republishes(paths) && q.AllReadable(t, paths);
    assert Unnoted(q, d) <==> q.Visible(paths) && !q.Notes(t, paths);
  }

  ghost predicate EachPasses(q: Inspection, ds: seq<Delivery>) {
    ds == [] || (EachPasses(q, ds[..|ds| - 1]) && Passes(q, ds[|ds| - 1]))
  }

  lemma {:induction false} EachPassesMeaning(q: Inspection, ds: seq<Delivery>)
    ensures EachPasses(q, ds) <==> forall i | 0 <= i < |ds| :: Passes(q, ds[i])
  {
    if ds != [] {
      var older := ds[..|ds| - 1];
      EachPassesMeaning(q, older);
      assert forall i | 0 <= i < |older| :: older[i] == ds[i];
    }
  }

  lemma {:induction false} EachJudged(q: Inspection, ds: seq<Delivery>)
    ensures Exempted(q, ds).Some? <==> EachPasses(q, ds)
    ensures Exempted(q, ds).Some? ==> Exempted(q, ds).value == UnnotedCommits(q, ds)
  {
    if ds != [] {
      EachJudged(q, ds[..|ds| - 1]);
      JudgeMeaning(q, ds[|ds| - 1]);
    }
  }

  /** The loop succeeds exactly where every delivery passes, and names those without a note. */
  lemma ExemptedMeaning(q: Inspection, ds: seq<Delivery>)
    ensures Exempted(q, ds).Some? <==> forall i | 0 <= i < |ds| :: Passes(q, ds[i])
    ensures Exempted(q, ds).Some? ==> Exempted(q, ds).value == UnnotedCommits(q, ds)
  {
    EachJudged(q, ds);
    EachPassesMeaning(q, ds);
  }

  /** The exempt list names exactly the deliveries with a visible change, without a note, and approved. */
  lemma {:induction false} ExemptExactly(q: Inspection, ds: seq<Delivery>, c: Commit)
    requires Exempted(q, ds).Some?
    ensures c in Exempted(q, ds).value <==>
            exists i | 0 <= i < |ds| :: ds[i].commit == c && Unnoted(q, ds[i]) && LetThrough(q, ds[i])
  {
    ExemptedMeaning(q, ds);
    UnnotedMembers(q, ds, c);
  }

  lemma {:induction false} UnnotedMembers(q: Inspection, ds: seq<Delivery>, c: Commit)
    ensures c in UnnotedCommits(q, ds) <==> exists i | 0 <= i < |ds| :: ds[i].commit == c && Unnoted(q, ds[i])
  {
    if ds != [] {
      var n := |ds| - 1;
      UnnotedMembers(q, ds[..n], c);
      assert forall i | 0 <= i < n :: ds[..n][i] == ds[i];
    }
  }

  function Present(q: Inspection, paths: seq<Path>): seq<Path> {
    if paths == [] then []
    else
      var n := |paths| - 1;
      Present(q, paths[..n]) + if paths[n] in q.worktree then [paths[n]] else []
  }

  lemma {:induction false} PresentElements(q: Inspection, paths: seq<Path>)
    ensures forall p :: p in Present(q, paths) <==> p in paths && p in q.worktree
  {
    if paths != [] {
      var n := |paths| - 1;
      PresentElements(q, paths[..n]);
      assert forall p :: p in paths <==> p in paths[..n] || p == paths[n];
    }
  }

  lemma {:induction false} PresentAscends(q: Inspection, paths: seq<Path>)
    requires Ascending(paths)
    ensures Ascending(Present(q, paths))
  {
    if paths != [] {
      var n := |paths| - 1;
      PresentAscends(q, paths[..n]);
      PresentElements(q, paths[..n]);
      var before := Present(q, paths[..n]);
      forall i | 0 <= i < |before| ensures Less(before[i], paths[n]) {
        assert before[i] in paths[..n];
      }
    }
  }

  ghost predicate NoteFine(q: Inspection, p: Path) {
    p !in q.repo.tree(q.previous) && (p in q.worktree ==> q.Readable(q.worktree, p))
  }

  ghost predicate EachFine(q: Inspection, paths: seq<Path>) {
    paths == [] || (EachFine(q, paths[..|paths| - 1]) && NoteFine(q, paths[|paths| - 1]))
  }

  lemma {:induction false} EachFineMeaning(q: Inspection, paths: seq<Path>)
    ensures EachFine(q, paths) <==> forall i | 0 <= i < |paths| :: NoteFine(q, paths[i])
  {
    if paths != [] {
      var older := paths[..|paths| - 1];
      EachFineMeaning(q, older);
      assert forall i | 0 <= i < |older| :: older[i] == paths[i];
    }
  }

  lemma {:induction false} CollectFine(q: Inspection, paths: seq<Path>, pending: set<Path>)
    ensures Collect(q, paths, pending).Some? <==> EachFine(q, paths)
  {
    if paths != [] {
      CollectFine(q, paths[..|paths| - 1], pending);
    }
  }

  lemma {:induction false} CollectFragments(q: Inspection, paths: seq<Path>, pending: set<Path>)
    requires Collect(q, paths, pending).Some?
    ensures AllParse(q, Present(q, paths))
    ensures Collect(q, paths, pending).value.fragments == ReadAll(q, Present(q, paths))
  {
    if paths != [] {
      CollectFragments(q, paths[..|paths| - 1], pending);
    }
  }

  ghost predicate SomePending(q: Inspection, paths: seq<Path>, pending: set<Path>) {
    exists p :: p in paths && p in pending && p in q.worktree
  }

  lemma SomePendingStep(q: Inspection, paths: seq<Path>, pending: set<Path>)
    requires paths != []
    ensures var n := |paths| - 1;
            SomePending(q, paths, pending) <==>
            SomePending(q, paths[..n], pending) || (paths[n] in pending && paths[n] in q.worktree)
  {
    var n := |paths| - 1;
    assert forall p :: p in paths <==> p in paths[..n] || p == paths[n];
  }

  lemma {:induction false} CollectPending(q: Inspection, paths: seq<Path>, pending: set<Path>)
    requires Collect(q, paths, pending).Some?
    ensures Collect(q, paths, pending).value.pending > 0 <==> SomePending(q, paths, pending)
  {
    if paths != [] {
      CollectPending(q, paths[..|paths| - 1], pending);
      SomePendingStep(q, paths, pending);
    }
  }

  /** The loop over the notes succeeds exactly where every note is fine; it reads those that are there and counts the
      pending ones. */
  lemma CollectMeaning(q: Inspection, paths: seq<Path>, pending: set<Path>)
    ensures Collect(q, paths, pending).Some? <==> forall i | 0 <= i < |paths| :: NoteFine(q, paths[i])
    ensures var r := Collect(q, paths, pending);
            r.Some? ==> && AllParse(q, Present(q, paths)) && r.value.fragments == ReadAll(q, Present(q, paths))
                        && (r.value.pending > 0 <==> SomePending(q, paths, pending))
  {
    CollectFine(q, paths, pending);
    EachFineMeaning(q, paths);
    if Collect(q, paths, pending).Some? {
      CollectFragments(q, paths, pending);
      CollectPending(q, paths, pending);
    }
  }

  // ---------------------------------------------------------------- the outcome

  lemma BaseMeaning(q: Inspection)
    requires Acyclic(q.repo)
    ensures forall tip :: q.Tip() == Some(tip) <==> EndsAt(q, tip)
    ensures forall tip, base | q.Tip() == Some(tip) :: q.Base() == Some(base) <==> InOrder(q, tip) && BeginsAt(q, base)
  {
  }

  lemma LooksMeaning(q: Inspection, base: Commit, chain: seq<Delivery>)
    requires Acyclic(q.repo)
    ensures Looks(q, base, chain) <==>
            q.Base() == Some(base) && q.AllDeliveries() == Some(WithPull(q, chain))
            && Deliveries(q.repo, base, q.Tip().value) == Some(chain)
  {
    BaseMeaning(q);
    if q.Base() == Some(base) && Deliveries(q.repo, base, q.Tip().value) == Some(chain) {
      DeliveriesAreAChain(q.repo, base, q.Tip().value);
      assert EndsAt(q, q.Tip().value);
      assert Looks(q, base, chain);
      assert chain + [] == chain;
    }
    if Looks(q, base, chain) {
      var tip :| && EndsAt(q, tip) && InOrder(q, tip) && BeginsAt(q, base)
                 && IsChain(q.repo, base, tip, chain) && |chain| <= 512;
      ChainIsUnique(q.repo, base, tip, chain);
      assert chain + [] == chain;
    }
  }

  lemma LegacyMeaning(q: Inspection)
    requires Acyclic(q.repo)
    ensures q.IncludeLegacy() <==> HasLegacy(q)
  {
    assert forall p :: p in Touched(q.repo.tree(q.previous), q.repo.tree(q.adoption)) <==>
        Differs(q.repo.tree(q.previous), q.repo.tree(q.adoption), p);
  }

  lemma ChangedMeaning(q: Inspection, base: Commit)
    requires Acyclic(q.repo) && q.Base() == Some(base)
    ensures forall p :: p in Pending(q) <==> IsPending(q, p)
    ensures forall p :: p in AllChanged(q) <==> IsChanged(q, base, p)
    ensures forall p :: p in ChangedNotes(q) <==> q.rules.isFragment(p) && IsChanged(q, base, p)
  {
    forall p ensures p in ChangedNotes(q) <==> q.rules.isFragment(p) && p in AllChanged(q) {
      assert p in ChangedNotes(q) <==> p in Elements(ChangedNotes(q));
    }
  }

  ghost predicate AreChangedNotes(q: Inspection, base: Commit, paths: seq<Path>) {
    forall p :: p in paths <==> q.rules.isFragment(p) && IsChanged(q, base, p)
  }

  lemma NotesPassMeaning(q: Inspection, base: Commit, paths: seq<Path>)
    requires AreChangedNotes(q, base, paths)
    ensures NotesPass(q, base) <==> forall i | 0 <= i < |paths| :: NoteFine(q, paths[i])
  {
    forall p ensures p in paths <==> q.rules.isFragment(p) && IsChanged(q, base, p) {
    }
    if forall i | 0 <= i < |paths| :: NoteFine(q, paths[i]) {
      forall p | q.rules.isFragment(p) && IsChanged(q, base, p) ensures NoteFine(q, p) {
        assert p in paths;
      }
    }
    if NotesPass(q, base) {
      forall i | 0 <= i < |paths| ensures NoteFine(q, paths[i]) {
        assert paths[i] in paths;
      }
    }
  }

  lemma PresentSorted(q: Inspection, base: Commit, paths: seq<Path>)
    requires AreChangedNotes(q, base, paths) && Ascending(paths)
    ensures Present(q, paths) == Sorted(PresentNotes(q, base))
  {
    PresentElements(q, paths);
    PresentAscends(q, paths);
    forall p ensures p in Present(q, paths) <==> p in PresentNotes(q, base) {
    }
    assert Elements(Present(q, paths)) == PresentNotes(q, base);
    AscendingByUnique(Present(q, paths), Sorted(PresentNotes(q, base)), Codes);
  }

  lemma PendingMeaning(q: Inspection, base: Commit, paths: seq<Path>)
    requires AreChangedNotes(q, base, paths) && forall p :: p in Pending(q) <==> IsPending(q, p)
    ensures PendingNoted(q) <==>
            (q.Visible(Pending(q)) ==> SomePending(q, paths, Pending(q)))
  {
    forall p ensures q.rules.isFragment(p) && IsPending(q, p) <==> p in paths && p in Pending(q) {
    }
  }

  /** The loop over the changed notes. */
  lemma NotesMeaning(q: Inspection, base: Commit)
    requires Acyclic(q.repo) && q.Base() == Some(base)
    ensures var notes := Collect(q, ChangedNotes(q), Pending(q));
            && (notes.Some? <==> NotesPass(q, base))
            && (notes.Some? ==>
                  && AllParse(q, Sorted(PresentNotes(q, base)))
                  && notes.value.fragments == ReadAll(q, Sorted(PresentNotes(q, base)))
                  && ((q.Visible(Pending(q)) && notes.value.pending == 0) <==> !PendingNoted(q)))
  {
    var paths := ChangedNotes(q);
    ChangedMeaning(q, base);
    CollectMeaning(q, paths, Pending(q));
    NotesPassMeaning(q, base, paths);
    PresentSorted(q, base, paths);
    PendingMeaning(q, base, paths);
  }

  lemma OutcomeOf(q: Inspection, base: Commit, chain: seq<Delivery>)
    requires Acyclic(q.repo) && Looks(q, base, chain)
    ensures Inspect(q).Some? <==> AllPass(q, base, chain)
    ensures forall report :: Inspect(q) == Some(report) <==>
              AllPass(q, base, chain) && IsReport(q, base, chain, report)
  {
    LooksMeaning(q, base, chain);
    LegacyMeaning(q);
    ExemptedMeaning(q, WithPull(q, chain));
    ChangedMeaning(q, base);
    NotesMeaning(q, base);
    forall report ensures Inspect(q) == Some(report) <==> AllPass(q, base, chain) && IsReport(q, base, chain, report) {
      if AllPass(q, base, chain) && IsReport(q, base, chain, report) {
        assert report.changed == AllChanged(q);
      }
    }
  }

  /** The inspection succeeds with a report exactly where the base, the end and the chain exist, nothing stands in the
      way, and the report is the one described. */
  lemma InspectExactly(q: Inspection, report: Report)
    requires Acyclic(q.repo)
    ensures Inspect(q) == Some(report) <==>
            exists base, chain :: Looks(q, base, chain) && AllPass(q, base, chain) && IsReport(q, base, chain, report)
  {
    if Inspect(q) == Some(report) {
      var base := q.Base().value;
      var chain := Deliveries(q.repo, base, q.Tip().value).value;
      assert chain + [] == chain;
      LooksMeaning(q, base, chain);
      OutcomeOf(q, base, chain);
    }
    if base, chain :| Looks(q, base, chain) && AllPass(q, base, chain) && IsReport(q, base, chain, report) {
      OutcomeOf(q, base, chain);
    }
  }

  // ---------------------------------------------------------------- the inspection as the program runs it

  /** The loop over deliveries. */
  method CheckDeliveries(q: Inspection, ds: seq<Delivery>) returns (exempt: Option<seq<Commit>>)
    ensures exempt == Exempted(q, ds)
    ensures exempt.Some? <==> EachPasses(q, ds)
    ensures exempt.Some? ==> exempt.value == UnnotedCommits(q, ds)
  {
    EachJudged(q, ds);
    var commits := [];
    for i := 0 to |ds|
      invariant Exempted(q, ds[..i]) == Some(commits)
    {
      PrefixStep(ds, i);
      var paths, t := DeliveryHistory.Paths(q.repo, ds[i]), q.repo.tree(ds[i].commit);
      if q.Republishes(paths) || !q.AllReadable(t, paths) {
        assert Judge(q, ds[i]) == Refused;
        PrefixRefused(q, ds, i + 1);
        return None;
      }
      if q.Visible(paths) && !q.Notes(t, paths) {
        if q.Approved(ds[i].commit) != Some(true) {
          assert Judge(q, ds[i]) == Refused;
          PrefixRefused(q, ds, i + 1);
          return None;
        }
        assert Judge(q, ds[i]) == Exempt;
        commits := commits + [ds[i].commit];
      } else {
        assert Judge(q, ds[i]) == Noted && commits + [] == commits;
      }
    }
    assert ds[..|ds|] == ds;
    return Some(commits);
  }

  lemma {:induction false} PrefixRefused(q: Inspection, ds: seq<Delivery>, i: nat)
    requires i <= |ds| && Exempted(q, ds[..i]).None?
    ensures Exempted(q, ds).None?
    decreases |ds| - i
  {
    if i < |ds| {
      PrefixStep(ds, i);
      PrefixRefused(q, ds, i + 1);
    } else {
      assert ds[..i] == ds;
    }
  }

  /** The loop over the changed notes. */
  method CollectNotes(q: Inspection, paths: seq<Path>, pending: set<Path>) returns (notes: Option<Collected>)
    ensures notes == Collect(q, paths, pending)
    ensures notes.Some? <==> forall i | 0 <= i < |paths| :: NoteFine(q, paths[i])
    ensures notes.Some? ==> AllParse(q, Present(q, paths)) && notes.value.fragments == ReadAll(q, Present(q, paths))
  {
    CollectMeaning(q, paths, pending);
    var fragments, count := [], 0;
    for i := 0 to |paths|
      invariant Collect(q, paths[..i], pending) == Some(Collected(fragments, count))
    {
      PrefixStep(paths, i);
      if paths[i] in q.repo.tree(q.previous) {
        PrefixUncollected(q, paths, pending, i + 1);
        return None;
      }
      if paths[i] in q.worktree {
        if !q.Readable(q.worktree, paths[i]) {
          PrefixUncollected(q, paths, pending, i + 1);
          return None;
        }
        fragments := fragments + [q.parse(q.worktree[paths[i]]).value];
        if paths[i] in pending {
          count := count + 1;
        }
      }
    }
    assert paths[..|paths|] == paths;
    return Some(Collected(fragments, count));
  }

  lemma {:induction false} PrefixUncollected(q: Inspection, paths: seq<Path>, pending: set<Path>, i: nat)
    requires i <= |paths| && Collect(q, paths[..i], pending).None?
    ensures Collect(q, paths, pending).None?
    decreases |paths| - i
  {
    if i < |paths| {
      PrefixStep(paths, i);
      PrefixUncollected(q, paths, pending, i + 1);
    } else {
      assert paths[..i] == paths;
    }
  }

  /** The inspection, step by step. */
  method RunInspection(q: Inspection) returns (report: Option<Report>)
    requires Acyclic(q.repo)
    ensures report == Inspect(q)
  {
    if q.Base().None? || !q.changelogFits(q.IncludeLegacy()) || q.AllDeliveries().None? {
      return None;
    }
    var exempt := CheckDeliveries(q, q.AllDeliveries().value);
    if exempt.None? {
      return None;
    }
    var notes := CollectNotes(q, ChangedNotes(q), Pending(q));
    if notes.None? || (q.Visible(Pending(q)) && notes.value.pending == 0) {
      return None;
    }
    return Some(Report(notes.value.fragments, q.IncludeLegacy(), exempt.value, AllChanged(q)));
  }

  /** `inspect` as the source computes it. */
  method InspectHistory(q: Inspection) returns (report: Option<Report>)
    requires Acyclic(q.repo)
    ensures report == Inspect(q)
    ensures forall r :: report == Some(r) <==>
              exists base, chain :: Looks(q, base, chain) && AllPass(q, base, chain) && IsReport(q, base, chain, r)
  {
    forall r ensures Inspect(q) == Some(r) <==>
        exists base, chain :: Looks(q, base, chain) && AllPass(q, base, chain) && IsReport(q, base, chain, r)
    {
      InspectExactly(q, r);
    }
    report := RunInspection(q);
  }
}

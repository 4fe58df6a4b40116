/** What a successful `inspect` (scripts/release_history.py) guarantees about the whole chain of deliveries. */
module DeliveryLaws {
  import opened ChangelogRender
  import opened DeliveryHistory
  import opened DeliveryOutcome
  import opened Ordering
  import opened Text

  // ---------------------------------------------------------------- the loops

  /** Every delivery that the loop let pass is orderly, and noted or let through. */
  lemma NoDeliveryIsRefused(q: Inspection, ds: seq<Delivery>, i: nat)
    requires Exempted(q, ds).Some? && i < |ds|
    ensures Passes(q, ds[i])
  {
    ExemptedMeaning(q, ds);
  }

  lemma {:induction false} CollectedPath(q: Inspection, paths: seq<Path>, pending: set<Path>, i: nat)
    requires Collect(q, paths, pending).Some? && i < |paths|
    ensures paths[i] !in q.repo.tree(q.previous)
    ensures paths[i] in q.worktree ==>
              && q.Readable(q.worktree, paths[i])
              && q.parse(q.worktree[paths[i]]).value in Collect(q, paths, pending).value.fragments
  {
    var n := |paths| - 1;
    if i < n {
      CollectedPath(q, paths[..n], pending, i);
    }
  }

  /** Each collected note is read from the changed path of its name. */
  lemma {:induction false} CollectedFrom(q: Inspection, paths: seq<Path>, pending: set<Path>, k: nat) returns (i: nat)
    requires Collect(q, paths, pending).Some? && k < |Collect(q, paths, pending).value.fragments|
    ensures i < |paths| && paths[i] in q.worktree && q.Readable(q.worktree, paths[i])
    ensures Collect(q, paths, pending).value.fragments[k] == q.parse(q.worktree[paths[i]]).value
  {
    var n := |paths| - 1;
    var older := Collect(q, paths[..n], pending).value.fragments;
    if k < |older| {
      i := CollectedFrom(q, paths[..n], pending, k);
    } else {
      i := n;
    }
  }

  lemma Changes(q: Inspection, p: Path)
    requires Acyclic(q.repo) && Inspect(q).Some? && q.rules.isFragment(p) && p in AllChanged(q)
    ensures p !in q.repo.tree(q.previous)
    ensures p in q.worktree ==>
              q.Readable(q.worktree, p) && q.parse(q.worktree[p]).value in Inspect(q).value.fragments
  {
    var paths := ChangedNotes(q);
    assert p in Elements(paths);
    var i :| 0 <= i < |paths| && paths[i] == p;
    CollectedPath(q, paths, Pending(q), i);
  }

  // ---------------------------------------------------------------- published notes

  /** A note of the previous release. */
  predicate Published(q: Inspection, p: Path) {
    q.rules.isFragment(p) && p in q.repo.tree(q.previous)
  }

  function Chain(q: Inspection): seq<Delivery>
    requires Acyclic(q.repo) && Inspect(q).Some?
  {
    Deliveries(q.repo, q.Base().value, q.Tip().value).value
  }

  function At(q: Inspection, c: Commit, p: Path): Option<Entry> {
    Lookup(q.repo.tree(c), p)
  }

  /** No delivery touches a published note. */
  lemma PublishedIsUntouched(q: Inspection, p: Path, i: nat)
    requires Acyclic(q.repo) && Inspect(q).Some? && Published(q, p) && i < |q.AllDeliveries().value|
    ensures p !in Paths(q.repo, q.AllDeliveries().value[i])
  {
    var d := q.AllDeliveries().value[i];
    NoDeliveryIsRefused(q, q.AllDeliveries().value, i);
    assert p in Paths(q.repo, d) <==> Edits(q, d, p);
  }

  lemma ChainIsLinked(q: Inspection)
    requires Acyclic(q.repo) && Inspect(q).Some?
    ensures Linked(Chain(q)) && (Chain(q) != [] ==> Chain(q)[|Chain(q)| - 1].commit == q.Tip().value)
    ensures Chain(q) + q.PullDelivery() == q.AllDeliveries().value
  {
    DeliveriesAreAChain(q.repo, q.Base().value, q.Tip().value);
  }

  /** Without a delivery the chain ends at the base itself. */
  lemma EmptyChainEndsAtBase(q: Inspection)
    requires Acyclic(q.repo) && Inspect(q).Some? && Chain(q) == []
    ensures q.Tip().value == q.Base().value
  {
    DeliveriesAreAChain(q.repo, q.Base().value, q.Tip().value);
    AncestorAntisymmetric(q.repo, q.Tip().value, q.Base().value);
  }

  /** A published note is the same at every commit of the chain, in the pull request as where it branched off, and at
      the head and in the working tree as at the base. */
  lemma PublishedIsKept(q: Inspection, p: Path, i: nat)
    requires Acyclic(q.repo) && Inspect(q).Some? && Published(q, p)
    ensures i < |Chain(q)| ==> At(q, Chain(q)[i].commit, p) == At(q, Chain(q)[0].parent, p)
    ensures q.pull.Some? ==>
              At(q, q.pull.value.head, p) == At(q, q.mergeBase(q.pull.value.base, q.pull.value.head), p)
    ensures At(q, q.head, p) == At(q, q.Base().value, p) == Lookup(q.worktree, p)
  {
    ChainIsLinked(q);
    var all, n := q.AllDeliveries().value, |Chain(q)|;
    if i < n {
      forall k | 0 <= k <= i ensures p !in Paths(q.repo, Chain(q)[k]) {
        PublishedIsUntouched(q, p, k);
        assert all[k] == Chain(q)[k];
      }
      UntouchedIsKept(q.repo, Chain(q), p, i);
    }
    if q.pull.Some? {
      assert all[n] == q.PullDelivery()[0];
      PublishedIsUntouched(q, p, n);
    }
    if p in AllChanged(q) {
      Changes(q, p);
      assert false;
    }
  }

  /** So the chain keeps what the previous release published exactly where the commit it starts from already held it. */
  lemma PublishedIsAsReleased(q: Inspection, p: Path)
    requires Acyclic(q.repo) && Inspect(q).Some? && Published(q, p) && Chain(q) != []
    ensures (forall i | 0 <= i < |Chain(q)| :: At(q, Chain(q)[i].commit, p) == At(q, q.previous, p)) <==>
            At(q, Chain(q)[0].parent, p) == At(q, q.previous, p)
  {
    forall i | 0 <= i < |Chain(q)| ensures At(q, Chain(q)[i].commit, p) == At(q, Chain(q)[0].parent, p) {
      PublishedIsKept(q, p, i);
    }
    assert At(q, Chain(q)[0].commit, p) == At(q, Chain(q)[0].parent, p);
  }

  /** Without a pull request the chain ends at the head, so that the commit it starts from agrees with the base, and
      every commit of the chain holds a published note exactly as the base does. */
  lemma PublishedIsAsAtTheBase(q: Inspection, p: Path, i: nat)
    requires Acyclic(q.repo) && Inspect(q).Some? && Published(q, p) && q.pull.None? && i < |Chain(q)|
    ensures At(q, Chain(q)[i].commit, p) == At(q, q.Base().value, p) == At(q, Chain(q)[0].parent, p)
  {
    ChainIsLinked(q);
    PublishedIsKept(q, p, i);
    PublishedIsKept(q, p, |Chain(q)| - 1);
  }

  /** Then the chain keeps what was published always where the base is the previous release, and otherwise exactly
      where the adoption commit left the note alone. */
  lemma PublishedIsAsReleasedAtTheBase(q: Inspection, p: Path)
    requires Acyclic(q.repo) && Inspect(q).Some? && Published(q, p) && q.pull.None? && Chain(q) != []
    ensures (forall i | 0 <= i < |Chain(q)| :: At(q, Chain(q)[i].commit, p) == At(q, q.previous, p)) <==>
            q.Base().value == q.previous || At(q, q.adoption, p) == At(q, q.previous, p)
  {
    PublishedIsAsReleased(q, p);
    PublishedIsAsAtTheBase(q, p, 0);
    assert q.Base().value == q.previous || q.Base().value == q.adoption;
  }

  // ---------------------------------------------------------------- every delivery is accounted for

  /** The note that a delivery adds or edits. */
  ghost predicate ValidNote(q: Inspection, d: Delivery, p: Path) {
    && p in Paths(q.repo, d) && q.rules.isFragment(p) && p in q.repo.tree(d.commit)
    && q.Readable(q.repo.tree(d.commit), p) && p !in q.repo.tree(q.previous)
  }

  ghost predicate Accounted(q: Inspection, d: Delivery)
    requires Acyclic(q.repo) && Inspect(q).Some?
  {
    || (exists p :: ValidNote(q, d, p))
    || (d.commit in Inspect(q).value.exempt && LetThrough(q, d))
  }

  /** A delivery with a visible path adds or edits a valid unpublished note, or is exempt with approval. */
  lemma VisibleDeliveryIsAccounted(q: Inspection, i: nat)
    requires Acyclic(q.repo) && Inspect(q).Some? && i < |q.AllDeliveries().value|
    requires q.Visible(Paths(q.repo, q.AllDeliveries().value[i]))
    ensures Accounted(q, q.AllDeliveries().value[i])
  {
    var ds := q.AllDeliveries().value;
    var d := ds[i];
    NoDeliveryIsRefused(q, ds, i);
    var v :| v in Paths(q.repo, d) && q.rules.isVisible(v);
    assert Edits(q, d, v);
    if Unnoted(q, d) {
      ExemptExactly(q, ds, d.commit);
    } else {
      var p :| q.rules.isFragment(p) && Edits(q, d, p) && p in q.repo.tree(d.commit);
      assert ValidNote(q, d, p);
    }
  }

  /** Whatever visible path the chain as a whole changed, some accounted delivery changed it. */
  lemma VisibleChangeIsAccounted(q: Inspection, p: Path) returns (d: Delivery)
    requires Acyclic(q.repo) && Inspect(q).Some? && q.rules.isVisible(p) && Chain(q) != []
    requires At(q, Chain(q)[0].parent, p) != At(q, q.Tip().value, p)
    ensures d in Chain(q) && p in Paths(q.repo, d) && Accounted(q, d)
  {
    ChainIsLinked(q);
    var i := ChangeIsDelivered(q.repo, Chain(q), p);
    d := Chain(q)[i];
    assert q.AllDeliveries().value[i] == d;
    VisibleDeliveryIsAccounted(q, i);
  }

  // ---------------------------------------------------------------- the reported notes

  /** Different file names give different identifiers. */
  ghost predicate StemsDiffer(r: PathRules) {
    forall a, b :: r.isFragment(a) && r.isFragment(b) && MatchesIdentifier(r.stem(a)) && r.stem(a) == r.stem(b) ==> a == b
  }

  /** Every note in the working tree that is not as it was at the base is reported, and none of them is published. */
  lemma ChangedNotesAreReported(q: Inspection, p: Path)
    requires Acyclic(q.repo) && Inspect(q).Some? && q.rules.isFragment(p) && p in q.worktree
    requires At(q, q.Base().value, p) != Lookup(q.worktree, p)
    ensures q.parse(q.worktree[p]).Some? && q.parse(q.worktree[p]).value in Inspect(q).value.fragments
    ensures p !in q.repo.tree(q.previous)
  {
    Changes(q, p);
  }

  lemma {:induction false} CollectedIdsDiffer(q: Inspection, paths: seq<Path>, pending: set<Path>)
    requires StemsDiffer(q.rules) && Collect(q, paths, pending).Some? && Distinct(paths)
    requires forall i | 0 <= i < |paths| :: q.rules.isFragment(paths[i])
    ensures DistinctIds(Collect(q, paths, pending).value.fragments)
  {
    if paths != [] {
      var n := |paths| - 1;
      var older := Collect(q, paths[..n], pending).value.fragments;
      CollectedIdsDiffer(q, paths[..n], pending);
      if paths[n] in q.worktree {
        forall k | 0 <= k < |older| ensures older[k].id != q.rules.stem(paths[n]) {
          var i := CollectedFrom(q, paths[..n], pending, k);
          assert paths[..n][i] == paths[i] && paths[i] != paths[n];
        }
      }
    }
  }

  /** The reported notes are valid and no two share an identifier, so that rendering them cannot fail on either. */
  lemma ReportedNotesAreRenderable(q: Inspection)
    requires Acyclic(q.repo) && Inspect(q).Some? && StemsDiffer(q.rules)
    ensures DistinctIds(Inspect(q).value.fragments)
    ensures forall k | 0 <= k < |Inspect(q).value.fragments| ::
              ValidFragment(q.characters, Inspect(q).value.fragments[k])
  {
    var paths := ChangedNotes(q);
    AscendingByDistinct(paths, Codes);
    forall i | 0 <= i < |paths| ensures q.rules.isFragment(paths[i]) {
      assert paths[i] in Elements(paths);
    }
    CollectedIdsDiffer(q, paths, Pending(q));
    forall k | 0 <= k < |Inspect(q).value.fragments|
      ensures ValidFragment(q.characters, Inspect(q).value.fragments[k])
    {
      var i := CollectedFrom(q, paths, Pending(q), k);
    }
  }
}

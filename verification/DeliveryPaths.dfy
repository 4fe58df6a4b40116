/** `fragment_path` and `visible_path` (scripts/release_history.py), and an edit that the history check lets pass. */
module DeliveryPaths {
  import opened ChangelogRender
  import opened ChangelogText
  import opened DeliveryHistory
  import opened DeliveryLaws
  import Ordering
  import opened Text

  predicate FragmentPath(path: string) {
    var parts := Split(path, '/');
    |parts| == 3 && parts[0] == "changes" && parts[1] == "fragments" && EndsWith(parts[2], ".json")
  }

  predicate VisiblePath(path: string) {
    && !FragmentPath(path)
    && path !in {".EVYDENCE_CODEX_BACKLOG.md", "HANDOFF.md", "GOAL.txt"}
    && !EndsWith(path, "_test.go") && "testdata" !in Split(path, '/')
    && !StartsWith(path, "scripts/test_") && !StartsWith(path, "tests/")
  }

  /** `Path(path).stem` of a fragment path: the file name without its suffix, unless the suffix is all of it. */
  function Stem(path: string): string {
    var parts := Split(path, '/');
    var name := parts[|parts| - 1];
    if |name| > 5 then name[..|name| - 5] else name
  }

  /** The fragment files are those directly in their folder with the suffix, and the stem of one is its name. */
  lemma FragmentPathExactly(path: string)
    ensures FragmentPath(path) <==> exists name :: '/' !in name && path == "changes/fragments/" + name + ".json"
    ensures forall name | name != "" && '/' !in name && path == "changes/fragments/" + name + ".json" :: Stem(path) == name
  {
    var parts := Split(path, '/');
    JoinSplit(path, '/');
    if FragmentPath(path) {
      var file := parts[2];
      var name := file[..|file| - 5];
      assert parts == ["changes", "fragments", file] && file == name + ".json";
      JoinedPath(file);
      assert '/' !in name && path == "changes/fragments/" + name + ".json";
    }
    forall name | '/' !in name && path == "changes/fragments/" + name + ".json"
      ensures FragmentPath(path) && (name != "" ==> Stem(path) == name)
    {
      SplitPath(name);
      assert (name + ".json")[|name|..] == ".json" && (name + ".json")[..|name|] == name;
    }
  }

  lemma FolderParts(file: string)
    ensures "changes/fragments/" + file == "changes" + "/" + ("fragments" + "/" + file)
  {
  }

  lemma JoinedPath(file: string)
    ensures Join(["changes", "fragments", file], "/") == "changes/fragments/" + file
  {
    JoinThree("changes", "fragments", file);
    FolderParts(file);
  }

  lemma SplitPath(name: string)
    requires '/' !in name
    ensures Split("changes/fragments/" + name + ".json", '/') == ["changes", "fragments", name + ".json"]
  {
    var file := name + ".json";
    SplitThree("changes", "fragments", file);
    FolderParts(file);
    assert "changes/fragments/" + name + ".json" == "changes/fragments/" + file;
  }

  const RULES := PathRules(FragmentPath, VisiblePath, Stem)

  lemma IdentifierHasNoDot(id: string)
    requires MatchesIdentifier(id)
    ensures '.' !in id
  {
    forall i | 0 <= i < |id| ensures id[i] != '.' {
      if id[i] != '-' {
        var k := SplitCharacters(id, '-', i);
        var part := Split(id, '-')[k];
        var j :| 0 <= j < |part| && part[j] == id[i];
        assert k >= 2 ==> AllOf(part, IsSlug);
      }
    }
  }

  lemma StemIs(path: string)
    requires FragmentPath(path) && MatchesIdentifier(Stem(path))
    ensures Split(path, '/') == ["changes", "fragments", Stem(path) + ".json"]
  {
    var parts := Split(path, '/');
    var name := parts[2];
    IdentifierHasNoDot(Stem(path));
    assert ".json"[0] == '.';
    assert name == name[..|name| - 5] + name[|name| - 5..];
    assert parts == [parts[0], parts[1], parts[2]];
  }

  /** Two fragment files with the same identifier are the same file. */
  lemma StemsOfFragmentsDiffer()
    ensures StemsDiffer(RULES)
  {
    forall a, b | FragmentPath(a) && FragmentPath(b) && MatchesIdentifier(Stem(a)) && Stem(a) == Stem(b) ensures a == b {
      StemIs(a);
      StemIs(b);
      JoinSplit(a, '/');
      JoinSplit(b, '/');
    }
  }

  // ---------------------------------------------------------------- an edit before adoption

  /** A release, an adoption commit that edits one of its notes, and a head that changes nothing. */
  function EditedBeforeAdoption(rules: PathRules, c: Characters, p: Path, before: Entry, after: Entry): Inspection {
    var repo := Repository(
      commit => if commit == "head" then ["adoption"] else if commit == "adoption" then ["release"] else [],
      commit => if commit == "head" then 2 else if commit == "adoption" then 1 else 0,
      commit => if commit == "release" then map[p := before] else map[p := after]);
    Inspection(repo, "release", "adoption", "release", "head", None, (a, b) => a, map[p := after], commit => None,
               entry => None, legacy => true, c, rules)
  }

  lemma EditedAncestors(q: Inspection, rules: PathRules, c: Characters, p: Path, before: Entry, after: Entry)
    requires q == EditedBeforeAdoption(rules, c, p, before, after)
    ensures Acyclic(q.repo)
    ensures Ancestor(q.repo, "release", "adoption") && Ancestor(q.repo, "adoption", "head")
    ensures Ancestor(q.repo, "release", "head") && !Ancestor(q.repo, "head", "adoption")
  {
    var r := q.repo;
    assert r.parents("adoption") == ["release"] && r.parents("head") == ["adoption"] && r.parents("release") == [];
    assert Ancestor(r, "release", r.parents("adoption")[0]);
    assert Ancestor(r, "adoption", r.parents("head")[0]);
    assert Ancestor(r, "release", r.parents("head")[0]);
    assert !Ancestor(r, "head", "release");
  }

  lemma EditedDeliveries(q: Inspection, rules: PathRules, c: Characters, p: Path, before: Entry, after: Entry)
    requires q == EditedBeforeAdoption(rules, c, p, before, after)
    ensures Acyclic(q.repo) && q.Base() == Some("adoption")
    ensures q.AllDeliveries() == Some([Delivery("head", "adoption")])
    ensures Deliveries(q.repo, "adoption", "head") == Some([Delivery("head", "adoption")])
  {
    EditedAncestors(q, rules, c, p, before, after);
    var r := q.repo;
    var chain := [Delivery("head", "adoption")];
    assert r.parents("head") == ["adoption"] && chain[0].commit == "head";
    assert IsChain(r, "adoption", "head", chain);
    ChainIsUnique(r, "adoption", "head", chain);
    assert chain + [] == chain;
  }

  lemma OneNotedDelivery(q: Inspection, d: Delivery)
    requires Judge(q, d) == Noted
    ensures Exempted(q, [d]) == Some([])
  {
    var ds := [d];
    assert ds[..0] == [] && ds[0] == d;
    assert Exempted(q, ds[..0]) == Some([]);
    var none: seq<Commit> := [];
    assert none + [] == none;
  }

  lemma NoChangedNotes(q: Inspection)
    requires Acyclic(q.repo) && q.Base().Some? && AllChanged(q) == {}
    ensures ChangedNotes(q) == [] && Pending(q) == {}
  {
    var notes := ChangedNotes(q);
    if notes != [] {
      SomeElement(notes);
    }
  }

  lemma SomeElement(s: seq<string>)
    requires s != []
    ensures Ordering.Elements(s) != {}
  {
    assert s[0] in Ordering.Elements(s);
  }

  /** Where nothing changed, nothing is left to refuse but the deliveries. */
  lemma QuietInspection(q: Inspection)
    requires Acyclic(q.repo) && q.Base().Some? && q.AllDeliveries().Some?
    requires Exempted(q, q.AllDeliveries().value).Some? && AllChanged(q) == {} && q.changelogFits(q.IncludeLegacy())
    ensures Inspect(q).Some?
  {
    NoChangedNotes(q);
    assert Collect(q, [], Pending(q)) == Some(Collected([], 0));
    assert !q.Visible(Pending(q));
  }

  /** The check passes, yet the chain does not hold what the release published: the adoption commit is the base, and
      what it did to the notes of an earlier release is not compared. */
  lemma EditBeforeAdoptionPasses(rules: PathRules, c: Characters, p: Path, before: Entry, after: Entry)
    requires rules.isFragment(p) && before != after
    ensures var q := EditedBeforeAdoption(rules, c, p, before, after);
            && Acyclic(q.repo) && Inspect(q).Some? && Published(q, p) && Chain(q) != []
            && At(q, Chain(q)[0].commit, p) != At(q, q.previous, p)
  {
    var q := EditedBeforeAdoption(rules, c, p, before, after);
    EditedDeliveries(q, rules, c, p, before, after);
    var d := Delivery("head", "adoption");
    assert Paths(q.repo, d) == {};
    OneNotedDelivery(q, d);
    assert AllChanged(q) == {};
    QuietInspection(q);
  }

  // ---------------------------------------------------------------- a merge that drops a note

  /** A release made beside the main line, a merge of it whose tree drops the note, and a pull request onto that merge
      from a branch that still has the note. */
  function DroppedByMerge(rules: PathRules, c: Characters, p: Path, note: Entry): Inspection {
    var repo := Repository(
      commit => if commit == "merge" then ["start", "release"] else if commit == "head" then ["release"]
                else if commit == "release" then ["start"] else [],
      commit => if commit == "merge" || commit == "head" then 2 else if commit == "release" then 1 else 0,
      commit => if commit == "release" || commit == "head" then map[p := note] else map[]);
    Inspection(repo, "start", "start", "release", "head", Some(PullRequest("merge", "head", false)),
               (a, b) => "release", map[p := note], commit => None, entry => None, legacy => true, c, rules)
  }

  /** The commits of such a history. */
  datatype Fork = Fork(start: Commit, release: Commit, merge: Commit, head: Commit)

  ghost predicate Forked(r: Repository, f: Fork) {
    && Acyclic(r)
    && r.parents(f.start) == [] && r.parents(f.release) == [f.start]
    && r.parents(f.merge) == [f.start, f.release] && r.parents(f.head) == [f.release]
    && r.age(f.start) < r.age(f.release) < r.age(f.merge) && f.head != f.merge
  }

  lemma ForkAncestors(r: Repository, f: Fork)
    requires Forked(r, f)
    ensures Ancestor(r, f.start, f.release) && Ancestor(r, f.release, f.head) && Ancestor(r, f.start, f.head)
    ensures Ancestor(r, f.start, f.merge) && Ancestor(r, f.release, f.merge)
  {
    assert Ancestor(r, f.start, r.parents(f.release)[0]);
    assert Ancestor(r, f.release, r.parents(f.head)[0]) && Ancestor(r, f.start, r.parents(f.head)[0]);
    assert Ancestor(r, f.start, r.parents(f.merge)[0]) && Ancestor(r, f.release, r.parents(f.merge)[1]);
  }

  lemma NoYoungerAncestor(r: Repository, a: Commit, c: Commit)
    requires Acyclic(r) && r.age(c) < r.age(a)
    ensures !Ancestor(r, a, c)
  {
    if Ancestor(r, a, c) {
      AncestorAge(r, a, c);
    }
  }

  lemma ForkDeliveries(r: Repository, f: Fork)
    requires Forked(r, f)
    ensures Deliveries(r, f.release, f.merge) == Some([Delivery(f.merge, f.start)])
  {
    ForkAncestors(r, f);
    NoYoungerAncestor(r, f.merge, f.release);
    var chain := [Delivery(f.merge, f.start)];
    assert IsChain(r, f.release, f.merge, chain);
    ChainIsUnique(r, f.release, f.merge, chain);
  }

  /** The inspection of the pull request. */
  ghost predicate Reviews(q: Inspection, f: Fork) {
    && Forked(q.repo, f) && q.legacy == q.adoption == f.start && q.previous == f.release && q.head == f.head
    && q.pull == Some(PullRequest(f.merge, f.head, false)) && q.mergeBase(f.merge, f.head) == f.release
  }

  lemma ForkBase(q: Inspection, f: Fork)
    requires Reviews(q, f)
    ensures q.Tip() == Some(f.merge) && q.Base() == Some(f.release)
  {
    ForkAncestors(q.repo, f);
    NoYoungerAncestor(q.repo, f.merge, f.start);
    NoYoungerAncestor(q.repo, f.release, f.start);
    assert Ancestor(q.repo, f.start, f.start);
  }

  lemma ForkAll(q: Inspection, f: Fork)
    requires Reviews(q, f)
    ensures q.Tip() == Some(f.merge) && q.Base() == Some(f.release)
    ensures q.AllDeliveries() == Some([Delivery(f.merge, f.start), Delivery(f.head, f.release)])
  {
    ForkBase(q, f);
    ForkDeliveries(q.repo, f);
    assert [Delivery(f.merge, f.start)] + [Delivery(f.head, f.release)]
        == [Delivery(f.merge, f.start), Delivery(f.head, f.release)];
  }

  lemma TwoNotedDeliveries(q: Inspection, a: Delivery, b: Delivery)
    requires Judge(q, a) == Noted && Judge(q, b) == Noted
    ensures Exempted(q, [a, b]) == Some([])
  {
    var ds, none: seq<Commit> := [a, b], [];
    OneNotedDelivery(q, a);
    assert ds[..1] == [a] && ds[1] == b && none + [] == none;
  }

  /** Trees that differ only in the dropped note. */
  ghost predicate Drops(q: Inspection, f: Fork) {
    && q.repo.tree(f.start) == q.repo.tree(f.merge)
    && q.repo.tree(f.release) == q.repo.tree(f.head) == q.worktree
  }

  lemma UntouchedIsNoted(q: Inspection, d: Delivery)
    requires q.repo.tree(d.parent) == q.repo.tree(d.commit)
    ensures Judge(q, d) == Noted
  {
    assert Paths(q.repo, d) == {};
  }

  lemma ForkPasses(q: Inspection, f: Fork)
    requires Reviews(q, f) && Drops(q, f) && q.changelogFits(q.IncludeLegacy())
    ensures Inspect(q).Some? && Chain(q) == [Delivery(f.merge, f.start)] && q.Base() == Some(f.release)
  {
    ForkAll(q, f);
    ForkDeliveries(q.repo, f);
    UntouchedIsNoted(q, Delivery(f.merge, f.start));
    UntouchedIsNoted(q, Delivery(f.head, f.release));
    TwoNotedDeliveries(q, Delivery(f.merge, f.start), Delivery(f.head, f.release));
    assert AllChanged(q) == {};
    QuietInspection(q);
  }

  const FORK := Fork("start", "release", "merge", "head")

  lemma DroppedForks(rules: PathRules, c: Characters, p: Path, note: Entry)
    ensures Forked(DroppedByMerge(rules, c, p, note).repo, FORK)
  {
  }

  lemma DroppedReviews(rules: PathRules, c: Characters, p: Path, note: Entry)
    ensures Reviews(DroppedByMerge(rules, c, p, note), FORK) && Drops(DroppedByMerge(rules, c, p, note), FORK)
  {
    DroppedForks(rules, c, p, note);
  }

  lemma DroppedAt(q: Inspection, f: Fork, p: Path)
    requires Reviews(q, f) && Drops(q, f) && q.changelogFits(q.IncludeLegacy())
    requires q.rules.isFragment(p) && p in q.repo.tree(f.release) && p !in q.repo.tree(f.merge)
    ensures Inspect(q).Some? && Published(q, p) && Chain(q) != [] && q.Base() == Some(q.previous)
    ensures At(q, Chain(q)[0].commit, p) != At(q, q.previous, p)
  {
    ForkPasses(q, f);
  }

  /** The check of such a pull request passes although its base is the release itself: the chain starts from a commit
      without the note, and the base is compared with the head of the pull request alone. */
  lemma DropByMergePasses(rules: PathRules, c: Characters, p: Path, note: Entry)
    requires rules.isFragment(p)
    ensures var q := DroppedByMerge(rules, c, p, note);
            && Acyclic(q.repo) && Inspect(q).Some? && Published(q, p) && Chain(q) != []
            && q.Base() == Some(q.previous)
            && At(q, Chain(q)[0].commit, p) != At(q, q.previous, p)
  {
    DroppedReviews(rules, c, p, note);
    DroppedAt(DroppedByMerge(rules, c, p, note), FORK, p);
  }
}

/** `Repository.deliveries` and `inspect` (scripts/release_history.py): every delivery between two releases carries a
    change note, and no published note is touched. */
module DeliveryHistory {
  import opened ChangelogRender
  import opened Ordering
  import opened Text

  type Commit = string
  type Path = string

  /** What a tree holds at a path: a regular file, or a link or submodule. */
  datatype Entry = Regular(mode: string, content: string) | Special(mode: string, id: string)

  type Tree = map<Path, Entry>

  /** A commit graph; `age` is a measure that every parent precedes. */
  datatype Repository = Repository(parents: Commit -> seq<Commit>, age: Commit -> nat, tree: Commit -> Tree)

  ghost predicate Acyclic(r: Repository) {
    forall c, i | 0 <= i < |r.parents(c)| :: r.age(r.parents(c)[i]) < r.age(c)
  }

  /** `merge-base --is-ancestor a c`; every commit is its own ancestor. */
  predicate Ancestor(r: Repository, a: Commit, c: Commit)
    requires Acyclic(r)
    decreases r.age(c)
  {
    a == c || exists i | 0 <= i < |r.parents(c)| :: Ancestor(r, a, r.parents(c)[i])
  }

  datatype Delivery = Delivery(commit: Commit, parent: Commit)

  /** `rev-list --first-parent --reverse base..head` with first parents: the commits met from `head` by first
      parents before one that `base` already contains. `None` where a commit has no parent. */
  function FirstParents(r: Repository, base: Commit, head: Commit): Option<seq<Delivery>>
    requires Acyclic(r)
    decreases r.age(head)
  {
    if Ancestor(r, head, base) then Some([])
    else if r.parents(head) == [] then None
    else
      var parent := r.parents(head)[0];
      var older := FirstParents(r, base, parent);
      if older.None? then None else Some(older.value + [Delivery(head, parent)])
  }

  const MAX_DELIVERIES := 512

  /** `Repository.deliveries(base, head)` */
  function Deliveries(r: Repository, base: Commit, head: Commit): Option<seq<Delivery>>
    requires Acyclic(r)
  {
    var found := FirstParents(r, base, head);
    if found.None? || |found.value| > MAX_DELIVERIES then None else found
  }

  // ---------------------------------------------------------------- ancestry and the chain

  lemma {:induction false} AncestorAge(r: Repository, a: Commit, c: Commit)
    requires Acyclic(r) && Ancestor(r, a, c)
    ensures a == c || r.age(a) < r.age(c)
    decreases r.age(c)
  {
    if a != c {
      var i :| 0 <= i < |r.parents(c)| && Ancestor(r, a, r.parents(c)[i]);
      AncestorAge(r, a, r.parents(c)[i]);
    }
  }

  lemma AncestorAntisymmetric(r: Repository, a: Commit, c: Commit)
    requires Acyclic(r) && Ancestor(r, a, c) && Ancestor(r, c, a)
    ensures a == c
  {
    AncestorAge(r, a, c);
    AncestorAge(r, c, a);
  }

  /** Each delivery starts where the one before it ended. */
  predicate Linked(ds: seq<Delivery>) {
    forall i | 0 <= i < |ds| - 1 :: ds[i + 1].parent == ds[i].commit
  }

  ghost predicate IsChain(r: Repository, base: Commit, head: Commit, ds: seq<Delivery>)
    requires Acyclic(r)
  {
    && Linked(ds)
    && (forall i | 0 <= i < |ds| ::
          && r.parents(ds[i].commit) != [] && r.parents(ds[i].commit)[0] == ds[i].parent
          && !Ancestor(r, ds[i].commit, base))
    && (ds == [] ==> Ancestor(r, head, base))
    && (ds != [] ==> ds[|ds| - 1].commit == head && Ancestor(r, ds[0].parent, base))
  }

  /** The deliveries are one chain of first parents, from a commit the base contains up to the head, through
      commits it does not contain. */
  lemma {:induction false} DeliveriesAreAChain(r: Repository, base: Commit, head: Commit)
    requires Acyclic(r) && FirstParents(r, base, head).Some?
    ensures IsChain(r, base, head, FirstParents(r, base, head).value)
    decreases r.age(head)
  {
    if !Ancestor(r, head, base) {
      var parent := r.parents(head)[0];
      DeliveriesAreAChain(r, base, parent);
      var older := FirstParents(r, base, parent).value;
      var ds := older + [Delivery(head, parent)];
      assert forall i | 0 <= i < |older| :: ds[i] == older[i];
    }
  }

  /** There is only one such chain. */
  lemma {:induction false} ChainIsUnique(r: Repository, base: Commit, head: Commit, ds: seq<Delivery>)
    requires Acyclic(r) && IsChain(r, base, head, ds)
    ensures FirstParents(r, base, head) == Some(ds)
    decreases |ds|
  {
    if ds != [] {
      var n := |ds| - 1;
      var older := ds[..n];
      assert forall i | 0 <= i < n :: older[i] == ds[i];
      assert ds[n] == Delivery(head, r.parents(head)[0]);
      assert n > 0 ==> ds[n - 1 + 1].parent == ds[n - 1].commit;
      ChainIsUnique(r, base, ds[n].parent, older);
      assert ds == older + [ds[n]];
    }
  }

  // ---------------------------------------------------------------- what a delivery touches

  function Lookup(t: Tree, p: Path): Option<Entry> {
    if p in t then Some(t[p]) else None
  }

  /** `difference(before, after)` */
  function Touched(a: Tree, b: Tree): (r: set<Path>)
    ensures forall p :: p in r <==> Lookup(a, p) != Lookup(b, p)
  {
    set p | p in a.Keys + b.Keys && Lookup(a, p) != Lookup(b, p)
  }

  function Paths(r: Repository, d: Delivery): set<Path> {
    Touched(r.tree(d.parent), r.tree(d.commit))
  }

  /** A path that no delivery of a chain touches is the same at every commit of it. */
  lemma {:induction false} UntouchedIsKept(r: Repository, ds: seq<Delivery>, p: Path, i: nat)
    requires Linked(ds) && i < |ds|
    requires forall k | 0 <= k <= i :: p !in Paths(r, ds[k])
    ensures Lookup(r.tree(ds[i].commit), p) == Lookup(r.tree(ds[0].parent), p)
  {
    assert p !in Paths(r, ds[i]);
    if i > 0 {
      UntouchedIsKept(r, ds, p, i - 1);
      assert ds[i - 1 + 1].parent == ds[i - 1].commit;
    }
  }

  /** Conversely a path that differs at the two ends was touched by some delivery. */
  lemma ChangeIsDelivered(r: Repository, ds: seq<Delivery>, p: Path) returns (i: nat)
    requires Linked(ds) && ds != []
    requires Lookup(r.tree(ds[0].parent), p) != Lookup(r.tree(ds[|ds| - 1].commit), p)
    ensures i < |ds| && p in Paths(r, ds[i])
  {
    if forall k | 0 <= k < |ds| :: p !in Paths(r, ds[k]) {
      UntouchedIsKept(r, ds, p, |ds| - 1);
      assert false;
    }
    i :| i < |ds| && p in Paths(r, ds[i]);
  }

  // ---------------------------------------------------------------- the inspection

  /** `fragment_path`, `visible_path` and the stem of a file name. */
  datatype PathRules = PathRules(isFragment: Path -> bool, isVisible: Path -> bool, stem: Path -> string)

  datatype PullRequest = PullRequest(base: Commit, head: Commit, noChangelog: bool)

  /** Everything `inspect` reads. `mergeBase` is `git merge-base`, `exemption` the check of a delivery's label
      (`None` where it fails), `parse` the reading of a fragment file (`None` where it is not a JSON fragment), and
      `changelogFits` whether the changelog passes its checks with or without the link to the historical section. */
  datatype Inspection = Inspection(
    repo: Repository,
    legacy: Commit,
    adoption: Commit,
    previous: Commit,
    head: Commit,
    pull: Option<PullRequest>,
    mergeBase: (Commit, Commit) -> Commit,
    worktree: Tree,
    exemption: Commit -> Option<bool>,
    parse: Entry -> Option<Fragment>,
    changelogFits: bool -> bool,
    characters: Characters,
    rules: PathRules)
  {
    /** `history_head`: where the chain of deliveries ends. */
    function Tip(): Option<Commit>
      requires Acyclic(repo)
    {
      if pull.None? then Some(head)
      else
        var p := pull.value;
        if head != p.head && repo.parents(head) != [p.base, p.head] then None
        else if !Ancestor(repo, p.base, adoption) then Some(p.base)
        else if !Ancestor(repo, previous, p.base) || !Ancestor(repo, adoption, p.head) then None
        else Some(adoption)
    }

    predicate Grounded(tip: Commit)
      requires Acyclic(repo)
    {
      && Ancestor(repo, legacy, adoption)
      && Ancestor(repo, adoption, head) && Ancestor(repo, previous, head)
      && Ancestor(repo, adoption, tip) && Ancestor(repo, previous, tip)
    }

    /** The later of the release and the adoption. */
    function Base(): Option<Commit>
      requires Acyclic(repo)
    {
      if Tip().None? || !Grounded(Tip().value) then None
      else if Ancestor(repo, previous, adoption) then (if previous != legacy then None else Some(adoption))
      else if Ancestor(repo, adoption, previous) then Some(previous)
      else None
    }

    function IncludeLegacy(): bool
      requires Acyclic(repo)
    {
      Ancestor(repo, previous, adoption)
      && exists p | p in Touched(repo.tree(previous), repo.tree(adoption)) :: rules.isVisible(p)
    }

    /** The chain, and the pull request as one more delivery. */
    function AllDeliveries(): Option<seq<Delivery>>
      requires Acyclic(repo) && Base().Some?
    {
      var chain := Deliveries(repo, Base().value, Tip().value);
      if chain.None? then None
      else Some(chain.value + PullDelivery())
    }

    function PullDelivery(): seq<Delivery> {
      if pull.None? then [] else [Delivery(pull.value.head, mergeBase(pull.value.base, pull.value.head))]
    }

    /** Whether a delivery without a note is let through. */
    function Approved(c: Commit): Option<bool> {
      if pull.Some? && c == pull.value.head then Some(pull.value.noChangelog) else exemption(c)
    }

    /** A published note among these paths. */
    predicate Republishes(paths: set<Path>) {
      exists p | p in paths :: rules.isFragment(p) && p in repo.tree(previous)
    }

    /** `read_fragment`: the file name is shaped like an identifier and the content, if any, is a valid fragment of that
        name. */
    predicate Readable(t: Tree, p: Path) {
      && MatchesIdentifier(rules.stem(p))
      && (p in t ==>
            && t[p].Regular? && parse(t[p]).Some?
            && ValidFragment(characters, parse(t[p]).value) && parse(t[p]).value.id == rules.stem(p))
    }

    predicate AllReadable(t: Tree, paths: set<Path>) {
      forall p | p in paths && rules.isFragment(p) :: Readable(t, p)
    }

    /** Some note is added or edited. */
    predicate Notes(t: Tree, paths: set<Path>) {
      exists p | p in paths :: rules.isFragment(p) && p in t
    }

    predicate Visible(paths: set<Path>) {
      exists p | p in paths :: rules.isVisible(p)
    }
  }

  datatype Verdict = Refused | Noted | Exempt

  /** What the loop of `inspect` makes of one delivery. */
  function Judge(q: Inspection, d: Delivery): Verdict {
    var paths, t := Paths(q.repo, d), q.repo.tree(d.commit);
    if q.Republishes(paths) || !q.AllReadable(t, paths) then Refused
    else if !q.Visible(paths) || q.Notes(t, paths) then Noted
    else if q.Approved(d.commit) == Some(true) then Exempt
    else Refused
  }

  /** The exempt commits of a list of deliveries, `None` where one is refused. */
  function Exempted(q: Inspection, ds: seq<Delivery>): Option<seq<Commit>> {
    if ds == [] then Some([])
    else
      var n := |ds| - 1;
      var before, verdict := Exempted(q, ds[..n]), Judge(q, ds[n]);
      if before.None? || verdict.Refused? then None
      else Some(before.value + if verdict.Exempt? then [ds[n].commit] else [])
  }

  /** The notes collected from the working tree, and how many of them are not committed. */
  datatype Collected = Collected(fragments: seq<Fragment>, pending: nat)

  function Collect(q: Inspection, paths: seq<Path>, pending: set<Path>): Option<Collected> {
    if paths == [] then Some(Collected([], 0))
    else
      var n := |paths| - 1;
      var before, p := Collect(q, paths[..n], pending), paths[n];
      if before.None? || p in q.repo.tree(q.previous) then None
      else if p !in q.worktree then before
      else if !q.Readable(q.worktree, p) then None
      else
        Some(Collected(before.value.fragments + [q.parse(q.worktree[p]).value],
                       before.value.pending + if p in pending then 1 else 0))
  }

  datatype Report = Report(fragments: seq<Fragment>, includeLegacy: bool, exempt: seq<Commit>, changed: set<Path>)

  function Pending(q: Inspection): set<Path> {
    Touched(q.repo.tree(q.head), q.worktree)
  }

  function AllChanged(q: Inspection): set<Path>
    requires Acyclic(q.repo) && q.Base().Some?
  {
    Touched(q.repo.tree(q.Base().value), q.repo.tree(q.head)) + Pending(q)
  }

  function ChangedNotes(q: Inspection): seq<Path>
    requires Acyclic(q.repo) && q.Base().Some?
  {
    Sorted(set p | p in AllChanged(q) && q.rules.isFragment(p))
  }

  /** `inspect`; `None` where the source raises. */
  function Inspect(q: Inspection): Option<Report>
    requires Acyclic(q.repo)
  {
    if q.Base().None? || !q.changelogFits(q.IncludeLegacy()) || q.AllDeliveries().None? then None
    else
      var exempt := Exempted(q, q.AllDeliveries().value);
      var notes := Collect(q, ChangedNotes(q), Pending(q));
      if exempt.None? || notes.None? then None
      else if q.Visible(Pending(q)) && notes.value.pending == 0 then None
      else Some(Report(notes.value.fragments, q.IncludeLegacy(), exempt.value, AllChanged(q)))
  }
}

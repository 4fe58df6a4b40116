/** The file-listing loop of `GitHub.snapshot`: a paged list of changed files must account for exactly the
    difference of two trees. */
module TreeDiff {
  import opened Ordering
  import opened Text
  import opened GitBytes
  import opened GitTree
  import opened GitListing

  const MAX_FILES := 2048
  const PER_PAGE := 100
  const MAX_PAGES := (MAX_FILES + PER_PAGE - 1) / PER_PAGE

  datatype Status = Added | Removed | Modified | Renamed | Copied | Changed

  /** A changed file as the provider reports it, its paths and id already read. */
  datatype FileRow = FileRow(path: bytes, status: Status, id: bytes, previous: Option<bytes>)

  /** A page is a list of rows; `None` marks a row that cannot be read, and a missing page a failed request. */
  type Pages = nat -> Option<seq<Option<FileRow>>>

  /** An accepted row, with the mode it has in the new tree unless it was removed. */
  datatype FileItem = FileItem(row: FileRow, mode: Option<Mode>)

  // ---------------------------------------------------------------- what the checks say

  predicate HasId(tree: Entries, path: bytes, id: bytes) {
    path in tree && tree[path].id == id
  }

  /** The checks on one row against the two trees. */
  predicate Consistent(base: Entries, head: Entries, row: FileRow) {
    && (if row.status.Renamed? || row.status.Copied? then
          && row.previous.Some? && row.previous.value != row.path && row.previous.value in base
          && (row.status.Renamed? ==> row.previous.value !in head)
        else row.previous.None?)
    && (if row.status.Removed? then HasId(base, row.path, row.id) && row.path !in head
        else
          && HasId(head, row.path, row.id)
          && (row.status.Added? ==> row.path !in base)
          && (row.status.Modified? || row.status.Changed? ==> row.path in base))
  }

  function CoveredBy(row: FileRow): set<bytes> {
    {row.path} + (if row.status.Renamed? && row.previous.Some? then {row.previous.value} else {})
  }

  function Covered(rows: seq<FileRow>): set<bytes> {
    set i, p | 0 <= i < |rows| && p in CoveredBy(rows[i]) :: p
  }

  function PathsOf(rows: seq<FileRow>): set<bytes> {
    set i | 0 <= i < |rows| :: rows[i].path
  }

  function Lookup(tree: Entries, path: bytes): Option<Entry> {
    if path in tree then Some(tree[path]) else None
  }

  function Differences(base: Entries, head: Entries): set<bytes> {
    set p | p in base.Keys + head.Keys && Lookup(base, p) != Lookup(head, p)
  }

  predicate DistinctFiles(rows: seq<FileRow>) {
    forall i, j | 0 <= i < j < |rows| :: rows[i].path != rows[j].path
  }

  predicate AllValid(base: Entries, head: Entries, rows: seq<FileRow>) {
    forall i | 0 <= i < |rows| :: Consistent(base, head, rows[i])
  }

  /** The listing accounts for exactly the difference of the trees. */
  predicate Accounts(base: Entries, head: Entries, rows: seq<FileRow>) {
    AllValid(base, head, rows) && DistinctFiles(rows) && Covered(rows) == Differences(base, head)
  }

  // ---------------------------------------------------------------- paging

  predicate AllRead(page: seq<Option<FileRow>>) {
    forall i | 0 <= i < |page| :: page[i].Some?
  }

  function Values(page: seq<Option<FileRow>>): (rows: seq<FileRow>)
    requires AllRead(page)
    ensures |rows| == |page| && forall i | 0 <= i < |page| :: page[i] == Some(rows[i])
  {
    seq(|page|, i requires 0 <= i < |page| => page[i].value)
  }

  predicate UsablePage(pages: Pages, page: nat) {
    pages(page).Some? && |pages(page).value| <= PER_PAGE && AllRead(pages(page).value)
  }

  /** The rows of the pages up to the one that completes the declared count; every page before it is full. */
  function Listed(pages: Pages, page: nat, files: seq<FileRow>, declared: nat): (r: Option<seq<FileRow>>)
    ensures r.Some? ==> |r.value| == declared && files <= r.value
    decreases MAX_PAGES + 1 - page
  {
    if page > MAX_PAGES then if |files| == declared then Some(files) else None
    else if !UsablePage(pages, page) then None
    else
      var more := files + Values(pages(page).value);
      if |more| > declared then None
      else if |more| == declared then Some(more)
      else if |pages(page).value| != PER_PAGE then None
      else Listed(pages, page + 1, more, declared)
  }

  /** How many pages hold so many rows; an empty listing still has one page. */
  function PageCount(declared: nat): nat {
    if declared == 0 then 1 else (declared + 99) / 100
  }

  /** Page `k` holds its hundred rows, or what is left of them. */
  predicate HoldsPage(pages: Pages, rows: seq<FileRow>, k: nat)
    requires k >= 1 && 100 * (k - 1) <= |rows|
  {
    && pages(k).Some? && AllRead(pages(k).value)
    && Values(pages(k).value) == if 100 * k <= |rows| then rows[100 * (k - 1)..100 * k] else rows[100 * (k - 1)..]
  }

  /** The pages hold exactly these rows, a hundred on each page but the last. */
  ghost predicate InPages(pages: Pages, rows: seq<FileRow>) {
    forall k | 1 <= k <= PageCount(|rows|) :: HoldsPage(pages, rows, k)
  }

  lemma PageSizes(declared: nat, page: nat)
    requires 1 <= page <= PageCount(declared)
    ensures 100 * (page - 1) <= declared
    ensures page < PageCount(declared) ==> 100 * page < declared
    ensures page == PageCount(declared) ==> declared <= 100 * page
  {
  }

  lemma {:induction false} ListedHolds(pages: Pages, page: nat, files: seq<FileRow>, declared: nat, rows: seq<FileRow>)
    requires 1 <= page <= PageCount(declared) <= MAX_PAGES
    requires |files| == 100 * (page - 1) && files <= rows && |rows| == declared
    ensures Listed(pages, page, files, declared) == Some(rows) <==>
            forall k | page <= k <= PageCount(declared) :: HoldsPage(pages, rows, k)
    decreases MAX_PAGES - page
  {
    PageSizes(declared, page);
    if HoldsPage(pages, rows, page) {
      var more := files + Values(pages(page).value);
      assert more == if 100 * page <= |rows| then rows[..100 * page] else rows;
      if page < PageCount(declared) {
        PageSizes(declared, page + 1);
        ListedHolds(pages, page + 1, more, declared, rows);
        assert Listed(pages, page, files, declared) == Listed(pages, page + 1, more, declared);
      } else {
        assert more == rows;
        assert Listed(pages, page, files, declared) == Some(rows);
      }
    } else if Listed(pages, page, files, declared) == Some(rows) {
      ListedHoldsPage(pages, page, files, declared, rows);
    }
  }

  lemma ListedHoldsPage(pages: Pages, page: nat, files: seq<FileRow>, declared: nat, rows: seq<FileRow>)
    requires 1 <= page <= PageCount(declared) <= MAX_PAGES
    requires |files| == 100 * (page - 1) && files <= rows && |rows| == declared
    requires Listed(pages, page, files, declared) == Some(rows)
    ensures HoldsPage(pages, rows, page)
  {
    PageSizes(declared, page);
    var more := files + Values(pages(page).value);
    assert more <= rows;
    assert Values(pages(page).value) == more[|files|..];
  }

  /** The pages that may be asked for hold no more than these. */
  lemma {:induction false} ListedBounded(pages: Pages, page: nat, files: seq<FileRow>, declared: nat)
    requires 1 <= page <= MAX_PAGES + 1 && |files| <= 100 * (page - 1)
    requires Listed(pages, page, files, declared).Some?
    ensures declared <= 100 * MAX_PAGES
    decreases MAX_PAGES + 1 - page
  {
    if page <= MAX_PAGES && |files + Values(pages(page).value)| < declared {
      ListedBounded(pages, page + 1, files + Values(pages(page).value), declared);
    }
  }

  /** The page loop finds these rows exactly where they are as many as declared and the pages hold them, and no more than
      21 of them. */
  lemma ListedExactly(pages: Pages, declared: nat, rows: seq<FileRow>)
    ensures Listed(pages, 1, [], declared) == Some(rows) <==>
            |rows| == declared && PageCount(declared) <= 21 && InPages(pages, rows)
  {
    if Listed(pages, 1, [], declared).Some? {
      ListedBounded(pages, 1, [], declared);
    }
    if |rows| == declared && PageCount(declared) <= MAX_PAGES {
      ListedHolds(pages, 1, [], declared, rows);
    }
  }

  // ---------------------------------------------------------------- reconstruction

  function ItemFor(head: Entries, row: FileRow): FileItem {
    FileItem(row, if row.status.Removed? || row.path !in head then None else Some(head[row.path].mode))
  }

  function ItemsFor(head: Entries, rows: seq<FileRow>): (r: seq<FileItem>)
    ensures |r| == |rows| && forall i | 0 <= i < |rows| :: r[i] == ItemFor(head, rows[i])
  {
    seq(|rows|, i requires 0 <= i < |rows| => ItemFor(head, rows[i]))
  }

  /** What a reader of the report does with one item. */
  function Apply(tree: Entries, item: FileItem): Entries {
    var row := item.row;
    var kept := if row.status.Renamed? && row.previous.Some? then tree - {row.previous.value} else tree;
    if item.mode.None? then kept - {row.path} else kept[row.path := Entry(item.mode.value, row.id)]
  }

  function ApplyAll(tree: Entries, items: seq<FileItem>): Entries {
    if items == [] then tree else Apply(ApplyAll(tree, items[..|items| - 1]), items[|items| - 1])
  }

  lemma ApplyLookup(base: Entries, head: Entries, tree: Entries, row: FileRow, path: bytes)
    requires Consistent(base, head, row)
    ensures Lookup(Apply(tree, ItemFor(head, row)), path) ==
            if path in CoveredBy(row) then Lookup(head, path) else Lookup(tree, path)
  {
  }

  /** After any number of valid rows a path has its new entry if some row covers it, and its old one if none does. */
  lemma {:induction false} ApplyAllLookup(base: Entries, head: Entries, rows: seq<FileRow>, path: bytes)
    requires AllValid(base, head, rows)
    ensures Lookup(ApplyAll(base, ItemsFor(head, rows)), path) ==
            if path in Covered(rows) then Lookup(head, path) else Lookup(base, path)
  {
    if rows != [] {
      var n := |rows| - 1;
      var before := rows[..n];
      ApplyAllLookup(base, head, before, path);
      assert ItemsFor(head, rows)[..n] == ItemsFor(head, before);
      ApplyLookup(base, head, ApplyAll(base, ItemsFor(head, before)), rows[n], path);
      CoveredStep(before, rows[n]);
      assert rows == before + [rows[n]];
    }
  }

  lemma CoveredStep(rows: seq<FileRow>, row: FileRow)
    ensures Covered(rows + [row]) == Covered(rows) + CoveredBy(row)
  {
    var longer := rows + [row];
    assert longer[|rows|] == row;
    forall p | p in Covered(rows) ensures p in Covered(longer) {
      var i :| 0 <= i < |rows| && p in CoveredBy(rows[i]);
      assert longer[i] == rows[i];
    }
  }

  lemma CoveredPermuted(rows: seq<FileRow>, other: seq<FileRow>)
    requires forall x :: x in rows <==> x in other
    ensures Covered(rows) == Covered(other)
  {
    forall p | p in Covered(rows) ensures p in Covered(other) {
      var i :| 0 <= i < |rows| && p in CoveredBy(rows[i]);
      assert rows[i] in other;
    }
    forall p | p in Covered(other) ensures p in Covered(rows) {
      var i :| 0 <= i < |other| && p in CoveredBy(other[i]);
      assert other[i] in rows;
    }
  }

  /** Applying an accepted listing to the old tree, its rows in any order, gives exactly the new tree. */
  lemma Reconstruction(base: Entries, head: Entries, rows: seq<FileRow>, other: seq<FileRow>)
    requires Accounts(base, head, rows) && multiset(other) == multiset(rows)
    ensures ApplyAll(base, ItemsFor(head, other)) == head
  {
    SameMembers(rows, other);
    CoveredPermuted(rows, other);
    forall i | 0 <= i < |other| ensures Consistent(base, head, other[i]) {
      assert other[i] in rows;
    }
    var result := ApplyAll(base, ItemsFor(head, other));
    forall p ensures Lookup(result, p) == Lookup(head, p) {
      ApplyAllLookup(base, head, other, p);
    }
    SameLookups(result, head);
  }

  lemma SameLookups(a: Entries, b: Entries)
    requires forall p :: Lookup(a, p) == Lookup(b, p)
    ensures a == b
  {
    forall p ensures p in a <==> p in b {
      assert Lookup(a, p) == Lookup(b, p);
    }
    forall p | p in a ensures a[p] == b[p] {
      assert Lookup(a, p) == Lookup(b, p);
    }
  }

  /** The paths a report touches: those it lists, and those it renames away. */
  function Touched(items: seq<FileItem>): set<bytes> {
    set i, p | 0 <= i < |items| && p in CoveredBy(items[i].row) :: p
  }

  /** A report whose rows account for the difference turns the old tree into the new one, touches every path that
      changed, and touches no other. */
  lemma AccountedReport(base: Entries, head: Entries, rows: seq<FileRow>)
    requires Accounts(base, head, rows)
    ensures var items := ItemsFor(head, rows);
            && ApplyAll(base, items) == head
            && forall path :: path in Touched(items) <==> Lookup(base, path) != Lookup(head, path)
  {
    var items := ItemsFor(head, rows);
    Reconstruction(base, head, rows, rows);
    forall path ensures path in Touched(items) <==> path in Covered(rows) {
      if path in Covered(rows) {
        var i :| 0 <= i < |rows| && path in CoveredBy(rows[i]);
        assert items[i].row == rows[i];
      }
    }
  }

  /** The tree ids alone fix which paths a listing covers: two accepted snapshots of the same pair of trees cover
      the same paths, or exhibit a hash collision in one of the trees. */
  lemma SnapshotBinding(read: Reader, hash: bytes -> bytes, base: Reply, head: Reply, base': Reply, head': Reply,
                        baseId: string, headId: string, rows: seq<FileRow>, rows': seq<FileRow>)
    requires Sound(read)
    requires Accepts(read, hash, base, baseId) && Accepts(read, hash, base', baseId)
    requires Accepts(read, hash, head, headId) && Accepts(read, hash, head', headId)
    requires Accounts(Leaves(ListingOf(read, base)), Leaves(ListingOf(read, head)), rows)
    requires Accounts(Leaves(ListingOf(read, base')), Leaves(ListingOf(read, head')), rows')
    ensures Covered(rows) == Covered(rows')
            || (exists f :: CollideAt(hash, Objects(ListingOf(read, base)), Objects(ListingOf(read, base')), f))
            || (exists f :: CollideAt(hash, Objects(ListingOf(read, head)), Objects(ListingOf(read, head')), f))
  {
    TreeBinding(read, hash, base, base', baseId);
    TreeBinding(read, hash, head, head', headId);
  }

  // ---------------------------------------------------------------- every difference can be listed

  /** Where a new file is said to come from: a path it was moved from, or one it was copied from. */
  datatype Origin = Moved(path: bytes) | CopiedFrom(path: bytes)

  /** The new path differs from the old tree and the origin is an old path, gone where the file was moved. */
  predicate IsOrigin(base: Entries, head: Entries, path: bytes, origin: Origin) {
    && path in head && Lookup(base, path) != Lookup(head, path)
    && origin.path in base && origin.path != path && (origin.Moved? ==> origin.path !in head)
  }

  predicate AllOrigins(base: Entries, head: Entries, origins: map<bytes, Origin>) {
    forall p | p in origins :: IsOrigin(base, head, p, origins[p])
  }

  /** What a changed path is listed as. */
  function PlannedRow(base: Entries, head: Entries, origins: map<bytes, Origin>, path: bytes): FileRow {
    var id := if path in head then head[path].id else if path in base then base[path].id else [];
    if path in origins && origins[path].Moved? then FileRow(path, Renamed, id, Some(origins[path].path))
    else if path in origins then FileRow(path, Copied, id, Some(origins[path].path))
    else if path !in base then FileRow(path, Added, id, None)
    else if path !in head then FileRow(path, Removed, id, None)
    else FileRow(path, Modified, id, None)
  }

  function PlannedRows(base: Entries, head: Entries, origins: map<bytes, Origin>, paths: seq<bytes>): (rows: seq<FileRow>)
    ensures |rows| == |paths| && forall i | 0 <= i < |paths| :: rows[i] == PlannedRow(base, head, origins, paths[i])
  {
    seq(|paths|, i requires 0 <= i < |paths| => PlannedRow(base, head, origins, paths[i]))
  }

  /** The old paths that files were moved from. */
  function MovedFrom(origins: map<bytes, Origin>): set<bytes> {
    set p | p in origins && origins[p].Moved? :: origins[p].path
  }

  /** However the new files are told from moved and copied ones, the listing of the changed paths that are not themselves
      moved away accounts for the difference. */
  lemma PlannedAccounts(base: Entries, head: Entries, origins: map<bytes, Origin>, paths: seq<bytes>)
    requires AllOrigins(base, head, origins) && Distinct(paths)
    requires Elements(paths) == Differences(base, head) - MovedFrom(origins)
    ensures Accounts(base, head, PlannedRows(base, head, origins, paths))
  {
    var rows := PlannedRows(base, head, origins, paths);
    forall i | 0 <= i < |rows| ensures Consistent(base, head, rows[i]) {
      assert paths[i] in Elements(paths);
    }
    forall p | p in Covered(rows) ensures p in Differences(base, head) {
      var i :| 0 <= i < |rows| && p in CoveredBy(rows[i]);
      assert paths[i] in Elements(paths);
    }
    forall p | p in Differences(base, head) ensures p in Covered(rows) {
      PlannedCovers(base, head, origins, paths, p);
    }
  }

  lemma PlannedCovers(base: Entries, head: Entries, origins: map<bytes, Origin>, paths: seq<bytes>, p: bytes)
    requires AllOrigins(base, head, origins) && p in Differences(base, head)
    requires Elements(paths) == Differences(base, head) - MovedFrom(origins)
    ensures p in Covered(PlannedRows(base, head, origins, paths))
  {
    var rows := PlannedRows(base, head, origins, paths);
    if p in MovedFrom(origins) {
      var q :| q in origins && origins[q].Moved? && origins[q].path == p;
      assert IsOrigin(base, head, q, origins[q]);
      assert q in head && q !in MovedFrom(origins);
      assert q in Elements(paths);
      var i :| 0 <= i < |paths| && paths[i] == q;
      assert p in CoveredBy(rows[i]);
    } else {
      assert p in Elements(paths);
      var i :| 0 <= i < |paths| && paths[i] == p;
      assert p in CoveredBy(rows[i]);
    }
  }

  // ---------------------------------------------------------------- the loop

  lemma PathsStep(rows: seq<FileRow>, row: FileRow)
    ensures PathsOf(rows + [row]) == PathsOf(rows) + {row.path}
    ensures DistinctFiles(rows + [row]) <==> DistinctFiles(rows) && row.path !in PathsOf(rows)
  {
    var longer := rows + [row];
    assert longer[|rows|] == row && forall i | 0 <= i < |rows| :: longer[i] == rows[i];
    assert forall i | 0 <= i < |rows| :: rows[i].path in PathsOf(rows) && longer[i].path in PathsOf(longer);
  }

  lemma ValidStep(base: Entries, head: Entries, rows: seq<FileRow>, row: FileRow)
    ensures AllValid(base, head, rows + [row]) <==> AllValid(base, head, rows) && Consistent(base, head, row)
    ensures ItemsFor(head, rows + [row]) == ItemsFor(head, rows) + [ItemFor(head, row)]
  {
    var longer := rows + [row];
    assert longer[|rows|] == row && forall i | 0 <= i < |rows| :: longer[i] == rows[i];
  }

  lemma {:induction false} ValidPrefix(base: Entries, head: Entries, rows: seq<FileRow>, more: seq<FileRow>)
    ensures AllValid(base, head, rows + more) ==> AllValid(base, head, rows)
    ensures DistinctFiles(rows + more) ==> DistinctFiles(rows)
  {
    var longer := rows + more;
    assert forall i | 0 <= i < |rows| :: longer[i] == rows[i];
  }

  /** The variables the page loop updates. */
  class Listing {
    const base: Entries
    const head: Entries
    var files: seq<FileItem>
    var covered: set<bytes>
    var seen: set<bytes>
    ghost var rows: seq<FileRow>

    constructor (base: Entries, head: Entries)
      ensures this.base == base && this.head == head && rows == [] && Valid()
    {
      this.base, this.head := base, head;
      files, covered, seen, rows := [], {}, {}, [];
    }

    ghost predicate Valid()
      reads this
    {
      && AllValid(base, head, rows) && DistinctFiles(rows)
      && files == ItemsFor(head, rows)
      && covered == Covered(rows)
      && seen == PathsOf(rows)
    }

    /** The body of the inner loop. */
    method Add(row: FileRow) returns (ok: bool)
      requires Valid()
      modifies this
      ensures ok ==> Valid() && rows == old(rows) + [row]
      ensures ok <==> AllValid(base, head, old(rows) + [row]) && DistinctFiles(old(rows) + [row])
    {
      ValidStep(base, head, rows, row);
      PathsStep(rows, row);
      CoveredStep(rows, row);
      if row.path in seen {
        return false;
      }
      ok := Consistent(base, head, row);
      if ok {
        seen := seen + {row.path};
        covered := covered + CoveredBy(row);
        files := files + [ItemFor(head, row)];
        rows := rows + [row];
      }
    }

    /** The inner loop over one page. */
    method AddPage(page: seq<FileRow>) returns (ok: bool)
      requires Valid()
      modifies this
      ensures ok ==> Valid() && rows == old(rows) + page
      ensures ok <==> AllValid(base, head, old(rows) + page) && DistinctFiles(old(rows) + page)
    {
      ghost var start := rows;
      assert start + page[..0] == start;
      for i := 0 to |page|
        invariant Valid() && rows == start + page[..i]
      {
        assert start + page[..i + 1] == rows + [page[i]];
        ok := Add(page[i]);
        if !ok {
          assert start + page == start + page[..i + 1] + page[i + 1..];
          ValidPrefix(base, head, start + page[..i + 1], page[i + 1..]);
          return false;
        }
      }
      assert start + page[..|page|] == start + page;
      ok := true;
    }
  }

  /** The page loop with its final checks: `files` once they account for the difference, or an error. */
  method ListPages(base: Entries, head: Entries, declared: nat, pages: Pages) returns (r: Result<seq<FileItem>>)
    ensures r.Ok? <==> Listed(pages, 1, [], declared).Some? && Accounts(base, head, Listed(pages, 1, [], declared).value)
    ensures r.Ok? ==> r.value == ItemsFor(head, Listed(pages, 1, [], declared).value)
  {
    var listing := new Listing(base, head);
    ghost var all := Listed(pages, 1, [], declared);
    var page := 1;
    while page <= MAX_PAGES
      invariant 1 <= page <= MAX_PAGES + 1
      invariant listing.Valid() && listing.base == base && listing.head == head
      invariant Listed(pages, page, listing.rows, declared) == all
    {
      var reply := pages(page);
      if reply.None? || |reply.value| > PER_PAGE || !AllRead(reply.value) {
        return Invalid;
      }
      ghost var more := listing.rows + Values(reply.value);
      var ok := listing.AddPage(Values(reply.value));
      if !ok {
        if all.Some? {
          assert all.value == more + all.value[|more|..];
          ValidPrefix(base, head, more, all.value[|more|..]);
        }
        return Invalid;
      }
      if |listing.files| > declared {
        return Invalid;
      }
      if |listing.files| == declared {
        break;
      }
      if |reply.value| != PER_PAGE {
        return Invalid;
      }
      page := page + 1;
    }
    if |listing.files| != declared || listing.covered != Differences(base, head) {
      return Invalid;
    }
    return Ok(listing.files);
  }

  /** The rows are as many as declared and lie on the pages that may be asked for. */
  ghost predicate OnPages(pages: Pages, declared: nat, rows: seq<FileRow>) {
    |rows| == declared && PageCount(declared) <= 21 && InPages(pages, rows)
  }

  /** The file listing of a snapshot. It succeeds exactly when the pages hold the declared number of rows and these
      account for the difference; the report then rebuilds the new tree and touches exactly the changed paths. */
  method ListFiles(base: Entries, head: Entries, declared: nat, pages: Pages) returns (r: Result<seq<FileItem>>)
    ensures r.Ok? <==> exists rows :: OnPages(pages, declared, rows) && Accounts(base, head, rows)
    ensures forall rows | r.Ok? && OnPages(pages, declared, rows) :: r.value == ItemsFor(head, rows)
    ensures r.Ok? ==> |r.value| == declared && ApplyAll(base, r.value) == head
    ensures r.Ok? ==> forall path :: path in Touched(r.value) <==> Lookup(base, path) != Lookup(head, path)
  {
    ghost var listed := Listed(pages, 1, [], declared);
    r := ListPages(base, head, declared, pages);
    if listed.Some? {
      ListedExactly(pages, declared, listed.value);
    }
    forall rows | OnPages(pages, declared, rows) ensures listed == Some(rows) {
      ListedExactly(pages, declared, rows);
    }
    if r.Ok? {
      AccountedReport(base, head, listed.value);
    }
  }
}

/** Nested Git trees, hashed from the leaves up in the order in which Git stores them, and their flat listings. The
    definitions use neither the sort key nor the tree objects of `GitTree`: a listing reassembles into an id exactly
    when it is the flat listing of a nested tree with that id. */
module NestedTree {
  import opened Ordering
  import opened GitBytes
  import opened GitTree

  /** The members of a folder, one after another. */
  datatype Tree = Empty | More(first: Member, rest: Tree)
  datatype Member = Blob(mode: Mode, name: bytes, id: bytes) | Sub(name: bytes, inside: Tree)

  function Members(t: Tree): seq<Member> {
    if t.Empty? then [] else [t.first] + Members(t.rest)
  }

  /** Git compares the name of a folder as if it ended with a slash. */
  function GitKey(m: Member): bytes {
    match m
    case Blob(_, name, _) => name
    case Sub(name, _) => name + [47]
  }

  predicate FineName(name: bytes) {
    name != [] && 47 !in name && 0 !in name
  }

  /** A tree that Git can store: fine names, all different, in the order of their keys. */
  predicate WellFormed(t: Tree) {
    t.More? ==>
      && MemberFine(t.first) && WellFormed(t.rest)
      && forall m | m in Members(t.rest) :: Before(GitKey(t.first), GitKey(m)) && t.first.name != m.name
  }

  predicate MemberFine(m: Member) {
    FineName(m.name) && match m
                        case Blob(mode, _, id) => !mode.Folder? && |id| == ID_BYTES
                        case Sub(_, inside) => WellFormed(inside)
  }

  // ---------------------------------------------------------------- hashing from the leaves up

  /** How a tree object spells a mode. */
  function Spelling(mode: Mode): string {
    match mode
    case Folder => "40000"
    case File => "100644"
    case Executable => "100755"
    case Symlink => "120000"
    case Gitlink => "160000"
  }

  function ModeOf(m: Member): Mode {
    if m.Sub? then Folder else m.mode
  }

  /** Of each member its mode, a space, its name, NUL and its id. */
  function Stored(hash: bytes -> bytes, t: Tree): bytes
    decreases t, 0
  {
    if t.Empty? then []
    else Utf8(Spelling(ModeOf(t.first))) + [32] + t.first.name + [0] + IdOf(hash, t.first) + Stored(hash, t.rest)
  }

  /** What is hashed for a tree: the word `tree`, a space, the length of what is stored, NUL, and what is stored. */
  function Hashed(hash: bytes -> bytes, t: Tree): bytes
    decreases t, 1
  {
    Utf8("tree ") + Decimal(|Stored(hash, t)|) + [0] + Stored(hash, t)
  }

  function IdOf(hash: bytes -> bytes, m: Member): bytes
    decreases m, 0
  {
    match m
    case Blob(_, _, id) => id
    case Sub(_, inside) => hash(Hashed(hash, inside))
  }

  function TreeId(hash: bytes -> bytes, t: Tree): bytes {
    hash(Hashed(hash, t))
  }

  // ---------------------------------------------------------------- the flat listing

  function PathIn(folder: bytes, name: bytes): bytes {
    if folder == [] then name else folder + [SLASH] + name
  }

  function RowOf(hash: bytes -> bytes, folder: bytes, m: Member): Named {
    Named(PathIn(folder, m.name), Entry(ModeOf(m), IdOf(hash, m)))
  }

  /** Every member with its path, each folder before what it holds. */
  function Flat(hash: bytes -> bytes, folder: bytes, t: Tree): seq<Named>
    decreases t
  {
    if t.Empty? then []
    else [RowOf(hash, folder, t.first)] + FlatInside(hash, folder, t.first) + Flat(hash, folder, t.rest)
  }

  function FlatInside(hash: bytes -> bytes, folder: bytes, m: Member): seq<Named>
    decreases m
  {
    match m
    case Blob(_, _, _) => []
    case Sub(name, inside) => Flat(hash, PathIn(folder, name), inside)
  }

  /** The entries are those of the flat listing. */
  ghost predicate Lists(hash: bytes -> bytes, entries: Entries, t: Tree) {
    && (forall row | row in Flat(hash, [], t) :: Has(entries, row))
    && (forall p | p in entries :: Named(p, entries[p]) in Flat(hash, [], t))
  }

  predicate Has(entries: Entries, row: Named) {
    row.path in entries && entries[row.path] == row.entry
  }

  // ---------------------------------------------------------------- paths

  /** A path is another or leads on from it. */
  predicate Reaches(q: bytes, p: bytes) {
    q == p || q + [SLASH] <= p
  }

  lemma LongerPrefix(x: bytes, y: bytes, p: bytes)
    requires Reaches(x, p) && Reaches(y, p) && |x| < |y|
    ensures y[|x|] == SLASH && y[..|x|] == x
  {
    assert y == p[..|y|];
    assert p[|x|] == (x + [SLASH])[|x|];
    assert x == (x + [SLASH])[..|x|] == p[..|x|];
  }

  lemma NoSlashAfter(folder: bytes, name: bytes, k: nat)
    requires FineName(name) && k < |PathIn(folder, name)| && (folder == [] || |folder| < k)
    ensures PathIn(folder, name)[k] != SLASH
  {
    var start := |PathIn(folder, name)| - |name|;
    assert PathIn(folder, name)[k] == name[k - start];
  }

  lemma NotLonger(folder: bytes, a: bytes, b: bytes, p: bytes)
    requires FineName(a) && FineName(b)
    requires Reaches(PathIn(folder, a), p) && Reaches(PathIn(folder, b), p)
    ensures |PathIn(folder, b)| <= |PathIn(folder, a)|
  {
    var x, y := PathIn(folder, a), PathIn(folder, b);
    if |x| < |y| {
      NoSlashAfter(folder, b, |x|);
      LongerPrefix(x, y, p);
    }
  }

  /** Below one folder a path goes through one name only. */
  lemma Siblings(folder: bytes, a: bytes, b: bytes, p: bytes)
    requires FineName(a) && FineName(b)
    requires Reaches(PathIn(folder, a), p) && Reaches(PathIn(folder, b), p)
    ensures a == b
  {
    var x, y := PathIn(folder, a), PathIn(folder, b);
    NotLonger(folder, a, b, p);
    NotLonger(folder, b, a, p);
    assert x == p[..|x|] == y;
    var start := |x| - |a|;
    assert a == x[start..] && b == y[start..];
  }

  lemma PathCut(folder: bytes, name: bytes)
    requires FineName(name)
    ensures Parent(PathIn(folder, name)) == folder && Name(PathIn(folder, name)) == name
  {
    var path := PathIn(folder, name);
    if folder != [] {
      LastSlashAt(folder, name);
      assert path[..|folder|] == folder && path[|folder| + 1..] == name;
    } else {
      assert LastSlash(name) == -1;
      assert name[0..] == name;
    }
  }

  /** An entry is the member of its folder that its name says. */
  lemma EntryCut(entries: Entries, p: bytes)
    requires AllEncodable(entries) && p in entries
    ensures PathIn(Parent(p), Name(p)) == p && FineName(Name(p))
  {
    assert Encodable(p, entries[p]);
    PathParts(p);
    assert LastSlash(p) < |p| - 1;
    assert forall i | 0 <= i < |Name(p)| :: Name(p)[i] == p[LastSlash(p) + 1 + i];
  }

  // ---------------------------------------------------------------- a folder of a listing holds a tree

  function Paths(folder: bytes, t: Tree): (r: seq<bytes>) {
    if t.Empty? then [] else [PathIn(folder, t.first.name)] + Paths(folder, t.rest)
  }

  /** The entries inside the folder are the members of the tree, and so on below. */
  ghost predicate Nests(hash: bytes -> bytes, entries: Entries, folder: bytes, t: Tree)
    decreases t, 1
  {
    Elements(Paths(folder, t)) == Children(entries, folder) && MembersNest(hash, entries, folder, t)
  }

  ghost predicate MembersNest(hash: bytes -> bytes, entries: Entries, folder: bytes, t: Tree)
    decreases t, 0
  {
    t.More? ==>
      && Has(entries, RowOf(hash, folder, t.first))
      && (t.first.Sub? ==> Nests(hash, entries, PathIn(folder, t.first.name), t.first.inside))
      && MembersNest(hash, entries, folder, t.rest)
  }

  /** The members and the paths inside the folder, side by side. */
  lemma {:induction false} SideBySide(hash: bytes -> bytes, entries: Entries, folder: bytes, t: Tree)
    requires WellFormed(t) && MembersNest(hash, entries, folder, t)
    ensures |Paths(folder, t)| == |Members(t)|
    ensures forall i | 0 <= i < |Members(t)| ::
              && FineName(Members(t)[i].name) && Paths(folder, t)[i] == PathIn(folder, Members(t)[i].name)
              && Paths(folder, t)[i] in entries
              && SortKey(entries)(Paths(folder, t)[i]) == GitKey(Members(t)[i])
  {
    if t.More? {
      FirstBeside(hash, entries, folder, t.first);
      SideBySide(hash, entries, folder, t.rest);
    }
  }

  lemma FirstBeside(hash: bytes -> bytes, entries: Entries, folder: bytes, m: Member)
    requires MemberFine(m) && Has(entries, RowOf(hash, folder, m))
    ensures PathIn(folder, m.name) in entries && SortKey(entries)(PathIn(folder, m.name)) == GitKey(m)
  {
    PathCut(folder, m.name);
    assert m.Blob? ==> m.name + [] == m.name;
  }

  lemma {:induction false} MembersAscend(t: Tree)
    requires WellFormed(t)
    ensures forall i, j | 0 <= i < j < |Members(t)| :: Before(GitKey(Members(t)[i]), GitKey(Members(t)[j]))
  {
    if t.More? {
      MembersAscend(t.rest);
    }
  }

  /** The order of the members is the order in which the entries of the folder are taken. */
  lemma PathsAreOrdered(hash: bytes -> bytes, entries: Entries, folder: bytes, t: Tree)
    requires AllEncodable(entries) && WellFormed(t) && Nests(hash, entries, folder, t)
    ensures Paths(folder, t) == Ordered(entries, folder)
  {
    var key := SortKey(entries);
    SideBySide(hash, entries, folder, t);
    MembersAscend(t);
    SortKeysDiffer(entries, folder);
    SortedByAscending(Children(entries, folder), key);
    AscendingByUnique(Paths(folder, t), Ordered(entries, folder), key);
  }

  // ---------------------------------------------------------------- the bytes agree

  lemma TreeWord()
    ensures Utf8("tree ") == [116, 114, 101, 101, 32]
  {
    assert "tree "[1..] == "ree " && "ree "[1..] == "ee " && "ee "[1..] == "e " && "e "[1..] == " " && " "[1..] == "";
    assert Utf8(" ") == EncodeChar(' ') + Utf8("") == [32];
    assert Utf8("e ") == EncodeChar('e') + Utf8(" ") == [101, 32];
    assert Utf8("ee ") == EncodeChar('e') + Utf8("e ") == [101, 101, 32];
    assert Utf8("ree ") == EncodeChar('r') + Utf8("ee ") == [114, 101, 101, 32];
  }

  lemma {:induction false} Digits(text: string)
    requires forall i | 0 <= i < |text| :: '0' <= text[i] <= '9'
    ensures |Utf8(text)| == |text| && forall i | 0 <= i < |text| :: Utf8(text)[i] == text[i] as int
  {
    if text != "" {
      Digits(text[1..]);
    }
  }

  lemma SpellingBytes(mode: Mode)
    ensures Utf8(Spelling(mode)) == ModeBytes(mode)
  {
    Digits(Spelling(mode));
  }

  lemma StoredStep(item: Item, mode: bytes, more: bytes)
    requires mode == ModeBytes(item.mode)
    ensures ItemBytes(item) + more == mode + [32] + item.name + [0] + item.id + more
  {
    assert [SPACE] == [32] && [NUL] == [0];
    assert mode + [32] + (item.name + [0] + item.id) == mode + [32] + item.name + [0] + item.id;
  }

  lemma StoredFirst(hash: bytes -> bytes, entries: Entries, folder: bytes, t: Tree, path: bytes, more: bytes)
    requires t.More? && MemberFine(t.first) && Has(entries, RowOf(hash, folder, t.first))
    requires path == PathIn(folder, t.first.name) && more == Stored(hash, t.rest)
    ensures ItemBytes(ItemOf(entries, path)) + more == Stored(hash, t)
  {
    PathCut(folder, t.first.name);
    SpellingBytes(ModeOf(t.first));
    StoredStep(ItemOf(entries, path), Utf8(Spelling(ModeOf(t.first))), more);
  }

  lemma {:induction false} StoredIs(hash: bytes -> bytes, entries: Entries, folder: bytes, t: Tree)
    requires WellFormed(t) && MembersNest(hash, entries, folder, t)
    ensures forall i | 0 <= i < |Paths(folder, t)| :: Paths(folder, t)[i] in entries
    ensures Payload(Items(entries, Paths(folder, t))) == Stored(hash, t)
  {
    SideBySide(hash, entries, folder, t);
    if t.More? {
      var paths := Paths(folder, t);
      StoredIs(hash, entries, folder, t.rest);
      assert paths[1..] == Paths(folder, t.rest);
      StoredFirst(hash, entries, folder, t, paths[0], Stored(hash, t.rest));
    }
  }

  /** The object of a folder is what is hashed for the tree that it holds. */
  lemma ObjectIs(hash: bytes -> bytes, entries: Entries, folder: bytes, t: Tree)
    requires AllEncodable(entries) && WellFormed(t) && Nests(hash, entries, folder, t)
    ensures TreeObject(entries, folder) == Hashed(hash, t)
  {
    PathsAreOrdered(hash, entries, folder, t);
    StoredIs(hash, entries, folder, t);
    TreeWord();
    HashedIs(Utf8("tree "), Stored(hash, t));
  }

  lemma HashedIs(word: bytes, stored: bytes)
    requires word == [116, 114, 101, 101, 32]
    ensures ObjectBytes(stored) == word + Decimal(|stored|) + [0] + stored
  {
    Regroup(word, Decimal(|stored|), [0], stored);
  }

  lemma Regroup(a: bytes, b: bytes, c: bytes, d: bytes)
    ensures a + (b + c + d) == a + b + c + d
  {
  }

  /** Below a folder that holds a tree, every folder has its recorded id. */
  lemma {:induction false} NestedIsBound(hash: bytes -> bytes, entries: Entries, folder: bytes, t: Tree)
    requires AllEncodable(entries) && Rooted(entries) && WellFormed(t) && Nests(hash, entries, folder, t)
    ensures BoundBelow(hash, entries, folder)
    decreases t, 1
  {
    MembersAreBound(hash, entries, folder, t);
    BoundByChildren(hash, entries, folder);
  }

  lemma {:induction false} MembersAreBound(hash: bytes -> bytes, entries: Entries, folder: bytes, t: Tree)
    requires AllEncodable(entries) && Rooted(entries) && WellFormed(t) && MembersNest(hash, entries, folder, t)
    ensures forall c | c in Elements(Paths(folder, t)) :: BoundChild(hash, entries, c)
    decreases t, 0
  {
    if t.More? {
      MembersAreBound(hash, entries, folder, t.rest);
      var q := PathIn(folder, t.first.name);
      if t.first.Sub? {
        NestedIsBound(hash, entries, q, t.first.inside);
        ObjectIs(hash, entries, q, t.first.inside);
      }
      assert BoundChild(hash, entries, q);
    }
  }

  // ---------------------------------------------------------------- from a tree to its listing

  lemma Through(q: bytes, name: bytes, p: bytes)
    requires q != [] && Reaches(PathIn(q, name), p)
    ensures q + [SLASH] <= p
  {
    assert q + [SLASH] <= PathIn(q, name) <= p;
  }

  /** Every row of the listing belongs to a member. */
  lemma {:induction false} RowBelongs(hash: bytes -> bytes, folder: bytes, t: Tree, row: Named)
    requires WellFormed(t) && row in Flat(hash, folder, t)
    ensures exists m | m in Members(t) :: Reaches(PathIn(folder, m.name), row.path)
    decreases t
  {
    if row in Flat(hash, folder, t.rest) {
      RowBelongs(hash, folder, t.rest, row);
      var m :| m in Members(t.rest) && Reaches(PathIn(folder, m.name), row.path);
      assert m in Members(t);
    } else {
      assert t.first in Members(t);
      if row in FlatInside(hash, folder, t.first) {
        var q := PathIn(folder, t.first.name);
        RowBelongs(hash, q, t.first.inside, row);
        var m :| m in Members(t.first.inside) && Reaches(PathIn(q, m.name), row.path);
        Through(q, m.name, row.path);
      }
    }
  }

  lemma {:induction false} MembersFine(t: Tree)
    requires WellFormed(t)
    ensures forall m | m in Members(t) :: FineName(m.name)
  {
    if t.More? {
      MembersFine(t.rest);
    }
  }

  /** What a row below the first member cannot be. */
  lemma NotInRest(hash: bytes -> bytes, folder: bytes, t: Tree, row: Named)
    requires WellFormed(t) && t.More? && Reaches(PathIn(folder, t.first.name), row.path)
    ensures row !in Flat(hash, folder, t.rest)
  {
    if row in Flat(hash, folder, t.rest) {
      RowBelongs(hash, folder, t.rest, row);
      var m :| m in Members(t.rest) && Reaches(PathIn(folder, m.name), row.path);
      MembersFine(t.rest);
      Siblings(folder, t.first.name, m.name, row.path);
    }
  }

  ghost predicate AllHad(entries: Entries, rows: seq<Named>) {
    forall row | row in rows :: Has(entries, row)
  }

  /** Every entry below the folder is among the rows. */
  ghost predicate AllListed(entries: Entries, folder: bytes, rows: seq<Named>) {
    forall p | p in entries && Under(folder, p) :: Named(p, entries[p]) in rows
  }

  /** Every entry that a member of the tree leads to is in its listing. */
  ghost predicate Covers(hash: bytes -> bytes, entries: Entries, folder: bytes, t: Tree) {
    forall m, p | m in Members(t) && p in entries && Reaches(PathIn(folder, m.name), p) ::
      Named(p, entries[p]) in Flat(hash, folder, t)
  }

  lemma CoversRest(hash: bytes -> bytes, entries: Entries, folder: bytes, t: Tree)
    requires t.More? && WellFormed(t) && Covers(hash, entries, folder, t)
    ensures Covers(hash, entries, folder, t.rest)
  {
    MembersFine(t.rest);
    forall m, p | m in Members(t.rest) && p in entries && Reaches(PathIn(folder, m.name), p)
      ensures Named(p, entries[p]) in Flat(hash, folder, t.rest)
    {
      var row := Named(p, entries[p]);
      assert m in Members(t) && row in Flat(hash, folder, t);
      if Reaches(PathIn(folder, t.first.name), p) {
        Siblings(folder, t.first.name, m.name, p);
      }
      if row in FlatInside(hash, folder, t.first) {
        InsideReached(hash, folder, t.first, row);
      }
    }
  }

  lemma InsideReached(hash: bytes -> bytes, folder: bytes, m: Member, row: Named)
    requires MemberFine(m) && row in FlatInside(hash, folder, m)
    ensures PathIn(folder, m.name) + [SLASH] <= row.path
  {
    var q := PathIn(folder, m.name);
    RowBelongs(hash, q, m.inside, row);
    var k :| k in Members(m.inside) && Reaches(PathIn(q, k.name), row.path);
    Through(q, k.name, row.path);
  }

  /** A listing of the first member's tree covers what lies below it. */
  lemma CoversInside(hash: bytes -> bytes, entries: Entries, folder: bytes, t: Tree, p: bytes)
    requires t.More? && WellFormed(t) && Covers(hash, entries, folder, t)
    requires p in entries && PathIn(folder, t.first.name) + [SLASH] <= p
    ensures Named(p, entries[p]) in FlatInside(hash, folder, t.first)
  {
    assert t.first in Members(t) && Reaches(PathIn(folder, t.first.name), p);
    NotInRest(hash, folder, t, Named(p, entries[p]));
  }

  lemma AllInside(hash: bytes -> bytes, entries: Entries, folder: bytes, t: Tree)
    requires t.More? && t.first.Sub? && WellFormed(t)
    requires AllHad(entries, Flat(hash, folder, t)) && Covers(hash, entries, folder, t)
    ensures var q := PathIn(folder, t.first.name);
            && AllHad(entries, Flat(hash, q, t.first.inside))
            && AllListed(entries, q, Flat(hash, q, t.first.inside))
  {
    var q := PathIn(folder, t.first.name);
    forall row | row in FlatInside(hash, folder, t.first) ensures Has(entries, row) {
      assert row in Flat(hash, folder, t);
    }
    forall p | p in entries && Under(q, p) ensures Named(p, entries[p]) in FlatInside(hash, folder, t.first) {
      CoversInside(hash, entries, folder, t, p);
    }
  }

  lemma RestHad(hash: bytes -> bytes, entries: Entries, folder: bytes, t: Tree)
    requires t.More? && AllHad(entries, Flat(hash, folder, t))
    ensures Has(entries, RowOf(hash, folder, t.first)) && AllHad(entries, Flat(hash, folder, t.rest))
  {
    assert RowOf(hash, folder, t.first) in Flat(hash, folder, t);
    forall row | row in Flat(hash, folder, t.rest) ensures Has(entries, row) {
      assert row in Flat(hash, folder, t);
    }
  }

  lemma {:induction false} FlatMembersNest(hash: bytes -> bytes, entries: Entries, folder: bytes, t: Tree)
    requires AllEncodable(entries) && WellFormed(t)
    requires AllHad(entries, Flat(hash, folder, t)) && Covers(hash, entries, folder, t)
    ensures MembersNest(hash, entries, folder, t)
    decreases t, 0
  {
    if t.More? {
      var q := PathIn(folder, t.first.name);
      RestHad(hash, entries, folder, t);
      if t.first.Sub? {
        AllInside(hash, entries, folder, t);
        FlatNests(hash, entries, q, t.first.inside);
      }
      CoversRest(hash, entries, folder, t);
      FlatMembersNest(hash, entries, folder, t.rest);
    }
  }

  lemma {:induction false} PathsInFlat(hash: bytes -> bytes, folder: bytes, t: Tree, q: bytes)
    requires WellFormed(t) && q in Paths(folder, t)
    ensures Parent(q) == folder && exists row | row in Flat(hash, folder, t) :: row.path == q
  {
    if q in Paths(folder, t.rest) {
      PathsInFlat(hash, folder, t.rest, q);
      var row :| row in Flat(hash, folder, t.rest) && row.path == q;
      assert row in Flat(hash, folder, t);
    } else {
      PathCut(folder, t.first.name);
      assert RowOf(hash, folder, t.first) in Flat(hash, folder, t);
    }
  }

  lemma {:induction false} MemberPath(folder: bytes, t: Tree, m: Member)
    requires m in Members(t)
    ensures PathIn(folder, m.name) in Paths(folder, t)
  {
    if m != t.first {
      MemberPath(folder, t.rest, m);
    }
  }

  lemma ChildrenArePaths(hash: bytes -> bytes, entries: Entries, folder: bytes, t: Tree)
    requires AllEncodable(entries) && WellFormed(t) && AllHad(entries, Flat(hash, folder, t))
    requires AllListed(entries, folder, Flat(hash, folder, t))
    ensures Elements(Paths(folder, t)) == Children(entries, folder)
  {
    forall p | p in Children(entries, folder) ensures p in Paths(folder, t) {
      ChildBelow(entries, p);
      RowBelongs(hash, folder, t, Named(p, entries[p]));
      var m :| m in Members(t) && Reaches(PathIn(folder, m.name), p);
      EntryCut(entries, p);
      MembersFine(t);
      Siblings(folder, m.name, Name(p), p);
      MemberPath(folder, t, m);
    }
    forall q | q in Paths(folder, t) ensures q in Children(entries, folder) {
      PathsInFlat(hash, folder, t, q);
      var row :| row in Flat(hash, folder, t) && row.path == q;
      assert Has(entries, row);
    }
  }

  lemma {:induction false} FlatNests(hash: bytes -> bytes, entries: Entries, folder: bytes, t: Tree)
    requires AllEncodable(entries) && WellFormed(t) && AllHad(entries, Flat(hash, folder, t))
    requires AllListed(entries, folder, Flat(hash, folder, t))
    ensures Nests(hash, entries, folder, t)
    decreases t, 1
  {
    ChildrenArePaths(hash, entries, folder, t);
    forall m, p | m in Members(t) && p in entries && Reaches(PathIn(folder, m.name), p)
      ensures Named(p, entries[p]) in Flat(hash, folder, t)
    {
      assert Encodable(p, entries[p]);
      assert folder != [] ==> folder + [SLASH] <= PathIn(folder, m.name) <= p;
    }
    FlatMembersNest(hash, entries, folder, t);
  }

  /** A row of the listing lies in the folder or in a folder that is a row. */
  lemma {:induction false} FlatRooted(hash: bytes -> bytes, folder: bytes, t: Tree, row: Named)
    requires WellFormed(t) && row in Flat(hash, folder, t)
    ensures Parent(row.path) == folder
            || exists f | f in Flat(hash, folder, t) :: f.path == Parent(row.path) && f.entry.mode == Folder
    decreases t
  {
    if row in Flat(hash, folder, t.rest) {
      FlatRooted(hash, folder, t.rest, row);
      if Parent(row.path) != folder {
        var f :| f in Flat(hash, folder, t.rest) && f.path == Parent(row.path) && f.entry.mode == Folder;
        assert f in Flat(hash, folder, t);
      }
    } else if row in FlatInside(hash, folder, t.first) {
      var q := PathIn(folder, t.first.name);
      FlatRooted(hash, q, t.first.inside, row);
      if Parent(row.path) == q {
        var f := RowOf(hash, folder, t.first);
        assert f in Flat(hash, folder, t) && f.path == q && f.entry.mode == Folder;
      } else {
        var f :| f in Flat(hash, q, t.first.inside) && f.path == Parent(row.path) && f.entry.mode == Folder;
        assert f in Flat(hash, folder, t);
      }
    } else {
      PathCut(folder, t.first.name);
    }
  }

  lemma ListedIsRooted(hash: bytes -> bytes, entries: Entries, t: Tree)
    requires WellFormed(t) && Lists(hash, entries, t)
    ensures Rooted(entries)
  {
    forall p | p in entries ensures HasFolder(entries, p) {
      FlatRooted(hash, [], t, Named(p, entries[p]));
      if Parent(p) != [] {
        var f :| f in Flat(hash, [], t) && f.path == Parent(p) && f.entry.mode == Folder;
        assert Has(entries, f);
      }
    }
  }

  /** The flat listing of a nested tree reassembles into its id. */
  lemma ListingReassembles(hash: bytes -> bytes, entries: Entries, t: Tree)
    requires AllEncodable(entries) && WellFormed(t) && Lists(hash, entries, t)
    ensures Reassembles(hash, entries, TreeId(hash, t))
  {
    ListedIsRooted(hash, entries, t);
    FlatNests(hash, entries, [], t);
    NestedIsBound(hash, entries, [], t);
    ObjectIs(hash, entries, [], t);
    RootBound(hash, entries, TreeId(hash, t));
  }

  /** No path is listed twice, and every row can be put in a tree object where ids have their full length. */
  lemma {:induction false} FlatDistinct(hash: bytes -> bytes, folder: bytes, t: Tree)
    requires WellFormed(t)
    ensures DistinctPaths(Flat(hash, folder, t))
    decreases t
  {
    if t.More? {
      var head, inside, rest :=
        RowOf(hash, folder, t.first), FlatInside(hash, folder, t.first), Flat(hash, folder, t.rest);
      if t.first.Sub? {
        FlatDistinct(hash, PathIn(folder, t.first.name), t.first.inside);
      }
      FlatDistinct(hash, folder, t.rest);
      forall row | row in inside ensures |head.path| < |row.path| {
        InsideReached(hash, folder, t.first, row);
      }
      forall a, b | (a == head || a in inside) && b in rest ensures a.path != b.path {
        if a != head {
          InsideReached(hash, folder, t.first, a);
        }
        if a.path == b.path {
          NotInRest(hash, folder, t, b);
        }
      }
      DistinctThree(head, inside, rest);
    }
  }

  lemma DistinctThree(head: Named, inside: seq<Named>, rest: seq<Named>)
    requires DistinctPaths(inside) && DistinctPaths(rest)
    requires forall row | row in inside :: |head.path| < |row.path|
    requires forall a, b | (a == head || a in inside) && b in rest :: a.path != b.path
    ensures DistinctPaths([head] + inside + rest)
  {
    var all, n := [head] + inside + rest, 1 + |inside|;
    forall i, j | 0 <= i < j < |all| ensures all[i].path != all[j].path {
      assert i < n ==> all[i] == head || all[i] in inside;
      assert 0 < j < n ==> all[j] in inside;
      assert j >= n ==> all[j] in rest;
    }
  }

  predicate Relative(path: bytes) {
    path != [] && path[0] != SLASH && path[|path| - 1] != SLASH && NUL !in path
  }

  lemma RelativeIn(folder: bytes, name: bytes)
    requires (folder == [] || Relative(folder)) && FineName(name)
    ensures Relative(PathIn(folder, name))
  {
    var path := PathIn(folder, name);
    assert path[|path| - 1] == name[|name| - 1];
    assert path[0] == if folder == [] then name[0] else folder[0];
  }

  lemma {:induction false} FlatEncodable(hash: bytes -> bytes, folder: bytes, t: Tree, row: Named)
    requires WellFormed(t) && (folder == [] || Relative(folder)) && (forall x :: |hash(x)| == ID_BYTES)
    requires row in Flat(hash, folder, t)
    ensures Encodable(row.path, row.entry)
    decreases t
  {
    RelativeIn(folder, t.first.name);
    if row in Flat(hash, folder, t.rest) {
      FlatEncodable(hash, folder, t.rest, row);
    } else if row in FlatInside(hash, folder, t.first) {
      FlatEncodable(hash, PathIn(folder, t.first.name), t.first.inside, row);
    }
  }

  // ---------------------------------------------------------------- from a listing to its tree

  /** The tree that a folder holds, where everything below it has its recorded id. */
  lemma {:induction false} Nest(hash: bytes -> bytes, entries: Entries, folder: bytes) returns (t: Tree)
    requires AllEncodable(entries) && Rooted(entries) && BoundBelow(hash, entries, folder)
    ensures WellFormed(t) && Nests(hash, entries, folder, t)
    decreases Below(entries, folder), 1
  {
    SortKeysDiffer(entries, folder);
    SortedByAscending(Children(entries, folder), SortKey(entries));
    BoundByChildren(hash, entries, folder);
    var paths := Ordered(entries, folder);
    assert forall p | p in paths :: p in Elements(paths);
    assert AllTakeable(hash, entries, folder, paths);
    t := NestFrom(hash, entries, folder, paths);
  }

  ghost predicate AllTakeable(hash: bytes -> bytes, entries: Entries, folder: bytes, paths: seq<bytes>)
    requires AllEncodable(entries)
  {
    forall p | p in paths :: p in Children(entries, folder) && BoundChild(hash, entries, p)
  }

  lemma TakeableRest(hash: bytes -> bytes, entries: Entries, folder: bytes, paths: seq<bytes>)
    requires AllEncodable(entries) && paths != [] && AllTakeable(hash, entries, folder, paths)
    requires AscendingBy(paths, SortKey(entries))
    ensures paths[0] in Children(entries, folder) && BoundChild(hash, entries, paths[0])
    ensures AllTakeable(hash, entries, folder, paths[1..]) && AscendingBy(paths[1..], SortKey(entries))
  {
    assert paths[0] in paths;
    assert forall p | p in paths[1..] :: p in paths;
  }

  lemma {:induction false} NestFrom(hash: bytes -> bytes, entries: Entries, folder: bytes, paths: seq<bytes>)
    returns (t: Tree)
    requires AllEncodable(entries) && Rooted(entries) && AscendingBy(paths, SortKey(entries))
    requires AllTakeable(hash, entries, folder, paths)
    ensures WellFormed(t) && Paths(folder, t) == paths && MembersNest(hash, entries, folder, t)
    decreases Below(entries, folder), 0, |paths|
  {
    if paths == [] {
      t := Empty;
    } else {
      TakeableRest(hash, entries, folder, paths);
      var rest := NestFrom(hash, entries, folder, paths[1..]);
      var m := NestMember(hash, entries, folder, paths[0]);
      KeysFollow(hash, entries, folder, paths, m, rest);
      t := More(m, rest);
      assert paths == [paths[0]] + paths[1..];
    }
  }

  lemma NestMember(hash: bytes -> bytes, entries: Entries, folder: bytes, p: bytes) returns (m: Member)
    requires AllEncodable(entries) && Rooted(entries) && p in Children(entries, folder) && BoundChild(hash, entries, p)
    ensures MemberFine(m) && RowOf(hash, folder, m) == Named(p, entries[p])
    ensures m.Sub? ==> Nests(hash, entries, p, m.inside)
    ensures SortKey(entries)(p) == GitKey(m)
    decreases Below(entries, folder), 0, 0
  {
    EntryCut(entries, p);
    assert Encodable(p, entries[p]);
    if IsTree(entries, p) {
      ChildBelow(entries, p);
      var inside := Nest(hash, entries, p);
      ObjectIs(hash, entries, p, inside);
      m := Sub(Name(p), inside);
    } else {
      m := Blob(entries[p].mode, Name(p), entries[p].id);
      assert Name(p) + [] == Name(p);
    }
  }

  lemma KeysFollow(
      hash: bytes -> bytes, entries: Entries, folder: bytes, paths: seq<bytes>, m: Member, rest: Tree)
    requires paths != [] && AscendingBy(paths, SortKey(entries)) && MemberFine(m)
    requires WellFormed(rest) && MembersNest(hash, entries, folder, rest) && Paths(folder, rest) == paths[1..]
    requires paths[0] == PathIn(folder, m.name) && SortKey(entries)(paths[0]) == GitKey(m)
    ensures forall k | k in Members(rest) :: Before(GitKey(m), GitKey(k)) && m.name != k.name
  {
    var key := SortKey(entries);
    SideBySide(hash, entries, folder, rest);
    forall k | k in Members(rest) ensures Before(GitKey(m), GitKey(k)) && m.name != k.name {
      var i :| 0 <= i < |Members(rest)| && Members(rest)[i] == k;
      assert Paths(folder, rest)[i] == paths[i + 1];
      assert Before(key(paths[0]), key(paths[i + 1]));
      BeforeIrreflexive(key(paths[0]));
    }
  }

  /** Where a folder holds a tree, the listing of the tree consists of entries. */
  lemma {:induction false} NestsHas(hash: bytes -> bytes, entries: Entries, folder: bytes, t: Tree)
    requires MembersNest(hash, entries, folder, t)
    ensures AllHad(entries, Flat(hash, folder, t))
    decreases t
  {
    if t.More? {
      if t.first.Sub? {
        NestsHas(hash, entries, PathIn(folder, t.first.name), t.first.inside);
      }
      NestsHas(hash, entries, folder, t.rest);
    }
  }

  /** And every entry below the folder is in the listing. */
  lemma {:induction false} NestsListed(hash: bytes -> bytes, entries: Entries, folder: bytes, t: Tree, p: bytes)
    requires AllEncodable(entries) && Rooted(entries) && WellFormed(t) && Nests(hash, entries, folder, t)
    requires p in entries && Under(folder, p)
    ensures Named(p, entries[p]) in Flat(hash, folder, t)
    decreases t, 1
  {
    var c := BelowChild(entries, folder, p);
    assert c in Elements(Paths(folder, t));
    MemberListed(hash, entries, folder, t, c, p);
  }

  lemma {:induction false} MemberListed(
      hash: bytes -> bytes, entries: Entries, folder: bytes, t: Tree, c: bytes, p: bytes)
    requires AllEncodable(entries) && Rooted(entries) && WellFormed(t)
    requires MembersNest(hash, entries, folder, t) && c in Paths(folder, t)
    requires p in entries && (p == c || (IsTree(entries, c) && Under(c, p)))
    ensures Named(p, entries[p]) in Flat(hash, folder, t)
    decreases t, 0
  {
    if c == PathIn(folder, t.first.name) {
      assert Has(entries, RowOf(hash, folder, t.first));
      if p != c {
        assert t.first.Sub?;
        NestsListed(hash, entries, c, t.first.inside, p);
      }
    } else {
      MemberListed(hash, entries, folder, t.rest, c, p);
    }
  }

  /** A listing reassembles into an id exactly when it is the flat listing of a nested tree with that id. */
  lemma ReassemblesExactly(hash: bytes -> bytes, entries: Entries, root: bytes)
    requires AllEncodable(entries)
    ensures Reassembles(hash, entries, root) <==>
            exists t :: WellFormed(t) && Lists(hash, entries, t) && TreeId(hash, t) == root
  {
    if Reassembles(hash, entries, root) {
      RootBound(hash, entries, root);
      var t := Nest(hash, entries, []);
      ObjectIs(hash, entries, [], t);
      NestsHas(hash, entries, [], t);
      forall p | p in entries ensures Named(p, entries[p]) in Flat(hash, [], t) {
        assert Encodable(p, entries[p]);
        NestsListed(hash, entries, [], t, p);
      }
      assert Lists(hash, entries, t);
    }
    if t :| WellFormed(t) && Lists(hash, entries, t) && TreeId(hash, t) == root {
      ListingReassembles(hash, entries, t);
    }
  }
}

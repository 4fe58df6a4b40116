/** Git tree objects over byte strings, and listings that reassemble into them. Paths and names are UTF-8
    bytes and ids are twenty bytes, as inside Git; `GitListing` reads them from text. */
module GitTree {
  import opened Ordering
  import opened GitBytes

  type bytes = seq<byte>

  const SLASH: byte := 47
  const SPACE: byte := 32
  const NUL: byte := 0
  const ID_BYTES := 20

  /** The five modes a listing may use. */
  datatype Mode = Folder | File | Executable | Symlink | Gitlink

  /** The octal mode without leading zeros, as a tree object spells it. */
  function ModeBytes(mode: Mode): bytes {
    match mode
    case Folder => [52, 48, 48, 48, 48]
    case File => [49, 48, 48, 54, 52, 52]
    case Executable => [49, 48, 48, 55, 53, 53]
    case Symlink => [49, 50, 48, 48, 48, 48]
    case Gitlink => [49, 54, 48, 48, 48, 48]
  }

  /** What is kept of a row. The object type is the one its mode implies. */
  datatype Entry = Entry(mode: Mode, id: bytes)

  type Entries = map<bytes, Entry>

  /** An entry with its path: a row as read. */
  datatype Named = Named(path: bytes, entry: Entry)

  predicate DistinctPaths(rows: seq<Named>) {
    forall i, j | 0 <= i < j < |rows| :: rows[i].path != rows[j].path
  }

  // ---------------------------------------------------------------- paths

  /** Where `rpartition('/')` cuts, or -1. */
  function LastSlash(path: bytes): (k: int)
    ensures -1 <= k < |path| && SLASH !in path[k + 1..] && (k >= 0 ==> path[k] == SLASH)
  {
    if path == [] then -1
    else if path[|path| - 1] == SLASH then |path| - 1
    else LastSlash(path[..|path| - 1])
  }

  function Parent(path: bytes): bytes {
    if LastSlash(path) < 0 then [] else path[..LastSlash(path)]
  }

  function Name(path: bytes): (name: bytes)
    ensures SLASH !in name
  {
    path[LastSlash(path) + 1..]
  }

  /** What the encoding relies on: a relative path without NUL that does not end with a slash, and an id of full
      length. */
  predicate Encodable(path: bytes, entry: Entry) {
    path != [] && path[0] != SLASH && path[|path| - 1] != SLASH && NUL !in path && |entry.id| == ID_BYTES
  }

  lemma PathParts(path: bytes)
    requires path != [] && path[0] != SLASH
    ensures path == if Parent(path) == [] then Name(path) else Parent(path) + [SLASH] + Name(path)
  {
    var k := LastSlash(path);
    if k >= 0 {
      assert path == path[..k] + [path[k]] + path[k + 1..];
    }
  }

  lemma {:induction false} LastSlashAt(a: bytes, b: bytes)
    requires SLASH !in b
    ensures LastSlash(a + [SLASH] + b) == |a|
  {
    if b == [] {
      assert a + [SLASH] + b == a + [SLASH];
    } else {
      var n := |b| - 1;
      LastSlashAt(a, b[..n]);
      assert (a + [SLASH] + b)[..|a| + 1 + n] == a + [SLASH] + b[..n];
    }
  }

  /** Inside one folder a name identifies the path. */
  lemma SameParentAndName(p: bytes, q: bytes)
    requires p != [] && p[0] != SLASH && q != [] && q[0] != SLASH
    requires Parent(p) == Parent(q) && Name(p) == Name(q)
    ensures p == q
  {
    PathParts(p);
    PathParts(q);
  }

  // ---------------------------------------------------------------- entries

  predicate AllEncodable(entries: Entries) {
    forall p | p in entries :: Encodable(p, entries[p])
  }

  predicate IsTree(entries: Entries, path: bytes) {
    path in entries && entries[path].mode.Folder?
  }

  predicate IsFolder(entries: Entries, folder: bytes) {
    folder == [] || IsTree(entries, folder)
  }

  predicate HasFolder(entries: Entries, path: bytes) {
    IsFolder(entries, Parent(path))
  }

  /** Every entry lies in the root or in a listed folder. The trigger keeps the solver from climbing the folders of
      folders. */
  predicate Rooted(entries: Entries) {
    forall p {:trigger HasFolder(entries, p)} | p in entries :: HasFolder(entries, p)
  }

  function Children(entries: Entries, folder: bytes): set<bytes> {
    ChildrenBy(entries.Keys, Parent, folder)
  }

  function ChildrenBy(paths: set<bytes>, parent: bytes -> bytes, folder: bytes): set<bytes> {
    set p | p in paths && parent(p) == folder
  }

  // ---------------------------------------------------------------- Git's order

  /** Names as bytes, with a slash after the name of a folder. */
  function SortKey(entries: Entries): bytes -> seq<int> {
    p => Name(p) + (if IsTree(entries, p) then [SLASH] else [])
  }

  lemma SlashSuffix(a: bytes, b: bytes, x: bool, y: bool)
    requires SLASH !in a && SLASH !in b
    ensures a + (if x then [SLASH] else []) == b + (if y then [SLASH] else []) ==> a == b
  {
    var left, right := a + (if x then [SLASH] else []), b + (if y then [SLASH] else []);
    if |a| < |b| {
      assert right[|a|] == b[|a|];
      assert x ==> left[|a|] == SLASH;
    } else if |b| < |a| {
      assert left[|b|] == a[|b|];
      assert y ==> right[|b|] == SLASH;
    } else {
      assert a == left[..|a|] && b == right[..|b|];
    }
  }

  /** The sort key is strict: within one folder no two entries share it. */
  lemma SortKeysDiffer(entries: Entries, folder: bytes)
    requires AllEncodable(entries)
    ensures KeysDiffer(Children(entries, folder), SortKey(entries))
  {
    var key := SortKey(entries);
    forall p, q | p in Children(entries, folder) && q in Children(entries, folder) && key(p) == key(q) ensures p == q {
      assert Encodable(p, entries[p]) && Encodable(q, entries[q]);
      SlashSuffix(Name(p), Name(q), IsTree(entries, p), IsTree(entries, q));
      SameParentAndName(p, q);
    }
  }

  lemma ElementsAre(paths: seq<bytes>, all: set<bytes>)
    requires Elements(paths) == all
    ensures forall i | 0 <= i < |paths| :: paths[i] in all
  {
    assert forall i | 0 <= i < |paths| :: paths[i] in Elements(paths);
  }

  /** The paths inside a folder in Git's order. */
  function Ordered(entries: Entries, folder: bytes): (paths: seq<bytes>)
    requires AllEncodable(entries)
    ensures Elements(paths) == Children(entries, folder)
    ensures forall i | 0 <= i < |paths| :: paths[i] in entries && Parent(paths[i]) == folder
  {
    SortKeysDiffer(entries, folder);
    var paths := SortedBy(Children(entries, folder), SortKey(entries));
    ElementsAre(paths, Children(entries, folder));
    paths
  }

  // ---------------------------------------------------------------- tree objects

  datatype Item = Item(mode: Mode, name: bytes, id: bytes)

  predicate ValidItem(item: Item) {
    |item.id| == ID_BYTES && NUL !in item.name
  }

  /** Mode, space, name, NUL, id. */
  function ItemBytes(item: Item): bytes {
    ModeBytes(item.mode) + [SPACE] + (item.name + [NUL] + item.id)
  }

  function Payload(items: seq<Item>): bytes {
    if items == [] then [] else ItemBytes(items[0]) + Payload(items[1..])
  }

  /** The bytes Git hashes: the word `tree`, the length in decimal, NUL, the payload. */
  function ObjectBytes(payload: bytes): bytes {
    [116, 114, 101, 101, SPACE] + (Decimal(|payload|) + [NUL] + payload)
  }

  function ItemOf(entries: Entries, path: bytes): (item: Item)
    requires path in entries
  {
    Item(entries[path].mode, Name(path), entries[path].id)
  }

  function Items(entries: Entries, paths: seq<bytes>): (r: seq<Item>)
    requires forall i | 0 <= i < |paths| :: paths[i] in entries
    ensures |r| == |paths| && forall i | 0 <= i < |paths| :: r[i] == ItemOf(entries, paths[i])
  {
    if paths == [] then [] else [ItemOf(entries, paths[0])] + Items(entries, paths[1..])
  }

  lemma ItemsValid(entries: Entries, paths: seq<bytes>)
    requires AllEncodable(entries) && forall i | 0 <= i < |paths| :: paths[i] in entries
    ensures forall i | 0 <= i < |paths| :: ValidItem(Items(entries, paths)[i])
  {
    forall i | 0 <= i < |paths| ensures ValidItem(Items(entries, paths)[i]) {
      assert Encodable(paths[i], entries[paths[i]]);
    }
  }

  /** The Git tree object of one folder. */
  function TreeObject(entries: Entries, folder: bytes): bytes
    requires AllEncodable(entries)
  {
    ObjectBytes(Payload(Items(entries, Ordered(entries, folder))))
  }

  // ---------------------------------------------------------------- unique decoding

  lemma ModesUnique(a: Mode, b: Mode)
    ensures ModeBytes(a) == ModeBytes(b) ==> a == b
    ensures SPACE !in ModeBytes(a)
  {
    var x, y := ModeBytes(a), ModeBytes(b);
    assert x == y ==> x[0] == y[0] && x[1] == y[1] && x[3] == y[3];
  }

  lemma ItemThen(item: Item, rest: bytes)
    ensures ItemBytes(item) + rest == ModeBytes(item.mode) + [SPACE] + (item.name + [NUL] + (item.id + rest))
  {
    var m, n, i := ModeBytes(item.mode), item.name, item.id;
    assert m + [SPACE] + (n + [NUL] + i) + rest == m + [SPACE] + (n + [NUL] + (i + rest));
  }

  /** One entry is recognised at the front of any payload. */
  lemma ItemUnique(a: Item, b: Item, x: bytes, y: bytes)
    requires ValidItem(a) && ValidItem(b) && ItemBytes(a) + x == ItemBytes(b) + y
    ensures a == b && x == y
  {
    ItemThen(a, x);
    ItemThen(b, y);
    ModesUnique(a.mode, b.mode);
    ModesUnique(b.mode, a.mode);
    FieldUnique(ModeBytes(a.mode), ModeBytes(b.mode), SPACE, a.name + [NUL] + (a.id + x), b.name + [NUL] + (b.id + y));
    FieldUnique(a.name, b.name, NUL, a.id + x, b.id + y);
    assert a.id == (a.id + x)[..ID_BYTES] && b.id == (b.id + y)[..ID_BYTES];
    assert x == (a.id + x)[ID_BYTES..] && y == (b.id + y)[ID_BYTES..];
  }

  lemma {:induction false} PayloadUnique(a: seq<Item>, b: seq<Item>)
    requires forall i | 0 <= i < |a| :: ValidItem(a[i])
    requires forall i | 0 <= i < |b| :: ValidItem(b[i])
    requires Payload(a) == Payload(b)
    ensures a == b
  {
    if a != [] && b != [] {
      ItemUnique(a[0], b[0], Payload(a[1..]), Payload(b[1..]));
      PayloadUnique(a[1..], b[1..]);
      assert a == [a[0]] + a[1..] == [b[0]] + b[1..];
    }
  }

  lemma ObjectUnique(a: bytes, b: bytes)
    requires ObjectBytes(a) == ObjectBytes(b)
    ensures a == b
  {
    assert Decimal(|a|) + [NUL] + a == ObjectBytes(a)[5..] == ObjectBytes(b)[5..] == Decimal(|b|) + [NUL] + b;
    FieldUnique(Decimal(|a|), Decimal(|b|), NUL, a, b);
  }

  /** A tree object determines the whole listing of its folder. */
  lemma TreeObjectUnique(one: Entries, two: Entries, folder: bytes)
    requires AllEncodable(one) && AllEncodable(two)
    requires TreeObject(one, folder) == TreeObject(two, folder)
    ensures Items(one, Ordered(one, folder)) == Items(two, Ordered(two, folder))
  {
    var a, b := Items(one, Ordered(one, folder)), Items(two, Ordered(two, folder));
    ItemsValid(one, Ordered(one, folder));
    ItemsValid(two, Ordered(two, folder));
    ObjectUnique(Payload(a), Payload(b));
    PayloadUnique(a, b);
  }

  // ---------------------------------------------------------------- binding

  function Folders(entries: Entries): set<bytes> {
    {[]} + set f | f in entries && entries[f].mode.Folder?
  }

  /** The tree object of every folder. */
  function Objects(entries: Entries): (r: map<bytes, bytes>)
    requires AllEncodable(entries)
    ensures r.Keys == Folders(entries)
  {
    map f | f in Folders(entries) :: TreeObject(entries, f)
  }

  /** The objects have their recorded ids. */
  ghost predicate Identified(hash: bytes -> bytes, entries: Entries, objects: map<bytes, bytes>, root: bytes) {
    && objects.Keys == Folders(entries)
    && hash(objects[[]]) == root
    && forall f | IsTree(entries, f) :: hash(objects[f]) == entries[f].id
  }

  /** The entries are those of the Git tree with id `root`: all of them lie in listed folders, and their tree
      objects have the recorded ids. */
  ghost predicate Reassembles(hash: bytes -> bytes, entries: Entries, root: bytes)
    requires AllEncodable(entries)
  {
    Rooted(entries) && Identified(hash, entries, Objects(entries), root)
  }

  /** Two different tree objects of one folder with one id: a hash collision that can be exhibited. */
  ghost predicate CollideAt(hash: bytes -> bytes, a: map<bytes, bytes>, b: map<bytes, bytes>, folder: bytes) {
    folder in a && folder in b && a[folder] != b[folder] && hash(a[folder]) == hash(b[folder])
  }

  lemma SameItem(one: Entries, two: Entries, p: bytes, q: bytes)
    requires AllEncodable(one) && AllEncodable(two) && p in one && q in two && Parent(p) == Parent(q)
    requires ItemOf(one, p) == ItemOf(two, q)
    ensures p == q && two[q] == one[p]
  {
    assert Encodable(p, one[p]) && Encodable(q, two[q]);
    SameParentAndName(p, q);
  }

  lemma SameListed(one: Entries, two: Entries, a: seq<bytes>, b: seq<bytes>, folder: bytes, path: bytes)
    requires AllEncodable(one) && AllEncodable(two)
    requires forall i | 0 <= i < |a| :: a[i] in one && Parent(a[i]) == folder
    requires forall i | 0 <= i < |b| :: b[i] in two && Parent(b[i]) == folder
    requires Items(one, a) == Items(two, b) && path in a
    ensures path in two && two[path] == one[path]
  {
    var i :| 0 <= i < |a| && a[i] == path;
    assert Items(one, a)[i] == Items(two, b)[i];
    SameItem(one, two, path, b[i]);
  }

  /** Equal folder objects list the same names with the same modes and ids. */
  lemma SameFolder(one: Entries, two: Entries, path: bytes)
    requires AllEncodable(one) && AllEncodable(two) && path in one
    requires TreeObject(one, Parent(path)) == TreeObject(two, Parent(path))
    ensures path in two && two[path] == one[path]
  {
    var folder := Parent(path);
    TreeObjectUnique(one, two, folder);
    assert path in Elements(Ordered(one, folder));
    SameListed(one, two, Ordered(one, folder), Ordered(two, folder), folder, path);
  }

  /** Folders with equal objects list equal entries. */
  ghost predicate Faithful(one: Entries, a: map<bytes, bytes>, two: Entries, b: map<bytes, bytes>) {
    forall p | p in one && Parent(p) in a && Parent(p) in b && a[Parent(p)] == b[Parent(p)] ::
      p in two && two[p] == one[p]
  }

  lemma ObjectsFaithful(one: Entries, two: Entries)
    requires AllEncodable(one) && AllEncodable(two)
    ensures Faithful(one, Objects(one), two, Objects(two))
  {
    var a, b := Objects(one), Objects(two);
    forall p | p in one && Parent(p) in a && Parent(p) in b && a[Parent(p)] == b[Parent(p)]
      ensures p in two && two[p] == one[p]
    {
      SameFolder(one, two, p);
    }
  }

  /** If folders with one id list the same entries, every entry of one listing is in the other, by induction
      over nested folders. */
  lemma {:induction false} BindEntry(one: Entries, two: Entries, same: set<bytes>, path: bytes)
    requires Rooted(one) && [] in same
    requires forall f | IsTree(one, f) && f in two && two[f] == one[f] :: f in same
    requires forall p | p in one && Parent(p) in same :: p in two && two[p] == one[p]
    requires path in one && path != []
    ensures path in two && two[path] == one[path]
    decreases |path|
  {
    assert HasFolder(one, path);
    if Parent(path) != [] {
      BindEntry(one, two, same, Parent(path));
    }
  }

  lemma BindObjects(hash: bytes -> bytes, one: Entries, two: Entries, a: map<bytes, bytes>, b: map<bytes, bytes>,
                    root: bytes)
    requires Rooted(one) && [] !in one
    requires Identified(hash, one, a, root) && Identified(hash, two, b, root) && Faithful(one, a, two, b)
    requires forall f :: !CollideAt(hash, a, b, f)
    ensures forall path | path in one :: path in two && two[path] == one[path]
  {
    var same := set f | f in a && f in b && a[f] == b[f];
    assert !CollideAt(hash, a, b, []);
    forall f | IsTree(one, f) && f in two && two[f] == one[f] ensures f in same {
      assert !CollideAt(hash, a, b, f);
    }
    forall path | path in one ensures path in two && two[path] == one[path] {
      BindEntry(one, two, same, path);
    }
  }

  lemma BindBoth(hash: bytes -> bytes, one: Entries, two: Entries, a: map<bytes, bytes>, b: map<bytes, bytes>,
                 root: bytes)
    requires Rooted(one) && Rooted(two) && [] !in one && [] !in two
    requires Identified(hash, one, a, root) && Identified(hash, two, b, root)
    requires Faithful(one, a, two, b) && Faithful(two, b, one, a)
    ensures one == two || exists f :: CollideAt(hash, a, b, f)
  {
    if forall f :: !CollideAt(hash, a, b, f) {
      BindObjects(hash, one, two, a, b, root);
      forall f ensures !CollideAt(hash, b, a, f) {
        assert !CollideAt(hash, a, b, f);
      }
      BindObjects(hash, two, one, b, a, root);
    }
  }

  /** Two listings that reassemble into one tree id are equal, or exhibit a hash collision at one folder. */
  lemma EntriesBinding(hash: bytes -> bytes, one: Entries, two: Entries, root: bytes)
    requires AllEncodable(one) && AllEncodable(two)
    requires Reassembles(hash, one, root) && Reassembles(hash, two, root)
    ensures one == two || exists folder :: CollideAt(hash, Objects(one), Objects(two), folder)
  {
    assert forall p | p in one.Keys + two.Keys :: p != [];
    ObjectsFaithful(one, two);
    ObjectsFaithful(two, one);
    BindBoth(hash, one, two, Objects(one), Objects(two), root);
  }

  // ---------------------------------------------------------------- assembling bottom-up

  predicate Under(folder: bytes, path: bytes) {
    path != [] && (folder == [] || folder + [SLASH] <= path)
  }

  function Below(entries: Entries, folder: bytes): set<bytes> {
    set p | p in entries && Under(folder, p)
  }

  lemma ChildBelow(entries: Entries, child: bytes)
    requires AllEncodable(entries) && child in entries
    ensures Under(Parent(child), child) && Below(entries, child) < Below(entries, Parent(child))
  {
    assert Encodable(child, entries[child]);
    PathParts(child);
    assert child in Below(entries, Parent(child)) && child !in Below(entries, child);
  }

  lemma UnderTransitive(folder: bytes, child: bytes)
    requires Under(folder, child)
    ensures forall f | Under(child, f) :: Under(folder, f)
  {
    forall f | Under(child, f) && folder != [] ensures folder + [SLASH] <= f {
      assert folder + [SLASH] <= child <= child + [SLASH] <= f;
    }
  }

  lemma SliceHolds(path: bytes, k: nat, n: nat)
    requires k < |path| && n < |path|
    ensures n <= k || path[n] in path[k + 1..]
  {
    if n > k {
      assert path[k + 1..][n - k - 1] == path[n];
    }
  }

  /** A proper ancestor folder of a path is an ancestor of what precedes the last slash. */
  lemma BeforeLastSlash(folder: bytes, path: bytes, k: nat)
    requires k < |path| && SLASH !in path[k + 1..]
    requires folder + [SLASH] <= path && folder != path[..k]
    ensures folder + [SLASH] <= path[..k]
  {
    var n := |folder|;
    assert path[..n + 1] == folder + [SLASH];
    assert path[n] == (folder + [SLASH])[n] == SLASH;
    assert path[..n] == (folder + [SLASH])[..n] == folder;
    SliceHolds(path, k, n);
    assert path[..k][..n + 1] == path[..n + 1];
  }

  lemma SlashInside(folder: bytes, path: bytes)
    requires folder + [SLASH] <= path
    ensures SLASH in path
  {
    assert path[|folder|] == (folder + [SLASH])[|folder|];
  }

  /** A path cut at its last slash, or not at all. */
  predicate IsCut(path: bytes, parent: bytes, k: int) {
    if k < 0 then SLASH !in path && parent == []
    else k < |path| && path[k] == SLASH && SLASH !in path[k + 1..] && parent == path[..k]
  }

  lemma CutUnder(folder: bytes, path: bytes, parent: bytes, k: int)
    requires path != [] && path[0] != SLASH && Under(folder, path) && IsCut(path, parent, k) && parent != folder
    ensures Under(folder, parent) && Under(parent, path)
  {
    if folder != [] {
      SlashInside(folder, path);
      BeforeLastSlash(folder, path, k);
    }
    assert path[..k + 1] == parent + [SLASH];
  }

  /** A path below a folder but not inside it has its parent below the folder. */
  lemma ParentUnder(folder: bytes, path: bytes)
    requires path != [] && path[0] != SLASH && Under(folder, path) && Parent(path) != folder
    ensures Under(folder, Parent(path)) && Under(Parent(path), path)
  {
    assert LastSlash(path) < 0 ==> path[0..] == path;
    CutUnder(folder, path, Parent(path), LastSlash(path));
  }

  /** Whatever lies below a folder is one of its children or lies below a child that is a folder. */
  lemma {:induction false} BelowChild(entries: Entries, folder: bytes, path: bytes) returns (child: bytes)
    requires AllEncodable(entries) && Rooted(entries)
    requires path in entries && Under(folder, path)
    ensures child in Children(entries, folder) && (path == child || (IsTree(entries, child) && Under(child, path)))
    decreases |path|
  {
    assert Encodable(path, entries[path]) && HasFolder(entries, path);
    var parent := Parent(path);
    if parent == folder {
      child := path;
    } else {
      ParentUnder(folder, path);
      child := BelowChild(entries, folder, parent);
      if parent != child {
        UnderTransitive(child, parent);
      }
    }
  }

  /** Every folder strictly below `folder` has its recorded id. */
  ghost predicate BoundBelow(hash: bytes -> bytes, entries: Entries, folder: bytes)
    requires AllEncodable(entries)
  {
    forall f | IsTree(entries, f) && Under(folder, f) :: hash(TreeObject(entries, f)) == entries[f].id
  }

  ghost predicate BoundChild(hash: bytes -> bytes, entries: Entries, child: bytes)
    requires AllEncodable(entries)
  {
    IsTree(entries, child) ==> BoundBelow(hash, entries, child) && hash(TreeObject(entries, child)) == entries[child].id
  }

  /** Checking the children of a folder, each with everything below it, checks everything below the folder. */
  lemma BoundByChildren(hash: bytes -> bytes, entries: Entries, folder: bytes)
    requires AllEncodable(entries) && Rooted(entries)
    ensures BoundBelow(hash, entries, folder) <==> forall c | c in Children(entries, folder) :: BoundChild(hash, entries, c)
  {
    if forall c | c in Children(entries, folder) :: BoundChild(hash, entries, c) {
      forall f | IsTree(entries, f) && Under(folder, f) ensures hash(TreeObject(entries, f)) == entries[f].id {
        var c := BelowChild(entries, folder, f);
        assert BoundChild(hash, entries, c);
      }
    }
    if BoundBelow(hash, entries, folder) {
      forall c | c in Children(entries, folder) ensures BoundChild(hash, entries, c) {
        ChildBelow(entries, c);
        UnderTransitive(folder, c);
      }
    }
  }

  lemma {:induction false} PayloadAppend(items: seq<Item>, item: Item)
    ensures Payload(items + [item]) == Payload(items) + ItemBytes(item)
  {
    if items != [] {
      PayloadAppend(items[1..], item);
      assert (items + [item])[1..] == items[1..] + [item];
    }
  }

  lemma RootBound(hash: bytes -> bytes, entries: Entries, root: bytes)
    requires AllEncodable(entries)
    ensures Reassembles(hash, entries, root) <==>
            Rooted(entries) && BoundBelow(hash, entries, []) && hash(TreeObject(entries, [])) == root
  {
    forall f | IsTree(entries, f) ensures Under([], f) {
      assert Encodable(f, entries[f]);
    }
  }
}

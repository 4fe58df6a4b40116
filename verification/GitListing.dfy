/** `git_path` and `git_tree`: a flat textual listing accepted only for the Git tree it claims to be. */
module GitListing {
  import opened Ordering
  import opened Text
  import opened GitBytes
  import opened GitTree
  import opened NestedTree

  const MAX_TREE_ENTRIES := 8192
  const MAX_PATH_BYTES := 1024
  const MAX_NAME_BYTES := 255
  const MAX_DEPTH := 64

  /** One row of the listing, as text. */
  datatype Row = Row(path: string, mode: string, kind: string, sha: string)

  datatype Result<+T> = Ok(value: T) | Invalid

  // ---------------------------------------------------------------- one row

  /** Unicode category C: the control characters, and whatever else the given table holds. */
  predicate IsHidden(table: char -> bool, c: char) {
    c as int < 32 || 127 <= c as int < 160 || table(c)
  }

  predicate ValidPart(part: string) {
    part !in {"", ".", ".."} && |Utf8(part)| <= MAX_NAME_BYTES
  }

  /** `git_path`. */
  predicate ValidPath(table: char -> bool, path: string) {
    && 0 < |Utf8(path)| <= MAX_PATH_BYTES
    && !StartsWith(path, "/")
    && '\\' !in path
    && (forall i | 0 <= i < |path| :: !IsHidden(table, path[i]))
    && (forall i | 0 <= i < |Split(path, '/')| :: ValidPart(Split(path, '/')[i]))
  }

  function Octal(mode: Mode): string {
    match mode
    case Folder => "040000"
    case File => "100644"
    case Executable => "100755"
    case Symlink => "120000"
    case Gitlink => "160000"
  }

  function Kind(mode: Mode): string {
    match mode
    case Folder => "tree"
    case Gitlink => "commit"
    case _ => "blob"
  }

  function ParseMode(text: string): (r: Option<Mode>)
    ensures r.Some? ==> Octal(r.value) == text
    ensures r.None? ==> forall m: Mode :: Octal(m) != text
  {
    if text == "040000" then Some(Folder)
    else if text == "100644" then Some(File)
    else if text == "100755" then Some(Executable)
    else if text == "120000" then Some(Symlink)
    else if text == "160000" then Some(Gitlink)
    else None
  }

  /** The checks on one row. */
  predicate ValidRow(table: char -> bool, row: Row) {
    && ValidPath(table, row.path)
    && ParseMode(row.mode).Some? && Kind(ParseMode(row.mode).value) == row.kind
    && |Split(row.path, '/')| <= MAX_DEPTH
    && IsSha(row.sha)
  }

  lemma Utf8First(text: string)
    requires text != ""
    ensures |Utf8(text)| > 0 && (Utf8(text)[0] == SLASH <==> text[0] == '/')
  {
    assert Utf8(text) == EncodeChar(text[0]) + Utf8(text[1..]);
  }

  lemma Utf8Last(text: string)
    requires text != "" && text[|text| - 1] != '/'
    ensures |Utf8(text)| > 0 && Utf8(text)[|Utf8(text)| - 1] != SLASH
  {
    var n := |text| - 1;
    EncodeConcat(EncodeChar, text[..n], text[n..]);
    assert text == text[..n] + text[n..];
    assert Utf8(text[n..]) == EncodeChar(text[n]) + Utf8("");
  }

  /** The last part of a text that ends with the separator is empty. */
  lemma {:induction false} SplitLast(s: string, c: char)
    requires s != "" && s[|s| - 1] == c
    ensures Split(s, c)[|Split(s, c)| - 1] == "" && |Split(s, c)| > 1
  {
    if |s| > 1 {
      SplitLast(s[1..], c);
    }
  }

  lemma PathEncodable(table: char -> bool, path: string)
    requires ValidPath(table, path)
    ensures Utf8(path) != [] && Utf8(path)[0] != SLASH && NUL !in Utf8(path)
    ensures Utf8(path)[|Utf8(path)| - 1] != SLASH
  {
    assert path != "" by { assert Utf8("") == []; }
    assert path[0] == '/' ==> StartsWith(path, "/");
    Utf8First(path);
    if path[|path| - 1] == '/' {
      SplitLast(path, '/');
    } else {
      Utf8Last(path);
    }
    assert forall i | 0 <= i < |path| :: !IsHidden(table, path[i]);
    Utf8NoNul(path);
  }

  /** A row that passes the checks, in the terms of a tree object. */
  function ReadRow(table: char -> bool, row: Row): (r: Option<Named>)
    ensures r.Some? <==> ValidRow(table, row)
    ensures r.Some? ==> r.value.path == Utf8(row.path) && Encodable(r.value.path, r.value.entry)
    ensures r.Some? ==> Octal(r.value.entry.mode) == row.mode && r.value.entry.id == FromHex(row.sha)
  {
    if ValidRow(table, row) then
      PathEncodable(table, row.path);
      Some(Named(Utf8(row.path), Entry(ParseMode(row.mode).value, FromHex(row.sha))))
    else None
  }

  /** Reading loses nothing: rows that read alike are the same row. */
  lemma ReadRowInjective(table: char -> bool, a: Row, b: Row)
    requires ReadRow(table, a).Some? && ReadRow(table, a) == ReadRow(table, b)
    ensures a == b
  {
    Utf8Injective(a.path, b.path);
    FromHexInjective(a.sha, b.sha);
  }

  // ---------------------------------------------------------------- text and bytes agree

  function StripZeros(s: string): string {
    if s != "" && s[0] == '0' then StripZeros(s[1..]) else s
  }

  /** The mode bytes of a tree object are the octal text with its leading zeros stripped. */
  lemma ModeSpelling(mode: Mode)
    ensures StripZeros(Octal(mode)) == Spelling(mode)
    ensures Codes(StripZeros(Octal(mode))) == ModeBytes(mode)
  {
    assert mode.Folder? ==> Octal(mode)[1..] == "40000";
  }

  /** Cutting the bytes of a path at its last slash is cutting its text there. */
  lemma ParentOfText(folder: string, name: string)
    requires '/' !in name
    ensures Parent(Utf8(folder + "/" + name)) == Utf8(folder) && Name(Utf8(folder + "/" + name)) == Utf8(name)
  {
    Utf8Join(folder, name);
    Utf8NoSlash(name);
    LastSlashAt(Utf8(folder), Utf8(name));
    PartsAt(Utf8(folder), Utf8(name));
  }

  lemma PartsAt(a: bytes, b: bytes)
    requires LastSlash(a + [SLASH] + b) == |a|
    ensures Parent(a + [SLASH] + b) == a && Name(a + [SLASH] + b) == b
  {
    var path := a + [SLASH] + b;
    assert path[..|a|] == a && path[|a| + 1..] == b;
  }

  // ---------------------------------------------------------------- all rows

  predicate RowsEncodable(rows: seq<Named>) {
    forall i | 0 <= i < |rows| :: Encodable(rows[i].path, rows[i].entry)
  }

  function EntriesOf(rows: seq<Named>): (entries: Entries)
    requires RowsEncodable(rows)
    ensures AllEncodable(entries)
  {
    if rows == [] then map[]
    else
      var last := rows[|rows| - 1];
      EntriesOf(rows[..|rows| - 1])[last.path := last.entry]
  }

  /** How a row is read; `RowReader` below is the one the program uses. */
  type Reader = Row -> Option<Named>

  ghost predicate Sound(read: Reader) {
    forall row :: read(row).Some? ==> Encodable(read(row).value.path, read(row).value.entry)
  }

  function RowReader(table: char -> bool): Reader {
    row => ReadRow(table, row)
  }

  lemma RowReaderSound(table: char -> bool)
    ensures Sound(RowReader(table))
  {
  }

  /** Different rows are read as different entries. */
  ghost predicate Lossless(read: Reader) {
    forall a, b :: read(a).Some? && read(a) == read(b) ==> a == b
  }

  lemma RowReaderLossless(table: char -> bool)
    ensures Lossless(RowReader(table))
  {
    forall a, b | ReadRow(table, a).Some? && ReadRow(table, a) == ReadRow(table, b) ensures a == b {
      ReadRowInjective(table, a, b);
    }
  }

  predicate AllReadable(read: Reader, rows: seq<Row>) {
    forall i | 0 <= i < |rows| :: read(rows[i]).Some?
  }

  function ReadRows(read: Reader, rows: seq<Row>): (r: seq<Named>)
    requires AllReadable(read, rows)
    ensures |r| == |rows|
    ensures forall i | 0 <= i < |rows| :: read(rows[i]) == Some(r[i])
  {
    seq(|rows|, i requires 0 <= i < |rows| => read(rows[i]).value)
  }

  /** The reply of the tree endpoint. */
  datatype Reply = Reply(sha: string, truncated: bool, rows: seq<Row>)

  /** All entries of a listing whose rows can be read. */
  function ListingOf(read: Reader, reply: Reply): (entries: Entries)
    requires Sound(read) && AllReadable(read, reply.rows)
    ensures AllEncodable(entries)
  {
    EntriesOf(ReadRows(read, reply.rows))
  }

  /** A reply that `git_tree` accepts for the tree id `expected`. */
  ghost predicate Accepts(read: Reader, hash: bytes -> bytes, reply: Reply, expected: string)
    requires Sound(read)
  {
    && IsSha(expected) && reply.sha == expected && !reply.truncated && |reply.rows| <= MAX_TREE_ENTRIES
    && AllReadable(read, reply.rows)
    && DistinctPaths(ReadRows(read, reply.rows))
    && Reassembles(hash, ListingOf(read, reply), FromHex(expected))
  }

  /** Everything but the folders: what `git_tree` returns. */
  function Leaves(entries: Entries): Entries {
    map p | p in entries && !entries[p].mode.Folder? :: entries[p]
  }

  /** The entries are the rows that are not folders, and no others. */
  ghost predicate HoldsLeaves(read: Reader, rows: seq<Row>, entries: Entries) {
    forall named :: Has(entries, named) <==>
      !named.entry.mode.Folder? && exists i | 0 <= i < |rows| :: read(rows[i]) == Some(named)
  }

  lemma LeavesAreRows(read: Reader, rows: seq<Row>)
    requires Sound(read) && AllReadable(read, rows) && DistinctPaths(ReadRows(read, rows))
    ensures HoldsLeaves(read, rows, Leaves(EntriesOf(ReadRows(read, rows))))
  {
    var all := ReadRows(read, rows);
    var entries := EntriesOf(all);
    EntriesMembership(all);
    forall named ensures Has(Leaves(entries), named) <==>
        !named.entry.mode.Folder? && exists i | 0 <= i < |rows| :: read(rows[i]) == Some(named)
    {
      if Has(Leaves(entries), named) {
        var i :| 0 <= i < |all| && all[i] == Named(named.path, entries[named.path]);
        assert read(rows[i]) == Some(named);
      }
      if i :| 0 <= i < |rows| && read(rows[i]) == Some(named) {
        assert all[i] == named;
      }
    }
  }

  /** Two replies accepted for one tree id list the same entries, or exhibit a hash collision at one folder. */
  lemma TreeBinding(read: Reader, hash: bytes -> bytes, one: Reply, two: Reply, expected: string)
    requires Sound(read) && Accepts(read, hash, one, expected) && Accepts(read, hash, two, expected)
    ensures ListingOf(read, one) == ListingOf(read, two)
            || exists folder :: CollideAt(hash, Objects(ListingOf(read, one)), Objects(ListingOf(read, two)), folder)
  {
    EntriesBinding(hash, ListingOf(read, one), ListingOf(read, two), FromHex(expected));
  }

  /** Replies whose rows are read without loss, accepted for one tree id, hold the same rows or exhibit a collision. */
  lemma RowsBinding(read: Reader, hash: bytes -> bytes, one: Reply, two: Reply, expected: string)
    requires Sound(read) && Lossless(read)
    requires Accepts(read, hash, one, expected) && Accepts(read, hash, two, expected)
    ensures Elements(one.rows) == Elements(two.rows)
            || exists folder :: CollideAt(hash, Objects(ListingOf(read, one)), Objects(ListingOf(read, two)), folder)
  {
    TreeBinding(read, hash, one, two, expected);
    if ListingOf(read, one) == ListingOf(read, two) {
      forall row | row in one.rows ensures row in two.rows {
        SameRow(read, one.rows, two.rows, row);
      }
      forall row | row in two.rows ensures row in one.rows {
        SameRow(read, two.rows, one.rows, row);
      }
    }
  }

  lemma SameNamed(a: seq<Named>, b: seq<Named>, i: nat) returns (j: nat)
    requires RowsEncodable(a) && RowsEncodable(b) && DistinctPaths(a) && DistinctPaths(b)
    requires EntriesOf(a) == EntriesOf(b) && i < |a|
    ensures j < |b| && b[j] == a[i]
  {
    EntriesMembership(a);
    EntriesMembership(b);
    assert a[i].path in EntriesOf(b);
    j :| j < |b| && b[j] == Named(a[i].path, EntriesOf(b)[a[i].path]);
  }

  /** Lists with equal entries hold the same rows. */
  lemma SameRow(read: Reader, one: seq<Row>, two: seq<Row>, row: Row)
    requires Sound(read) && Lossless(read) && AllReadable(read, one) && AllReadable(read, two)
    requires DistinctPaths(ReadRows(read, one)) && DistinctPaths(ReadRows(read, two))
    requires EntriesOf(ReadRows(read, one)) == EntriesOf(ReadRows(read, two)) && row in one
    ensures row in two
  {
    var a, b := ReadRows(read, one), ReadRows(read, two);
    var i :| 0 <= i < |one| && one[i] == row;
    var j := SameNamed(a, b, i);
    assert read(two[j]) == Some(b[j]);
  }

  /** On text: two replies that `git_tree` accepts for one tree id hold the same rows, or exhibit a collision at one
      folder. Every `RowReader` is sound, so that this leaves out no reply. */
  lemma TextBinding(
      table: char -> bool, read: Reader, hash: bytes -> bytes, one: Reply, two: Reply, expected: string)
    requires read == RowReader(table) && Sound(read)
    requires Accepts(read, hash, one, expected) && Accepts(read, hash, two, expected)
    ensures Elements(one.rows) == Elements(two.rows)
            || exists folder :: CollideAt(hash, Objects(ListingOf(read, one)), Objects(ListingOf(read, two)), folder)
  {
    RowReaderLossless(table);
    RowsBinding(read, hash, one, two, expected);
  }

  lemma PathBytes(folder: string, name: string)
    requires '/' !in name
    ensures var path := if folder == "" then name else folder + "/" + name;
            Parent(Utf8(path)) == Utf8(folder) && Name(Utf8(path)) == Utf8(name)
  {
    if folder == "" {
      Utf8NoSlash(name);
      assert LastSlash(Utf8(name)) == -1;
    } else {
      ParentOfText(folder, name);
    }
  }

  /** The bytes that `assemble` adds for a row, in terms of the text of the row: its mode without leading zeros, what
      follows the last slash of its path, and its decoded id. */
  lemma RowBytes(table: char -> bool, row: Row, named: Named, folder: string, name: string)
    requires ReadRow(table, row) == Some(named)
    requires '/' !in name && row.path == (if folder == "" then name else folder + "/" + name)
    ensures Parent(named.path) == Utf8(folder)
    ensures ItemBytes(Item(named.entry.mode, Name(named.path), named.entry.id)) ==
            Codes(StripZeros(row.mode)) + [SPACE] + (Utf8(name) + [NUL] + FromHex(row.sha))
  {
    ModeSpelling(named.entry.mode);
    PathBytes(folder, name);
  }

  // ---------------------------------------------------------------- nested trees

  /** The rows are those of the flat listing of the tree, each of them once and in any order. */
  ghost predicate IsListing(read: Reader, hash: bytes -> bytes, rows: seq<Row>, t: Tree) {
    && AllReadable(read, rows) && DistinctPaths(ReadRows(read, rows))
    && Elements(ReadRows(read, rows)) == Elements(Flat(hash, [], t))
  }

  /** The reply is the complete flat listing of a nested Git tree with the id `expected`. */
  ghost predicate IsGenuine(read: Reader, hash: bytes -> bytes, reply: Reply, expected: string) {
    && IsSha(expected) && reply.sha == expected && !reply.truncated && |reply.rows| <= MAX_TREE_ENTRIES
    && exists t :: WellFormed(t) && TreeId(hash, t) == FromHex(expected) && IsListing(read, hash, reply.rows, t)
  }

  lemma ListsElements(hash: bytes -> bytes, rows: seq<Named>, t: Tree)
    requires RowsEncodable(rows) && DistinctPaths(rows)
    ensures Lists(hash, EntriesOf(rows), t) <==> Elements(rows) == Elements(Flat(hash, [], t))
  {
    EntriesMembership(rows);
    var entries, flat := EntriesOf(rows), Flat(hash, [], t);
    if Lists(hash, entries, t) {
      forall row | row in rows ensures row in flat {
        assert Named(row.path, entries[row.path]) in flat;
      }
      forall row | row in flat ensures row in rows {
        assert Has(entries, row);
      }
    }
    if Elements(rows) == Elements(flat) {
      forall row | row in flat ensures Has(entries, row) {
        assert row in Elements(rows);
      }
      forall p | p in entries ensures Named(p, entries[p]) in flat {
        assert Named(p, entries[p]) in Elements(rows);
      }
    }
  }

  /** A reply is accepted exactly when it is the complete flat listing of a nested Git tree with the expected id. */
  lemma AcceptsExactly(read: Reader, hash: bytes -> bytes, reply: Reply, expected: string)
    requires Sound(read)
    ensures Accepts(read, hash, reply, expected) <==> IsGenuine(read, hash, reply, expected)
  {
    if IsSha(expected) && AllReadable(read, reply.rows) && DistinctPaths(ReadRows(read, reply.rows)) {
      var entries := ListingOf(read, reply);
      ReassemblesExactly(hash, entries, FromHex(expected));
      forall t ensures Lists(hash, entries, t) <==> IsListing(read, hash, reply.rows, t) {
        ListsElements(hash, ReadRows(read, reply.rows), t);
      }
    }
  }

  /** A listing that holds every row of a nested tree once, in any order, is accepted for the id of the tree. */
  lemma GenuineIsAccepted(read: Reader, hash: bytes -> bytes, reply: Reply, expected: string, t: Tree)
    requires Sound(read) && WellFormed(t) && IsSha(expected) && TreeId(hash, t) == FromHex(expected)
    requires reply.sha == expected && !reply.truncated && |reply.rows| <= MAX_TREE_ENTRIES
    requires AllReadable(read, reply.rows) && multiset(ReadRows(read, reply.rows)) == multiset(Flat(hash, [], t))
    ensures Accepts(read, hash, reply, expected)
  {
    var rows, flat := ReadRows(read, reply.rows), Flat(hash, [], t);
    SameMembers(rows, flat);
    assert Elements(rows) == Elements(flat);
    FlatDistinct(hash, [], t);
    DistinctPermuted(flat, rows);
    assert IsListing(read, hash, reply.rows, t);
    AcceptsExactly(read, hash, reply, expected);
  }

  /** The entries of every nested tree reassemble into its id, where ids have their full length. */
  lemma EveryTreeReassembles(hash: bytes -> bytes, t: Tree)
    requires WellFormed(t) && forall x :: |hash(x)| == ID_BYTES
    ensures RowsEncodable(Flat(hash, [], t))
    ensures Reassembles(hash, EntriesOf(Flat(hash, [], t)), TreeId(hash, t))
  {
    var flat := Flat(hash, [], t);
    forall i | 0 <= i < |flat| ensures Encodable(flat[i].path, flat[i].entry) {
      FlatEncodable(hash, [], t, flat[i]);
    }
    FlatDistinct(hash, [], t);
    ListsElements(hash, flat, t);
    ListingReassembles(hash, EntriesOf(flat), t);
  }

  // ---------------------------------------------------------------- row order

  lemma {:induction false} EntriesMembership(rows: seq<Named>)
    requires RowsEncodable(rows) && DistinctPaths(rows)
    ensures forall i | 0 <= i < |rows| :: rows[i].path in EntriesOf(rows) && EntriesOf(rows)[rows[i].path] == rows[i].entry
    ensures forall p | p in EntriesOf(rows) :: Named(p, EntriesOf(rows)[p]) in rows
  {
    if rows != [] {
      EntriesMembership(rows[..|rows| - 1]);
    }
  }

  lemma SameEntries(one: seq<Named>, two: seq<Named>)
    requires RowsEncodable(one) && DistinctPaths(one) && RowsEncodable(two) && DistinctPaths(two)
    requires Elements(one) == Elements(two)
    ensures EntriesOf(one) == EntriesOf(two)
  {
    EntriesMembership(one);
    EntriesMembership(two);
    var a, b := EntriesOf(one), EntriesOf(two);
    forall p | p in a ensures p in b && b[p] == a[p] {
      assert Named(p, a[p]) in Elements(two);
    }
    forall p | p in b ensures p in a {
      assert Named(p, b[p]) in Elements(one);
    }
  }

  /** The order of the rows never matters: a permuted reply is accepted alike and lists the same entries. */
  lemma RowOrderIrrelevant(read: Reader, hash: bytes -> bytes, one: Reply, two: Reply, expected: string)
    requires Sound(read) && Accepts(read, hash, one, expected)
    requires two == one.(rows := two.rows) && multiset(two.rows) == multiset(one.rows)
    ensures Accepts(read, hash, two, expected) && ListingOf(read, two) == ListingOf(read, one)
  {
    SameMembers(one.rows, two.rows);
    forall i | 0 <= i < |two.rows| ensures read(two.rows[i]).Some? {
      assert two.rows[i] in one.rows;
    }
    var a, b := ReadRows(read, one.rows), ReadRows(read, two.rows);
    ReadPermuted(read, one.rows, two.rows);
    DistinctPermuted(a, b);
    SameEntries(a, b);
  }

  lemma SameMembers<T>(one: seq<T>, two: seq<T>)
    requires multiset(one) == multiset(two)
    ensures |one| == |two| && forall x :: x in one <==> x in two
  {
    assert |one| == |multiset(one)| && |two| == |multiset(two)|;
    forall x ensures x in one <==> x in two {
      assert x in one <==> x in multiset(one);
      assert x in two <==> x in multiset(two);
    }
  }

  lemma ReadPermuted(read: Reader, one: seq<Row>, two: seq<Row>)
    requires AllReadable(read, one) && AllReadable(read, two)
    requires forall x :: x in one <==> x in two
    ensures Elements(ReadRows(read, one)) == Elements(ReadRows(read, two))
  {
    var a, b := ReadRows(read, one), ReadRows(read, two);
    forall x | x in a ensures x in b {
      var i :| 0 <= i < |a| && a[i] == x;
      assert one[i] in two;
      var j :| 0 <= j < |two| && two[j] == one[i];
      assert b[j] == x;
    }
    forall x | x in b ensures x in a {
      var i :| 0 <= i < |b| && b[i] == x;
      assert two[i] in one;
      var j :| 0 <= j < |one| && one[j] == two[i];
      assert a[j] == x;
    }
  }

  /** As many rows over the same set of members leave no room for a repeated path. */
  lemma DistinctPermuted(one: seq<Named>, two: seq<Named>)
    requires DistinctPaths(one) && |one| == |two| && Elements(one) == Elements(two)
    ensures DistinctPaths(two)
  {
    DistinctCount(one);
    DistinctByCount(two);
    forall i, j | 0 <= i < j < |two| ensures two[i].path != two[j].path {
      assert two[i] in Elements(one) && two[j] in Elements(one);
    }
  }

  lemma {:induction false} DistinctCount(rows: seq<Named>)
    requires DistinctPaths(rows)
    ensures |Elements(rows)| == |rows|
  {
    if rows != [] {
      var n := |rows| - 1;
      DistinctCount(rows[..n]);
      assert Elements(rows) == Elements(rows[..n]) + {rows[n]};
      assert rows[n] !in Elements(rows[..n]);
    }
  }

  lemma {:induction false} DistinctByCount(rows: seq<Named>)
    ensures |Elements(rows)| <= |rows|
    ensures |Elements(rows)| == |rows| ==> Distinct(rows)
  {
    if rows != [] {
      var before, last := rows[..|rows| - 1], rows[|rows| - 1];
      DistinctByCount(before);
      assert rows == before + [last];
      if last in before {
        assert Elements(rows) == Elements(before);
      } else if Distinct(before) {
        AppendNew(before, last);
      } else {
        assert Elements(rows) == Elements(before) + {last};
      }
    }
  }

  // ---------------------------------------------------------------- the reader

  /** The paths inside each folder, in the order the rows arrived. */
  ghost predicate Grouped(entries: Entries, children: map<bytes, seq<bytes>>) {
    && (forall f {:trigger HoldsInside(entries, children, f)} | f in children :: HoldsInside(entries, children, f))
    && (forall p {:trigger IsGrouped(children, p)} | p in entries :: IsGrouped(children, p))
  }

  ghost predicate HoldsInside(entries: Entries, children: map<bytes, seq<bytes>>, f: bytes)
    requires f in children
  {
    Distinct(children[f]) && Elements(children[f]) == Children(entries, f)
  }

  ghost predicate IsGrouped(children: map<bytes, seq<bytes>>, p: bytes) {
    Parent(p) in children
  }

  /** `children[folder]`, empty for a folder without entries. */
  function Inside(children: map<bytes, seq<bytes>>, folder: bytes): seq<bytes> {
    if folder in children then children[folder] else []
  }

  lemma InsideIsChildren(entries: Entries, children: map<bytes, seq<bytes>>, folder: bytes)
    requires Grouped(entries, children)
    ensures Distinct(Inside(children, folder)) && Elements(Inside(children, folder)) == Children(entries, folder)
  {
    if folder in children {
      assert HoldsInside(entries, children, folder);
    } else {
      forall p | p in entries ensures Parent(p) != folder {
        assert IsGrouped(children, p);
      }
    }
  }

  /** `sorted(paths, key=key)` for a list without repetition. */
  function SortedList(paths: seq<bytes>, key: bytes -> seq<int>): seq<bytes>
    requires Distinct(paths) && KeysDiffer(Elements(paths), key)
  {
    SortedBy(Elements(paths), key)
  }

  /** A property of every path of a list. */
  ghost predicate Every(paths: seq<bytes>, holds: bytes -> bool) {
    paths == [] || (Every(paths[..|paths| - 1], holds) && holds(paths[|paths| - 1]))
  }

  lemma {:induction false} EveryMeaning(paths: seq<bytes>, holds: bytes -> bool)
    ensures Every(paths, holds) <==> forall c | c in Elements(paths) :: holds(c)
  {
    if paths != [] {
      var n := |paths| - 1;
      EveryMeaning(paths[..n], holds);
      assert Elements(paths) == Elements(paths[..n]) + {paths[n]};
    }
  }

  ghost function BoundIn(hash: bytes -> bytes, entries: Entries): bytes -> bool
    requires AllEncodable(entries)
  {
    c => BoundChild(hash, entries, c)
  }

  ghost predicate AllBound(hash: bytes -> bytes, entries: Entries, paths: seq<bytes>)
    requires AllEncodable(entries)
  {
    Every(paths, BoundIn(hash, entries))
  }

  lemma AllBoundMeaning(hash: bytes -> bytes, entries: Entries, paths: seq<bytes>)
    requires AllEncodable(entries)
    ensures AllBound(hash, entries, paths) <==> forall c | c in Elements(paths) :: BoundChild(hash, entries, c)
  {
    EveryMeaning(paths, BoundIn(hash, entries));
  }

  lemma AllBoundStep(hash: bytes -> bytes, entries: Entries, paths: seq<bytes>, i: nat)
    requires AllEncodable(entries) && i < |paths|
    requires AllBound(hash, entries, paths[..i]) && BoundChild(hash, entries, paths[i])
    ensures AllBound(hash, entries, paths[..i + 1])
  {
    assert paths[..i + 1][..i] == paths[..i];
  }

  /** The nested function `assemble`: the id of a folder, after checking every folder below it. */
  method Assemble(hash: bytes -> bytes, entries: Entries, children: map<bytes, seq<bytes>>, folder: bytes)
    returns (r: Result<bytes>)
    requires AllEncodable(entries) && Rooted(entries) && Grouped(entries, children)
    ensures r.Ok? <==> BoundBelow(hash, entries, folder)
    ensures r.Ok? ==> r.value == hash(TreeObject(entries, folder))
    decreases Below(entries, folder), 1
  {
    InsideIsChildren(entries, children, folder);
    SortKeysDiffer(entries, folder);
    var ordered := SortedList(Inside(children, folder), SortKey(entries));
    assert ordered == Ordered(entries, folder);
    BoundByChildren(hash, entries, folder);
    var payload := AssembleItems(hash, entries, children, folder, ordered);
    if payload.Invalid? {
      return Invalid;
    }
    return Ok(hash(ObjectBytes(payload.value)));
  }

  /** What the loop of `assemble` has done: the payload of the first entries, whose folders all have their ids. */
  ghost predicate Assembled(hash: bytes -> bytes, entries: Entries, ordered: seq<bytes>, i: nat, payload: bytes)
    requires AllEncodable(entries) && forall k | 0 <= k < |ordered| :: ordered[k] in entries
  {
    i <= |ordered| && payload == Payload(Items(entries, ordered)[..i]) && AllBound(hash, entries, ordered[..i])
  }

  lemma AssembledStep(hash: bytes -> bytes, entries: Entries, ordered: seq<bytes>, i: nat, payload: bytes)
    requires AllEncodable(entries) && forall k | 0 <= k < |ordered| :: ordered[k] in entries
    requires i < |ordered| && Assembled(hash, entries, ordered, i, payload) && BoundChild(hash, entries, ordered[i])
    ensures Assembled(hash, entries, ordered, i + 1, payload + ItemBytes(ItemOf(entries, ordered[i])))
  {
    var items := Items(entries, ordered);
    AllBoundStep(hash, entries, ordered, i);
    PayloadAppend(items[..i], items[i]);
    PrefixStep(items, i);
  }

  lemma AssembledAll(hash: bytes -> bytes, entries: Entries, ordered: seq<bytes>, payload: bytes)
    requires AllEncodable(entries) && forall k | 0 <= k < |ordered| :: ordered[k] in entries
    requires Assembled(hash, entries, ordered, |ordered|, payload)
    ensures payload == Payload(Items(entries, ordered))
    ensures forall c | c in Elements(ordered) :: BoundChild(hash, entries, c)
  {
    var items := Items(entries, ordered);
    assert items[..|items|] == items && ordered[..|ordered|] == ordered;
    AllBoundMeaning(hash, entries, ordered);
  }

  /** The loop of `assemble` over the ordered entries of a folder. */
  method AssembleItems(hash: bytes -> bytes, entries: Entries, children: map<bytes, seq<bytes>>, folder: bytes,
                       ordered: seq<bytes>)
    returns (r: Result<bytes>)
    requires AllEncodable(entries) && Rooted(entries) && Grouped(entries, children)
    requires Elements(ordered) == Children(entries, folder) && forall i | 0 <= i < |ordered| :: ordered[i] in entries
    ensures r.Ok? <==> forall c | c in Children(entries, folder) :: BoundChild(hash, entries, c)
    ensures r.Ok? ==> r.value == Payload(Items(entries, ordered))
    decreases Below(entries, folder), 0
  {
    var payload: bytes, i := [], 0;
    while i < |ordered|
      invariant Assembled(hash, entries, ordered, i, payload)
    {
      var path := ordered[i];
      assert path in Children(entries, folder) by { assert path in Elements(ordered); }
      var ok := CheckChild(hash, entries, children, path);
      if !ok {
        return Invalid;
      }
      AssembledStep(hash, entries, ordered, i, payload);
      var row := entries[path];
      payload := payload + ItemBytes(Item(row.mode, Name(path), row.id));
      i := i + 1;
    }
    AssembledAll(hash, entries, ordered, payload);
    return Ok(payload);
  }

  /** The check of one entry: a folder must have the id its row records. */
  method CheckChild(hash: bytes -> bytes, entries: Entries, children: map<bytes, seq<bytes>>, path: bytes)
    returns (ok: bool)
    requires AllEncodable(entries) && Rooted(entries) && Grouped(entries, children) && path in entries
    ensures ok <==> BoundChild(hash, entries, path)
    decreases Below(entries, Parent(path)), -1
  {
    ChildBelow(entries, path);
    if entries[path].mode.Folder? {
      var id := Assemble(hash, entries, children, path);
      return id == Ok(entries[path].id);
    }
    return true;
  }

  /** Appending a row to the rows read so far. */
  lemma ReadStep(read: Reader, rows: seq<Row>, i: nat)
    requires i < |rows| && AllReadable(read, rows[..i + 1])
    ensures AllReadable(read, rows[..i])
    ensures ReadRows(read, rows[..i + 1]) == ReadRows(read, rows[..i]) + [read(rows[i]).value]
  {
    assert forall k | 0 <= k < i :: rows[..i][k] == rows[..i + 1][k];
    assert rows[..i + 1][i] == rows[i];
  }

  lemma EntriesStep(named: seq<Named>, next: Named)
    requires RowsEncodable(named + [next]) && RowsEncodable(named) && DistinctPaths(named)
    ensures EntriesOf(named + [next]) == EntriesOf(named)[next.path := next.entry]
    ensures DistinctPaths(named + [next]) <==> next.path !in EntriesOf(named)
  {
    assert (named + [next])[..|named|] == named;
    EntriesMembership(named);
    if next.path in EntriesOf(named) {
      var k :| 0 <= k < |named| && named[k] == Named(next.path, EntriesOf(named)[next.path]);
      assert (named + [next])[k].path == (named + [next])[|named|].path;
    }
  }

  lemma ChildrenByStep(paths: set<bytes>, parent: bytes -> bytes, path: bytes, folder: bytes)
    ensures ChildrenBy(paths + {path}, parent, folder) ==
            ChildrenBy(paths, parent, folder) + (if folder == parent(path) then {path} else {})
  {
  }

  lemma ChildrenStep(entries: Entries, path: bytes, entry: Entry, folder: bytes)
    ensures Children(entries[path := entry], folder) ==
            Children(entries, folder) + (if folder == Parent(path) then {path} else {})
  {
    ChildrenByStep(entries.Keys, Parent, path, folder);
    assert entries[path := entry].Keys == entries.Keys + {path};
  }

  lemma GroupedStep(entries: Entries, children: map<bytes, seq<bytes>>, path: bytes, entry: Entry)
    requires Grouped(entries, children) && path !in entries
    ensures Grouped(entries[path := entry], children[Parent(path) := Inside(children, Parent(path)) + [path]])
  {
    var folder := Parent(path);
    var inside := Inside(children, folder);
    InsideIsChildren(entries, children, folder);
    assert path !in inside by { assert path !in Elements(inside); }
    AppendNew(inside, path);
    var children' := children[folder := inside + [path]];
    forall f | f in children' ensures HoldsInside(entries[path := entry], children', f) {
      ChildrenStep(entries, path, entry, f);
      if f != folder {
        assert HoldsInside(entries, children, f) && children'[f] == children[f];
      }
    }
    forall p | p in entries[path := entry] ensures IsGrouped(children', p) {
      if p != path {
        assert IsGrouped(children, p);
      }
    }
  }

  /** Rows that can be read and repeat no path. */
  ghost predicate Legible(read: Reader, rows: seq<Row>) {
    AllReadable(read, rows) && DistinctPaths(ReadRows(read, rows))
  }

  lemma LegiblePrefix(read: Reader, rows: seq<Row>, n: nat)
    requires n <= |rows| && Legible(read, rows)
    ensures Legible(read, rows[..n])
  {
    var part, whole := ReadRows(read, rows[..n]), ReadRows(read, rows);
    forall i | 0 <= i < n ensures part[i] == whole[i] {
      assert read(rows[..n][i]) == Some(part[i]) && read(rows[i]) == Some(whole[i]);
    }
  }

  /** What the first loop of `git_tree` has done. */
  ghost predicate GroupedUpTo(
      read: Reader, rows: seq<Row>, i: nat, entries: Entries, children: map<bytes, seq<bytes>>)
    requires Sound(read)
  {
    && i <= |rows| && Legible(read, rows[..i])
    && entries == EntriesOf(ReadRows(read, rows[..i])) && Grouped(entries, children)
  }

  lemma LegibleStep(read: Reader, rows: seq<Row>, i: nat, named: Named)
    requires Sound(read) && i < |rows| && Legible(read, rows[..i]) && read(rows[i]) == Some(named)
    ensures Legible(read, rows[..i + 1]) <==> named.path !in EntriesOf(ReadRows(read, rows[..i]))
    ensures Legible(read, rows[..i + 1]) ==>
              EntriesOf(ReadRows(read, rows[..i + 1])) == EntriesOf(ReadRows(read, rows[..i]))[named.path := named.entry]
  {
    PrefixStep(rows, i);
    assert AllReadable(read, rows[..i + 1]);
    ReadStep(read, rows, i);
    EntriesStep(ReadRows(read, rows[..i]), named);
  }

  lemma GroupedNext(
      read: Reader, rows: seq<Row>, i: nat, entries: Entries, children: map<bytes, seq<bytes>>, named: Named)
    requires Sound(read) && GroupedUpTo(read, rows, i, entries, children)
    requires i < |rows| && read(rows[i]) == Some(named)
    ensures named.path in entries ==> !Legible(read, rows)
    ensures named.path !in entries ==>
              var folder := Parent(named.path);
              GroupedUpTo(read, rows, i + 1, entries[named.path := named.entry],
                          children[folder := Inside(children, folder) + [named.path]])
  {
    LegibleStep(read, rows, i, named);
    if named.path in entries {
      NotLegible(read, rows, i + 1);
    } else {
      GroupedStep(entries, children, named.path, named.entry);
    }
  }

  lemma GroupedAll(read: Reader, rows: seq<Row>, entries: Entries, children: map<bytes, seq<bytes>>)
    requires Sound(read) && GroupedUpTo(read, rows, |rows|, entries, children)
    ensures Legible(read, rows) && entries == EntriesOf(ReadRows(read, rows)) && Grouped(entries, children)
  {
    assert rows[..|rows|] == rows;
  }

  lemma NothingGrouped(read: Reader, rows: seq<Row>)
    requires Sound(read)
    ensures GroupedUpTo(read, rows, 0, map[], map[])
  {
    assert rows[..0] == [] && ReadRows(read, []) == [];
  }

  /** The entries read so far and the paths inside each folder. */
  datatype Groups = Groups(entries: Entries, children: map<bytes, seq<bytes>>)

  /** A row added to them; `None` where it cannot be read or its path is repeated. */
  function AddRow(read: Reader, g: Groups, row: Row): Option<Groups> {
    var named := read(row);
    if named.None? || named.value.path in g.entries then None
    else
      var path := named.value.path;
      var folder := Parent(path);
      Some(Groups(g.entries[path := named.value.entry], g.children[folder := Inside(g.children, folder) + [path]]))
  }

  type Step = (Groups, Row) -> Option<Groups>

  function RowStep(read: Reader): Step {
    (g, row) => AddRow(read, g, row)
  }

  /** The first `n` rows, taken one after another. */
  function Taken(step: Step, start: Groups, rows: seq<Row>, n: nat): Option<Groups>
    requires n <= |rows|
  {
    if n == 0 then Some(start)
    else
      var before := Taken(step, start, rows, n - 1);
      if before.None? then None else step(before.value, rows[n - 1])
  }

  lemma {:induction false} TakenStaysNone(step: Step, start: Groups, rows: seq<Row>, m: nat, n: nat)
    requires m <= n <= |rows| && Taken(step, start, rows, m).None?
    ensures Taken(step, start, rows, n).None?
  {
    if m < n {
      TakenStaysNone(step, start, rows, m, n - 1);
    }
  }

  /** The first loop of `git_tree`, over any step. */
  method TakeRows(step: Step, start: Groups, rows: seq<Row>) returns (r: Option<Groups>)
    ensures r == Taken(step, start, rows, |rows|)
  {
    var groups, i := start, 0;
    while i < |rows|
      invariant i <= |rows| && Taken(step, start, rows, i) == Some(groups)
    {
      var next := step(groups, rows[i]);
      if next.None? {
        TakenStaysNone(step, start, rows, i + 1, |rows|);
        return None;
      }
      groups, i := next.value, i + 1;
    }
    return Some(groups);
  }

  lemma AddRowMeaning(read: Reader, rows: seq<Row>, i: nat, g: Groups)
    requires Sound(read) && i < |rows| && GroupedUpTo(read, rows, i, g.entries, g.children)
    ensures AddRow(read, g, rows[i]).None? ==> !Legible(read, rows)
    ensures AddRow(read, g, rows[i]).Some? ==>
              var next := AddRow(read, g, rows[i]).value;
              GroupedUpTo(read, rows, i + 1, next.entries, next.children)
  {
    if read(rows[i]).None? {
      UnreadableRow(read, rows, i);
    } else {
      GroupedNext(read, rows, i, g.entries, g.children, read(rows[i]).value);
    }
  }

  /** The groups after some rows; the loop has met no row that spoils the listing. */
  ghost predicate Holds(read: Reader, rows: seq<Row>, n: nat, g: Option<Groups>)
    requires Sound(read)
  {
    if g.None? then !Legible(read, rows) else GroupedUpTo(read, rows, n, g.value.entries, g.value.children)
  }

  /** One row more keeps the groups right, or shows that the listing is spoiled. */
  ghost predicate GoodStep(read: Reader, step: Step, rows: seq<Row>)
    requires Sound(read)
  {
    forall i: nat, g {:trigger step(g, rows[i])} | i < |rows| && Holds(read, rows, i, Some(g)) ::
      Holds(read, rows, i + 1, step(g, rows[i]))
  }

  lemma RowStepIsGood(read: Reader, rows: seq<Row>)
    requires Sound(read)
    ensures GoodStep(read, RowStep(read), rows)
  {
    forall i: nat, g | i < |rows| && Holds(read, rows, i, Some(g))
      ensures Holds(read, rows, i + 1, RowStep(read)(g, rows[i]))
    {
      AddRowMeaning(read, rows, i, g);
    }
  }

  /** Grouping fails exactly where a row cannot be read or repeats a path, and else groups all the rows. */
  lemma {:induction false} TakenMeaning(read: Reader, step: Step, start: Groups, rows: seq<Row>, n: nat)
    requires Sound(read) && n <= |rows| && GoodStep(read, step, rows) && Holds(read, rows, 0, Some(start))
    ensures Holds(read, rows, n, Taken(step, start, rows, n))
  {
    if n > 0 {
      TakenMeaning(read, step, start, rows, n - 1);
    }
  }

  /** It reads the rows, refuses a repeated path, and groups the paths by folder. */
  method GroupRows(read: Reader, rows: seq<Row>)
    returns (ok: bool, entries: Entries, children: map<bytes, seq<bytes>>)
    requires Sound(read)
    ensures ok <==> Legible(read, rows)
    ensures ok ==> entries == EntriesOf(ReadRows(read, rows)) && Grouped(entries, children)
  {
    NothingGrouped(read, rows);
    RowStepIsGood(read, rows);
    TakenMeaning(read, RowStep(read), Groups(map[], map[]), rows, |rows|);
    var groups := TakeRows(RowStep(read), Groups(map[], map[]), rows);
    if groups.None? {
      return false, map[], map[];
    }
    entries, children := groups.value.entries, groups.value.children;
    GroupedAll(read, rows, entries, children);
    ok := true;
  }

  lemma UnreadableRow(read: Reader, rows: seq<Row>, i: nat)
    requires i < |rows| && read(rows[i]).None?
    ensures !Legible(read, rows)
  {
  }

  lemma NotLegible(read: Reader, rows: seq<Row>, n: nat)
    requires n <= |rows| && !Legible(read, rows[..n])
    ensures !Legible(read, rows)
  {
    if Legible(read, rows) {
      LegiblePrefix(read, rows, n);
    }
  }

  /** The remaining checks: every path lies in a listed folder, and every folder has its recorded id. */
  method CheckTree(hash: bytes -> bytes, entries: Entries, children: map<bytes, seq<bytes>>, root: bytes)
    returns (ok: bool)
    requires AllEncodable(entries) && Grouped(entries, children)
    ensures ok <==> Reassembles(hash, entries, root)
  {
    RootBound(hash, entries, root);
    if !Rooted(entries) {
      return false;
    }
    var id := Assemble(hash, entries, children, []);
    return id == Ok(root);
  }

  /** `git_tree(value, expected)`, for any sound way of reading rows. */
  method ReadTree(read: Reader, hash: bytes -> bytes, reply: Reply, expected: string) returns (r: Result<Entries>)
    requires Sound(read)
    ensures r.Ok? <==> Accepts(read, hash, reply, expected)
    ensures r.Ok? <==> IsGenuine(read, hash, reply, expected)
    ensures r.Ok? ==> r.value == Leaves(ListingOf(read, reply))
    ensures r.Ok? ==> HoldsLeaves(read, reply.rows, r.value)
  {
    AcceptsExactly(read, hash, reply, expected);
    if !IsSha(expected) || reply.sha != expected || reply.truncated || |reply.rows| > MAX_TREE_ENTRIES {
      return Invalid;
    }
    var ok, entries, children := GroupRows(read, reply.rows);
    if !ok {
      return Invalid;
    }
    ok := CheckTree(hash, entries, children, FromHex(expected));
    if !ok {
      return Invalid;
    }
    LeavesAreRows(read, reply.rows);
    return Ok(Leaves(entries));
  }

  /** The reply is accepted, its rows read from text. */
  ghost predicate AcceptsText(table: char -> bool, hash: bytes -> bytes, reply: Reply, expected: string) {
    RowReaderSound(table);
    Accepts(RowReader(table), hash, reply, expected)
  }

  /** `git_tree(value, expected)` on text. */
  method ReadTreeText(table: char -> bool, hash: bytes -> bytes, reply: Reply, expected: string)
    returns (r: Result<Entries>)
    ensures r.Ok? <==> AcceptsText(table, hash, reply, expected)
    ensures r.Ok? <==> IsGenuine(RowReader(table), hash, reply, expected)
    ensures r.Ok? ==> r.value == (RowReaderSound(table); Leaves(ListingOf(RowReader(table), reply)))
  {
    RowReaderSound(table);
    r := ReadTree(RowReader(table), hash, reply, expected);
  }
}

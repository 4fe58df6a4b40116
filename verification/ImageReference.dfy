/** `reference` (scripts/dependency_image_registry.py) and the form in which `token` and `resolve` print a row: parsing and
    printing are inverse on exactly the canonical rows. */
module ImageReference {
  import opened Text

  datatype Row = Row(name: string, registry: string, repository: string, tag: Option<string>, digest: Option<string>)

  // ---------------------------------------------------------------- character classes

  predicate IsLower(c: char) {
    'a' <= c <= 'z'
  }

  predicate IsPartChar(c: char) {
    IsLower(c) || IsDigit(c) || c == '.' || c == '_' || c == '-'
  }

  /** One component of a repository name. */
  predicate IsPart(s: string) {
    1 <= |s| <= 128 && (IsLower(s[0]) || IsDigit(s[0])) && forall i | 0 <= i < |s| :: IsPartChar(s[i])
  }

  predicate IsTagChar(c: char) {
    IsPartChar(c) || 'A' <= c <= 'Z'
  }

  predicate IsTag(s: string) {
    1 <= |s| <= 128 && s[0] != '.' && s[0] != '-' && forall i | 0 <= i < |s| :: IsTagChar(s[i])
  }

  predicate IsDigest(s: string) {
    |s| == 71 && s[..7] == "sha256:" && forall i | 7 <= i < |s| :: IsHex(s[i])
  }

  predicate IsPrintable(s: string) {
    forall i | 0 <= i < |s| :: '!' <= s[i] <= '~'
  }

  // ---------------------------------------------------------------- parsing and printing

  const DOCKER := "docker.io"
  const GITHUB := "ghcr.io"

  predicate IsRegistryHost(s: string) {
    s == DOCKER || s == "index.docker.io" || s == "registry-1.docker.io" || s == GITHUB
  }

  function Last(parts: seq<string>): string
    requires parts != []
  {
    parts[|parts| - 1]
  }

  /** A name and its tag: the tag follows the last colon, where one is in the last path component. */
  datatype Tagged = Tagged(name: string, tag: Option<string>)

  function SplitTag(s: string): Tagged {
    if ':' in Last(Split(s, '/')) then
      var pieces := Split(s, ':');
      Tagged(Join(pieces[..|pieces| - 1], ":"), Some(Last(pieces)))
    else Tagged(s, None)
  }

  /** The registry and the rest of the path; `None` where the first component is another host. */
  function SplitRegistry(parts: seq<string>): Option<(string, seq<string>)>
    requires parts != []
  {
    if IsRegistryHost(parts[0]) then Some((if parts[0] == GITHUB then GITHUB else DOCKER, parts[1..]))
    else if '.' in parts[0] || ':' in parts[0] then None
    else Some((DOCKER, parts))
  }

  predicate AllParts(parts: seq<string>) {
    forall i | 0 <= i < |parts| :: IsPart(parts[i])
  }

  /** The row of a registry and path, with the default folder of the Docker registry put in front. */
  function RowOf(registry: string, path: seq<string>, tag: Option<string>, digest: Option<string>): Option<Row> {
    if !(1 <= |path| <= 8) || !AllParts(path) then None
    else
      var parts := if registry == DOCKER && |path| == 1 then ["library"] + path else path;
      var repository := Join(parts, "/");
      if |parts| < 2 || |repository| > 255 then None
      else Some(Row(registry + "/" + repository, registry, repository, tag, digest))
  }

  function ParseName(s: string, digest: Option<string>): Option<Row> {
    var tagged := SplitTag(s);
    if (tagged.tag.Some? && !IsTag(tagged.tag.value)) || (tagged.tag.None? && digest.None?) then None
    else
      var split := SplitRegistry(Split(tagged.name, '/'));
      if split.None? then None else RowOf(split.value.0, split.value.1, tagged.tag, digest)
  }

  /** `reference(value)`; `None` where the source raises. */
  function Parse(value: string): Option<Row> {
    if !(0 < |value| <= 512) || !IsPrintable(value) then None
    else
      ParsePieces(Split(RemovePrefix(value, "docker://"), '@'))
  }

  /** What precedes and follows the at sign. */
  function ParsePieces(pieces: seq<string>): Option<Row> {
    if !(1 <= |pieces| <= 2) then None
    else if |pieces| == 1 then ParseName(pieces[0], None)
    else if !IsDigest(pieces[1]) then None
    else ParseName(pieces[0], Some(pieces[1]))
  }

  function Suffix(separator: string, s: Option<string>): string {
    if s.Some? && s.value != "" then separator + s.value else ""
  }

  /** The form that `token` and `resolve` print. */
  function Print(row: Row): string {
    row.name + Suffix(":", row.tag) + Suffix("@", row.digest)
  }

  // ---------------------------------------------------------------- canonical rows

  predicate IsRepository(s: string) {
    var parts := Split(s, '/');
    2 <= |parts| <= 8 && AllParts(parts) && |s| <= 255
  }

  /** The rows that stand for one image and nothing else. */
  predicate Canonical(row: Row) {
    && (row.registry == DOCKER || row.registry == GITHUB)
    && IsRepository(row.repository) && row.name == row.registry + "/" + row.repository
    && (row.tag.Some? ==> IsTag(row.tag.value)) && (row.digest.Some? ==> IsDigest(row.digest.value))
    && (row.tag.Some? || row.digest.Some?)
  }

  lemma PartsHaveNoSeparator(parts: seq<string>, c: char)
    requires AllParts(parts) && !IsPartChar(c)
    ensures forall i | 0 <= i < |parts| :: c !in parts[i]
  {
  }

  lemma RowOfIsCanonical(registry: string, path: seq<string>, tag: Option<string>, digest: Option<string>)
    requires registry == DOCKER || registry == GITHUB
    requires (tag.Some? ==> IsTag(tag.value)) && (digest.Some? ==> IsDigest(digest.value))
    requires tag.Some? || digest.Some?
    requires RowOf(registry, path, tag, digest).Some?
    ensures Canonical(RowOf(registry, path, tag, digest).value)
  {
    var parts := if registry == DOCKER && |path| == 1 then ["library"] + path else path;
    assert IsPart("library");
    assert AllParts(parts);
    PartsHaveNoSeparator(parts, '/');
    SplitJoin(parts, '/');
  }

  /** Whatever is accepted is canonical. */
  lemma ParsedIsCanonical(value: string)
    requires Parse(value).Some?
    ensures Canonical(Parse(value).value)
  {
    var pieces := Split(RemovePrefix(value, "docker://"), '@');
    var digest := if |pieces| == 1 then None else Some(pieces[1]);
    var tagged := SplitTag(pieces[0]);
    var split := SplitRegistry(Split(tagged.name, '/')).value;
    RowOfIsCanonical(split.0, split.1, tagged.tag, digest);
  }

  // ---------------------------------------------------------------- reading a printed row

  lemma {:induction false} JoinWithout(parts: seq<string>, sep: string, c: char)
    requires c !in sep && forall i | 0 <= i < |parts| :: c !in parts[i]
    ensures c !in Join(parts, sep)
  {
    if |parts| > 1 {
      JoinWithout(parts[1..], sep, c);
    }
  }

  function WithLast(parts: seq<string>, x: string): seq<string>
    requires parts != []
  {
    parts[..|parts| - 1] + [Last(parts) + x]
  }

  lemma {:induction false} JoinAppend(parts: seq<string>, sep: string, x: string)
    requires parts != []
    ensures Join(WithLast(parts, x), sep) == Join(parts, sep) + x
  {
    if |parts| > 1 {
      var tail := parts[1..];
      JoinAppend(tail, sep, x);
      assert WithLast(parts, x)[1..] == WithLast(tail, x);
      JoinStep(WithLast(parts, x), sep);
      JoinStep(parts, sep);
      assert parts[0] + (sep + (Join(tail, sep) + x)) == parts[0] + (sep + Join(tail, sep)) + x;
    } else {
      assert WithLast(parts, x) == [parts[0] + x];
    }
  }

  /** Text without the separator goes to the last part. */
  lemma SplitAppend(s: string, x: string, c: char)
    requires c !in x
    ensures Last(Split(s + x, c)) == Last(Split(s, c)) + x
  {
    var parts := Split(s, c);
    JoinSplit(s, c);
    JoinAppend(parts, [c], x);
    SplitJoin(WithLast(parts, x), c);
  }

  lemma NameParts(row: Row)
    requires Canonical(row)
    ensures var parts := Split(row.repository, '/');
            && Split(row.name, '/') == [row.registry] + parts
            && Join(parts, "/") == row.repository
            && ':' !in row.name && '@' !in row.name && ':' !in Last(Split(row.name, '/'))
  {
    var parts := Split(row.repository, '/');
    JoinSplit(row.repository, '/');
    var all := [row.registry] + parts;
    RegistryIsPlain(row.registry);
    PartsHaveNoSeparator(parts, '/');
    PartsHaveNoSeparator(parts, ':');
    PartsHaveNoSeparator(parts, '@');
    assert all[1..] == parts;
    assert row.name == Join(all, "/");
    SplitJoin(all, '/');
    JoinWithout(all, "/", ':');
    JoinWithout(all, "/", '@');
  }

  lemma RegistryIsPlain(registry: string)
    requires registry == DOCKER || registry == GITHUB
    ensures '/' !in registry && ':' !in registry && '@' !in registry && 7 <= |registry| <= 9
    ensures IsPrintable(registry) && IsRegistryHost(registry)
  {
  }

  lemma ColonIsRead(name: string, tag: string)
    requires ':' !in name && ':' !in tag
    ensures Split(name + (":" + tag), ':') == [name, tag]
    ensures Join([name, tag][..1], ":") == name
  {
    SplitFirst(name, tag, ':');
    SplitFirst(tag, "", ':');
    assert name + [':'] + tag == name + (":" + tag);
    assert [name, tag][..1] == [name];
  }

  /** The tag of a printed name is read back, and only that. */
  lemma TagIsRead(row: Row)
    requires Canonical(row)
    ensures SplitTag(row.name + Suffix(":", row.tag)) == Tagged(row.name, row.tag)
  {
    NameParts(row);
    if row.tag.Some? {
      var tag := row.tag.value;
      SplitAppend(row.name, ":" + tag, '/');
      ColonIsRead(row.name, tag);
    } else {
      assert row.name + "" == row.name;
    }
  }

  lemma PathIsRead(row: Row)
    requires Canonical(row)
    ensures RowOf(row.registry, Split(row.repository, '/'), row.tag, row.digest) == Some(row)
  {
    JoinSplit(row.repository, '/');
  }

  lemma RegistryIsRead(registry: string, parts: seq<string>)
    requires registry == DOCKER || registry == GITHUB
    ensures SplitRegistry([registry] + parts) == Some((registry, parts))
  {
    assert ([registry] + parts)[1..] == parts;
    assert |DOCKER| != |GITHUB|;
  }

  lemma NameIsRead(row: Row)
    requires Canonical(row)
    ensures ParseName(row.name + Suffix(":", row.tag), row.digest) == Some(row)
  {
    TagIsRead(row);
    NameParts(row);
    RegistryIsRead(row.registry, Split(row.repository, '/'));
    PathIsRead(row);
  }

  lemma PrintableConcat(a: string, b: string)
    requires IsPrintable(a) && IsPrintable(b)
    ensures IsPrintable(a + b)
  {
  }

  lemma {:induction false} PrintableJoin(parts: seq<string>)
    requires AllParts(parts)
    ensures IsPrintable(Join(parts, "/"))
  {
    if |parts| > 1 {
      PrintableJoin(parts[1..]);
      PrintableConcat(parts[0], "/");
      PrintableConcat(parts[0] + "/", Join(parts[1..], "/"));
    }
  }

  lemma DigestIsPlain(digest: string)
    requires IsDigest(digest)
    ensures IsPrintable(digest) && '@' !in digest
  {
    assert forall i | 0 <= i < 7 :: digest[i] == digest[..7][i];
    assert forall i | 0 <= i < |digest| :: digest[i] != '@';
  }

  /** The printed form never reaches the limit on a reference. */
  lemma PrintedFits(row: Row)
    requires Canonical(row)
    ensures 0 < |Print(row)| <= 466
    ensures IsPrintable(Print(row))
  {
    RegistryIsPlain(row.registry);
    NameParts(row);
    PrintableJoin(Split(row.repository, '/'));
    PrintableConcat(row.registry, "/");
    PrintableConcat(row.registry + "/", row.repository);
    var tag, digest := Suffix(":", row.tag), Suffix("@", row.digest);
    assert IsPrintable(tag);
    if row.digest.Some? {
      DigestIsPlain(row.digest.value);
      PrintableConcat("@", row.digest.value);
    }
    PrintableConcat(row.name, tag);
    PrintableConcat(row.name + tag, digest);
  }

  lemma PrintedHasNoScheme(row: Row)
    requires Canonical(row)
    ensures RemovePrefix(Print(row), "docker://") == Print(row)
  {
    var s, scheme := Print(row), "docker://";
    RegistryIsPlain(row.registry);
    assert s[0] == row.registry[0] && s[6] == row.registry[6];
    if row.registry == GITHUB {
      assert s[0] != scheme[0];
    } else {
      assert s[6] != scheme[6];
    }
  }

  lemma PiecesOf(tagged: string, digest: Option<string>)
    requires '@' !in tagged && (digest.Some? ==> IsDigest(digest.value))
    ensures Split(tagged + Suffix("@", digest), '@') == if digest.Some? then [tagged, digest.value] else [tagged]
  {
    if digest.Some? {
      DigestIsPlain(digest.value);
      SplitFirst(tagged, digest.value, '@');
      SplitFirst(digest.value, "", '@');
      assert tagged + Suffix("@", digest) == tagged + ['@'] + digest.value;
    } else {
      SplitFirst(tagged, "", '@');
      assert tagged + "" == tagged;
    }
  }

  lemma TaggedHasNoAt(row: Row)
    requires Canonical(row)
    ensures '@' !in row.name + Suffix(":", row.tag)
  {
    NameParts(row);
  }

  /** Printing a canonical row and parsing it gives the row back. */
  lemma PrintedIsRead(row: Row)
    requires Canonical(row)
    ensures Parse(Print(row)) == Some(row)
  {
    PrintedFits(row);
    PrintedHasNoScheme(row);
    NameIsRead(row);
    TaggedHasNoAt(row);
    PiecesOf(row.name + Suffix(":", row.tag), row.digest);
  }

  /** The test `reference(printed) == row` of `token` and `resolve` holds of the canonical rows and of no others. */
  lemma GuardAcceptsExactlyCanonical(row: Row)
    ensures Parse(Print(row)) == Some(row) <==> Canonical(row)
  {
    if Canonical(row) {
      PrintedIsRead(row);
    }
    if Parse(Print(row)) == Some(row) {
      ParsedIsCanonical(Print(row));
    }
  }

  /** Every accepted reference prints to one that is read as the same row and is at most 466 characters long. */
  lemma ReferenceRoundTrip(value: string)
    requires Parse(value).Some?
    ensures Parse(Print(Parse(value).value)) == Parse(value)
    ensures |Print(Parse(value).value)| <= 466
  {
    ParsedIsCanonical(value);
    PrintedIsRead(Parse(value).value);
    PrintedFits(Parse(value).value);
  }
}

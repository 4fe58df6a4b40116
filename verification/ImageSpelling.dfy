/** Which texts `reference` (scripts/dependency_image_registry.py) accepts, and for which row: the spellings of a row are
    written out, and parsing accepts exactly these. */
module ImageSpelling {
  import opened Text
  import opened ImageReference

  /** The registry, where one is written, and the path. */
  function Written(host: Option<string>, path: seq<string>): string {
    (if host.Some? then host.value + "/" else "") + Join(path, "/")
  }

  /** The host names a registry; without one the registry is Docker's, and the path does not look like a host. */
  predicate NamesRegistry(host: Option<string>, path: seq<string>, registry: string) {
    match host
    case None => path != [] && '.' !in path[0] && registry == "docker.io"
    case Some(h) =>
      || (h == "ghcr.io" && registry == "ghcr.io")
      || ((h == "docker.io" || h == "index.docker.io" || h == "registry-1.docker.io") && registry == "docker.io")
  }

  /** The repository of a path: a single name at Docker's registry lies in its library. */
  predicate NamesRepository(registry: string, path: seq<string>, repository: string) {
    && 1 <= |path| <= 8 && AllParts(path) && |repository| <= 255
    && if |path| >= 2 then repository == Join(path, "/")
       else registry == "docker.io" && repository == "library/" + path[0]
  }

  /** Host and path stand for the row, which has a tag or a digest. */
  predicate Names(host: Option<string>, path: seq<string>, row: Row) {
    && NamesRegistry(host, path, row.registry) && NamesRepository(row.registry, path, row.repository)
    && row.name == row.registry + "/" + row.repository
    && (row.tag.Some? ==> IsTag(row.tag.value)) && (row.digest.Some? ==> IsDigest(row.digest.value))
    && (row.tag.Some? || row.digest.Some?)
  }

  /** A text of at most 512 characters that spells the row: the scheme or nothing, host and path, tag, digest. */
  ghost predicate Spells(value: string, row: Row) {
    && |value| <= 512
    && exists scheme, host, path ::
         && (scheme == "" || scheme == "docker://") && Names(host, path, row)
         && value == scheme + (Written(host, path) + Suffix(":", row.tag) + Suffix("@", row.digest))
  }

  // ---------------------------------------------------------------- spellings are read

  /** Text without the signs that separate the parts of a reference. */
  predicate Plain(s: string) {
    s != "" && ':' !in s && '@' !in s && IsPrintable(s)
  }

  /** The four hosts are plain text with a dot and without a slash. */
  predicate HostLike(h: string) {
    Plain(h) && '/' !in h && '.' in h
  }

  lemma DockerIsHost()
    ensures HostLike("docker.io")
  {
    assert "docker.io"[6] == '.';
  }

  lemma IndexIsHost()
    ensures HostLike("index.docker.io")
  {
    assert "index.docker.io"[5] == '.';
  }

  lemma RegistryIsHost()
    ensures HostLike("registry-1.docker.io")
  {
    assert "registry-1.docker.io"[10] == '.';
  }

  lemma GithubIsHost()
    ensures HostLike("ghcr.io")
  {
    assert "ghcr.io"[4] == '.';
  }

  lemma HostIsPlain(h: string)
    requires IsRegistryHost(h)
    ensures HostLike(h)
  {
    DockerIsHost();
    IndexIsHost();
    RegistryIsHost();
    GithubIsHost();
  }

  lemma PathIsPlain(path: seq<string>)
    requires path != [] && AllParts(path)
    ensures Plain(Join(path, "/")) && Split(Join(path, "/"), '/') == path
  {
    PartsHaveNoSeparator(path, '/');
    PartsHaveNoSeparator(path, ':');
    PartsHaveNoSeparator(path, '@');
    JoinWithout(path, "/", ':');
    JoinWithout(path, "/", '@');
    PrintableJoin(path);
    SplitJoin(path, '/');
    JoinNotEmpty(path);
  }

  lemma PlainPair(h: string, rest: string)
    requires HostLike(h) && Plain(rest)
    ensures Plain(h + "/" + rest) && Split(h + "/" + rest, '/') == [h] + Split(rest, '/')
  {
    SplitFirst(h, rest, '/');
    assert h + ['/'] + rest == h + "/" + rest;
  }

  function Components(host: Option<string>, path: seq<string>): seq<string> {
    (if host.Some? then [host.value] else []) + path
  }

  lemma NameIsPlain(host: Option<string>, path: seq<string>)
    requires path != [] && AllParts(path) && (host.Some? ==> HostLike(host.value))
    ensures Plain(Written(host, path)) && Split(Written(host, path), '/') == Components(host, path)
  {
    PathIsPlain(path);
    if host.Some? {
      PlainPair(host.value, Join(path, "/"));
    } else {
      assert "" + Join(path, "/") == Join(path, "/") && [] + path == path;
    }
  }

  lemma JoinNotEmpty(path: seq<string>)
    requires path != [] && AllParts(path)
    ensures Join(path, "/") != ""
  {
    assert IsPart(path[0]);
  }

  /** A name followed by tag and digest never starts with the scheme. */
  lemma NotTheScheme(name: string, tag: Option<string>, digest: Option<string>)
    requires Plain(name) && (tag.Some? || digest.Some?)
    requires (tag.Some? ==> IsTag(tag.value)) && (digest.Some? ==> IsDigest(digest.value))
    ensures !("docker://" <= name + Suffix(":", tag) + Suffix("@", digest))
  {
    var s, scheme, n := name + Suffix(":", tag) + Suffix("@", digest), "docker://", |name|;
    assert scheme[6] == ':' && scheme[7] == '/' && forall i | 0 <= i < 6 :: scheme[i] != ':' && scheme[i] != '@';
    if n > 6 {
      assert s[6] == name[6];
    } else if tag.Some? {
      assert s[n] == ':' && s[n + 1] == tag.value[0];
      assert IsTagChar(tag.value[0]);
    } else {
      assert s[n] == '@';
    }
  }

  lemma NameTagIsRead(name: string, parts: seq<string>, tag: Option<string>)
    requires ':' !in name && parts != [] && Split(name, '/') == parts && (tag.Some? ==> IsTag(tag.value))
    ensures SplitTag(name + Suffix(":", tag)) == Tagged(name, tag)
  {
    JoinSplit(name, '/');
    LastWithout(name, ':');
    if tag.Some? {
      SplitAppend(name, ":" + tag.value, '/');
      ColonIsRead(name, tag.value);
    } else {
      assert name + "" == name;
    }
  }

  lemma {:induction false} LastWithout(s: string, c: char)
    requires c !in s
    ensures forall i | 0 <= i < |Split(s, '/')| :: c !in Split(s, '/')[i]
  {
    if s != "" {
      LastWithout(s[1..], c);
    }
  }

  lemma RepositoryIs(registry: string, path: seq<string>, row: Row)
    requires NamesRepository(registry, path, row.repository) && registry == row.registry
    requires row.name == registry + "/" + row.repository
    ensures RowOf(registry, path, row.tag, row.digest) == Some(row)
  {
    if |path| == 1 {
      LibraryJoin(path[0]);
      assert ["library"] + path == ["library", path[0]];
    }
  }

  lemma NamedHost(host: Option<string>, path: seq<string>, registry: string)
    requires NamesRegistry(host, path, registry) && host.Some?
    ensures IsRegistryHost(host.value) && HostLike(host.value)
  {
    HostIsPlain(host.value);
  }

  /** A name is read by its tag, its registry and its path, one after another. */
  lemma ReadInTurn(s: string, tagged: Tagged, registry: string, path: seq<string>, digest: Option<string>)
    requires SplitTag(s) == tagged && (tagged.tag.Some? ==> IsTag(tagged.tag.value))
    requires tagged.tag.Some? || digest.Some?
    requires SplitRegistry(Split(tagged.name, '/')) == Some((registry, path))
    ensures ParseName(s, digest) == RowOf(registry, path, tagged.tag, digest)
  {
  }

  lemma WrittenIsRead(host: Option<string>, path: seq<string>, row: Row)
    requires Names(host, path, row)
    ensures ParseName(Written(host, path) + Suffix(":", row.tag), row.digest) == Some(row)
  {
    var name := Written(host, path);
    if host.Some? {
      NamedHost(host, path, row.registry);
    }
    NameIsPlain(host, path);
    NameTagIsRead(name, Components(host, path), row.tag);
    RegistryAndPath(host, path, row.registry);
    ReadInTurn(name + Suffix(":", row.tag), Tagged(name, row.tag), row.registry, path, row.digest);
    RepositoryIs(row.registry, path, row);
  }

  lemma LibraryJoin(name: string)
    ensures Join(["library", name], "/") == "library/" + name
  {
    assert ["library", name][1..] == [name];
  }

  lemma RegistryAndPath(host: Option<string>, path: seq<string>, registry: string)
    requires path != [] && AllParts(path) && NamesRegistry(host, path, registry)
    ensures SplitRegistry(Components(host, path)) == Some((registry, path))
  {
    var parts := Components(host, path);
    if host.Some? {
      assert parts[1..] == path;
    } else {
      assert parts == path;
      PartsHaveNoSeparator(path, ':');
      if IsRegistryHost(path[0]) {
        HostIsPlain(path[0]);
      }
    }
  }

  lemma TaggedIsPlain(name: string, tag: Option<string>)
    requires Plain(name) && (tag.Some? ==> IsTag(tag.value))
    ensures '@' !in name + Suffix(":", tag)
  {
  }

  lemma SpellingIsRead(value: string, row: Row)
    requires Spells(value, row)
    ensures Parse(value) == Some(row)
  {
    var scheme, host, path :|
      && (scheme == "" || scheme == "docker://") && Names(host, path, row)
      && value == scheme + (Written(host, path) + Suffix(":", row.tag) + Suffix("@", row.digest));
    var tagged := Written(host, path) + Suffix(":", row.tag);
    NameOfRow(host, path, row);
    NotTheScheme(Written(host, path), row.tag, row.digest);
    RestIsPrintable(Written(host, path), row.tag, row.digest);
    SchemeRemoved(scheme, tagged + Suffix("@", row.digest));
    WrittenIsRead(host, path, row);
    TaggedIsPlain(Written(host, path), row.tag);
    PiecesOf(tagged, row.digest);
    PiecesRead(tagged, row.digest);
  }

  lemma NameOfRow(host: Option<string>, path: seq<string>, row: Row)
    requires Names(host, path, row)
    ensures Plain(Written(host, path))
  {
    if host.Some? {
      NamedHost(host, path, row.registry);
    }
    NameIsPlain(host, path);
  }

  lemma PiecesRead(tagged: string, digest: Option<string>)
    requires digest.Some? ==> IsDigest(digest.value)
    ensures ParsePieces(if digest.Some? then [tagged, digest.value] else [tagged]) == ParseName(tagged, digest)
  {
  }

  lemma SchemeRemoved(scheme: string, rest: string)
    requires scheme == "" || scheme == "docker://"
    requires !("docker://" <= rest) && rest != "" && IsPrintable(rest)
    ensures RemovePrefix(scheme + rest, "docker://") == rest && IsPrintable(scheme + rest) && scheme + rest != ""
  {
    var value := scheme + rest;
    assert value[|scheme|..] == rest;
    assert scheme == "" ==> value == rest;
  }

  lemma RestIsPrintable(name: string, tag: Option<string>, digest: Option<string>)
    requires Plain(name)
    requires (tag.Some? ==> IsTag(tag.value)) && (digest.Some? ==> IsDigest(digest.value))
    ensures IsPrintable(name + Suffix(":", tag) + Suffix("@", digest)) && name + Suffix(":", tag) + Suffix("@", digest) != ""
  {
    assert IsPrintable(Suffix(":", tag));
    if digest.Some? {
      DigestIsPlain(digest.value);
      PrintableConcat("@", digest.value);
    }
    PrintableConcat(name, Suffix(":", tag));
    PrintableConcat(name + Suffix(":", tag), Suffix("@", digest));
  }

  // ---------------------------------------------------------------- only spellings are read

  lemma JoinPair(a: string, b: string)
    ensures Join([a, b], "@") == a + "@" + b
  {
    assert [a, b][1..] == [b];
  }

  function DigestOf(pieces: seq<string>): Option<string> {
    if |pieces| == 2 then Some(pieces[1]) else None
  }

  /** The pieces of a text before and after its at sign. */
  lemma PiecesAre(rest: string, pieces: seq<string>)
    requires Split(rest, '@') == pieces && ParsePieces(pieces).Some?
    ensures pieces != [] && (DigestOf(pieces).Some? ==> IsDigest(DigestOf(pieces).value))
    ensures ParsePieces(pieces) == ParseName(pieces[0], DigestOf(pieces))
    ensures rest == pieces[0] + Suffix("@", DigestOf(pieces))
  {
    JoinSplit(rest, '@');
    if |pieces| == 1 {
      assert pieces[0] + "" == pieces[0];
    } else {
      assert pieces == [pieces[0], pieces[1]];
      JoinPair(pieces[0], pieces[1]);
      assert pieces[0] + "@" + pieces[1] == pieces[0] + ("@" + pieces[1]);
    }
  }

  lemma TagIs(s: string)
    requires SplitTag(s).tag.Some? ==> IsTag(SplitTag(s).tag.value)
    ensures s == SplitTag(s).name + Suffix(":", SplitTag(s).tag)
  {
    if SplitTag(s).tag.Some? {
      var pieces := Split(s, ':');
      JoinSplit(s, ':');
      LastPiece(pieces);
      ColonSplits(s);
    } else {
      assert s + "" == s;
    }
  }

  lemma ColonSplits(s: string)
    requires ':' in Last(Split(s, '/'))
    ensures |Split(s, ':')| >= 2
  {
    if |Split(s, ':')| == 1 {
      JoinSplit(s, ':');
      LastWithout(s, ':');
      assert false;
    }
  }

  lemma {:induction false} LastPiece(pieces: seq<string>)
    requires pieces != []
    ensures |pieces| >= 2 ==> Join(pieces, ":") == Join(pieces[..|pieces| - 1], ":") + (":" + Last(pieces))
  {
    var n := |pieces| - 1;
    if |pieces| == 2 {
      assert pieces[1..] == [pieces[1]] && pieces[..1] == [pieces[0]];
    } else if |pieces| > 2 {
      var tail := pieces[1..];
      LastPiece(tail);
      JoinStep(pieces, ":");
      JoinStep(pieces[..n], ":");
      assert pieces[..n][1..] == tail[..n - 1];
      assert pieces[0] + (":" + (Join(tail[..n - 1], ":") + (":" + Last(pieces)))) ==
             pieces[0] + (":" + Join(tail[..n - 1], ":")) + (":" + Last(pieces));
    }
  }

  lemma RegistryIs(parts: seq<string>, registry: string, path: seq<string>) returns (host: Option<string>)
    requires parts != [] && SplitRegistry(parts) == Some((registry, path)) && path != []
    ensures NamesRegistry(host, path, registry) && Written(host, path) == Join(parts, "/")
  {
    if IsRegistryHost(parts[0]) {
      host := Some(parts[0]);
      JoinStep(parts, "/");
      assert parts[0] + ("/" + Join(path, "/")) == parts[0] + "/" + Join(path, "/");
    } else {
      host := None;
      assert "" + Join(path, "/") == Join(path, "/");
    }
  }

  lemma NameIs(s: string, digest: Option<string>, row: Row)
    requires ParseName(s, digest) == Some(row) && (digest.Some? ==> IsDigest(digest.value))
    ensures exists host, path :: Names(host, path, row) && s == Written(host, path) + Suffix(":", row.tag)
    ensures row.digest == digest
  {
    var tagged := SplitTag(s);
    var parts := Split(tagged.name, '/');
    var split := SplitRegistry(parts).value;
    TagIs(s);
    JoinSplit(tagged.name, '/');
    var host := RegistryIs(parts, split.0, split.1);
    if |split.1| == 1 {
      LibraryJoin(split.1[0]);
      assert ["library"] + split.1 == ["library", split.1[0]];
    }
    assert Names(host, split.1, row);
  }

  lemma ReadIsSpelled(value: string, row: Row)
    requires Parse(value) == Some(row)
    ensures Spells(value, row)
  {
    var rest := RemovePrefix(value, "docker://");
    var scheme := if "docker://" <= value then "docker://" else "";
    assert value == scheme + rest;
    var pieces := Split(rest, '@');
    PiecesAre(rest, pieces);
    NameIs(pieces[0], DigestOf(pieces), row);
    var host, path :| Names(host, path, row) && pieces[0] == Written(host, path) + Suffix(":", row.tag);
    assert value == scheme + (Written(host, path) + Suffix(":", row.tag) + Suffix("@", row.digest));
  }

  /** A text is accepted for a row exactly where it spells the row. */
  lemma AcceptsExactly(value: string, row: Row)
    ensures Parse(value) == Some(row) <==> Spells(value, row)
  {
    if Parse(value) == Some(row) {
      ReadIsSpelled(value, row);
    }
    if Spells(value, row) {
      SpellingIsRead(value, row);
    }
  }
}

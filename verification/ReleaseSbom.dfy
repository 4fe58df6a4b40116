/** `public_components`, `bound_bom` and `verify_bom` (scripts/release_sbom.py): the public component list is a canonical
    form, and a release document is checked by building it again. */
module ReleaseSbom {
  import opened Ordering
  import opened Text

  datatype Kind = File | OperatingSystem | Library | Application | Unknown

  /** A component of a CycloneDX document; `extras` names whatever other fields it has. */
  datatype Component = Component(
    kind: Kind, name: Option<string>, version: Option<string>, purl: Option<string>, extras: set<string>)

  /** The checks on the coordinates of an operating system and of a package; the second also depends on whether Alpine
      packages are allowed. */
  datatype Checks = Checks(
    isSystem: (string, string) -> bool,
    isPackage: (bool, string, string, string) -> bool)

  /** Only Alpine is accepted as a system, and every package URL starts with its scheme. */
  ghost predicate Sound(k: Checks) {
    && (forall n, v :: k.isSystem(n, v) ==> n == "alpine")
    && (forall allow, n, v, p :: k.isPackage(allow, n, v, p) ==> StartsWith(p, "pkg:"))
  }

  const MAX_COMPONENTS := 4096

  // ---------------------------------------------------------------- one component

  predicate IsSystem(k: Checks, allow: bool, c: Component) {
    allow && c.kind.OperatingSystem? && c.name.Some? && c.version.Some? && k.isSystem(c.name.value, c.version.value)
  }

  predicate IsPackage(k: Checks, allow: bool, c: Component) {
    && (c.kind.Library? || c.kind.Application?) && c.name.Some? && c.version.Some? && c.purl.Some?
    && k.isPackage(allow, c.name.value, c.version.value, c.purl.value)
  }

  /** What is exported of a component: its coordinates and nothing else. */
  function Clean(c: Component): Component {
    if c.kind.OperatingSystem? then Component(c.kind, c.name, c.version, None, {})
    else Component(c.kind, c.name, c.version, c.purl, {})
  }

  predicate Kept(k: Checks, allow: bool, c: Component) {
    IsSystem(k, allow, c) || IsPackage(k, allow, c)
  }

  /** The key under which a component is remembered. */
  function Identity(c: Component): string
    requires c.kind.OperatingSystem? ==> c.name.Some? && c.version.Some?
    requires !c.kind.OperatingSystem? ==> c.purl.Some?
  {
    if c.kind.OperatingSystem? then "os:" + c.name.value + "@" + c.version.value else c.purl.value
  }

  // ---------------------------------------------------------------- the sort key

  /** A text in a tuple: shifted code points, ended by a zero, so that a prefix comes first. */
  function Field(s: string): seq<int> {
    seq(|s|, i requires 0 <= i < |s| => s[i] as int + 1) + [0]
  }

  function TextOf(s: Option<string>): string {
    if s.Some? then s.value else ""
  }

  /** The tuple of package URL, name and version. */
  function Key(c: Component): seq<int> {
    Field(TextOf(c.purl)) + (Field(TextOf(c.name)) + Field(TextOf(c.version)))
  }

  lemma FieldStep(s: string)
    requires s != ""
    ensures Field(s) == [s[0] as int + 1] + Field(s[1..])
  {
  }

  /** Fields are compared as texts, and what follows them only where they agree. */
  lemma {:induction false} FieldOrder(a: string, x: seq<int>, b: string, y: seq<int>)
    ensures Before(Field(a) + x, Field(b) + y) <==> Less(a, b) || (a == b && Before(x, y))
  {
    BeforeIrreflexive(Codes(a));
    if a != "" && b != "" {
      FieldOrder(a[1..], x, b[1..], y);
      FieldStep(a);
      FieldStep(b);
      assert (Field(a) + x)[1..] == Field(a[1..]) + x && (Field(b) + y)[1..] == Field(b[1..]) + y;
      assert Codes(a)[1..] == Codes(a[1..]) && Codes(b)[1..] == Codes(b[1..]);
      if a[0] == b[0] && a[1..] == b[1..] {
        assert a == [a[0]] + a[1..] == b;
      }
    } else if a == "" && b == "" {
      assert (Field(a) + x)[1..] == x && (Field(b) + y)[1..] == y;
    }
  }

  /** Sorting by the key is sorting by the tuple. */
  lemma KeyOrder(a: Component, b: Component)
    ensures Before(Key(a), Key(b)) <==>
            || Less(TextOf(a.purl), TextOf(b.purl))
            || (TextOf(a.purl) == TextOf(b.purl) && Less(TextOf(a.name), TextOf(b.name)))
            || (TextOf(a.purl) == TextOf(b.purl) && TextOf(a.name) == TextOf(b.name)
                && Less(TextOf(a.version), TextOf(b.version)))
  {
    var va, vb := Field(TextOf(a.version)), Field(TextOf(b.version));
    FieldOrder(TextOf(a.purl), Field(TextOf(a.name)) + va, TextOf(b.purl), Field(TextOf(b.name)) + vb);
    FieldOrder(TextOf(a.name), va, TextOf(b.name), vb);
    FieldOrder(TextOf(a.version), [], TextOf(b.version), []);
    assert va + [] == va && vb + [] == vb;
  }

  lemma KeyDetermines(a: Component, b: Component)
    requires Key(a) == Key(b)
    ensures TextOf(a.purl) == TextOf(b.purl) && TextOf(a.name) == TextOf(b.name)
    ensures TextOf(a.version) == TextOf(b.version)
  {
    BeforeIrreflexive(Key(a));
    KeyOrder(a, b);
    KeyOrder(b, a);
    LessTrichotomy(TextOf(a.purl), TextOf(b.purl));
    LessTrichotomy(TextOf(a.name), TextOf(b.name));
    LessTrichotomy(TextOf(a.version), TextOf(b.version));
  }

  // ---------------------------------------------------------------- the whole list

  predicate Acceptable(k: Checks, allow: bool, c: Component) {
    c.kind.File? || Kept(k, allow, c)
  }

  /** The exported components of a list. */
  function Exported(k: Checks, allow: bool, items: seq<Component>): set<Component> {
    set i | 0 <= i < |items| && !items[i].kind.File? && Kept(k, allow, items[i]) :: Clean(items[i])
  }

  /** No package URL stands for two different packages. */
  predicate Agree(cs: set<Component>) {
    forall a, b | a in cs && b in cs && a.purl == b.purl && a.purl.Some? :: a == b
  }

  predicate Exportable(k: Checks, allow: bool, items: seq<Component>) {
    && 0 < |items| <= MAX_COMPONENTS
    && (forall i | 0 <= i < |items| :: Acceptable(k, allow, items[i]))
    && Exported(k, allow, items) != {} && Agree(Exported(k, allow, items))
  }

  /** An exported component. */
  predicate IsClean(k: Checks, allow: bool, c: Component) {
    Kept(k, allow, c) && c == Clean(c)
  }

  lemma ExportedIsClean(k: Checks, allow: bool, items: seq<Component>)
    ensures forall c | c in Exported(k, allow, items) :: IsClean(k, allow, c)
  {
  }

  /** No two exported components sort alike. */
  lemma ExportedKeysDiffer(k: Checks, allow: bool, cs: set<Component>)
    requires Sound(k) && Agree(cs) && forall c | c in cs :: IsClean(k, allow, c)
    ensures KeysDiffer(cs, Key)
  {
    forall a, b | a in cs && b in cs && Key(a) == Key(b) ensures a == b {
      KeyDetermines(a, b);
    }
  }

  /** `public_components(scanner_bom, allow_apk=...)`; `None` where the source raises. */
  function Public(k: Checks, allow: bool, items: seq<Component>): Option<seq<Component>>
    requires Sound(k)
  {
    if Exportable(k, allow, items) then
      ExportedIsClean(k, allow, items);
      ExportedKeysDiffer(k, allow, Exported(k, allow, items));
      Some(SortedBy(Exported(k, allow, items), Key))
    else None
  }

  // ---------------------------------------------------------------- the loop

  lemma ExportedStep(k: Checks, allow: bool, items: seq<Component>, i: nat)
    requires i < |items| && Acceptable(k, allow, items[i])
    ensures Exported(k, allow, items[..i + 1]) ==
            Exported(k, allow, items[..i]) + if items[i].kind.File? then {} else {Clean(items[i])}
  {
    var before, after := items[..i], items[..i + 1];
    assert forall j | 0 <= j < i :: before[j] == items[j] == after[j];
    assert after[i] == items[i];
  }

  lemma ExportedPrefix(k: Checks, allow: bool, items: seq<Component>, i: nat)
    requires i <= |items|
    ensures Exported(k, allow, items[..i]) <= Exported(k, allow, items)
  {
    var before := items[..i];
    assert forall j | 0 <= j < i :: before[j] == items[j];
  }

  lemma FirstLetter(k: Checks, allow: bool, c: Component)
    requires Sound(k) && IsClean(k, allow, c)
    ensures Identity(c) != "" && Identity(c)[0] == if c.kind.OperatingSystem? then 'o' else 'p'
  {
  }

  /** Components are remembered under different keys exactly where they must not be confused. */
  lemma IdentityDetermines(k: Checks, allow: bool, a: Component, b: Component)
    requires Sound(k) && IsClean(k, allow, a) && IsClean(k, allow, b)
    ensures Identity(a) == Identity(b) <==> a == b || (a.purl.Some? && a.purl == b.purl)
  {
    FirstLetter(k, allow, a);
    FirstLetter(k, allow, b);
    if Identity(a) == Identity(b) {
      if a.kind.OperatingSystem? && b.kind.OperatingSystem? {
        var head := "os:" + a.name.value + "@";
        assert Identity(a)[|head|..] == a.version.value && Identity(b)[|head|..] == b.version.value;
      }
    }
  }

  /** What `seen` holds. */
  ghost predicate Remembers(k: Checks, allow: bool, seen: map<string, Component>, result: seq<Component>) {
    && (forall c | c in result :: IsClean(k, allow, c) && Identity(c) in seen && seen[Identity(c)] == c)
    && (forall id | id in seen :: seen[id] in result && IsClean(k, allow, seen[id]) && Identity(seen[id]) == id)
  }

  lemma AddedAgrees(k: Checks, allow: bool, seen: map<string, Component>, result: seq<Component>, c: Component)
    requires Sound(k) && Remembers(k, allow, seen, result) && Agree(Elements(result)) && IsClean(k, allow, c)
    requires Identity(c) !in seen
    ensures Agree(Elements(result + [c])) && Elements(result + [c]) == Elements(result) + {c}
    ensures Remembers(k, allow, seen[Identity(c) := c], result + [c])
  {
    forall a | a in result ensures Identity(a) != Identity(c) && !(a.purl == c.purl && a.purl.Some?) {
      IdentityDetermines(k, allow, a, c);
    }
  }

  /** One component: `None` where it is refused, otherwise what the list and `seen` become. */
  method Take(k: Checks, allow: bool, c: Component, seen: map<string, Component>, result: seq<Component>)
    returns (next: Option<(map<string, Component>, seq<Component>)>)
    requires Sound(k) && Remembers(k, allow, seen, result) && Agree(Elements(result)) && !c.kind.File?
    ensures next.None? ==> Kept(k, allow, c) ==> !Agree(Elements(result) + {Clean(c)})
    ensures next.Some? ==>
              && Kept(k, allow, c) && Remembers(k, allow, next.value.0, next.value.1)
              && Elements(next.value.1) == Elements(result) + {Clean(c)} && Agree(Elements(next.value.1))
  {
    if !Kept(k, allow, c) {
      return None;
    }
    var clean := Clean(c);
    assert IsClean(k, allow, clean);
    if Identity(clean) !in seen {
      AddedAgrees(k, allow, seen, result, clean);
      return Some((seen[Identity(clean) := clean], result + [clean]));
    }
    var known := seen[Identity(clean)];
    IdentityDetermines(k, allow, clean, known);
    if clean != known {
      assert known in Elements(result);
      return None;
    }
    assert Elements(result) + {clean} == Elements(result);
    return Some((seen, result));
  }

  /** The list and its exported components, where none is refused. */
  ghost predicate Gathered(k: Checks, allow: bool, items: seq<Component>, cs: set<Component>) {
    && (forall j | 0 <= j < |items| :: Acceptable(k, allow, items[j]))
    && cs == Exported(k, allow, items) && Agree(cs)
  }

  lemma GatheredStep(k: Checks, allow: bool, items: seq<Component>, i: nat, cs: set<Component>)
    requires i < |items| && Gathered(k, allow, items[..i], cs)
    ensures items[i].kind.File? ==> Gathered(k, allow, items[..i + 1], cs)
    ensures !items[i].kind.File? && Kept(k, allow, items[i]) && Agree(cs + {Clean(items[i])}) ==>
              Gathered(k, allow, items[..i + 1], cs + {Clean(items[i])})
    ensures !items[i].kind.File? && !(Kept(k, allow, items[i]) && Agree(cs + {Clean(items[i])})) ==>
              !Exportable(k, allow, items)
  {
    var before, after := items[..i], items[..i + 1];
    assert forall j | 0 <= j < i :: after[j] == before[j];
    if Acceptable(k, allow, items[i]) {
      ExportedStep(k, allow, items, i);
      ExportedPrefix(k, allow, items, i + 1);
    }
  }

  /** The loop of `public_components`. */
  method Gather(k: Checks, allow: bool, items: seq<Component>) returns (r: Option<seq<Component>>)
    requires Sound(k)
    ensures r.None? ==> !Exportable(k, allow, items)
    ensures r.Some? ==> Gathered(k, allow, items, Elements(r.value))
  {
    var result, seen := [], map[];
    for i := 0 to |items|
      invariant Gathered(k, allow, items[..i], Elements(result)) && Remembers(k, allow, seen, result)
    {
      GatheredStep(k, allow, items, i, Elements(result));
      if !items[i].kind.File? {
        var next := Take(k, allow, items[i], seen, result);
        if next.None? {
          return None;
        }
        seen, result := next.value.0, next.value.1;
      }
    }
    assert items[..|items|] == items;
    return Some(result);
  }

  // ---------------------------------------------------------------- the export written out

  /** An Alpine system, where they are allowed, or a package with name, version and package URL. */
  predicate IsPublic(k: Checks, allow: bool, c: Component) {
    || (allow && c.kind == OperatingSystem && c.name.Some? && c.version.Some?
        && k.isSystem(c.name.value, c.version.value))
    || ((c.kind == Library || c.kind == Application) && c.name.Some? && c.version.Some? && c.purl.Some?
        && k.isPackage(allow, c.name.value, c.version.value, c.purl.value))
  }

  /** Kind, name and version, and the package URL of a package; no other field. */
  predicate IsExportOf(out: Component, c: Component) {
    && out.kind == c.kind && out.name == c.name && out.version == c.version && out.extras == {}
    && (if c.kind == OperatingSystem then out.purl == None else out.purl == c.purl)
  }

  /** The list can be exported: of a fair size, file records aside every component is public, some component is no file
      record, and packages with one URL are one package. */
  predicate CanExport(k: Checks, allow: bool, items: seq<Component>) {
    && 0 < |items| <= 4096
    && (forall c | c in items :: c.kind == File || IsPublic(k, allow, c))
    && (exists c | c in items :: c.kind != File)
    && UrlsAgree(k, allow, items)
  }

  /** Two packages with one URL have the same kind, name and version. */
  predicate OnePackage(a: Component, b: Component) {
    a.kind != OperatingSystem && b.kind != OperatingSystem && a.purl == b.purl ==>
      a.kind == b.kind && a.name == b.name && a.version == b.version
  }

  predicate UrlsAgree(k: Checks, allow: bool, items: seq<Component>) {
    forall a, b | a in items && b in items && IsPublic(k, allow, a) && IsPublic(k, allow, b) :: OnePackage(a, b)
  }

  /** The exported list: by key, one entry for each component that is no file record, and no others. */
  ghost predicate IsExport(items: seq<Component>, list: seq<Component>) {
    && AscendingBy(list, Key)
    && forall out :: out in list <==> exists c | c in items :: c.kind != File && IsExportOf(out, c)
  }

  lemma ExportOfMeaning(k: Checks, allow: bool, items: seq<Component>, out: Component)
    requires forall c | c in items :: Acceptable(k, allow, c)
    ensures out in Exported(k, allow, items) <==> exists c | c in items :: c.kind != File && IsExportOf(out, c)
  {
    if out in Exported(k, allow, items) {
      var i :| 0 <= i < |items| && !items[i].kind.File? && Kept(k, allow, items[i]) && Clean(items[i]) == out;
      assert items[i] in items && IsExportOf(out, items[i]);
    }
    if c :| c in items && c.kind != File && IsExportOf(out, c) {
      var i :| 0 <= i < |items| && items[i] == c;
      assert Clean(items[i]) == out;
    }
  }

  lemma AcceptableMeaning(k: Checks, allow: bool, items: seq<Component>)
    ensures (forall i | 0 <= i < |items| :: Acceptable(k, allow, items[i])) <==>
            forall c | c in items :: c.kind == File || IsPublic(k, allow, c)
  {
    forall c ensures Acceptable(k, allow, c) <==> c.kind == File || IsPublic(k, allow, c) {
    }
  }

  lemma UrlsOfExported(k: Checks, allow: bool, items: seq<Component>)
    requires Agree(Exported(k, allow, items))
    ensures UrlsAgree(k, allow, items)
  {
    forall a, b | a in items && b in items && IsPublic(k, allow, a) && IsPublic(k, allow, b) ensures OnePackage(a, b) {
      CleanIsExported(k, allow, items, a);
      CleanIsExported(k, allow, items, b);
    }
  }

  lemma ExportedFrom(k: Checks, allow: bool, items: seq<Component>, out: Component) returns (c: Component)
    requires out in Exported(k, allow, items)
    ensures c in items && IsPublic(k, allow, c) && Clean(c) == out
  {
    var i :| 0 <= i < |items| && !items[i].kind.File? && Kept(k, allow, items[i]) && Clean(items[i]) == out;
    c := items[i];
  }

  lemma ExportedOfUrls(k: Checks, allow: bool, items: seq<Component>)
    requires UrlsAgree(k, allow, items)
    ensures Agree(Exported(k, allow, items))
  {
    var cs := Exported(k, allow, items);
    forall x, y | x in cs && y in cs && x.purl == y.purl && x.purl.Some? ensures x == y {
      var a := ExportedFrom(k, allow, items, x);
      var b := ExportedFrom(k, allow, items, y);
      assert OnePackage(a, b);
    }
  }

  lemma CleanIsExported(k: Checks, allow: bool, items: seq<Component>, c: Component)
    requires c in items && Kept(k, allow, c) && !c.kind.File?
    ensures Clean(c) in Exported(k, allow, items)
  {
    var i :| 0 <= i < |items| && items[i] == c;
    assert Clean(items[i]) == Clean(c);
  }

  lemma SomethingExported(k: Checks, allow: bool, items: seq<Component>)
    requires forall i | 0 <= i < |items| :: Acceptable(k, allow, items[i])
    ensures Exported(k, allow, items) != {} <==> exists c | c in items :: c.kind != File
  {
    if c :| c in items && c.kind != File {
      CleanIsExported(k, allow, items, c);
    }
    if Exported(k, allow, items) != {} {
      var out :| out in Exported(k, allow, items);
      ExportOfMeaning(k, allow, items, out);
    }
  }

  /** A list is exported exactly where it can be, and then exactly its components are, each with its coordinates and
      nothing else. */
  lemma PublicExactly(k: Checks, allow: bool, items: seq<Component>)
    requires Sound(k)
    ensures Public(k, allow, items).Some? <==> CanExport(k, allow, items)
    ensures Public(k, allow, items).Some? ==> IsExport(items, Public(k, allow, items).value)
  {
    AcceptableMeaning(k, allow, items);
    if forall i | 0 <= i < |items| :: Acceptable(k, allow, items[i]) {
      if Agree(Exported(k, allow, items)) {
        UrlsOfExported(k, allow, items);
      }
      if UrlsAgree(k, allow, items) {
        ExportedOfUrls(k, allow, items);
      }
      SomethingExported(k, allow, items);
    }
    if Public(k, allow, items).Some? {
      ExportIs(k, allow, items);
    }
  }

  lemma ExportIs(k: Checks, allow: bool, items: seq<Component>)
    requires Sound(k) && Public(k, allow, items).Some?
    ensures IsExport(items, Public(k, allow, items).value)
  {
    var list := Public(k, allow, items).value;
    ExportedIsClean(k, allow, items);
    ExportedKeysDiffer(k, allow, Exported(k, allow, items));
    SortedByAscending(Exported(k, allow, items), Key);
    forall c | c in items ensures Acceptable(k, allow, c) {
      var i :| 0 <= i < |items| && items[i] == c;
    }
    forall out ensures out in list <==> exists c | c in items :: c.kind != File && IsExportOf(out, c) {
      ExportOfMeaning(k, allow, items, out);
      assert out in list <==> out in Elements(list);
    }
  }

  /** The loop with the checks before and after it. */
  method ExportComponents(k: Checks, allow: bool, items: seq<Component>) returns (r: Option<seq<Component>>)
    requires Sound(k)
    ensures r == Public(k, allow, items)
  {
    if !(0 < |items| <= MAX_COMPONENTS) {
      return None;
    }
    var result := Gather(k, allow, items);
    if result.None? || result.value == [] {
      return None;
    }
    assert result.value[0] in Elements(result.value);
    ExportedIsClean(k, allow, items);
    ExportedKeysDiffer(k, allow, Elements(result.value));
    return Some(SortedBy(Elements(result.value), Key));
  }

  /** `public_components` as the source computes it. */
  method PublicComponents(k: Checks, allow: bool, items: seq<Component>) returns (r: Option<seq<Component>>)
    requires Sound(k)
    ensures r == Public(k, allow, items)
    ensures r.Some? <==> CanExport(k, allow, items)
    ensures r.Some? ==> IsExport(items, r.value)
  {
    PublicExactly(k, allow, items);
    r := ExportComponents(k, allow, items);
  }

  // ---------------------------------------------------------------- a canonical form

  /** The list depends only on which components there are: not on their order, and not on how often they occur. */
  lemma OrderDoesNotMatter(k: Checks, allow: bool, a: seq<Component>, b: seq<Component>)
    requires Sound(k) && 0 < |a| <= MAX_COMPONENTS && 0 < |b| <= MAX_COMPONENTS
    requires forall c :: c in a <==> c in b
    ensures Public(k, allow, a) == Public(k, allow, b)
  {
    SameExported(k, allow, a, b);
    SameExported(k, allow, b, a);
    SameAccepted(k, allow, a, b);
    SameAccepted(k, allow, b, a);
    assert Exported(k, allow, a) == Exported(k, allow, b);
    assert Exportable(k, allow, a) <==> Exportable(k, allow, b);
  }

  lemma SameExported(k: Checks, allow: bool, a: seq<Component>, b: seq<Component>)
    requires forall c :: c in a ==> c in b
    ensures Exported(k, allow, a) <= Exported(k, allow, b)
  {
    forall i | 0 <= i < |a| && !a[i].kind.File? && Kept(k, allow, a[i])
      ensures Clean(a[i]) in Exported(k, allow, b)
    {
      assert a[i] in b;
    }
  }

  lemma SameAccepted(k: Checks, allow: bool, a: seq<Component>, b: seq<Component>)
    requires forall c :: c in a ==> c in b
    ensures (forall i | 0 <= i < |b| :: Acceptable(k, allow, b[i])) ==> forall i | 0 <= i < |a| :: Acceptable(k, allow, a[i])
  {
    assert forall i | 0 <= i < |a| :: a[i] in b;
  }

  lemma {:induction false} SortedBySize(s: set<Component>)
    requires KeysDiffer(s, Key)
    ensures |SortedBy(s, Key)| == |s|
  {
    if s != {} {
      SortedBySize(s - {LeastBy(s, Key)});
    }
  }

  /** The last component of a list adds at most itself. */
  lemma ExportedLast(k: Checks, allow: bool, items: seq<Component>)
    requires items != []
    ensures var n := |items| - 1;
            Exported(k, allow, items) <= Exported(k, allow, items[..n]) + {Clean(items[n])}
  {
    var n := |items| - 1;
    assert forall j | 0 <= j < n :: items[..n][j] == items[j];
  }

  lemma {:induction false} ExportedSize(k: Checks, allow: bool, items: seq<Component>)
    ensures |Exported(k, allow, items)| <= |items|
  {
    if items == [] {
      assert Exported(k, allow, items) == {};
    } else {
      var n := |items| - 1;
      var before := Exported(k, allow, items[..n]);
      ExportedSize(k, allow, items[..n]);
      ExportedLast(k, allow, items);
      CardinalityMonotone(Exported(k, allow, items), before + {Clean(items[n])});
    }
  }

  lemma CleanExports(k: Checks, allow: bool, cs: seq<Component>)
    requires forall c | c in cs :: IsClean(k, allow, c)
    ensures Exported(k, allow, cs) == Elements(cs)
  {
    forall i | 0 <= i < |cs| ensures Clean(cs[i]) == cs[i] && Kept(k, allow, cs[i]) && !cs[i].kind.File? {
      assert cs[i] in cs;
    }
    forall c | c in Elements(cs) ensures c in Exported(k, allow, cs) {
      var i :| 0 <= i < |cs| && cs[i] == c;
      assert Clean(cs[i]) in Exported(k, allow, cs);
    }
  }

  /** Exporting an exported list gives it back. */
  lemma ExportIsStable(k: Checks, allow: bool, items: seq<Component>)
    requires Sound(k) && Public(k, allow, items).Some?
    ensures Public(k, allow, Public(k, allow, items).value) == Public(k, allow, items)
  {
    var cs := Exported(k, allow, items);
    var list := Public(k, allow, items).value;
    ExportedIsClean(k, allow, items);
    ExportedKeysDiffer(k, allow, cs);
    SortedBySize(cs);
    ExportedSize(k, allow, items);
    assert Elements(list) == cs;
    assert forall c | c in list :: c in Elements(list);
    CleanExports(k, allow, list);
    forall i | 0 <= i < |list| ensures Acceptable(k, allow, list[i]) {
      assert list[i] in Elements(list);
    }
  }

  // ---------------------------------------------------------------- the release document

  datatype Subject = Subject(name: string, sha256: string, isContainer: bool)

  /** A scalar of a parsed document. */
  datatype Scalar = Integer(n: int) | Float(x: real) | Boolean(b: bool) | Other

  /** The value as Python's `==` compares it: 1, 1.0 and `True` are alike. */
  function Value(s: Scalar): Option<real> {
    match s
    case Integer(n) => Some(n as real)
    case Float(x) => Some(x)
    case Boolean(b) => Some(if b then 1.0 else 0.0)
    case Other => None
  }

  predicate Alike(a: Scalar, b: Scalar) {
    a == b || (Value(a).Some? && Value(a) == Value(b))
  }

  /** A document; `extras` names fields that a release document does not have. */
  datatype Bom = Bom(
    format: string,
    spec: string,
    version: Scalar,
    serial: string,
    metadata: string,
    components: seq<Component>,
    extras: set<string>)

  /** Documents compared as Python compares them: only the version is not text. */
  predicate SameBom(a: Bom, b: Bom) {
    Alike(a.version, b.version) && a.(version := b.version) == b
  }

  /** The identifier and the metadata derived from a subject. */
  datatype Binding = Binding(serial: Subject -> string, metadata: Subject -> string)

  /** `bound_bom(subject, components)` */
  function BoundBom(b: Binding, subject: Subject, components: seq<Component>): Bom {
    Bom("CycloneDX", "1.6", Integer(1), b.serial(subject), b.metadata(subject), components, {})
  }

  function PublicOf(k: Checks, allow: bool, bom: Bom): Option<seq<Component>>
    requires Sound(k)
  {
    if bom.format != "CycloneDX" || bom.spec != "1.6" then None else Public(k, allow, bom.components)
  }

  /** `verify_bom(bom, subject)` */
  predicate Verifies(k: Checks, b: Binding, bom: Bom, subject: Subject)
    requires Sound(k)
  {
    var components := PublicOf(k, subject.isContainer, bom);
    components.Some? && SameBom(bom, BoundBom(b, subject, components.value))
  }

  /** The document is the one built from an exported list. */
  ghost predicate IsBuilt(k: Checks, b: Binding, bom: Bom, subject: Subject)
    requires Sound(k)
  {
    exists items: seq<Component> ::
      && Public(k, subject.isContainer, items).Some?
      && bom == BoundBom(b, subject, Public(k, subject.isContainer, items).value)
  }

  lemma BuiltVerifies(k: Checks, b: Binding, items: seq<Component>, subject: Subject, version: Scalar)
    requires Sound(k) && Public(k, subject.isContainer, items).Some? && Alike(version, Integer(1))
    ensures var bom := BoundBom(b, subject, Public(k, subject.isContainer, items).value);
            Verifies(k, b, bom.(version := version), subject)
  {
    ExportIsStable(k, subject.isContainer, items);
  }

  /** A document verifies exactly when it is, up to the spelling of its version number, one built from an exported
      list. */
  lemma VerifiesExactlyWhatIsBuilt(k: Checks, b: Binding, bom: Bom, subject: Subject)
    requires Sound(k)
    ensures Verifies(k, b, bom, subject) <==>
            Alike(bom.version, Integer(1)) && IsBuilt(k, b, bom.(version := Integer(1)), subject)
  {
    if Verifies(k, b, bom, subject) {
      assert bom.(version := Integer(1)) == BoundBom(b, subject, Public(k, subject.isContainer, bom.components).value);
    }
    if Alike(bom.version, Integer(1)) && IsBuilt(k, b, bom.(version := Integer(1)), subject) {
      var items: seq<Component> :|
        && Public(k, subject.isContainer, items).Some?
        && bom.(version := Integer(1)) == BoundBom(b, subject, Public(k, subject.isContainer, items).value);
      BuiltVerifies(k, b, items, subject, bom.version);
      assert bom == bom.(version := Integer(1)).(version := bom.version);
    }
  }

  /** So it accepts only what was built exactly on documents whose version is an integer. */
  lemma BuiltIffIntegerVersion(k: Checks, b: Binding, bom: Bom, subject: Subject)
    requires Sound(k) && Verifies(k, b, bom, subject)
    ensures IsBuilt(k, b, bom, subject) <==> bom.version.Integer?
  {
    VerifiesExactlyWhatIsBuilt(k, b, bom, subject);
    if bom.version.Integer? {
      assert bom == bom.(version := Integer(1));
    }
  }

  /** A document with the version `true` verifies and was not built. */
  lemma TrueVersionVerifies(k: Checks, b: Binding, items: seq<Component>, subject: Subject)
    requires Sound(k) && Public(k, subject.isContainer, items).Some?
    ensures var bom := BoundBom(b, subject, Public(k, subject.isContainer, items).value).(version := Boolean(true));
            Verifies(k, b, bom, subject) && !IsBuilt(k, b, bom, subject)
  {
    BuiltVerifies(k, b, items, subject, Boolean(true));
  }

  /** Verified documents for one subject with the same components differ at most in how the version is spelled. */
  lemma VerifiedIsCanonical(k: Checks, b: Binding, x: Bom, y: Bom, subject: Subject)
    requires Sound(k) && Verifies(k, b, x, subject) && Verifies(k, b, y, subject)
    requires forall c :: c in x.components <==> c in y.components
    ensures SameBom(x, y)
  {
    OrderDoesNotMatter(k, subject.isContainer, x.components, y.components);
  }
}

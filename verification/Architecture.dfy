/** `analyze`: the import-direction verdict over a whole source inventory. */
module Architecture {
  import opened Ordering
  import opened Text
  import opened ImportGraph
  import opened ForbiddenRoute
  import ImportCycles
  import Layers

  /** The fields of an inventory row that the import rules read. */
  datatype SourceFile = SourceFile(path: string, package: string, imports: seq<string>)

  function ForbiddenTo(package: string): string -> bool {
    target => Layers.Forbidden(package, target)
  }

  function ImportsOf(files: set<SourceFile>, package: string): set<string> {
    set f, t | f in files && f.package == package && t in f.imports :: t
  }

  /** The import graph of an inventory: every package with the imports of all its files. */
  function GraphOf(files: set<SourceFile>): Graph {
    map p | p in (set f | f in files :: f.package) :: ImportsOf(files, p)
  }

  function DirectMessage(file: SourceFile, target: string): Option<string> {
    match Layers.DependencyError(file.package, target)
    case None => None
    case Some(violation) => Some(file.path + ": " + violation + " " + Layers.Local(target))
  }

  function FileErrors(file: SourceFile, targets: set<string>): set<string> {
    set t | t in targets && DirectMessage(file, t).Some? :: DirectMessage(file, t).value
  }

  /** One message per file that imports a package forbidden to it. */
  function DirectErrors(files: set<SourceFile>): set<string> {
    set f, m | f in files && m in FileErrors(f, Elements(f.imports)) :: m
  }

  function RouteMessage(route: seq<string>): string {
    "core reaches forbidden dependency: " + Join(ImportCycles.LocalNames(route), " -> ")
  }

  ghost predicate IsReportedRoute(g: Graph, package: string, route: seq<string>) {
    IsFirstForbiddenRoute(g, package, ForbiddenTo(package), route) && |route| > 2
  }

  ghost function RouteError(g: Graph, package: string): Option<string> {
    if route :| IsReportedRoute(g, package, route) then Some(RouteMessage(route)) else None
  }

  /** One message per package whose shortest forbidden route is indirect. */
  ghost function RouteErrors(g: Graph, packages: set<string>): set<string> {
    set p | p in packages && RouteError(g, p).Some? :: RouteError(g, p).value
  }

  ghost function ErrorsOf(files: set<SourceFile>): set<string> {
    var g := GraphOf(files);
    DirectErrors(files) + RouteErrors(g, g.Keys) + ImportCycles.CycleReports(g)
  }

  /** What the check promises: no package reaches, through any number of imports, a package it may not depend
      on, and imports form no cycle. */
  ghost predicate Conforms(g: Graph) {
    && (forall p | p in g :: !ReachesForbidden(g, p, ForbiddenTo(p)))
    && !ImportGraph.HasCycle(g)
  }

  lemma DirectMessageMeaning(file: SourceFile, target: string)
    ensures DirectMessage(file, target).Some? <==> ForbiddenTo(file.package)(target)
  {
  }

  lemma DirectErrorFound(files: set<SourceFile>, package: string, target: string)
    requires package in GraphOf(files) && target in GraphOf(files)[package] && ForbiddenTo(package)(target)
    ensures DirectErrors(files) != {}
  {
    var f :| f in files && f.package == package && target in f.imports;
    DirectMessageMeaning(f, target);
    var m := DirectMessage(f, target).value;
    assert m in FileErrors(f, Elements(f.imports));
    assert m in DirectErrors(files);
  }

  lemma DirectErrorGenuine(files: set<SourceFile>)
    requires DirectErrors(files) != {}
    ensures exists p :: p in GraphOf(files) && ReachesForbidden(GraphOf(files), p, ForbiddenTo(p))
  {
    var m :| m in DirectErrors(files);
    var f :| f in files && m in FileErrors(f, Elements(f.imports));
    var t :| t in Elements(f.imports) && DirectMessage(f, t).Some? && DirectMessage(f, t).value == m;
    DirectMessageMeaning(f, t);
    var g := GraphOf(files);
    assert f.package in g && t in g[f.package];
    assert IsForbiddenRoute(g, f.package, ForbiddenTo(f.package), [f.package, t]);
  }

  /** A package that reaches a forbidden one is reported, through its route or through its direct import. */
  lemma ReachingIsReported(files: set<SourceFile>, package: string)
    requires package in GraphOf(files) && ReachesForbidden(GraphOf(files), package, ForbiddenTo(package))
    ensures DirectErrors(files) != {} || RouteErrors(GraphOf(files), GraphOf(files).Keys) != {}
  {
    var g := GraphOf(files);
    FirstForbiddenRouteExists(g, package, ForbiddenTo(package));
    var route :| IsFirstForbiddenRoute(g, package, ForbiddenTo(package), route);
    if |route| > 2 {
      RouteErrorMeaning(g, package, Some(route));
      assert RouteError(g, package).value in RouteErrors(g, g.Keys);
    } else {
      assert route[0 + 1] in Successors(g, route[0]);
      DirectErrorFound(files, package, route[1]);
    }
  }

  lemma RouteErrorGenuine(g: Graph)
    requires RouteErrors(g, g.Keys) != {}
    ensures exists p :: p in g && ReachesForbidden(g, p, ForbiddenTo(p))
  {
    var m :| m in RouteErrors(g, g.Keys);
    var p :| p in g && RouteError(g, p).Some? && RouteError(g, p).value == m;
    var route :| IsReportedRoute(g, p, route);
  }

  /** The verdict is exact: no error is reported exactly when the import graph conforms. Dropping routes of one
      import from the route search loses nothing, because each of those is a direct error already. */
  lemma NoErrorsIffConforms(files: set<SourceFile>)
    ensures ErrorsOf(files) == {} <==> Conforms(GraphOf(files))
  {
    var g := GraphOf(files);
    ImportCycles.CycleReportsExact(g);
    if ErrorsOf(files) == {} {
      forall p | p in g ensures !ReachesForbidden(g, p, ForbiddenTo(p)) {
        if ReachesForbidden(g, p, ForbiddenTo(p)) { ReachingIsReported(files, p); }
      }
    }
    if RouteErrors(g, g.Keys) != {} {
      RouteErrorGenuine(g);
    }
    if DirectErrors(files) != {} {
      DirectErrorGenuine(files);
    }
  }

  // ---------------------------------------------------------------- every violation is named

  /** Every file is named with each of its imports that its package may not have. */
  ghost predicate NamesDirect(files: set<SourceFile>, errors: set<string>) {
    forall f, t, rule | f in files && t in f.imports && Layers.FirstBroken(f.package, t) == Some(rule) ::
      f.path + ": " + Layers.Message(rule) + " " + Layers.Local(t) in errors
  }

  /** Every package is named whose first forbidden route has more than one import, with that route. */
  ghost predicate NamesRoutes(g: Graph, errors: set<string>) {
    forall p, route | p in g && IsReportedRoute(g, p, route) ::
      "core reaches forbidden dependency: " + Join(ImportCycles.LocalNames(route), " -> ") in errors
  }

  ghost predicate IsDirect(files: set<SourceFile>, m: string) {
    exists f, t, rule | f in files && t in f.imports ::
      && Layers.FirstBroken(f.package, t) == Some(rule)
      && m == f.path + ": " + Layers.Message(rule) + " " + Layers.Local(t)
  }

  ghost predicate IsIndirect(g: Graph, m: string) {
    exists p, route | p in g ::
      IsReportedRoute(g, p, route)
      && m == "core reaches forbidden dependency: " + Join(ImportCycles.LocalNames(route), " -> ")
  }

  /** No violation is left out, and nothing else is named. Of the cycles each has an import in common with one that is
      named. */
  ghost predicate NamesViolations(files: set<SourceFile>, errors: set<string>) {
    var g := GraphOf(files);
    && NamesDirect(files, errors) && NamesRoutes(g, errors) && ImportCycles.CoversCycles(g, errors)
    && forall m | m in errors :: IsDirect(files, m) || IsIndirect(g, m) || ImportCycles.IsGenuineReport(g, m)
  }

  lemma DirectNamed(files: set<SourceFile>)
    ensures NamesDirect(files, DirectErrors(files))
    ensures forall m | m in DirectErrors(files) :: IsDirect(files, m)
  {
    forall f, t, rule | f in files && t in f.imports && Layers.FirstBroken(f.package, t) == Some(rule)
      ensures f.path + ": " + Layers.Message(rule) + " " + Layers.Local(t) in DirectErrors(files)
    {
      assert DirectMessage(f, t).value in FileErrors(f, Elements(f.imports));
    }
    forall m | m in DirectErrors(files) ensures IsDirect(files, m) {
      var f :| f in files && m in FileErrors(f, Elements(f.imports));
      var t :| t in Elements(f.imports) && DirectMessage(f, t).Some? && DirectMessage(f, t).value == m;
      assert Layers.FirstBroken(f.package, t).Some?;
    }
  }

  lemma RouteNamed(g: Graph, p: string, route: seq<string>)
    requires p in g && IsReportedRoute(g, p, route)
    ensures RouteMessage(route) in RouteErrors(g, g.Keys)
  {
    RouteErrorMeaning(g, p, Some(route));
    assert RouteError(g, p).value in RouteErrors(g, g.Keys);
  }

  lemma RouteIsIndirect(g: Graph, p: string)
    requires p in g && RouteError(g, p).Some?
    ensures IsIndirect(g, RouteError(g, p).value)
  {
    var route :| IsReportedRoute(g, p, route) && RouteMessage(route) == RouteError(g, p).value;
  }

  lemma RoutesNamed(g: Graph)
    ensures NamesRoutes(g, RouteErrors(g, g.Keys))
    ensures forall m | m in RouteErrors(g, g.Keys) :: IsIndirect(g, m)
  {
    forall p, route | p in g && IsReportedRoute(g, p, route) ensures RouteMessage(route) in RouteErrors(g, g.Keys) {
      RouteNamed(g, p, route);
    }
    forall m | m in RouteErrors(g, g.Keys) ensures IsIndirect(g, m) {
      var p :| p in g && RouteError(g, p).Some? && RouteError(g, p).value == m;
      RouteIsIndirect(g, p);
    }
  }

  /** The errors name every violation and nothing else. */
  lemma EveryViolationIsNamed(files: set<SourceFile>)
    ensures NamesViolations(files, ErrorsOf(files))
  {
    var g := GraphOf(files);
    DirectNamed(files);
    RoutesNamed(g);
    ImportCycles.CycleReportsCover(g);
    ImportCycles.CoversGrow(g, ImportCycles.CycleReports(g), ErrorsOf(files));
  }

  // ---------------------------------------------------------------- the loops

  lemma GraphAdd(files: set<SourceFile>, file: SourceFile)
    ensures GraphOf(files + {file}) ==
            GraphOf(files)[file.package := Successors(GraphOf(files), file.package) + Elements(file.imports)]
  {
    var before, after := GraphOf(files), GraphOf(files + {file});
    assert after.Keys == before.Keys + {file.package};
    forall p | p in after
      ensures after[p] == if p == file.package then Successors(before, p) + Elements(file.imports) else before[p]
    {
      assert forall t :: t in ImportsOf(files + {file}, p) <==>
          t in ImportsOf(files, p) || (p == file.package && t in file.imports);
    }
  }

  lemma DirectAdd(files: set<SourceFile>, file: SourceFile)
    ensures DirectErrors(files + {file}) == DirectErrors(files) + FileErrors(file, Elements(file.imports))
  {
  }

  lemma FileErrorsAdd(file: SourceFile, targets: set<string>, target: string)
    ensures FileErrors(file, targets + {target}) ==
            FileErrors(file, targets) + (if DirectMessage(file, target).Some? then {DirectMessage(file, target).value} else {})
  {
  }

  lemma RouteErrorMeaning(g: Graph, package: string, route: Option<seq<string>>)
    requires route.None? ==> !ReachesForbidden(g, package, ForbiddenTo(package))
    requires route.Some? ==> IsFirstForbiddenRoute(g, package, ForbiddenTo(package), route.value)
    ensures RouteError(g, package) ==
            if route.Some? && |route.value| > 2 then Some(RouteMessage(route.value)) else None
  {
    forall other | IsReportedRoute(g, package, other) ensures route.Some? && other == route.value {
      FirstForbiddenRouteUnique(g, package, ForbiddenTo(package), other, route.value);
    }
    assert route.Some? && |route.value| > 2 ==> IsReportedRoute(g, package, route.value);
  }

  lemma NoRoleReachesNothing(g: Graph, package: string)
    requires Layers.LayerOf(package).NoRole?
    ensures !ReachesForbidden(g, package, ForbiddenTo(package))
  {
  }

  lemma RouteErrorsAdd(g: Graph, packages: set<string>, package: string)
    ensures RouteErrors(g, packages + {package}) ==
            RouteErrors(g, packages) + (if RouteError(g, package).Some? then {RouteError(g, package).value} else {})
  {
  }

  /** The second loop of `analyze`: search from every package that has a role. */
  method FindRouteErrors(g: Graph) returns (errors: set<string>)
    ensures errors == RouteErrors(g, g.Keys)
  {
    errors := {};
    var packages := Sorted(g.Keys);
    for i := 0 to |packages|
      invariant errors == RouteErrors(g, Elements(packages[..i]))
    {
      var package := packages[i];
      var route: Option<seq<string>> := None;
      if !Layers.LayerOf(package).NoRole? {
        route := Search(package, g, ForbiddenTo(package));
      } else {
        NoRoleReachesNothing(g, package);
      }
      RouteErrorMeaning(g, package, route);
      RouteErrorsAdd(g, Elements(packages[..i]), package);
      assert Elements(packages[..i + 1]) == Elements(packages[..i]) + {package};
      if route.Some? && |route.value| > 2 {
        errors := errors + {RouteMessage(route.value)};
      }
    }
    assert packages[..|packages|] == packages;
  }

  method ReadFile(file: SourceFile) returns (errors: set<string>)
    ensures errors == FileErrors(file, Elements(file.imports))
  {
    errors := {};
    for j := 0 to |file.imports|
      invariant errors == FileErrors(file, Elements(file.imports[..j]))
    {
      FileErrorsAdd(file, Elements(file.imports[..j]), file.imports[j]);
      assert Elements(file.imports[..j + 1]) == Elements(file.imports[..j]) + {file.imports[j]};
      var violation := DirectMessage(file, file.imports[j]);
      if violation.Some? {
        errors := errors + {violation.value};
      }
    }
    assert file.imports[..|file.imports|] == file.imports;
  }

  /** The first loop of `analyze`: grow the graph and collect the direct errors. */
  method ReadImports(files: seq<SourceFile>) returns (graph: Graph, errors: set<string>)
    ensures graph == GraphOf(Elements(files)) && errors == DirectErrors(Elements(files))
  {
    errors := {};
    graph := map[];
    for i := 0 to |files|
      invariant graph == GraphOf(Elements(files[..i]))
      invariant errors == DirectErrors(Elements(files[..i]))
    {
      var file := files[i];
      GraphAdd(Elements(files[..i]), file);
      DirectAdd(Elements(files[..i]), file);
      assert Elements(files[..i + 1]) == Elements(files[..i]) + {file};
      graph := graph[file.package := Successors(graph, file.package) + Elements(file.imports)];
      var violations := ReadFile(file);
      errors := errors + violations;
    }
    assert files[..|files|] == files;
  }

  /** `analyze(files)`, its list of errors: a function of the set of files alone, empty exactly when the
      import graph conforms. */
  method Analyze(files: seq<SourceFile>) returns (errors: seq<string>)
    ensures errors == Sorted(ErrorsOf(Elements(files)))
    ensures errors == [] <==> Conforms(GraphOf(Elements(files)))
    ensures NamesViolations(Elements(files), Elements(errors))
  {
    var graph, direct := ReadImports(files);
    var indirect := FindRouteErrors(graph);
    var cycles := ImportCycles.FindImportCycles(graph);
    errors := Sorted(direct + indirect + Elements(cycles));
    NoErrorsIffConforms(Elements(files));
    EveryViolationIsNamed(Elements(files));
    assert errors == [] <==> Elements(errors) == {} by {
      assert errors != [] ==> errors[0] in Elements(errors);
    }
  }
}

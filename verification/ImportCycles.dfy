/** `import_cycles`: depth-first search for directed cycles, each reported once from its least package. */
module ImportCycles {
  import opened Ordering
  import opened ImportGraph
  import opened Text
  import Layers

  // ---------------------------------------------------------------- loops and their canonical form

  function Rotate(loop: seq<string>, k: nat): (r: seq<string>)
    requires k <= |loop|
    ensures |r| == |loop|
  {
    loop[k..] + loop[..k]
  }

  function IndexOf(s: seq<string>, x: string): (i: nat)
    requires x in s
    ensures i < |s| && s[i] == x && x !in s[..i]
  {
    if s[0] == x then 0 else 1 + IndexOf(s[1..], x)
  }

  /** The loop turned so that its least package comes first. */
  function Canonical(loop: seq<string>): (r: seq<string>)
    requires |loop| > 0
    ensures |r| == |loop|
  {
    assert loop[0] in Elements(loop);
    Rotate(loop, IndexOf(loop, Least(Elements(loop))))
  }

  function LocalNames(packages: seq<string>): seq<string> {
    seq(|packages|, i requires 0 <= i < |packages| => Layers.Local(packages[i]))
  }

  function Report(loop: seq<string>): string
    requires |loop| > 0
  {
    "import cycle: " + Join(LocalNames(loop + [loop[0]]), " -> ")
  }

  lemma RotateElements(loop: seq<string>, k: nat)
    requires k <= |loop|
    ensures Elements(Rotate(loop, k)) == Elements(loop)
    ensures Distinct(loop) ==> Distinct(Rotate(loop, k))
  {
    assert loop == loop[..k] + loop[k..];
  }

  lemma RotateCycle(g: Graph, loop: seq<string>, k: nat)
    requires IsCycle(g, loop) && k < |loop|
    ensures IsCycle(g, Rotate(loop, k))
  {
    var r := Rotate(loop, k);
    var closed := loop + [loop[0]];
    var walk := r + [r[0]];
    forall i | 0 <= i < |walk| - 1 ensures walk[i + 1] in Successors(g, walk[i]) {
      var at := if i + k < |loop| then i + k else i + k - |loop|;
      assert walk[i] == closed[at] && walk[i + 1] == closed[at + 1];
      assert closed[at + 1] in Successors(g, closed[at]);
    }
  }

  lemma RotateTwice(loop: seq<string>, k: nat, j: nat)
    requires k < |loop| && j < |loop|
    ensures var at := if j + k < |loop| then j + k else j + k - |loop|;
            Rotate(loop, k)[j] == loop[at] && Rotate(Rotate(loop, k), j) == Rotate(loop, at)
  {
    var turned := Rotate(loop, k);
    if j + k < |loop| {
      assert turned[j..] == loop[j + k..] + loop[..k];
      assert turned[..j] == loop[k..j + k];
      assert loop[..j + k] == loop[..k] + loop[k..j + k];
    } else {
      var at := j + k - |loop|;
      assert turned[j..] == loop[at..k];
      assert turned[..j] == loop[k..] + loop[..at];
      assert loop[at..] == loop[at..k] + loop[k..];
    }
  }

  /** Any two rotations of one simple cycle have the same canonical form, hence one report. */
  lemma RotationsAgree(loop: seq<string>, k: nat)
    requires Distinct(loop) && k < |loop|
    ensures Canonical(Rotate(loop, k)) == Canonical(loop)
  {
    var turned := Rotate(loop, k);
    RotateElements(loop, k);
    assert loop[0] in Elements(loop);
    var least := Least(Elements(loop));
    var i, j := IndexOf(loop, least), IndexOf(turned, least);
    RotateTwice(loop, k, j);
  }

  lemma CanonicalCycle(g: Graph, loop: seq<string>)
    requires IsCycle(g, loop) && Distinct(loop)
    ensures IsReportable(g, Canonical(loop))
  {
    assert loop[0] in Elements(loop);
    var k := IndexOf(loop, Least(Elements(loop)));
    RotateElements(loop, k);
    RotateCycle(g, loop, k);
  }

  /** A genuine cycle, without repetition, written from its least package. */
  predicate IsReportable(g: Graph, loop: seq<string>) {
    IsCycle(g, loop) && Distinct(loop) && IsLeast(loop[0], Elements(loop))
  }

  ghost predicate IsGenuineReport(g: Graph, message: string) {
    exists loop :: IsReportable(g, loop) && message == Report(loop)
  }

  // ---------------------------------------------------------------- the search as a function of its state

  datatype State = State(active: seq<string>, visited: set<string>, cycles: set<string>)

  /** The packages being entered form a simple walk of the graph, and `package` continues it. */
  ghost predicate Enterable(g: Graph, active: seq<string>, package: string) {
    package in g && IsWalk(g, active + [package]) && Distinct(active) && Elements(active) <= g.Keys
  }

  function Visit(g: Graph, st: State, package: string): (r: State)
    requires Enterable(g, st.active, package)
    ensures r.active == st.active && st.visited <= r.visited && st.cycles <= r.cycles
    decreases g.Keys - Elements(st.active), 0
  {
    if package in st.active then
      st.(cycles := st.cycles + {Report(Canonical(st.active[IndexOf(st.active, package)..]))})
    else if package in st.visited then st
    else
      var entered := st.(active := st.active + [package]);
      Entering(g, st.active, package);
      var inner := VisitAll(g, entered, Sorted(g[package]));
      State(inner.active[..|inner.active| - 1], inner.visited + {package}, inner.cycles)
  }

  function VisitAll(g: Graph, st: State, targets: seq<string>): (r: State)
    requires forall t | t in targets && t in g :: Enterable(g, st.active, t)
    ensures r.active == st.active && st.visited <= r.visited && st.cycles <= r.cycles
    decreases g.Keys - Elements(st.active), 1 + |targets|
  {
    if targets == [] then st
    else if targets[0] in g then VisitAll(g, Visit(g, st, targets[0]), targets[1..])
    else VisitAll(g, st, targets[1..])
  }

  /** Entering a package leaves fewer packages to enter, and each of its imports may be entered next. */
  lemma Entering(g: Graph, active: seq<string>, package: string)
    requires Enterable(g, active, package) && package !in active
    ensures g.Keys - Elements(active + [package]) < g.Keys - Elements(active)
    ensures forall t | t in Sorted(g[package]) && t in g :: Enterable(g, active + [package], t)
  {
    var longer := active + [package];
    assert Elements(longer) == Elements(active) + {package};
    forall t | t in Sorted(g[package]) && t in g ensures Enterable(g, longer, t) {
      assert t in Elements(Sorted(g[package]));
      WalkExtends(g, longer, t);
    }
  }

  /** Every message `import_cycles` produces. */
  function CycleReports(g: Graph): set<string> {
    RootsEnterable(g);
    VisitAll(g, State([], {}, {}), Sorted(g.Keys)).cycles
  }

  lemma RootsEnterable(g: Graph)
    ensures forall t | t in g :: Enterable(g, [], t)
  {
  }

  // ---------------------------------------------------------------- soundness

  lemma ActiveIsCycle(g: Graph, active: seq<string>, package: string)
    requires Enterable(g, active, package) && package in active
    ensures IsCycle(g, active[IndexOf(active, package)..]) && Distinct(active[IndexOf(active, package)..])
  {
    var k := IndexOf(active, package);
    var loop := active[k..];
    var walk := active + [package];
    assert loop + [loop[0]] == walk[k..];
    forall i | 0 <= i < |walk[k..]| - 1 ensures walk[k..][i + 1] in Successors(g, walk[k..][i]) {
      assert walk[k + i + 1] in Successors(g, walk[k + i]);
    }
  }

  lemma ActiveLoop(g: Graph, active: seq<string>, package: string)
    requires Enterable(g, active, package) && package in active
    ensures IsGenuineReport(g, Report(Canonical(active[IndexOf(active, package)..])))
  {
    ActiveIsCycle(g, active, package);
    CanonicalCycle(g, active[IndexOf(active, package)..]);
  }

  lemma {:induction false} VisitSound(g: Graph, st: State, package: string)
    requires Enterable(g, st.active, package)
    requires forall m | m in st.cycles :: IsGenuineReport(g, m)
    ensures forall m | m in Visit(g, st, package).cycles :: IsGenuineReport(g, m)
    decreases g.Keys - Elements(st.active), 0
  {
    if package in st.active {
      ActiveLoop(g, st.active, package);
    } else if package !in st.visited {
      Entering(g, st.active, package);
      VisitAllSound(g, st.(active := st.active + [package]), Sorted(g[package]));
    }
  }

  lemma {:induction false} VisitAllSound(g: Graph, st: State, targets: seq<string>)
    requires forall t | t in targets && t in g :: Enterable(g, st.active, t)
    requires forall m | m in st.cycles :: IsGenuineReport(g, m)
    ensures forall m | m in VisitAll(g, st, targets).cycles :: IsGenuineReport(g, m)
    decreases g.Keys - Elements(st.active), 1 + |targets|
  {
    if targets != [] {
      if targets[0] in g {
        VisitSound(g, st, targets[0]);
        VisitAllSound(g, Visit(g, st, targets[0]), targets[1..]);
      } else {
        VisitAllSound(g, st, targets[1..]);
      }
    }
  }

  // ---------------------------------------------------------------- completeness

  /** `package` imports `target` along the loop. */
  predicate Along(loop: seq<string>, package: string, target: string) {
    exists i | 0 <= i < |loop| :: loop[i] == package && (loop + [loop[0]])[i + 1] == target
  }

  /** Some reported cycle runs through the import of `target` by `package`. */
  ghost predicate Named(g: Graph, reports: set<string>, package: string, target: string) {
    exists loop :: IsReportable(g, loop) && Report(loop) in reports && Along(loop, package, target)
  }

  /** The loop has an import in common with a reported cycle. */
  ghost predicate Touched(g: Graph, reports: set<string>, loop: seq<string>) {
    exists package, target :: Along(loop, package, target) && Named(g, reports, package, target)
  }

  /** Finished packages import only finished ones, unless a reported cycle runs through the import; and every cycle
      inside them has an import in common with a reported one. */
  ghost predicate Finished(g: Graph, done: set<string>, reports: set<string>) {
    && (forall v, t | v in done && t in Successors(g, v) && t in g :: t in done || Named(g, reports, v, t))
    && (forall loop | IsCycle(g, loop) && Elements(loop) <= done :: Touched(g, reports, loop))
  }

  lemma NamedGrows(g: Graph, few: set<string>, many: set<string>, package: string, target: string)
    requires few <= many && Named(g, few, package, target)
    ensures Named(g, many, package, target)
  {
    var loop :| IsReportable(g, loop) && Report(loop) in few && Along(loop, package, target);
    assert Report(loop) in many;
  }

  lemma FinishedGrows(g: Graph, done: set<string>, few: set<string>, many: set<string>)
    requires few <= many && Finished(g, done, few)
    ensures Finished(g, done, many)
  {
    forall v, t | Named(g, few, v, t) ensures Named(g, many, v, t) {
      NamedGrows(g, few, many, v, t);
    }
    forall loop | IsCycle(g, loop) && Elements(loop) <= done ensures Touched(g, many, loop) {
      assert Touched(g, few, loop);
    }
  }

  lemma AlongRotated(loop: seq<string>, k: nat, package: string, target: string)
    requires k < |loop| && Along(Rotate(loop, k), package, target)
    ensures Along(loop, package, target)
  {
    var turned := Rotate(loop, k);
    var i :| 0 <= i < |turned| && turned[i] == package && (turned + [turned[0]])[i + 1] == target;
    var at := if i + k < |loop| then i + k else i + k - |loop|;
    assert loop[at] == package && (loop + [loop[0]])[at + 1] == target;
  }

  lemma RotatedAlong(loop: seq<string>, k: nat, package: string, target: string)
    requires k < |loop| && Along(loop, package, target)
    ensures Along(Rotate(loop, k), package, target)
  {
    var turned := Rotate(loop, k);
    var i :| 0 <= i < |loop| && loop[i] == package && (loop + [loop[0]])[i + 1] == target;
    var at := if i >= k then i - k else i - k + |loop|;
    assert turned[at] == package && (turned + [turned[0]])[at + 1] == target;
  }

  /** Meeting an active package reports a cycle through the import that led back to it. */
  lemma MeetingNames(g: Graph, active: seq<string>, package: string, reports: set<string>)
    requires Enterable(g, active, package) && package in active
    requires Report(Canonical(active[IndexOf(active, package)..])) in reports
    ensures Named(g, reports, Last(active), package)
  {
    var loop := active[IndexOf(active, package)..];
    ActiveIsCycle(g, active, package);
    CanonicalCycle(g, loop);
    assert loop[|loop| - 1] == Last(active) && (loop + [loop[0]])[|loop|] == package;
    assert Along(loop, Last(active), package);
    assert loop[0] in Elements(loop);
    RotatedAlong(loop, IndexOf(loop, Least(Elements(loop))), Last(active), package);
  }

  /** A walk from a finished package stays among the finished ones as long as no reported cycle runs through it. */
  lemma {:induction false} StaysInside(g: Graph, done: set<string>, reports: set<string>, walk: seq<string>, i: nat)
    requires Finished(g, done, reports)
    requires IsWalk(g, walk) && (forall k | 0 <= k < |walk| :: walk[k] in g)
    requires forall k | 0 <= k < |walk| - 1 :: !Named(g, reports, walk[k], walk[k + 1])
    requires walk[0] in done && i < |walk|
    ensures walk[i] in done
  {
    if i > 0 {
      StaysInside(g, done, reports, walk, i - 1);
      assert walk[i - 1 + 1] in Successors(g, walk[i - 1]);
    }
  }

  lemma CycleInGraph(g: Graph, loop: seq<string>, i: nat)
    requires IsCycle(g, loop) && i < |loop|
    ensures loop[i] in g
  {
    var walk := loop + [loop[0]];
    assert walk[i + 1] in Successors(g, walk[i]);
  }

  /** A cycle from a package all of whose imports are finished or named has an import in common with a report. */
  lemma LeavingIsTouched(g: Graph, done: set<string>, reports: set<string>, loop: seq<string>)
    requires IsCycle(g, loop) && Finished(g, done, reports) && loop[0] !in done
    requires forall t | t in Successors(g, loop[0]) && t in g :: t in done || Named(g, reports, loop[0], t)
    ensures Touched(g, reports, loop)
  {
    var walk := loop + [loop[0]];
    forall k | 0 <= k < |walk| ensures walk[k] in g {
      CycleInGraph(g, loop, if k < |loop| then k else 0);
    }
    assert walk[0 + 1] in Successors(g, walk[0]);
    if k :| 0 <= k < |loop| && Named(g, reports, walk[k], walk[k + 1]) {
      assert Along(loop, walk[k], walk[k + 1]);
    } else {
      var tail := walk[1..];
      forall i | 0 <= i < |tail| - 1
        ensures tail[i + 1] in Successors(g, tail[i]) && !Named(g, reports, tail[i], tail[i + 1])
      {
        assert walk[i + 1 + 1] in Successors(g, walk[i + 1]);
        assert !Named(g, reports, walk[i + 1], walk[i + 1 + 1]);
      }
      StaysInside(g, done, reports, tail, |tail| - 1);
    }
  }

  /** Finishing a package all of whose imports are finished or named. */
  lemma FinishOne(g: Graph, done: set<string>, reports: set<string>, package: string)
    requires Finished(g, done, reports) && package !in done
    requires forall t | t in Successors(g, package) && t in g :: t in done || Named(g, reports, package, t)
    ensures Finished(g, done + {package}, reports)
  {
    forall loop | IsCycle(g, loop) && Elements(loop) <= done + {package} ensures Touched(g, reports, loop) {
      if package in loop {
        var k := IndexOf(loop, package);
        RotateCycle(g, loop, k);
        LeavingIsTouched(g, done, reports, Rotate(loop, k));
        var p, t :| Along(Rotate(loop, k), p, t) && Named(g, reports, p, t);
        AlongRotated(loop, k, p, t);
      } else {
        assert Elements(loop) <= done;
      }
    }
  }

  /** What a visit of `package` leaves, whether or not it reports anything. */
  lemma {:induction false} VisitComplete(g: Graph, st: State, package: string)
    requires Enterable(g, st.active, package)
    requires Finished(g, st.visited, st.cycles) && st.visited !! Elements(st.active)
    ensures var r := Visit(g, st, package);
            && Finished(g, r.visited, r.cycles) && r.visited !! Elements(st.active)
            && (package in r.visited || (st.active != [] && Named(g, r.cycles, Last(st.active), package)))
    decreases g.Keys - Elements(st.active), 0
  {
    if package in st.active {
      var r := Visit(g, st, package);
      FinishedGrows(g, st.visited, st.cycles, r.cycles);
      MeetingNames(g, st.active, package, r.cycles);
    } else if package !in st.visited {
      var entered := st.(active := st.active + [package]);
      Entering(g, st.active, package);
      assert Elements(entered.active) == Elements(st.active) + {package};
      VisitAllComplete(g, entered, Sorted(g[package]));
      var inner := VisitAll(g, entered, Sorted(g[package]));
      assert forall t | t in g[package] && t in g :: t in Elements(Sorted(g[package]));
      FinishOne(g, inner.visited, inner.cycles, package);
    }
  }

  lemma {:induction false} VisitAllComplete(g: Graph, st: State, targets: seq<string>)
    requires forall t | t in targets && t in g :: Enterable(g, st.active, t)
    requires Finished(g, st.visited, st.cycles) && st.visited !! Elements(st.active)
    ensures var r := VisitAll(g, st, targets);
            && Finished(g, r.visited, r.cycles) && r.visited !! Elements(st.active)
            && forall t | t in targets && t in g ::
                 t in r.visited || (st.active != [] && Named(g, r.cycles, Last(st.active), t))
    decreases g.Keys - Elements(st.active), 1 + |targets|
  {
    if targets != [] {
      var r := VisitAll(g, st, targets);
      assert forall t | t in targets :: t == targets[0] || t in targets[1..];
      if targets[0] in g {
        var next := Visit(g, st, targets[0]);
        VisitComplete(g, st, targets[0]);
        VisitAllComplete(g, next, targets[1..]);
        if st.active != [] && Named(g, next.cycles, Last(st.active), targets[0]) {
          NamedGrows(g, next.cycles, r.cycles, Last(st.active), targets[0]);
        }
      } else {
        VisitAllComplete(g, st, targets[1..]);
      }
    }
  }

  lemma NothingFinished(g: Graph)
    ensures Finished(g, {}, {})
  {
    forall loop | IsCycle(g, loop) ensures !(Elements(loop) <= {}) {
      assert loop[0] in Elements(loop);
    }
  }

  /** Every directed cycle has an import in common with a reported one. */
  ghost predicate CoversCycles(g: Graph, reports: set<string>) {
    forall loop {:trigger Touched(g, reports, loop)} | IsCycle(g, loop) :: Touched(g, reports, loop)
  }

  lemma CoversGrow(g: Graph, few: set<string>, many: set<string>)
    requires few <= many && CoversCycles(g, few)
    ensures CoversCycles(g, many)
  {
    forall loop | IsCycle(g, loop) ensures Touched(g, many, loop) {
      assert Touched(g, few, loop);
      var p, t :| Along(loop, p, t) && Named(g, few, p, t);
      NamedGrows(g, few, many, p, t);
    }
  }

  ghost predicate AllGenuine(g: Graph, reports: set<string>) {
    forall m | m in reports :: IsGenuineReport(g, m)
  }

  /** However many cycles there are, the search leaves none without a report that runs through one of its imports, and
      reports only real cycles. */
  lemma CycleReportsCover(g: Graph)
    ensures CoversCycles(g, CycleReports(g)) && AllGenuine(g, CycleReports(g))
  {
    RootsEnterable(g);
    NothingFinished(g);
    var start := State([], {}, {});
    VisitAllSound(g, start, Sorted(g.Keys));
    VisitAllComplete(g, start, Sorted(g.Keys));
    var end := VisitAll(g, start, Sorted(g.Keys));
    forall loop | IsCycle(g, loop) ensures Touched(g, end.cycles, loop) {
      forall x | x in Elements(loop) ensures x in end.visited {
        CycleInGraph(g, loop, IndexOf(loop, x));
        assert x in Elements(Sorted(g.Keys));
      }
    }
  }

  lemma TouchedByReport(g: Graph, reports: set<string>, loop: seq<string>)
    requires Touched(g, reports, loop)
    ensures reports != {}
  {
  }

  lemma CoveringIsExact(g: Graph, reports: set<string>)
    requires CoversCycles(g, reports) && AllGenuine(g, reports)
    ensures reports != {} <==> HasCycle(g)
  {
    if reports != {} {
      var m :| m in reports;
      assert IsGenuineReport(g, m);
    }
    if HasCycle(g) {
      var loop :| IsCycle(g, loop);
      TouchedByReport(g, reports, loop);
    }
  }

  /** The reports are non-empty exactly when the graph has a directed cycle. */
  lemma CycleReportsExact(g: Graph)
    ensures CycleReports(g) != {} <==> HasCycle(g)
  {
    CycleReportsCover(g);
    CoveringIsExact(g, CycleReports(g));
  }

  // ---------------------------------------------------------------- the search as the program runs it

  /** The variables the nested function `visit` updates. */
  class Finder {
    const graph: Graph
    var active: seq<string>
    var visited: set<string>
    var cycles: set<string>

    constructor (graph: Graph)
      ensures this.graph == graph && Now() == State([], {}, {})
    {
      this.graph := graph;
      active, visited, cycles := [], {}, {};
    }

    function Now(): State
      reads this
    {
      State(active, visited, cycles)
    }

    method VisitPackage(package: string)
      requires Enterable(graph, active, package)
      modifies this
      ensures Now() == Visit(graph, old(Now()), package)
      decreases graph.Keys - Elements(active), 0
    {
      if package in active {
        var loop := active[IndexOf(active, package)..];
        cycles := cycles + {Report(Canonical(loop))};
        return;
      }
      if package in visited {
        return;
      }
      Entering(graph, active, package);
      active := active + [package];
      VisitTargets(Sorted(graph[package]));
      active := active[..|active| - 1];
      visited := visited + {package};
    }

    /** The loop over the alphabetically ordered packages, at the top level and inside `visit`. */
    method VisitTargets(targets: seq<string>)
      requires forall t | t in targets && t in graph :: Enterable(graph, active, t)
      modifies this
      ensures Now() == VisitAll(graph, old(Now()), targets)
      decreases graph.Keys - Elements(active), 1
    {
      ghost var start := Now();
      for i := 0 to |targets|
        invariant active == start.active
        invariant VisitAll(graph, Now(), targets[i..]) == VisitAll(graph, start, targets)
      {
        assert targets[i..][1..] == targets[i + 1..];
        if targets[i] in graph {
          VisitPackage(targets[i]);
        }
      }
    }
  }

  lemma SomeElement(s: seq<string>)
    ensures s != [] <==> Elements(s) != {}
  {
    assert s != [] ==> s[0] in Elements(s);
  }

  /** `import_cycles(graph)`: the reports are genuine cycles, and every cycle has an import in common with one. */
  method FindImportCycles(g: Graph) returns (r: seq<string>)
    ensures r == Sorted(CycleReports(g))
    ensures CoversCycles(g, Elements(r)) && AllGenuine(g, Elements(r))
    ensures r != [] <==> HasCycle(g)
  {
    RootsEnterable(g);
    var finder := new Finder(g);
    finder.VisitTargets(Sorted(g.Keys));
    r := Sorted(finder.cycles);
    CycleReportsCover(g);
    CoveringIsExact(g, Elements(r));
    SomeElement(r);
  }
}

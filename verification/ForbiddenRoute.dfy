/** `path_to_forbidden`: breadth-first search for a dependency the starting package may not reach. */
module ForbiddenRoute {
  import opened Ordering
  import opened ImportGraph
  import opened Layers
  import opened Text

  /** A chain of one or more imports from `start` to a forbidden package. */
  predicate IsForbiddenRoute(g: Graph, start: string, forbidden: string -> bool, route: seq<string>) {
    |route| >= 2 && route[0] == start && IsWalk(g, route) && forbidden(Last(route))
  }

  ghost predicate ReachesForbidden(g: Graph, start: string, forbidden: string -> bool) {
    exists route :: IsForbiddenRoute(g, start, forbidden, route)
  }

  /** The one route a report names: no forbidden route has fewer imports, and no other of that length
      comes first alphabetically. */
  ghost predicate IsFirstForbiddenRoute(g: Graph, start: string, forbidden: string -> bool, route: seq<string>) {
    && IsForbiddenRoute(g, start, forbidden, route)
    && forall other | IsForbiddenRoute(g, start, forbidden, other) :: AtMost(route, other)
  }

  /** There is only one first forbidden route, so the report does not depend on how it was searched for. */
  lemma FirstForbiddenRouteUnique(g: Graph, start: string, forbidden: string -> bool, a: seq<string>, b: seq<string>)
    requires IsFirstForbiddenRoute(g, start, forbidden, a) && IsFirstForbiddenRoute(g, start, forbidden, b)
    ensures a == b
  {
    PrecedesTotal(a, b);
  }

  lemma {:induction false} ShortestRoute(g: Graph, start: string, forbidden: string -> bool, route: seq<string>)
    returns (shortest: seq<string>)
    requires IsForbiddenRoute(g, start, forbidden, route)
    ensures IsForbiddenRoute(g, start, forbidden, shortest)
    ensures forall other | IsForbiddenRoute(g, start, forbidden, other) :: |shortest| <= |other|
    decreases |route|
  {
    if better :| IsForbiddenRoute(g, start, forbidden, better) && |better| < |route| {
      shortest := ShortestRoute(g, start, forbidden, better);
    } else {
      shortest := route;
    }
  }

  ghost predicate IsCandidate(g: Graph, start: string, forbidden: string -> bool, prefix: seq<string>, n: nat,
                              route: seq<string>)
  {
    IsForbiddenRoute(g, start, forbidden, route) && |route| == n && prefix <= route
  }

  /** Among the forbidden routes of one length that share a prefix there is an alphabetically least one. */
  lemma {:induction false} LeastCandidate(g: Graph, start: string, forbidden: string -> bool, prefix: seq<string>,
                                          n: nat, route: seq<string>) returns (least: seq<string>)
    requires |prefix| > 0 && IsCandidate(g, start, forbidden, prefix, n, route)
    ensures IsCandidate(g, start, forbidden, prefix, n, least)
    ensures forall other | IsCandidate(g, start, forbidden, prefix, n, other) :: AtMost(least, other)
    decreases n - |prefix|
  {
    var k := |prefix|;
    if k == n {
      least := route;
    } else {
      var next := set x | x in Packages(g) && exists other :: IsCandidate(g, start, forbidden, prefix + [x], n, other);
      forall other | IsCandidate(g, start, forbidden, prefix, n, other) ensures other[k] in next {
        assert other[k - 1 + 1] in Successors(g, other[k - 1]);
        assert IsCandidate(g, start, forbidden, prefix + [other[k]], n, other);
      }
      assert route[k] in next;
      var x := Least(next);
      var first :| IsCandidate(g, start, forbidden, prefix + [x], n, first);
      least := LeastCandidate(g, start, forbidden, prefix + [x], n, first);
      forall other | IsCandidate(g, start, forbidden, prefix, n, other) ensures AtMost(least, other) {
        if other[k] == x {
          assert IsCandidate(g, start, forbidden, prefix + [x], n, other);
        } else {
          assert least[..k] == prefix == other[..k];
          assert least[k] == (prefix + [x])[k] == x;
          LexAt(least, other, k);
        }
      }
    }
  }

  /** A package that reaches a forbidden one has a first forbidden route. */
  lemma FirstForbiddenRouteExists(g: Graph, start: string, forbidden: string -> bool)
    requires ReachesForbidden(g, start, forbidden)
    ensures exists route :: IsFirstForbiddenRoute(g, start, forbidden, route)
  {
    var any :| IsForbiddenRoute(g, start, forbidden, any);
    var shortest := ShortestRoute(g, start, forbidden, any);
    var n := |shortest|;
    var first := LeastCandidate(g, start, forbidden, [start], n, shortest);
    forall other | IsForbiddenRoute(g, start, forbidden, other) ensures AtMost(first, other) {
      if |other| == n {
        assert IsCandidate(g, start, forbidden, [start], n, other);
      }
    }
    assert IsFirstForbiddenRoute(g, start, forbidden, first);
  }

  predicate EndsAt(route: seq<string>, package: string) {
    |route| > 0 && Last(route) == package
  }

  /** Ghost view of the search: every route ever enqueued, in that order. The queue is a suffix of it and the
      seen packages are the ends of these routes. */
  ghost predicate Discovered(g: Graph, start: string, routes: seq<seq<string>>) {
    && |routes| > 0 && routes[0] == [start]
    && (forall i | 0 <= i < |routes| :: |routes[i]| > 0 && routes[i][0] == start && IsWalk(g, routes[i]))
    && (forall i, j | 0 <= i < j < |routes| :: Precedes(routes[i], routes[j]))
  }

  function Ends(routes: seq<seq<string>>): set<string> {
    set i | 0 <= i < |routes| && |routes[i]| > 0 :: Last(routes[i])
  }

  lemma EndsExtend(routes: seq<seq<string>>, route: seq<string>, target: string)
    ensures Ends(routes + [route + [target]]) == Ends(routes) + {target}
  {
    var longer := routes + [route + [target]];
    assert Last(longer[|routes|]) == target;
    forall v | v in Ends(routes) ensures v in Ends(longer) {
      var i :| 0 <= i < |routes| && |routes[i]| > 0 && Last(routes[i]) == v;
      assert longer[i] == routes[i];
    }
  }

  /** What scanning the import `target` of the end of `route` leaves behind. */
  ghost predicate Scanned(forbidden: string -> bool, routes: seq<seq<string>>, route: seq<string>, target: string) {
    !forbidden(target) && exists j | 0 <= j < |routes| :: EndsAt(routes[j], target) && AtMost(routes[j], route + [target])
  }

  lemma ScannedExtend(forbidden: string -> bool, routes: seq<seq<string>>, more: seq<seq<string>>, route: seq<string>,
                      target: string)
    requires Scanned(forbidden, routes, route, target)
    ensures Scanned(forbidden, routes + more, route, target)
  {
    var j :| 0 <= j < |routes| && EndsAt(routes[j], target) && AtMost(routes[j], route + [target]);
    assert (routes + more)[j] == routes[j];
  }

  /** The ends of the first `head` routes are completely scanned. */
  ghost predicate Settled(g: Graph, forbidden: string -> bool, routes: seq<seq<string>>, head: nat)
  {
    && head <= |routes| && (forall i | 0 <= i < |routes| :: |routes[i]| > 0)
    && (forall i, t | 0 <= i < head && t in Successors(g, Last(routes[i])) :: Scanned(forbidden, routes, routes[i], t))
  }

  lemma SettledImport(g: Graph, forbidden: string -> bool, routes: seq<seq<string>>, head: nat, i: nat, t: string)
    requires Settled(g, forbidden, routes, head) && i < head && t in Successors(g, Last(routes[i]))
    ensures Scanned(forbidden, routes, routes[i], t)
  {
  }

  /** Only routes up to `current` have been extended. */
  ghost predicate ExtendedUpTo(routes: seq<seq<string>>, current: seq<string>) {
    forall i | 1 <= i < |routes| :: |routes[i]| > 0 && AtMost(Init(routes[i]), current)
  }

  /** Every package reached by a walk that precedes the current route has been settled by a route at least
      as good. */
  lemma {:induction false} SettledBefore(g: Graph, start: string, forbidden: string -> bool, routes: seq<seq<string>>,
                                         head: nat, walk: seq<string>) returns (k: nat)
    requires Discovered(g, start, routes) && Settled(g, forbidden, routes, head) && head < |routes|
    requires IsWalk(g, walk) && walk[0] == start && Precedes(walk, routes[head])
    ensures k < head && EndsAt(routes[k], Last(walk)) && AtMost(routes[k], walk)
    decreases |walk|
  {
    var v := Last(walk);
    if |walk| == 1 {
      assert walk == [start];
      k := 0;
    } else {
      var before := Init(walk);
      PrecedesTransitive(before, walk, routes[head]);
      var u := SettledBefore(g, start, forbidden, routes, head, before);
      assert walk == before + [v] && v in Successors(g, Last(routes[u]));
      assert Scanned(forbidden, routes, routes[u], v);
      k :| 0 <= k < |routes| && EndsAt(routes[k], v) && AtMost(routes[k], routes[u] + [v]);
      if routes[u] != before {
        PrecedesExtend(routes[u], before, v, v);
      }
      PrecedesTransitive(routes[k], routes[u] + [v], walk);
    }
    PrecedesTransitive(routes[k], walk, routes[head]);
    PrecedesTotal(routes[k], routes[head]);
  }

  /** Once every route is scanned, no walk from the start leaves the settled packages. */
  lemma {:induction false} SettledAll(g: Graph, start: string, forbidden: string -> bool, routes: seq<seq<string>>,
                                      walk: seq<string>) returns (k: nat)
    requires Discovered(g, start, routes) && Settled(g, forbidden, routes, |routes|)
    requires IsWalk(g, walk) && walk[0] == start
    ensures k < |routes| && EndsAt(routes[k], Last(walk)) && (|walk| >= 2 ==> !forbidden(Last(walk)))
    decreases |walk|
  {
    if |walk| == 1 {
      k := 0;
    } else {
      var u := SettledAll(g, start, forbidden, routes, Init(walk));
      assert Last(walk) in Successors(g, Last(routes[u]));
      assert Scanned(forbidden, routes, routes[u], Last(walk));
      k :| 0 <= k < |routes| && EndsAt(routes[k], Last(walk)) && AtMost(routes[k], routes[u] + [Last(walk)]);
    }
  }

  lemma NothingForbidden(g: Graph, start: string, forbidden: string -> bool, routes: seq<seq<string>>)
    requires Discovered(g, start, routes) && Settled(g, forbidden, routes, |routes|)
    ensures !ReachesForbidden(g, start, forbidden)
  {
    forall route | IsWalk(g, route) && |route| >= 2 && route[0] == start ensures !forbidden(Last(route)) {
      var _ := SettledAll(g, start, forbidden, routes, route);
    }
  }

  /** The state of the inner loop after scanning the first `i` imports of the end of `routes[head]`. */
  ghost predicate Scanning(g: Graph, start: string, forbidden: string -> bool, routes: seq<seq<string>>,
                           head: nat, targets: seq<string>, i: nat)
  {
    && Discovered(g, start, routes) && Settled(g, forbidden, routes, head)
    && head < |routes| && ExtendedUpTo(routes, routes[head])
    && Ascending(targets) && Elements(targets) == Successors(g, Last(routes[head])) && i <= |targets|
    && (forall k | 0 <= k < i :: Scanned(forbidden, routes, routes[head], targets[k]))
    && (forall j | 0 <= j < |routes| && Init(routes[j]) == routes[head] :: Last(routes[j]) in targets[..i])
  }

  /** A forbidden route cannot precede the one completed by the first forbidden import met. */
  lemma FoundPrecedes(g: Graph, start: string, forbidden: string -> bool, routes: seq<seq<string>>,
                      head: nat, targets: seq<string>, i: nat, other: seq<string>)
    requires Scanning(g, start, forbidden, routes, head, targets, i) && i < |targets|
    requires IsForbiddenRoute(g, start, forbidden, other)
    ensures AtMost(routes[head] + [targets[i]], other)
  {
    var current, before, t := routes[head], Init(other), Last(other);
    assert other == before + [t];
    PrecedesTotal(before, current);
    if Precedes(before, current) {
      var u := SettledBefore(g, start, forbidden, routes, head, before);
      SettledImport(g, forbidden, routes, head, u, t);
    } else if before == current {
      assert other[|other| - 2] == Last(before) && other[|other| - 2 + 1] == t;
      assert t in Successors(g, Last(current));
      assert t in Elements(targets);
      var k :| 0 <= k < |targets| && targets[k] == t;
      if i < k {
        PrecedesExtend(current, before, targets[i], t);
      }
    } else {
      PrecedesExtend(current, before, targets[i], t);
    }
  }

  lemma FoundIsFirst(g: Graph, start: string, forbidden: string -> bool, routes: seq<seq<string>>,
                     head: nat, targets: seq<string>, i: nat)
    requires Scanning(g, start, forbidden, routes, head, targets, i) && i < |targets|
    requires forbidden(targets[i])
    ensures IsFirstForbiddenRoute(g, start, forbidden, routes[head] + [targets[i]])
  {
    assert targets[i] in Elements(targets);
    WalkExtends(g, routes[head], targets[i]);
    forall other | IsForbiddenRoute(g, start, forbidden, other) ensures AtMost(routes[head] + [targets[i]], other) {
      FoundPrecedes(g, start, forbidden, routes, head, targets, i, other);
    }
  }

  /** A newly seen import of the current package comes after every route found so far. */
  lemma NewIsLast(g: Graph, start: string, forbidden: string -> bool, routes: seq<seq<string>>,
                  head: nat, targets: seq<string>, i: nat, j: nat)
    requires Scanning(g, start, forbidden, routes, head, targets, i) && i < |targets|
    requires j < |routes|
    ensures Precedes(routes[j], routes[head] + [targets[i]])
  {
    if j > 0 {
      var before := Init(routes[j]);
      assert routes[j] == before + [Last(routes[j])];
      PrecedesExtend(before, routes[head], Last(routes[j]), targets[i]);
    }
  }

  lemma NewDiscovered(g: Graph, start: string, routes: seq<seq<string>>, route: seq<string>,
                      target: string)
    requires Discovered(g, start, routes)
    requires IsWalk(g, route + [target]) && (route + [target])[0] == start
    requires forall j | 0 <= j < |routes| :: Precedes(routes[j], route + [target])
    ensures Discovered(g, start, routes + [route + [target]])
  {
  }

  lemma NewSettled(g: Graph, forbidden: string -> bool, routes: seq<seq<string>>, head: nat,
                   route: seq<string>, target: string)
    requires Settled(g, forbidden, routes, head)
    ensures Settled(g, forbidden, routes + [route + [target]], head)
  {
    var routes' := routes + [route + [target]];
    forall i, t | 0 <= i < head && t in Successors(g, Last(routes'[i]))
      ensures Scanned(forbidden, routes', routes'[i], t)
    {
      ScannedExtend(forbidden, routes, [route + [target]], routes[i], t);
    }
  }

  lemma ScanNew(g: Graph, start: string, forbidden: string -> bool, routes: seq<seq<string>>,
                head: nat, targets: seq<string>, i: nat)
    requires Scanning(g, start, forbidden, routes, head, targets, i) && i < |targets|
    requires !forbidden(targets[i])
    ensures targets[i] in Packages(g)
    ensures Ends(routes + [routes[head] + [targets[i]]]) == Ends(routes) + {targets[i]}
    ensures Scanning(g, start, forbidden, routes + [routes[head] + [targets[i]]], head, targets, i + 1)
  {
    var target, current := targets[i], routes[head];
    assert target in Elements(targets);
    WalkExtends(g, current, target);
    forall j | 0 <= j < |routes| ensures Precedes(routes[j], current + [target]) {
      NewIsLast(g, start, forbidden, routes, head, targets, i, j);
    }
    EndsExtend(routes, current, target);
    NewDiscovered(g, start, routes, current, target);
    NewSettled(g, forbidden, routes, head, current, target);
    forall k | 0 <= k < i ensures Scanned(forbidden, routes + [current + [target]], current, targets[k]) {
      ScannedExtend(forbidden, routes, [current + [target]], current, targets[k]);
    }
    assert EndsAt((routes + [current + [target]])[|routes|], target);
    assert targets[..i + 1] == targets[..i] + [target];
    assert Init(current + [target]) == current;
  }

  lemma ScanSeen(g: Graph, start: string, forbidden: string -> bool, routes: seq<seq<string>>,
                 head: nat, targets: seq<string>, i: nat)
    requires Scanning(g, start, forbidden, routes, head, targets, i) && i < |targets|
    requires !forbidden(targets[i]) && targets[i] in Ends(routes)
    ensures Scanning(g, start, forbidden, routes, head, targets, i + 1)
  {
    assert targets[..i + 1] == targets[..i] + [targets[i]];
    var j :| 0 <= j < |routes| && EndsAt(routes[j], targets[i]);
    NewIsLast(g, start, forbidden, routes, head, targets, i, j);
  }

  lemma ScanEnd(g: Graph, start: string, forbidden: string -> bool, routes: seq<seq<string>>,
                head: nat, targets: seq<string>)
    requires Scanning(g, start, forbidden, routes, head, targets, |targets|)
    ensures Settled(g, forbidden, routes, head + 1)
  {
    forall t | t in Successors(g, Last(routes[head])) ensures Scanned(forbidden, routes, routes[head], t) {
      assert t in Elements(targets);
    }
  }

  /** The state of the outer loop: `head` routes were dequeued, and only those were extended. */
  ghost predicate Searching(g: Graph, start: string, forbidden: string -> bool, routes: seq<seq<string>>,
                            head: nat)
  {
    && Discovered(g, start, routes) && Settled(g, forbidden, routes, head)
    && (if head == 0 then |routes| == 1 else ExtendedUpTo(routes, routes[head - 1]))
  }

  lemma ScanStart(g: Graph, start: string, forbidden: string -> bool, routes: seq<seq<string>>,
                  head: nat, targets: seq<string>)
    requires Searching(g, start, forbidden, routes, head) && head < |routes|
    requires Ascending(targets) && Elements(targets) == Successors(g, Last(routes[head]))
    ensures Scanning(g, start, forbidden, routes, head, targets, 0)
  {
    forall j | 0 <= j < |routes| ensures Init(routes[j]) != routes[head] {
      if j > 0 {
        PrecedesTransitive(Init(routes[j]), routes[head - 1], routes[head]);
        PrecedesTotal(Init(routes[j]), routes[head]);
      }
    }
    forall j | 1 <= j < |routes| ensures AtMost(Init(routes[j]), routes[head]) {
      PrecedesTransitive(Init(routes[j]), routes[head - 1], routes[head]);
    }
  }

  /** The inner loop: scan the imports of the last package of `route`, in alphabetical order, until one is
      forbidden; enqueue the others that are new. */
  method Scan(start: string, g: Graph, forbidden: string -> bool, route: seq<string>, targets: seq<string>,
              queue: seq<seq<string>>, known: set<string>,
              ghost before: seq<seq<string>>, ghost head: nat)
    returns (found: Option<seq<string>>, pending: seq<seq<string>>, seen: set<string>,
             ghost routes: seq<seq<string>>)
    requires Scanning(g, start, forbidden, before, head, targets, 0)
    requires before[head] == route && queue == before[head + 1..] && known == Ends(before)
    ensures found.Some? ==> IsFirstForbiddenRoute(g, start, forbidden, found.value)
    ensures found.None? ==> Searching(g, start, forbidden, routes, head + 1) && pending == routes[head + 1..]
    ensures seen == Ends(routes)
    ensures known <= seen <= known + Packages(g) && (seen == known ==> pending == queue)
  {
    pending, seen, routes := queue, known, before;
    var i := 0;
    while i < |targets|
      invariant 0 <= i <= |targets|
      invariant Scanning(g, start, forbidden, routes, head, targets, i)
      invariant routes[head] == route && pending == routes[head + 1..] && seen == Ends(routes)
      invariant known <= seen <= known + Packages(g) && (seen == known ==> pending == queue)
    {
      var target := targets[i];
      if forbidden(target) {
        FoundIsFirst(g, start, forbidden, routes, head, targets, i);
        return Some(route + [target]), pending, seen, routes;
      }
      if target !in seen {
        ScanNew(g, start, forbidden, routes, head, targets, i);
        routes := routes + [route + [target]];
        seen := seen + {target};
        pending := pending + [route + [target]];
      } else {
        ScanSeen(g, start, forbidden, routes, head, targets, i);
      }
      i := i + 1;
    }
    ScanEnd(g, start, forbidden, routes, head, targets);
    found := None;
  }

  lemma FewerUnseen(all: set<string>, known: set<string>, seen: set<string>)
    requires known <= seen <= all
    ensures seen != known ==> |all - seen| < |all - known|
  {
    if seen != known {
      var x :| x in seen && x !in known;
      CardinalityMonotone(all - seen, all - known - {x});
    }
  }

  /** `path_to_forbidden`, for any rule about what is forbidden. */
  method Search(start: string, g: Graph, forbidden: string -> bool) returns (r: Option<seq<string>>)
    ensures r.None? <==> !ReachesForbidden(g, start, forbidden)
    ensures r.Some? ==> IsFirstForbiddenRoute(g, start, forbidden, r.value)
  {
    var pending := [[start]];
    var seen := {start};
    ghost var routes, head := [[start]], 0;
    ghost var reachable := Packages(g) + {start};
    while pending != []
      invariant Searching(g, start, forbidden, routes, head)
      invariant pending == routes[head..] && seen == Ends(routes) && seen <= reachable
      decreases |reachable - seen|, |pending|
    {
      var route := pending[0];
      ghost var known := seen;
      var targets := Sorted(Successors(g, Last(route)));
      ScanStart(g, start, forbidden, routes, head, targets);
      r, pending, seen, routes := Scan(start, g, forbidden, route, targets, pending[1..], seen, routes, head);
      if r.Some? {
        return r;
      }
      FewerUnseen(reachable, known, seen);
      head := head + 1;
    }
    NothingForbidden(g, start, forbidden, routes);
    return None;
  }
}

/** `references` and `collect` (scripts/dependency_actions.py): the Actions a set of workflow references leads to,
    with where each is used. */
module ActionClosure {
  import opened Ordering
  import opened Text

  datatype Identity = Identity(name: string, version: string)

  /** One Action with its origins and the places that refer to it. */
  datatype Row = Row(id: Identity, origins: set<string>, locations: set<string>)

  /** A dependency that an Action's manifest declares. */
  datatype Dependency = Other | Action(reference: string, pinned: bool)

  /** The public sources: `observe` reads an Action's manifest, `resolve` turns a reference into an identity, with its
      revision resolved to a commit where it is not pinned. `None` where the source raises. */
  datatype Sources = Sources(
    observe: Identity -> Option<seq<Dependency>>,
    resolve: (string, bool) -> Option<Identity>,
    location: (Identity, nat) -> string)

  const NESTED := "action-dependency"
  const MAX_COMPONENTS := 128
  const MAX_PENDING := 512
  const MAX_REFERENCES := 1024

  // ---------------------------------------------------------------- merging rows

  /** `result[identity]` with the origins and locations of another row for it. */
  function Merged(rows: map<Identity, Row>, row: Row): map<Identity, Row> {
    if row.id in rows then
      var known := rows[row.id];
      rows[row.id := Row(row.id, known.origins + row.origins, known.locations + row.locations)]
    else rows[row.id := row]
  }

  function Gather(rows: seq<Row>): map<Identity, Row> {
    if rows == [] then map[] else Merged(Gather(rows[..|rows| - 1]), rows[|rows| - 1])
  }

  function Ids(rows: seq<Row>): set<Identity> {
    set i | 0 <= i < |rows| :: rows[i].id
  }

  /** Somewhere in the list this identity has this location, or this origin. */
  predicate Located(rows: seq<Row>, id: Identity, place: string) {
    exists i | 0 <= i < |rows| :: rows[i].id == id && place in rows[i].locations
  }

  predicate Originates(rows: seq<Row>, id: Identity, origin: string) {
    exists i | 0 <= i < |rows| :: rows[i].id == id && origin in rows[i].origins
  }

  lemma LocatedStep(rows: seq<Row>, id: Identity, place: string)
    requires rows != []
    ensures var n := |rows| - 1;
            Located(rows, id, place) <==>
            Located(rows[..n], id, place) || (rows[n].id == id && place in rows[n].locations)
  {
    var init := rows[..|rows| - 1];
    assert forall i | 0 <= i < |init| :: init[i] == rows[i];
  }

  lemma OriginatesStep(rows: seq<Row>, id: Identity, origin: string)
    requires rows != []
    ensures var n := |rows| - 1;
            Originates(rows, id, origin) <==>
            Originates(rows[..n], id, origin) || (rows[n].id == id && origin in rows[n].origins)
  {
    var init := rows[..|rows| - 1];
    assert forall i | 0 <= i < |init| :: init[i] == rows[i];
  }

  /** Merging keeps one row for each identity and loses and invents nothing. */
  lemma {:induction false} GatherIs(rows: seq<Row>)
    ensures Gather(rows).Keys == Ids(rows)
    ensures forall id | id in Gather(rows) :: Gather(rows)[id].id == id
    ensures forall id, place | id in Gather(rows) ::
              place in Gather(rows)[id].locations <==> Located(rows, id, place)
    ensures forall id, origin | id in Gather(rows) ::
              origin in Gather(rows)[id].origins <==> Originates(rows, id, origin)
  {
    if rows != [] {
      var n := |rows| - 1;
      var init := rows[..n];
      GatherIs(init);
      assert Ids(rows) == Ids(init) + {rows[n].id} by {
        assert forall i | 0 <= i < n :: init[i] == rows[i];
      }
      forall id, place | id in Gather(rows)
        ensures place in Gather(rows)[id].locations <==> Located(rows, id, place)
      {
        LocatedStep(rows, id, place);
        assert Located(init, id, place) ==> id in Ids(init);
      }
      forall id, origin | id in Gather(rows)
        ensures origin in Gather(rows)[id].origins <==> Originates(rows, id, origin)
      {
        OriginatesStep(rows, id, origin);
        assert Originates(init, id, origin) ==> id in Ids(init);
      }
    }
  }

  // ---------------------------------------------------------------- the edges of an Action

  const MAX_LOCATION := 2048

  /** A location is short and printable ASCII. */
  predicate IsLocation(s: string) {
    |s| <= MAX_LOCATION && forall i | 0 <= i < |s| :: ' ' <= s[i] <= '~'
  }

  /** The rows that the first `n` dependencies of an Action add. */
  function EdgesUpTo(s: Sources, id: Identity, deps: seq<Dependency>, n: nat): Option<seq<Row>>
    requires n <= |deps|
  {
    if n == 0 then Some([])
    else
      var before := EdgesUpTo(s, id, deps, n - 1);
      if before.None? || deps[n - 1].Other? then before
      else
        var target := s.resolve(deps[n - 1].reference, deps[n - 1].pinned);
        if target.None? || !IsLocation(s.location(id, n - 1)) then None
        else Some(before.value + [Row(target.value, {NESTED}, {s.location(id, n - 1)})])
  }

  /** Everything an Action adds to the list; `None` where it, or one of its references, cannot be read. */
  function Edges(s: Sources, id: Identity): Option<seq<Row>> {
    var deps := s.observe(id);
    if deps.None? then None else EdgesUpTo(s, id, deps.value, |deps.value|)
  }

  predicate Readable(s: Sources, order: seq<Identity>) {
    forall i | 0 <= i < |order| :: Edges(s, order[i]).Some?
  }

  function AllEdges(s: Sources, order: seq<Identity>): seq<Row>
    requires Readable(s, order)
  {
    if order == [] then []
    else AllEdges(s, order[..|order| - 1]) + Edges(s, order[|order| - 1]).value
  }

  /** The identities hold the seeds and everything that they themselves lead to. */
  ghost predicate Covers(s: Sources, seeds: seq<Row>, ids: set<Identity>) {
    && Ids(seeds) <= ids
    && forall id | id in ids :: Edges(s, id).Some? ==> Ids(Edges(s, id).value) <= ids
  }

  /** The rows of a finished collection, and the order in which its Actions were read. */
  ghost predicate Complete(s: Sources, seeds: seq<Row>, order: seq<Identity>, rows: map<Identity, Row>) {
    && Distinct(order) && Readable(s, order) && Elements(order) == rows.Keys
    && rows == Gather(seeds + AllEdges(s, order))
  }

  /** A covering list of readable Actions within the budgets. */
  ghost predicate Fits(s: Sources, seeds: seq<Row>, order: seq<Identity>) {
    && Distinct(order) && Readable(s, order) && Covers(s, seeds, Elements(order))
    && |order| <= MAX_COMPONENTS && |seeds| + |AllEdges(s, order)| <= MAX_PENDING
  }

  // ---------------------------------------------------------------- edges and budgets written out

  /** How many of the first `n` dependencies are Actions. */
  function ActionCount(deps: seq<Dependency>, n: nat): nat
    requires n <= |deps|
  {
    if n == 0 then 0 else ActionCount(deps, n - 1) + if deps[n - 1].Action? then 1 else 0
  }

  /** Every dependency that is an Action can be resolved and referred to. */
  predicate AllResolve(s: Sources, id: Identity, deps: seq<Dependency>, n: nat)
    requires n <= |deps|
  {
    forall k | 0 <= k < n && deps[k].Action? ::
      s.resolve(deps[k].reference, deps[k].pinned).Some? && IsLocation(s.location(id, k))
  }

  lemma {:induction false} EdgesUpToExactly(s: Sources, id: Identity, deps: seq<Dependency>, n: nat)
    requires n <= |deps|
    ensures EdgesUpTo(s, id, deps, n).Some? <==> AllResolve(s, id, deps, n)
    ensures EdgesUpTo(s, id, deps, n).Some? ==> |EdgesUpTo(s, id, deps, n).value| == ActionCount(deps, n)
  {
    if n > 0 {
      EdgesUpToExactly(s, id, deps, n - 1);
    }
  }

  /** An Action can be followed exactly where its manifest is read and all its Actions resolve, pinned or not; it then
      adds as many rows as it has Actions. */
  lemma EdgesExactly(s: Sources, id: Identity)
    ensures Edges(s, id).Some? <==>
            s.observe(id).Some? && AllResolve(s, id, s.observe(id).value, |s.observe(id).value|)
    ensures Edges(s, id).Some? ==> |Edges(s, id).value| == ActionCount(s.observe(id).value, |s.observe(id).value|)
  {
    if s.observe(id).Some? {
      EdgesUpToExactly(s, id, s.observe(id).value, |s.observe(id).value|);
    }
  }

  /** The Actions of a list can all be followed. */
  predicate AllFollow(s: Sources, order: seq<Identity>) {
    forall i | 0 <= i < |order| ::
      s.observe(order[i]).Some? && AllResolve(s, order[i], s.observe(order[i]).value, |s.observe(order[i]).value|)
  }

  /** How many references the Actions of a list make. */
  function ReferenceCount(s: Sources, order: seq<Identity>): nat {
    if order == [] then 0
    else
      var deps := s.observe(order[|order| - 1]);
      ReferenceCount(s, order[..|order| - 1]) + if deps.Some? then ActionCount(deps.value, |deps.value|) else 0
  }

  /** The seeds and whatever the Actions of the list refer to are in the list. */
  ghost predicate IsClosed(s: Sources, seeds: seq<Row>, order: seq<Identity>) {
    && (forall i | 0 <= i < |seeds| :: seeds[i].id in order)
    && forall id, n, target | id in order && LeadsTo(s, id, n, target) :: target in order
  }

  /** Different Actions that can all be followed, closed under what they refer to, at most 128 of them, with at most 512
      uses together: the seeds and the references. */
  ghost predicate WithinBudgets(s: Sources, seeds: seq<Row>, order: seq<Identity>) {
    && Distinct(order) && AllFollow(s, order) && IsClosed(s, seeds, order)
    && |order| <= 128 && |seeds| + ReferenceCount(s, order) <= 512
  }

  lemma ReadableMeaning(s: Sources, order: seq<Identity>)
    ensures Readable(s, order) <==> AllFollow(s, order)
  {
    forall i | 0 <= i < |order|
      ensures Edges(s, order[i]).Some? <==>
              s.observe(order[i]).Some? && AllResolve(s, order[i], s.observe(order[i]).value, |s.observe(order[i]).value|)
    {
      EdgesExactly(s, order[i]);
    }
  }

  lemma {:induction false} ReferencesCounted(s: Sources, order: seq<Identity>)
    requires Readable(s, order)
    ensures |AllEdges(s, order)| == ReferenceCount(s, order)
  {
    if order != [] {
      ReferencesCounted(s, order[..|order| - 1]);
      EdgesExactly(s, order[|order| - 1]);
    }
  }

  /** Some dependency of the Action leads to `target`. */
  ghost predicate Refers(s: Sources, id: Identity, target: Identity) {
    exists n: nat :: LeadsTo(s, id, n, target)
  }

  lemma EdgeIds(s: Sources, id: Identity, target: Identity)
    requires Edges(s, id).Some?
    ensures target in Ids(Edges(s, id).value) <==> Refers(s, id, target)
  {
    var deps, rows := s.observe(id).value, Edges(s, id).value;
    EdgesUpToNested(s, id, deps, |deps|);
    if target in Ids(rows) {
      var i :| 0 <= i < |rows| && rows[i].id == target;
      var place :| place in rows[i].locations;
      assert Located(rows, target, place);
      EdgesAre(s, id, target, place);
      var n: nat :| LeadsTo(s, id, n, target) && place == s.location(id, n);
    }
    if n: nat :| LeadsTo(s, id, n, target) {
      EdgesAre(s, id, target, s.location(id, n));
      assert EdgeAt(s, id, target, s.location(id, n));
      var i :| 0 <= i < |rows| && rows[i].id == target && s.location(id, n) in rows[i].locations;
    }
  }

  lemma CoversMeaning(s: Sources, seeds: seq<Row>, order: seq<Identity>)
    requires Readable(s, order)
    ensures Covers(s, seeds, Elements(order)) <==> IsClosed(s, seeds, order)
  {
    var ids := Elements(order);
    forall id, target | id in ids ensures target in Ids(Edges(s, id).value) <==> Refers(s, id, target) {
      var i :| 0 <= i < |order| && order[i] == id;
      EdgeIds(s, order[i], target);
    }
    if Covers(s, seeds, ids) {
      forall i | 0 <= i < |seeds| ensures seeds[i].id in order {
        assert seeds[i].id in Ids(seeds);
      }
      forall id, n, target | id in order && LeadsTo(s, id, n, target) ensures target in order {
        assert id in ids && Refers(s, id, target);
      }
    }
    if IsClosed(s, seeds, order) {
      forall id | id in ids && Edges(s, id).Some? ensures Ids(Edges(s, id).value) <= ids {
        forall target | target in Ids(Edges(s, id).value) ensures target in ids {
          var n: nat :| LeadsTo(s, id, n, target);
        }
      }
    }
  }

  /** The lists within the budgets are those that the loop counts by its rows. */
  lemma FitsExactly(s: Sources, seeds: seq<Row>, order: seq<Identity>)
    ensures Fits(s, seeds, order) <==> WithinBudgets(s, seeds, order)
  {
    ReadableMeaning(s, order);
    if Readable(s, order) {
      CoversMeaning(s, seeds, order);
      ReferencesCounted(s, order);
    }
  }

  // ---------------------------------------------------------------- counting

  lemma AllEdgesAppend(s: Sources, order: seq<Identity>, id: Identity)
    requires Readable(s, order) && Edges(s, id).Some?
    ensures Readable(s, order + [id])
    ensures AllEdges(s, order + [id]) == AllEdges(s, order) + Edges(s, id).value
  {
    var all := order + [id];
    assert all[..|order|] == order;
  }

  /** A list with one element left out. */
  function Without(order: seq<Identity>, i: nat): seq<Identity>
    requires i < |order|
  {
    order[..i] + order[i + 1..]
  }

  lemma WithoutParts(order: seq<Identity>, i: nat)
    requires i < |order|
    ensures var n := |order| - 1;
            && |Without(order, i)| == n
            && (i == n ==> Without(order, i) == order[..n])
            && (i < n ==> Without(order, i)[..n - 1] == Without(order[..n], i) && Without(order, i)[n - 1] == order[n])
  {
  }

  lemma WithoutKeeps(order: seq<Identity>, i: nat, x: Identity)
    requires i < |order| && x in order && x != order[i]
    ensures x in Without(order, i)
  {
    var j :| 0 <= j < |order| && order[j] == x;
    assert Without(order, i)[if j < i then j else j - 1] == x;
  }

  lemma WithoutReadable(s: Sources, order: seq<Identity>, i: nat)
    requires Readable(s, order) && i < |order|
    ensures Readable(s, Without(order, i))
  {
    var rest := Without(order, i);
    forall k | 0 <= k < |rest| ensures Edges(s, rest[k]).Some? {
      assert rest[k] == order[if k < i then k else k + 1];
    }
  }

  /** The number of edges of a list. */
  function EdgeCount(s: Sources, order: seq<Identity>): nat
    requires Readable(s, order)
  {
    if order == [] then 0 else EdgeCount(s, order[..|order| - 1]) + |Edges(s, order[|order| - 1]).value|
  }

  lemma {:induction false} EdgeCountIs(s: Sources, order: seq<Identity>)
    requires Readable(s, order)
    ensures EdgeCount(s, order) == |AllEdges(s, order)|
  {
    if order != [] {
      EdgeCountIs(s, order[..|order| - 1]);
    }
  }

  /** Leaving one Action out of a list leaves its edges out. */
  lemma {:induction false} CountWithout(s: Sources, order: seq<Identity>, i: nat)
    requires Readable(s, order) && i < |order|
    ensures Readable(s, Without(order, i))
    ensures EdgeCount(s, order) == EdgeCount(s, Without(order, i)) + |Edges(s, order[i]).value|
  {
    var n := |order| - 1;
    WithoutParts(order, i);
    WithoutReadable(s, order, i);
    if i < n {
      CountWithout(s, order[..n], i);
    }
  }

  lemma {:induction false} FewerCounted(s: Sources, a: seq<Identity>, b: seq<Identity>)
    requires Readable(s, a) && Readable(s, b) && Distinct(a) && Elements(a) <= Elements(b)
    ensures |a| <= |b| && EdgeCount(s, a) <= EdgeCount(s, b)
    decreases |a|
  {
    if a != [] {
      var n := |a| - 1;
      assert a[n] in Elements(a);
      var i :| 0 <= i < |b| && b[i] == a[n];
      CountWithout(s, b, i);
      InitWithin(a, b, i);
      FewerCounted(s, a[..n], Without(b, i));
    }
  }

  /** A list of different Actions adds no more than any list that holds them all. */
  lemma FewerEdges(s: Sources, a: seq<Identity>, b: seq<Identity>)
    requires Readable(s, a) && Readable(s, b) && Distinct(a) && Elements(a) <= Elements(b)
    ensures |a| <= |b| && |AllEdges(s, a)| <= |AllEdges(s, b)|
  {
    FewerCounted(s, a, b);
    EdgeCountIs(s, a);
    EdgeCountIs(s, b);
  }

  lemma InitWithin(a: seq<Identity>, b: seq<Identity>, i: nat)
    requires a != [] && Distinct(a) && Elements(a) <= Elements(b) && i < |b| && b[i] == a[|a| - 1]
    ensures Elements(a[..|a| - 1]) <= Elements(Without(b, i))
  {
    var n := |a| - 1;
    forall x | x in Elements(a[..n]) ensures x in Elements(Without(b, i)) {
      var k :| 0 <= k < n && a[..n][k] == x;
      assert a[k] == x && x in Elements(a);
      WithoutKeeps(b, i, x);
    }
  }

  // ---------------------------------------------------------------- the worklist

  /** The inner loop: the rows one Action adds. */
  method Follow(s: Sources, id: Identity) returns (rows: Option<seq<Row>>)
    ensures rows == Edges(s, id)
  {
    var deps := s.observe(id);
    if deps.None? {
      return None;
    }
    var found: seq<Row> := [];
    for n := 0 to |deps.value|
      invariant EdgesUpTo(s, id, deps.value, n) == Some(found)
    {
      if deps.value[n].Action? {
        var target := s.resolve(deps.value[n].reference, deps.value[n].pinned);
        if target.None? || !IsLocation(s.location(id, n)) {
          Unresolved(s, id, deps.value, n + 1);
          return None;
        }
        found := found + [Row(target.value, {NESTED}, {s.location(id, n)})];
      }
    }
    return Some(found);
  }

  lemma {:induction false} Unresolved(s: Sources, id: Identity, deps: seq<Dependency>, n: nat)
    requires n <= |deps| && EdgesUpTo(s, id, deps, n).None?
    ensures EdgesUpTo(s, id, deps, |deps|).None?
    decreases |deps| - n
  {
    if n < |deps| {
      Unresolved(s, id, deps, n + 1);
    }
  }

  /** What the loop of `collect` keeps: the list is the seeds and the edges of the Actions read so far, and the rows
      are the part of the list that has been gone through. */
  ghost predicate Running(
      s: Sources, seeds: seq<Row>, order: seq<Identity>, pending: seq<Row>, rows: map<Identity, Row>, index: nat)
  {
    && index <= |pending| && Distinct(order) && Readable(s, order) && Elements(order) == rows.Keys
    && pending == seeds + AllEdges(s, order)
    && rows == Gather(pending[..index])
    && |rows| == |order| <= MAX_COMPONENTS
  }

  lemma GatherStep(pending: seq<Row>, index: nat)
    requires index < |pending|
    ensures Gather(pending[..index + 1]) == Merged(Gather(pending[..index]), pending[index])
  {
    PrefixStep(pending, index);
  }

  lemma PrefixOfLonger(pending: seq<Row>, more: seq<Row>, index: nat)
    requires index <= |pending|
    ensures (pending + more)[..index] == pending[..index]
  {
  }

  /** A row whose Action is already known is merged. */
  lemma StepKnown(
      s: Sources, seeds: seq<Row>, order: seq<Identity>, pending: seq<Row>, rows: map<Identity, Row>, index: nat)
    requires Running(s, seeds, order, pending, rows, index) && index < |pending| && pending[index].id in rows
    ensures Running(s, seeds, order, pending, Merged(rows, pending[index]), index + 1)
  {
    GatherStep(pending, index);
    assert Merged(rows, pending[index]).Keys == rows.Keys;
    SameSize(Merged(rows, pending[index]), rows);
  }

  lemma SameSize(a: map<Identity, Row>, b: map<Identity, Row>)
    requires a.Keys == b.Keys
    ensures |a| == |b|
  {
    assert |a| == |a.Keys| && |b| == |b.Keys|;
  }

  /** A row with a new Action is added, and its edges go to the end of the list. */
  lemma StepNew(
      s: Sources, seeds: seq<Row>, order: seq<Identity>, pending: seq<Row>, rows: map<Identity, Row>, index: nat)
    requires Running(s, seeds, order, pending, rows, index) && index < |pending| && pending[index].id !in rows
    requires Edges(s, pending[index].id).Some? && |rows| < MAX_COMPONENTS
    ensures var id := pending[index].id;
            Running(s, seeds, order + [id], pending + Edges(s, id).value, rows[id := pending[index]], index + 1)
  {
    var id := pending[index].id;
    GatherStep(pending, index);
    PrefixOfLonger(pending, Edges(s, id).value, index + 1);
    AppendNew(order, id);
    AddKey(rows, id, pending[index]);
    EdgesAppended(s, seeds, order, pending, id);
  }

  lemma AddKey(rows: map<Identity, Row>, id: Identity, row: Row)
    requires id !in rows
    ensures rows[id := row].Keys == rows.Keys + {id} && |rows[id := row]| == |rows| + 1
  {
    assert rows[id := row].Keys == rows.Keys + {id};
    assert |rows[id := row]| == |rows[id := row].Keys|;
  }

  lemma EdgesAppended(s: Sources, seeds: seq<Row>, order: seq<Identity>, pending: seq<Row>, id: Identity)
    requires Readable(s, order) && Edges(s, id).Some? && pending == seeds + AllEdges(s, order)
    ensures Readable(s, order + [id])
    ensures pending + Edges(s, id).value == seeds + AllEdges(s, order + [id])
  {
    AllEdgesAppend(s, order, id);
    var more := Edges(s, id).value;
    assert seeds + (AllEdges(s, order) + more) == seeds + AllEdges(s, order) + more;
  }

  /** Every Action on the list is in any covering list. */
  lemma {:induction false} PendingIsCovered(s: Sources, seeds: seq<Row>, order: seq<Identity>, ids: set<Identity>)
    requires Readable(s, order) && Covers(s, seeds, ids) && Elements(order) <= ids
    ensures Ids(seeds + AllEdges(s, order)) <= ids
  {
    var pending := seeds + AllEdges(s, order);
    if order != [] {
      var n := |order| - 1;
      var init, last := order[..n], Edges(s, order[n]).value;
      assert forall x | x in Elements(init) :: x in Elements(order);
      PendingIsCovered(s, seeds, init, ids);
      assert pending == (seeds + AllEdges(s, init)) + last;
      assert order[n] in Elements(order);
      IdsConcat(seeds + AllEdges(s, init), last);
    } else {
      assert pending == seeds;
    }
  }

  lemma IdsConcat(a: seq<Row>, b: seq<Row>)
    ensures Ids(a + b) == Ids(a) + Ids(b)
  {
    var both := a + b;
    assert forall i | 0 <= i < |a| :: both[i] == a[i];
    assert forall i | 0 <= i < |b| :: both[|a| + i] == b[i];
    assert forall i | |a| <= i < |both| :: both[i] == b[i - |a|];
  }

  lemma IdOf(rows: seq<Row>, i: nat)
    requires i < |rows|
    ensures rows[i].id in Ids(rows)
  {
  }

  /** The Actions read so far belong to any covering list. */
  ghost predicate Within(s: Sources, seeds: seq<Row>, order: seq<Identity>) {
    forall ids: set<Identity> | Covers(s, seeds, ids) :: Elements(order) <= ids
  }

  lemma WithinStep(s: Sources, seeds: seq<Row>, order: seq<Identity>, id: Identity)
    requires Readable(s, order) && Within(s, seeds, order) && id in Ids(seeds + AllEdges(s, order))
    ensures Within(s, seeds, order + [id])
  {
    forall ids: set<Identity> | Covers(s, seeds, ids) ensures Elements(order + [id]) <= ids {
      PendingIsCovered(s, seeds, order, ids);
    }
  }

  /** Where the loop gives up, no list fits. */
  lemma NothingFits(
      s: Sources, seeds: seq<Row>, order: seq<Identity>, pending: seq<Row>, rows: map<Identity, Row>, index: nat,
      fit: seq<Identity>)
    requires Running(s, seeds, order, pending, rows, index) && Within(s, seeds, order) && Fits(s, seeds, fit)
    ensures |pending| <= MAX_PENDING
    ensures index < |pending| && pending[index].id !in rows ==>
              Edges(s, pending[index].id).Some? && |rows| < MAX_COMPONENTS
  {
    assert Elements(order) <= Elements(fit);
    FewerEdges(s, order, fit);
    if index < |pending| && pending[index].id !in rows {
      var id := pending[index].id;
      IdOf(pending, index);
      PendingIsCovered(s, seeds, order, Elements(fit));
      assert id in Elements(fit);
      var k :| 0 <= k < |fit| && fit[k] == id;
      assert Edges(s, fit[k]).Some?;
      AllEdgesAppend(s, order, id);
      AppendNew(order, id);
      FewerEdges(s, order + [id], fit);
    }
  }

  /** The conditions under which the loop gives up. */
  predicate Exhausted(s: Sources, pending: seq<Row>, rows: map<Identity, Row>, index: nat) {
    || |pending| > MAX_PENDING
    || (index < |pending| && pending[index].id !in rows
        && (Edges(s, pending[index].id).None? || |rows| >= MAX_COMPONENTS))
  }

  ghost predicate SomethingFits(s: Sources, seeds: seq<Row>) {
    exists fit: seq<Identity> :: Fits(s, seeds, fit)
  }

  lemma GivesUp(
      s: Sources, seeds: seq<Row>, order: seq<Identity>, pending: seq<Row>, rows: map<Identity, Row>, index: nat)
    requires Running(s, seeds, order, pending, rows, index) && Within(s, seeds, order)
    requires Exhausted(s, pending, rows, index)
    ensures !SomethingFits(s, seeds)
  {
    if SomethingFits(s, seeds) {
      var fit: seq<Identity> :| Fits(s, seeds, fit);
      NothingFits(s, seeds, order, pending, rows, index, fit);
      assert false;
    }
  }

  lemma Starts(s: Sources, seeds: seq<Row>)
    ensures Running(s, seeds, [], seeds, map[], 0) && Within(s, seeds, [])
  {
    assert seeds + AllEdges(s, []) == seeds && seeds[..0] == [];
  }

  lemma FitMeaning(s: Sources, seeds: seq<Row>)
    ensures SomethingFits(s, seeds) <==> exists fit :: WithinBudgets(s, seeds, fit)
  {
    if SomethingFits(s, seeds) {
      var fit: seq<Identity> :| Fits(s, seeds, fit);
      FitsExactly(s, seeds, fit);
    }
    if fit :| WithinBudgets(s, seeds, fit) {
      FitsExactly(s, seeds, fit);
    }
  }

  /** The worklist loop. */
  method CollectRows(s: Sources, seeds: seq<Row>)
    returns (result: Option<map<Identity, Row>>, ghost order: seq<Identity>)
    ensures result.Some? <==> SomethingFits(s, seeds)
    ensures result.Some? ==> Complete(s, seeds, order, result.value) && Within(s, seeds, order)
  {
    var pending, rows, index := seeds, map[], 0;
    order := [];
    Starts(s, seeds);
    while index < |pending|
      invariant Running(s, seeds, order, pending, rows, index) && Within(s, seeds, order)
      invariant index < |pending| || |pending| <= MAX_PENDING
      decreases MAX_COMPONENTS - |rows|, |pending| - index
    {
      var row := pending[index];
      if |pending| > MAX_PENDING {
        GivesUp(s, seeds, order, pending, rows, index);
        return None, order;
      }
      if row.id in rows {
        StepKnown(s, seeds, order, pending, rows, index);
        rows := Merged(rows, row);
      } else {
        var found := Follow(s, row.id);
        if |rows| >= MAX_COMPONENTS || found.None? {
          GivesUp(s, seeds, order, pending, rows, index);
          return None, order;
        }
        IdOf(pending, index);
        WithinStep(s, seeds, order, row.id);
        StepNew(s, seeds, order, pending, rows, index);
        order, pending, rows := order + [row.id], pending + found.value, rows[row.id := row];
      }
      index := index + 1;
    }
    Finished(s, seeds, order, pending, rows);
    return Some(rows), order;
  }

  /** `collect(rows, work)`: it succeeds exactly where some covering list of readable Actions is within the budgets, and
      then every Action of the list has one complete row. */
  method CollectActions(s: Sources, seeds: seq<Row>)
    returns (result: Option<map<Identity, Row>>, ghost order: seq<Identity>)
    ensures result.Some? <==> exists fit :: WithinBudgets(s, seeds, fit)
    ensures result.Some? ==> Complete(s, seeds, order, result.value) && Within(s, seeds, order)
  {
    FitMeaning(s, seeds);
    result, order := CollectRows(s, seeds);
  }

  /** When the list has been gone through, what was read covers it. */
  lemma Finished(s: Sources, seeds: seq<Row>, order: seq<Identity>, pending: seq<Row>, rows: map<Identity, Row>)
    requires Running(s, seeds, order, pending, rows, |pending|) && |pending| <= MAX_PENDING
    ensures Complete(s, seeds, order, rows) && Fits(s, seeds, order)
  {
    assert pending[..|pending|] == pending;
    CompleteCovers(s, seeds, order, rows);
  }

  lemma CompleteCovers(s: Sources, seeds: seq<Row>, order: seq<Identity>, rows: map<Identity, Row>)
    requires Complete(s, seeds, order, rows)
    ensures Covers(s, seeds, Elements(order))
  {
    GatherIs(seeds + AllEdges(s, order));
    IdsConcat(seeds, AllEdges(s, order));
    forall id | id in Elements(order) ensures Ids(Edges(s, id).value) <= Elements(order) {
      var k :| 0 <= k < |order| && order[k] == id;
      EdgesListed(s, order, k);
    }
  }

  lemma {:induction false} EdgesListed(s: Sources, order: seq<Identity>, k: nat)
    requires Readable(s, order) && k < |order|
    ensures Ids(Edges(s, order[k]).value) <= Ids(AllEdges(s, order))
  {
    var n := |order| - 1;
    IdsConcat(AllEdges(s, order[..n]), Edges(s, order[n]).value);
    if k < n {
      EdgesListed(s, order[..n], k);
    }
  }

  // ---------------------------------------------------------------- what is collected

  /** Dependency `n` of an Action leads to `target`. */
  predicate LeadsTo(s: Sources, id: Identity, n: nat, target: Identity) {
    && s.observe(id).Some? && n < |s.observe(id).value| && s.observe(id).value[n].Action?
    && s.resolve(s.observe(id).value[n].reference, s.observe(id).value[n].pinned) == Some(target)
  }

  /** Some dependency of the Action leads to `target` and is this place. */
  ghost predicate EdgeAt(s: Sources, id: Identity, target: Identity, place: string) {
    exists n: nat :: LeadsTo(s, id, n, target) && place == s.location(id, n)
  }

  lemma {:induction false} EdgesUpToAre(
      s: Sources, id: Identity, deps: seq<Dependency>, n: nat, target: Identity, place: string)
    requires s.observe(id) == Some(deps) && n <= |deps| && EdgesUpTo(s, id, deps, n).Some?
    ensures Located(EdgesUpTo(s, id, deps, n).value, target, place) <==>
            exists k: nat :: k < n && LeadsTo(s, id, k, target) && place == s.location(id, k)
  {
    if n > 0 {
      EdgesUpToAre(s, id, deps, n - 1, target, place);
      var before, rows := EdgesUpTo(s, id, deps, n - 1).value, EdgesUpTo(s, id, deps, n).value;
      if deps[n - 1].Action? {
        LocatedStep(rows, target, place);
        assert rows[..|rows| - 1] == before;
      }
      assert LeadsTo(s, id, n - 1, target) ==> deps[n - 1].Action?;
    }
  }

  lemma EdgesAre(s: Sources, id: Identity, target: Identity, place: string)
    requires Edges(s, id).Some?
    ensures Located(Edges(s, id).value, target, place) <==> EdgeAt(s, id, target, place)
  {
    var deps := s.observe(id).value;
    EdgesUpToAre(s, id, deps, |deps|, target, place);
  }

  lemma LocatedConcat(a: seq<Row>, b: seq<Row>, id: Identity, place: string)
    ensures Located(a + b, id, place) <==> Located(a, id, place) || Located(b, id, place)
  {
    var both := a + b;
    assert forall i | 0 <= i < |a| :: both[i] == a[i];
    assert forall i | 0 <= i < |b| :: both[|a| + i] == b[i];
    assert forall i | |a| <= i < |both| :: both[i] == b[i - |a|];
  }

  ghost predicate EdgeFrom(s: Sources, order: seq<Identity>, target: Identity, place: string) {
    exists k | 0 <= k < |order| :: EdgeAt(s, order[k], target, place)
  }

  lemma {:induction false} AllEdgesAre(s: Sources, order: seq<Identity>, target: Identity, place: string)
    requires Readable(s, order)
    ensures Located(AllEdges(s, order), target, place) <==> EdgeFrom(s, order, target, place)
  {
    if order != [] {
      var n := |order| - 1;
      var init := order[..n];
      assert forall k | 0 <= k < n :: init[k] == order[k];
      AllEdgesAre(s, init, target, place);
      EdgesAre(s, order[n], target, place);
      LocatedConcat(AllEdges(s, init), Edges(s, order[n]).value, target, place);
    }
  }

  /** Every edge has the one origin, and a place. */
  predicate Nested(rows: seq<Row>) {
    forall i | 0 <= i < |rows| :: rows[i].origins == {NESTED} && rows[i].locations != {}
  }

  lemma {:induction false} EdgesUpToNested(s: Sources, id: Identity, deps: seq<Dependency>, n: nat)
    requires n <= |deps| && EdgesUpTo(s, id, deps, n).Some?
    ensures Nested(EdgesUpTo(s, id, deps, n).value)
  {
    if n > 0 {
      EdgesUpToNested(s, id, deps, n - 1);
    }
  }

  lemma {:induction false} AllEdgesNested(s: Sources, order: seq<Identity>)
    requires Readable(s, order)
    ensures Nested(AllEdges(s, order))
  {
    if order != [] {
      var n := |order| - 1;
      AllEdgesNested(s, order[..n]);
      var deps := s.observe(order[n]).value;
      EdgesUpToNested(s, order[n], deps, |deps|);
    }
  }

  lemma NestedOrigins(rows: seq<Row>, id: Identity, origin: string)
    requires Nested(rows)
    ensures Originates(rows, id, origin) <==> origin == NESTED && exists place :: Located(rows, id, place)
  {
    if Originates(rows, id, origin) {
      var i :| 0 <= i < |rows| && rows[i].id == id && origin in rows[i].origins;
      var place :| place in rows[i].locations;
      assert Located(rows, id, place);
    }
  }

  lemma OriginatesConcat(a: seq<Row>, b: seq<Row>, id: Identity, origin: string)
    ensures Originates(a + b, id, origin) <==> Originates(a, id, origin) || Originates(b, id, origin)
  {
    var both := a + b;
    assert forall i | 0 <= i < |a| :: both[i] == a[i];
    assert forall i | 0 <= i < |b| :: both[|a| + i] == b[i];
    assert forall i | |a| <= i < |both| :: both[i] == b[i - |a|];
  }

  /** Its origins are those among the seeds, and the nested origin where some edge leads to it. */
  lemma CollectedOrigins(
      s: Sources, seeds: seq<Row>, order: seq<Identity>, rows: map<Identity, Row>, id: Identity, origin: string)
    requires Complete(s, seeds, order, rows) && id in rows
    ensures origin in rows[id].origins <==>
            Originates(seeds, id, origin) || (origin == NESTED && exists place :: EdgeFrom(s, order, id, place))
  {
    var all := AllEdges(s, order);
    GatherIs(seeds + all);
    OriginatesConcat(seeds, all, id, origin);
    AllEdgesNested(s, order);
    NestedOrigins(all, id, origin);
    forall place ensures Located(all, id, place) <==> EdgeFrom(s, order, id, place) {
      AllEdgesAre(s, order, id, place);
    }
  }

  /** The collected Actions are the least set that holds the seeds and whatever its members lead to, and the places of
      each are its places among the seeds and every edge into it from a collected Action, itself included. */
  lemma CollectedExactly(s: Sources, seeds: seq<Row>, order: seq<Identity>, rows: map<Identity, Row>)
    requires Complete(s, seeds, order, rows) && Within(s, seeds, order)
    ensures Covers(s, seeds, rows.Keys)
    ensures forall ids: set<Identity> | Covers(s, seeds, ids) :: rows.Keys <= ids
    ensures forall id, place | id in rows ::
              place in rows[id].locations <==> Located(seeds, id, place) || EdgeFrom(s, order, id, place)
  {
    CompleteCovers(s, seeds, order, rows);
    GatherIs(seeds + AllEdges(s, order));
    forall id, place | id in rows
      ensures place in rows[id].locations <==> Located(seeds, id, place) || EdgeFrom(s, order, id, place)
    {
      LocatedConcat(seeds, AllEdges(s, order), id, place);
      AllEdgesAre(s, order, id, place);
    }
  }

  /** So the collection depends on the sources and the seeds only: neither the order of the list nor repeated rows
      matter. */
  lemma CollectionIsUnique(
      s: Sources, a: seq<Row>, orderA: seq<Identity>, rowsA: map<Identity, Row>,
      b: seq<Row>, orderB: seq<Identity>, rowsB: map<Identity, Row>)
    requires Complete(s, a, orderA, rowsA) && Within(s, a, orderA)
    requires Complete(s, b, orderB, rowsB) && Within(s, b, orderB)
    requires forall row :: row in a <==> row in b
    ensures rowsA == rowsB
  {
    CollectedExactly(s, a, orderA, rowsA);
    CollectedExactly(s, b, orderB, rowsB);
    SameSeeds(s, a, b, rowsA.Keys);
    SameSeeds(s, b, a, rowsB.Keys);
    assert Elements(orderA) == Elements(orderB);
    forall id, place | id in rowsA
      ensures place in rowsA[id].locations <==> place in rowsB[id].locations
    {
      SamePlaces(a, b, id, place);
      SamePlaces(b, a, id, place);
      SameEdges(s, orderA, orderB, id, place);
      SameEdges(s, orderB, orderA, id, place);
    }
    forall id, origin | id in rowsA
      ensures origin in rowsA[id].origins <==> origin in rowsB[id].origins
    {
      SameOrigins(s, a, orderA, rowsA, b, orderB, rowsB, id, origin);
    }
    GatherIs(a + AllEdges(s, orderA));
    GatherIs(b + AllEdges(s, orderB));
    forall id | id in rowsA ensures rowsA[id] == rowsB[id] {
      assert rowsA[id].locations == rowsB[id].locations && rowsA[id].origins == rowsB[id].origins;
    }
  }

  lemma SameOrigins(
      s: Sources, a: seq<Row>, orderA: seq<Identity>, rowsA: map<Identity, Row>,
      b: seq<Row>, orderB: seq<Identity>, rowsB: map<Identity, Row>, id: Identity, origin: string)
    requires Complete(s, a, orderA, rowsA) && Complete(s, b, orderB, rowsB) && id in rowsA && id in rowsB
    requires Elements(orderA) == Elements(orderB) && forall row :: row in a <==> row in b
    ensures origin in rowsA[id].origins <==> origin in rowsB[id].origins
  {
    CollectedOrigins(s, a, orderA, rowsA, id, origin);
    CollectedOrigins(s, b, orderB, rowsB, id, origin);
    SameOriginsListed(a, b, id, origin);
    SameOriginsListed(b, a, id, origin);
    forall place ensures EdgeFrom(s, orderA, id, place) <==> EdgeFrom(s, orderB, id, place) {
      SameEdges(s, orderA, orderB, id, place);
      SameEdges(s, orderB, orderA, id, place);
    }
  }

  lemma SameOriginsListed(a: seq<Row>, b: seq<Row>, id: Identity, origin: string)
    requires forall row :: row in a ==> row in b
    ensures Originates(a, id, origin) ==> Originates(b, id, origin)
  {
    if Originates(a, id, origin) {
      var i :| 0 <= i < |a| && a[i].id == id && origin in a[i].origins;
      assert a[i] in b;
    }
  }

  lemma SameSeeds(s: Sources, a: seq<Row>, b: seq<Row>, ids: set<Identity>)
    requires Covers(s, a, ids) && forall row :: row in b ==> row in a
    ensures Covers(s, b, ids)
  {
    forall i | 0 <= i < |b| ensures b[i].id in ids {
      assert b[i] in a;
      var k :| 0 <= k < |a| && a[k] == b[i];
      IdOf(a, k);
    }
  }

  lemma SamePlaces(a: seq<Row>, b: seq<Row>, id: Identity, place: string)
    requires forall row :: row in a ==> row in b
    ensures Located(a, id, place) ==> Located(b, id, place)
  {
    if Located(a, id, place) {
      var i :| 0 <= i < |a| && a[i].id == id && place in a[i].locations;
      assert a[i] in b;
    }
  }

  lemma SameEdges(s: Sources, a: seq<Identity>, b: seq<Identity>, id: Identity, place: string)
    requires Elements(a) <= Elements(b)
    ensures EdgeFrom(s, a, id, place) ==> EdgeFrom(s, b, id, place)
  {
    if EdgeFrom(s, a, id, place) {
      var k :| 0 <= k < |a| && EdgeAt(s, a[k], id, place);
      assert a[k] in Elements(a);
    }
  }

  // ---------------------------------------------------------------- the seeds

  /** A use of an Action in a workflow. */
  datatype Use = Use(id: Identity, origin: string, location: string)

  function RowOf(u: Use): Row {
    Row(u.id, {u.origin}, {u.location})
  }

  function RowsOf(uses: seq<Use>): seq<Row> {
    seq(|uses|, i requires 0 <= i < |uses| => RowOf(uses[i]))
  }

  const ORIGINS: set<string> := {"ci", "workflow-example", NESTED}

  predicate IsUse(u: Use) {
    u.origin in ORIGINS && IsLocation(u.location)
  }

  predicate AllUses(isUse: Use -> bool, uses: seq<Use>, n: nat)
    requires n <= |uses|
  {
    forall i | 0 <= i < n :: isUse(uses[i])
  }

  /** The uses are within the budgets on uses and on Actions, and each passes the check. */
  predicate UsesFit(isUse: Use -> bool, uses: seq<Use>) {
    |uses| <= MAX_REFERENCES && AllUses(isUse, uses, |uses|) && |Gather(RowsOf(uses))| <= MAX_COMPONENTS
  }

  /** What the loop of `references` has done. */
  ghost predicate GatheringUses(isUse: Use -> bool, uses: seq<Use>, i: nat, rows: map<Identity, Row>) {
    && i <= |uses| && i <= MAX_REFERENCES && AllUses(isUse, uses, i)
    && rows == Gather(RowsOf(uses)[..i]) && |rows| <= MAX_COMPONENTS
  }

  lemma UseRefused(isUse: Use -> bool, uses: seq<Use>, i: nat)
    requires i < |uses| && (i >= MAX_REFERENCES || !isUse(uses[i]))
    ensures !UsesFit(isUse, uses)
  {
  }

  lemma UseTaken(isUse: Use -> bool, uses: seq<Use>, i: nat, rows: map<Identity, Row>)
    requires GatheringUses(isUse, uses, i, rows) && i < |uses| && i < MAX_REFERENCES && isUse(uses[i])
    ensures var next := Merged(rows, RowOf(uses[i]));
            if |next| <= MAX_COMPONENTS then GatheringUses(isUse, uses, i + 1, next) else !UsesFit(isUse, uses)
  {
    UseStep(uses, i, rows);
  }

  lemma UsesTaken(isUse: Use -> bool, uses: seq<Use>, rows: map<Identity, Row>)
    requires GatheringUses(isUse, uses, |uses|, rows)
    ensures UsesFit(isUse, uses) && rows == Gather(RowsOf(uses))
  {
    assert RowsOf(uses)[..|uses|] == RowsOf(uses);
  }

  /** The loop of `references`, for any check of a use. */
  method GatherUses(isUse: Use -> bool, uses: seq<Use>) returns (result: Option<map<Identity, Row>>)
    ensures result.Some? <==> UsesFit(isUse, uses)
    ensures result.Some? ==> result.value == Gather(RowsOf(uses))
  {
    var rows: map<Identity, Row>, i := map[], 0;
    while i < |uses|
      invariant GatheringUses(isUse, uses, i, rows)
    {
      if i >= MAX_REFERENCES || !isUse(uses[i]) {
        UseRefused(isUse, uses, i);
        return None;
      }
      UseTaken(isUse, uses, i, rows);
      rows := Merged(rows, RowOf(uses[i]));
      if |rows| > MAX_COMPONENTS {
        return None;
      }
      i := i + 1;
    }
    UsesTaken(isUse, uses, rows);
    return Some(rows);
  }

  /** `references(values)`: one row for each Action used, where every use is well formed and within the budgets on uses
      and on Actions. */
  method References(uses: seq<Use>) returns (result: Option<map<Identity, Row>>)
    ensures result.Some? <==>
            |uses| <= MAX_REFERENCES && AllUses(IsUse, uses, |uses|) && |Gather(RowsOf(uses))| <= MAX_COMPONENTS
    ensures result.Some? ==> result.value == Gather(RowsOf(uses))
  {
    result := GatherUses(IsUse, uses);
  }

  lemma UseStep(uses: seq<Use>, i: nat, rows: map<Identity, Row>)
    requires i < |uses| && rows == Gather(RowsOf(uses)[..i])
    ensures Merged(rows, RowOf(uses[i])) == Gather(RowsOf(uses)[..i + 1])
    ensures |Merged(rows, RowOf(uses[i]))| <= |Gather(RowsOf(uses))|
  {
    GatherStep(RowsOf(uses), i);
    GatherGrows(RowsOf(uses), i + 1);
  }

  lemma {:induction false} GatherGrows(rows: seq<Row>, n: nat)
    requires n <= |rows|
    ensures |Gather(rows[..n])| <= |Gather(rows)|
    decreases |rows| - n
  {
    if n < |rows| {
      GatherStep(rows, n);
      var before, row := Gather(rows[..n]), rows[n];
      if row.id in before {
        SameSize(Merged(before, row), before);
      } else {
        AddKey(before, row.id, row);
      }
      GatherGrows(rows, n + 1);
    } else {
      assert rows[..n] == rows;
    }
  }
}

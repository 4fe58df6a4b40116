/** When the joined decision (scripts/dependency_review_join.py) is reached, when it passes and what it reports, stated on
    the rows of the provider and on the lookups, without the tables that the program builds from them. */
module AdmissionOutcome {
  import opened Ordering
  import opened Text
  import opened Policy
  import opened Assessment
  import opened Admission
  import Advisories

  // ---------------------------------------------------------------- what the provider says of a component

  /** The row was added or kept by the change and has this identity. */
  predicate Names(ctx: Context, row: ProviderRow, key: Coordinates) {
    !row.removed && ctx.normal(row.component.coordinates) == key
  }

  predicate IsNamed(ctx: Context, rows: seq<ProviderRow>, key: Coordinates) {
    exists row | row in rows :: Names(ctx, row, key)
  }

  predicate Reports(ctx: Context, row: ProviderRow, key: Coordinates, f: Finding) {
    Names(ctx, row, key) && f in row.component.findings
  }

  /** The licences that the rows state, of those that state one. */
  function StatedLicenses(ctx: Context, rows: seq<ProviderRow>, key: Coordinates): set<seq<string>> {
    set row | row in rows && Names(ctx, row, key) && ctx.licenseKey(row.component.license).Tokens? ::
      ctx.licenseKey(row.component.license).tokens
  }

  function ReportedIds(ctx: Context, rows: seq<ProviderRow>, key: Coordinates): set<string> {
    set row, f | row in rows && Names(ctx, row, key) && f in row.component.findings :: f.id
  }

  /** The finding is the worst of its identifier among the rows about the component. */
  ghost predicate IsWorst(ctx: Context, rows: seq<ProviderRow>, key: Coordinates, id: string, severity: Severity) {
    && (exists row | row in rows :: Reports(ctx, row, key, Finding(id, severity)))
    && (forall row, f | row in rows && Reports(ctx, row, key, f) && f.id == id :: Rank(f.severity) <= Rank(severity))
  }

  // ---------------------------------------------------------------- the table of rows

  lemma {:induction false} KeptFrom(m: Findings, findings: seq<Finding>, id: string)
    ensures id in KeepAll(m, findings) <==> id in m || exists f | f in findings :: f.id == id
    ensures id in KeepAll(m, findings) ==>
              Finding(id, KeepAll(m, findings)[id]) in findings || (id in m && m[id] == KeepAll(m, findings)[id])
  {
    if findings != [] {
      var n := |findings| - 1;
      KeptFrom(m, findings[..n], id);
      assert findings == findings[..n] + [findings[n]];
    }
  }

  /** What the table holds of one identity after some rows. */
  ghost predicate Tabled(ctx: Context, rows: seq<ProviderRow>, entries: Entries, key: Coordinates) {
    && (key in entries <==> IsNamed(ctx, rows, key))
    && (key in entries ==>
          && entries[key].licenses == StatedLicenses(ctx, rows, key)
          && entries[key].findings.Keys == ReportedIds(ctx, rows, key)
          && forall id | id in entries[key].findings :: IsWorst(ctx, rows, key, id, entries[key].findings[id]))
  }

  lemma NamedStep(ctx: Context, before: seq<ProviderRow>, row: ProviderRow, key: Coordinates)
    ensures IsNamed(ctx, before + [row], key) <==> IsNamed(ctx, before, key) || Names(ctx, row, key)
  {
    var rows := before + [row];
    assert forall r :: r in rows <==> r in before || r == row;
  }

  lemma StatedStep(ctx: Context, before: seq<ProviderRow>, row: ProviderRow, key: Coordinates)
    ensures StatedLicenses(ctx, before + [row], key) ==
            StatedLicenses(ctx, before, key) +
            (if Names(ctx, row, key) then LicensesOf(ctx.licenseKey(row.component.license)) else {})
  {
    assert forall r :: r in before + [row] <==> r in before || r == row;
  }

  lemma ReportedStep(ctx: Context, before: seq<ProviderRow>, row: ProviderRow, key: Coordinates)
    ensures ReportedIds(ctx, before + [row], key) ==
            ReportedIds(ctx, before, key) +
            (if Names(ctx, row, key) then set f | f in row.component.findings :: f.id else {})
  {
    assert forall r :: r in before + [row] <==> r in before || r == row;
  }

  lemma WorstKept(ctx: Context, before: seq<ProviderRow>, row: ProviderRow, key: Coordinates, id: string, s: Severity)
    requires IsWorst(ctx, before, key, id, s) && !Names(ctx, row, key)
    ensures IsWorst(ctx, before + [row], key, id, s)
  {
    assert forall r :: r in before + [row] <==> r in before || r == row;
  }

  lemma WorstNext(
      ctx: Context, before: seq<ProviderRow>, row: ProviderRow, key: Coordinates, m: Findings, id: string)
    requires Names(ctx, row, key) && m.Keys == ReportedIds(ctx, before, key)
    requires forall i | i in m :: IsWorst(ctx, before, key, i, m[i])
    requires id in KeepAll(m, row.component.findings)
    ensures IsWorst(ctx, before + [row], key, id, KeepAll(m, row.component.findings)[id])
  {
    var findings, rows := row.component.findings, before + [row];
    var s := KeepAll(m, findings)[id];
    assert forall r :: r in rows <==> r in before || r == row;
    KeptFrom(m, findings, id);
    if Finding(id, s) in findings {
      assert Reports(ctx, row, key, Finding(id, s));
    } else {
      var r :| r in before && Reports(ctx, r, key, Finding(id, s));
      assert r in rows;
    }
    forall r, f | r in rows && Reports(ctx, r, key, f) && f.id == id ensures Rank(f.severity) <= Rank(s) {
      if r in before && f !in findings {
        assert id in ReportedIds(ctx, before, key);
        KeepAllHolds(m, findings, Finding(id, m[id]));
      } else {
        KeepAllHolds(m, findings, f);
      }
    }
  }

  lemma TabledStep(ctx: Context, before: seq<ProviderRow>, row: ProviderRow, entries: Entries, key: Coordinates)
    requires Tabled(ctx, before, entries, key)
    ensures Tabled(ctx, before + [row], AddRow(ctx, entries, row), key)
  {
    NamedStep(ctx, before, row, key);
    StatedStep(ctx, before, row, key);
    ReportedStep(ctx, before, row, key);
    if Names(ctx, row, key) {
      NamedFindings(ctx, before, row, entries, key);
    } else if key in entries {
      forall id | id in entries[key].findings
        ensures IsWorst(ctx, before + [row], key, id, entries[key].findings[id])
      {
        WorstKept(ctx, before, row, key, id, entries[key].findings[id]);
      }
    }
  }

  lemma UnnamedIsEmpty(ctx: Context, rows: seq<ProviderRow>, key: Coordinates)
    requires !IsNamed(ctx, rows, key)
    ensures StatedLicenses(ctx, rows, key) == {} && ReportedIds(ctx, rows, key) == {}
  {
  }

  lemma NamedFindings(ctx: Context, before: seq<ProviderRow>, row: ProviderRow, entries: Entries, key: Coordinates)
    requires Tabled(ctx, before, entries, key) && Names(ctx, row, key)
    ensures Tabled(ctx, before + [row], AddRow(ctx, entries, row), key)
  {
    NamedStep(ctx, before, row, key);
    StatedStep(ctx, before, row, key);
    ReportedStep(ctx, before, row, key);
    if key !in entries {
      UnnamedIsEmpty(ctx, before, key);
    }
    var m, findings := EntryAt(entries, key).findings, row.component.findings;
    forall id | id in KeepAll(m, findings)
      ensures IsWorst(ctx, before + [row], key, id, KeepAll(m, findings)[id])
    {
      WorstNext(ctx, before, row, key, m, id);
    }
    forall id ensures id in KeepAll(m, findings) <==> id in ReportedIds(ctx, before + [row], key) {
      KeptFrom(m, findings, id);
    }
  }

  /** Whatever the order of the rows, the table holds of each identity the licences stated, the identifiers reported,
      and of each identifier the worst severity. */
  lemma {:induction false} EntriesExactly(ctx: Context, rows: seq<ProviderRow>, key: Coordinates)
    ensures Tabled(ctx, rows, EntriesOf(ctx, rows), key)
  {
    if rows != [] {
      var n := |rows| - 1;
      EntriesExactly(ctx, rows[..n], key);
      TabledStep(ctx, rows[..n], rows[n], EntriesOf(ctx, rows[..n]), key);
      assert rows == rows[..n] + [rows[n]];
    }
  }

  // ---------------------------------------------------------------- one component, without the table

  /** A data file of a test that the provider does not name. */
  predicate IsTestData(ctx: Context, rows: seq<ProviderRow>, x: Coordinates) {
    x.ecosystem == "fixture" && !IsNamed(ctx, rows, ctx.normal(x))
  }

  /** Two rows state different licences, or a row states another one than the source. */
  predicate Disagree(ctx: Context, rows: seq<ProviderRow>, x: Coordinates, license: Option<string>) {
    var stated := StatedLicenses(ctx, rows, ctx.normal(x));
    || (exists a, b | a in stated && b in stated :: a != b)
    || (ctx.licenseKey(license).Tokens? && exists a | a in stated :: a != ctx.licenseKey(license).tokens)
  }

  /** A finding of the lookup, or of a row about the component. */
  predicate IsFound(ctx: Context, rows: seq<ProviderRow>, x: Coordinates, f: Finding) {
    f in ctx.api(x).findings || exists row | row in rows :: Reports(ctx, row, ctx.normal(x), f)
  }

  function OwnIds(ctx: Context, x: Coordinates): set<string> {
    set f | f in ctx.api(x).findings :: f.id
  }

  /** The component gets a verdict. */
  predicate Reached(ctx: Context, rows: seq<ProviderRow>, x: Coordinates, license: Option<string>) {
    if IsTestData(ctx, rows, x) then
      ctx.isDataFixture(x) && ctx.voc.isCoordinates(x) && ctx.voc.verdict(license).Some?
    else
      && (IsNamed(ctx, rows, ctx.normal(x)) ==> !ctx.licenseKey(license).Unreadable?)
      && (ctx.api(x).status.Observed? ==>
            && ComponentValid(ctx.voc, Component(x, license, ctx.api(x).findings))
            && |OwnIds(ctx, x) + ReportedIds(ctx, rows, ctx.normal(x))| <= 128)
  }

  /** It passes: its licence is fine and in no conflict; and it was looked up and every finding of the lookup and of the
      provider is low, moderate or waived, or it is test data. */
  ghost predicate ClearedBy(ctx: Context, rows: seq<ProviderRow>, x: Coordinates, license: Option<string>) {
    && LicenseFine(ctx.voc, ctx.waivers, x, license) && !Disagree(ctx, rows, x, license)
    && (IsTestData(ctx, rows, x)
        || (ctx.api(x).status.Observed? && AllTolerated(ctx, rows, x)))
  }

  lemma SomeTwo<T>(s: set<T>)
    ensures |s| > 1 <==> exists a, b | a in s && b in s :: a != b
  {
    if a, b :| a in s && b in s && a != b {
      CardinalityMonotone({a, b}, s);
    }
    if |s| > 1 {
      var a :| a in s;
      var rest := s - {a};
      assert |rest| > 0;
      var b :| b in rest;
    }
  }

  lemma ConflictMeaning(ctx: Context, rows: seq<ProviderRow>, x: Coordinates, license: Option<string>)
    ensures Conflicts(ctx, EntriesOf(ctx, rows), x, license) <==> Disagree(ctx, rows, x, license)
  {
    EntriesExactly(ctx, rows, ctx.normal(x));
    SomeTwo(StatedLicenses(ctx, rows, ctx.normal(x)));
    if !IsNamed(ctx, rows, ctx.normal(x)) {
      UnnamedIsEmpty(ctx, rows, ctx.normal(x));
    }
  }

  // ---------------------------------------------------------------- the joined findings

  /** The findings that the component is judged by are all found, and every finding is there with its severity or a
      worse one. */
  ghost predicate Joins(ctx: Context, rows: seq<ProviderRow>, x: Coordinates, findings: seq<Finding>) {
    && DistinctFindings(findings)
    && (forall f | f in findings :: IsFound(ctx, rows, x, f))
    && (forall f | IsFound(ctx, rows, x, f) :: Represented(findings, f))
  }

  predicate Represented(findings: seq<Finding>, f: Finding) {
    exists g | g in findings :: g.id == f.id && Rank(g.severity) >= Rank(f.severity)
  }

  lemma ListedJoins(ctx: Context, rows: seq<ProviderRow>, x: Coordinates, m: Findings)
    requires forall id | id in m :: IsFound(ctx, rows, x, Finding(id, m[id]))
    requires forall f | IsFound(ctx, rows, x, f) :: Holds(m, f)
    ensures Joins(ctx, rows, x, Listed(m))
  {
    var findings := Listed(m);
    forall f | f in findings ensures IsFound(ctx, rows, x, f) {
      assert IsFound(ctx, rows, x, Finding(f.id, m[f.id]));
    }
    forall f | IsFound(ctx, rows, x, f) ensures Represented(findings, f) {
      assert Finding(f.id, m[f.id]) in findings;
    }
  }

  lemma MergedKeys(ctx: Context, rows: seq<ProviderRow>, x: Coordinates)
    requires ctx.normal(x) in EntriesOf(ctx, rows)
    ensures Merge(FindingsMap(ctx.api(x).findings), EntriesOf(ctx, rows)[ctx.normal(x)].findings).Keys ==
            OwnIds(ctx, x) + ReportedIds(ctx, rows, ctx.normal(x))
  {
    var own := FindingsMap(ctx.api(x).findings);
    EntriesExactly(ctx, rows, ctx.normal(x));
    forall id ensures id in own <==> id in OwnIds(ctx, x) {
      KeptFrom(map[], ctx.api(x).findings, id);
    }
  }

  lemma NamedJoins(ctx: Context, rows: seq<ProviderRow>, x: Coordinates)
    requires ctx.normal(x) in EntriesOf(ctx, rows)
    ensures Joins(ctx, rows, x,
                  Listed(Merge(FindingsMap(ctx.api(x).findings), EntriesOf(ctx, rows)[ctx.normal(x)].findings)))
  {
    var m := Merge(FindingsMap(ctx.api(x).findings), EntriesOf(ctx, rows)[ctx.normal(x)].findings);
    forall id | id in m ensures IsFound(ctx, rows, x, Finding(id, m[id])) {
      MergedIsFound(ctx, rows, x, id);
    }
    forall f | IsFound(ctx, rows, x, f) ensures Holds(m, f) {
      FoundIsMerged(ctx, rows, x, f);
    }
    ListedJoins(ctx, rows, x, m);
  }

  lemma MergedIsFound(ctx: Context, rows: seq<ProviderRow>, x: Coordinates, id: string)
    requires ctx.normal(x) in EntriesOf(ctx, rows)
    requires id in Merge(FindingsMap(ctx.api(x).findings), EntriesOf(ctx, rows)[ctx.normal(x)].findings)
    ensures IsFound(ctx, rows, x,
                    Finding(id, Merge(FindingsMap(ctx.api(x).findings), EntriesOf(ctx, rows)[ctx.normal(x)].findings)[id]))
  {
    var own, theirs := FindingsMap(ctx.api(x).findings), EntriesOf(ctx, rows)[ctx.normal(x)].findings;
    EntriesExactly(ctx, rows, ctx.normal(x));
    KeptFrom(map[], ctx.api(x).findings, id);
    assert id in theirs ==> IsWorst(ctx, rows, ctx.normal(x), id, theirs[id]);
  }

  lemma FoundIsMerged(ctx: Context, rows: seq<ProviderRow>, x: Coordinates, f: Finding)
    requires ctx.normal(x) in EntriesOf(ctx, rows) && IsFound(ctx, rows, x, f)
    ensures Holds(Merge(FindingsMap(ctx.api(x).findings), EntriesOf(ctx, rows)[ctx.normal(x)].findings), f)
  {
    var own, theirs := FindingsMap(ctx.api(x).findings), EntriesOf(ctx, rows)[ctx.normal(x)].findings;
    if f in ctx.api(x).findings {
      KeepAllHolds(map[], ctx.api(x).findings, f);
    } else {
      var row :| row in rows && Reports(ctx, row, ctx.normal(x), f);
      EntriesHold(ctx, rows, row, f);
    }
    if f.id in own && f.id in theirs {
      WorseBlocks(own[f.id], theirs[f.id]);
    }
  }

  lemma UnnamedJoins(ctx: Context, rows: seq<ProviderRow>, x: Coordinates)
    requires !IsNamed(ctx, rows, ctx.normal(x)) && DistinctFindings(ctx.api(x).findings)
    ensures Joins(ctx, rows, x, ctx.api(x).findings)
  {
    forall f ensures IsFound(ctx, rows, x, f) <==> f in ctx.api(x).findings {
    }
  }

  /** Low and moderate findings are below the others. */
  lemma MilderIsTolerated(waivers: seq<Waiver>, at: Coordinates, f: Finding, g: Finding)
    requires g.id == f.id && Rank(g.severity) >= Rank(f.severity) && Tolerated(waivers, at, g)
    ensures Tolerated(waivers, at, f)
  {
  }

  ghost predicate AllTolerated(ctx: Context, rows: seq<ProviderRow>, x: Coordinates) {
    forall f | IsFound(ctx, rows, x, f) :: Tolerated(ctx.waivers, x, f)
  }

  lemma FoundIsTolerated(ctx: Context, rows: seq<ProviderRow>, x: Coordinates, findings: seq<Finding>, f: Finding)
    requires Represented(findings, f) && forall g | g in findings :: Tolerated(ctx.waivers, x, g)
    ensures Tolerated(ctx.waivers, x, f)
  {
    var g :| g in findings && g.id == f.id && Rank(g.severity) >= Rank(f.severity);
    MilderIsTolerated(ctx.waivers, x, f, g);
  }

  lemma JoinedTolerated(ctx: Context, rows: seq<ProviderRow>, x: Coordinates, findings: seq<Finding>)
    requires Joins(ctx, rows, x, findings)
    ensures (forall g | g in findings :: Tolerated(ctx.waivers, x, g)) <==> AllTolerated(ctx, rows, x)
  {
    if forall g | g in findings :: Tolerated(ctx.waivers, x, g) {
      forall f | IsFound(ctx, rows, x, f) ensures Tolerated(ctx.waivers, x, f) {
        FoundIsTolerated(ctx, rows, x, findings, f);
      }
    }
    if AllTolerated(ctx, rows, x) {
      forall g | g in findings ensures Tolerated(ctx.waivers, x, g) {
        assert IsFound(ctx, rows, x, g);
      }
    }
  }

  /** What the component is judged by: its own findings joined with those of the rows about it. */
  lemma JudgedBy(ctx: Context, rows: seq<ProviderRow>, x: Coordinates, license: Option<string>)
    requires RowsFit(ctx, rows)
    ensures var joined := JoinedFindings(ctx, EntriesOf(ctx, rows), x, license);
            && ((joined.Some? && ComponentValid(ctx.voc, Component(x, license, joined.value))) <==>
                && ComponentValid(ctx.voc, Component(x, license, ctx.api(x).findings))
                && |OwnIds(ctx, x) + ReportedIds(ctx, rows, ctx.normal(x))| <= 128)
            && (joined.Some? && ComponentValid(ctx.voc, Component(x, license, joined.value)) ==>
                  Joins(ctx, rows, x, joined.value))
  {
    EntriesExactly(ctx, rows, ctx.normal(x));
    var own := ctx.api(x).findings;
    if IsNamed(ctx, rows, ctx.normal(x)) {
      NamedJoins(ctx, rows, x);
      MergedKeys(ctx, rows, x);
      if ComponentValid(ctx.voc, Component(x, license, own)) {
        var m := Merge(FindingsMap(own), EntriesOf(ctx, rows)[ctx.normal(x)].findings);
        assert |m| == |m.Keys|;
        AllAdvisories(ctx, rows, x, Listed(m));
      }
    } else {
      UnnamedIsEmpty(ctx, rows, ctx.normal(x));
      assert OwnIds(ctx, x) + {} == OwnIds(ctx, x);
      IdsAtMost(own);
      if DistinctFindings(own) {
        UnnamedJoins(ctx, rows, x);
      }
    }
  }

  lemma {:induction false} IdsAtMost(findings: seq<Finding>)
    ensures |set f | f in findings :: f.id| <= |findings|
  {
    if findings != [] {
      var n := |findings| - 1;
      IdsAtMost(findings[..n]);
      assert (set f | f in findings :: f.id) == (set f | f in findings[..n] :: f.id) + {findings[n].id} by {
        assert forall f :: f in findings <==> f in findings[..n] || f == findings[n];
      }
    }
  }

  lemma AllAdvisories(ctx: Context, rows: seq<ProviderRow>, x: Coordinates, findings: seq<Finding>)
    requires RowsFit(ctx, rows) && FindingsValid(ctx.voc, ctx.api(x).findings)
    requires forall f | f in findings :: IsFound(ctx, rows, x, f)
    ensures forall i | 0 <= i < |findings| :: ctx.voc.isAdvisory(findings[i].id)
  {
    forall i | 0 <= i < |findings| ensures ctx.voc.isAdvisory(findings[i].id) {
      var f := findings[i];
      assert f in findings;
      if f in ctx.api(x).findings {
        var k :| 0 <= k < |ctx.api(x).findings| && ctx.api(x).findings[k] == f;
      } else {
        var row :| row in rows && Reports(ctx, row, ctx.normal(x), f);
        var j :| 0 <= j < |rows| && rows[j] == row;
        assert ProviderRowValid(ctx, rows[j]);
        var k :| 0 <= k < |row.component.findings| && row.component.findings[k] == f;
      }
    }
  }

  lemma DataOnlyMeaning(ctx: Context, head: Inventory, rows: seq<ProviderRow>, x: Coordinates)
    requires x in head
    ensures IsDataOnly(x, Required(ctx, head, EntriesOf(ctx, rows))) <==> IsTestData(ctx, rows, x)
  {
    EntriesExactly(ctx, rows, ctx.normal(x));
  }

  /** The verdict by the joined findings. */
  lemma JoinedVerdict(ctx: Context, rows: seq<ProviderRow>, x: Coordinates, license: Option<string>, findings: seq<Finding>)
    requires Joins(ctx, rows, x, findings)
    ensures Assess(ctx.voc, ctx.waivers, Component(x, license, findings)).passed <==>
            LicenseFine(ctx.voc, ctx.waivers, x, license) && AllTolerated(ctx, rows, x)
  {
    AssessMeaning(ctx.voc, ctx.waivers, Component(x, license, findings));
    JoinedTolerated(ctx, rows, x, findings);
  }

  lemma TestDataVerdict(ctx: Context, head: Inventory, rows: seq<ProviderRow>, x: Coordinates)
    requires x in head && IsTestData(ctx, rows, x)
    ensures var verdict, license := VerdictOn(ctx, head, EntriesOf(ctx, rows), x, head[x].license), head[x].license;
            && (verdict.Some? <==> Reached(ctx, rows, x, license))
            && (verdict.Some? ==> (verdict.value.passed <==> LicenseFine(ctx.voc, ctx.waivers, x, license)))
  {
    DataOnlyMeaning(ctx, head, rows, x);
    LicenseFineMeaning(ctx.voc, ctx.waivers, x, head[x].license);
  }

  /** The verdict on a component that was looked up, or `None` where the joined findings cannot be assessed. */
  function ByFindings(ctx: Context, entries: Entries, x: Coordinates, license: Option<string>): Option<Verdict> {
    var joined := JoinedFindings(ctx, entries, x, license);
    if joined.None? || !ComponentValid(ctx.voc, Component(x, license, joined.value)) then None
    else Some(Assess(ctx.voc, ctx.waivers, Component(x, license, joined.value)))
  }

  lemma ByFindingsMeaning(ctx: Context, rows: seq<ProviderRow>, x: Coordinates, license: Option<string>)
    requires RowsFit(ctx, rows)
    ensures var verdict := ByFindings(ctx, EntriesOf(ctx, rows), x, license);
            && (verdict.Some? <==>
                && ComponentValid(ctx.voc, Component(x, license, ctx.api(x).findings))
                && |OwnIds(ctx, x) + ReportedIds(ctx, rows, ctx.normal(x))| <= 128)
            && (verdict.Some? ==>
                  (verdict.value.passed <==>
                   LicenseFine(ctx.voc, ctx.waivers, x, license) && AllTolerated(ctx, rows, x)))
  {
    JudgedBy(ctx, rows, x, license);
    if ByFindings(ctx, EntriesOf(ctx, rows), x, license).Some? {
      JoinedVerdict(ctx, rows, x, license, JoinedFindings(ctx, EntriesOf(ctx, rows), x, license).value);
    }
  }

  lemma VerdictByFindings(ctx: Context, head: Inventory, entries: Entries, x: Coordinates, license: Option<string>)
    requires !IsDataOnly(x, Required(ctx, head, entries))
    ensures VerdictOn(ctx, head, entries, x, license) ==
            if ctx.normal(x) in entries && ctx.licenseKey(license).Unreadable? then None
            else if !ctx.api(x).status.Observed? then Some(Verdict(false, [CoverageUnknown], {}))
            else ByFindings(ctx, entries, x, license)
  {
  }

  lemma SourceVerdict(ctx: Context, head: Inventory, rows: seq<ProviderRow>, x: Coordinates)
    requires x in head && RowsFit(ctx, rows) && !IsTestData(ctx, rows, x)
    ensures var verdict, license := VerdictOn(ctx, head, EntriesOf(ctx, rows), x, head[x].license), head[x].license;
            && (verdict.Some? <==> Reached(ctx, rows, x, license))
            && (verdict.Some? ==>
                  (verdict.value.passed <==>
                   && LicenseFine(ctx.voc, ctx.waivers, x, license)
                   && ctx.api(x).status.Observed? && AllTolerated(ctx, rows, x)))
  {
    DataOnlyMeaning(ctx, head, rows, x);
    EntriesExactly(ctx, rows, ctx.normal(x));
    VerdictByFindings(ctx, head, EntriesOf(ctx, rows), x, head[x].license);
    ByFindingsMeaning(ctx, rows, x, head[x].license);
  }

  /** A head component gets a verdict exactly where that is reached, and is then admitted exactly where it is cleared. */
  lemma VerdictExactly(ctx: Context, head: Inventory, rows: seq<ProviderRow>, x: Coordinates)
    requires x in head && RowsFit(ctx, rows)
    ensures VerdictOn(ctx, head, EntriesOf(ctx, rows), x, head[x].license).Some? <==> Reached(ctx, rows, x, head[x].license)
    ensures Reached(ctx, rows, x, head[x].license) ==>
              (ComponentAdmitted(ctx, head, EntriesOf(ctx, rows), x) <==> ClearedBy(ctx, rows, x, head[x].license))
  {
    ConflictMeaning(ctx, rows, x, head[x].license);
    if IsTestData(ctx, rows, x) {
      TestDataVerdict(ctx, head, rows, x);
    } else {
      SourceVerdict(ctx, head, rows, x);
    }
  }

  // ---------------------------------------------------------------- what a verdict reports

  predicate IsSerious(f: Finding) {
    f.severity == High || f.severity == Critical || f.severity == Unknown
  }

  /** The advisories that are high, critical or unknown in the lookup or for the provider, and not waived. */
  function BlockedIds(ctx: Context, rows: seq<ProviderRow>, x: Coordinates): set<string> {
    (set f | f in ctx.api(x).findings && !Tolerated(ctx.waivers, x, f) :: f.id)
    + (set row, f | row in rows && Names(ctx, row, ctx.normal(x)) && f in row.component.findings
                    && !Tolerated(ctx.waivers, x, f) :: f.id)
  }

  /** Why a waiver counts as used for a component. */
  predicate WaiverUsed(ctx: Context, rows: seq<ProviderRow>, x: Coordinates, license: Option<string>, w: Waiver) {
    && w.target == x
    && match w.kind
       case ForLicense =>
         && (IsTestData(ctx, rows, x) || ctx.api(x).status.Observed?)
         && ctx.voc.verdict(license) != Some(true)
         && w.value == (if license.None? || ctx.voc.isUnknown(license.value) then "NOASSERTION" else license.value)
       case ForVulnerability =>
         && !IsTestData(ctx, rows, x) && ctx.api(x).status.Observed?
         && ((exists f | f in ctx.api(x).findings :: f.id == w.value && IsSerious(f))
             || exists row | row in rows :: ReportsSerious(ctx, row, ctx.normal(x), w.value))
  }

  predicate ReportsSerious(ctx: Context, row: ProviderRow, key: Coordinates, id: string) {
    Names(ctx, row, key) && exists f | f in row.component.findings :: f.id == id && IsSerious(f)
  }

  function UsedOn(ctx: Context, rows: seq<ProviderRow>, x: Coordinates, license: Option<string>): set<string> {
    set w | w in ctx.waivers && WaiverUsed(ctx, rows, x, license, w) :: w.id
  }

  function LicensePart(ctx: Context, x: Coordinates, license: Option<string>): seq<Violation> {
    if LicenseFine(ctx.voc, ctx.waivers, x, license) then [] else [LicenseViolation(ctx.voc, license)]
  }

  /** The violations of one component, before conflicts are marked. */
  function ViolationsOn(ctx: Context, rows: seq<ProviderRow>, x: Coordinates, license: Option<string>): seq<Violation> {
    if IsTestData(ctx, rows, x) then LicensePart(ctx, x, license)
    else if !ctx.api(x).status.Observed? then [CoverageUnknown]
    else LicensePart(ctx, x, license) + seq(|BlockedIds(ctx, rows, x)|, _ => BlockedVulnerability)
  }

  function UntoleratedIds(waivers: seq<Waiver>, at: Coordinates, findings: seq<Finding>): set<string> {
    set f | f in findings && !Tolerated(waivers, at, f) :: f.id
  }

  lemma {:induction false} CountDistinct(waivers: seq<Waiver>, at: Coordinates, findings: seq<Finding>)
    requires DistinctFindings(findings)
    ensures Untolerated(waivers, at, findings) == |UntoleratedIds(waivers, at, findings)|
  {
    if findings != [] {
      var n := |findings| - 1;
      var older, last := findings[..n], findings[n];
      CountDistinct(waivers, at, older);
      assert forall f :: f in findings <==> f in older || f == last;
      assert UntoleratedIds(waivers, at, findings) ==
             UntoleratedIds(waivers, at, older) + (if Tolerated(waivers, at, last) then {} else {last.id});
      assert last.id !in UntoleratedIds(waivers, at, older);
    }
  }

  lemma JoinedIds(ctx: Context, rows: seq<ProviderRow>, x: Coordinates, findings: seq<Finding>)
    requires Joins(ctx, rows, x, findings)
    ensures UntoleratedIds(ctx.waivers, x, findings) == BlockedIds(ctx, rows, x)
  {
    forall id | id in UntoleratedIds(ctx.waivers, x, findings) ensures id in BlockedIds(ctx, rows, x) {
      var f :| f in findings && !Tolerated(ctx.waivers, x, f) && f.id == id;
      assert IsFound(ctx, rows, x, f);
    }
    forall id | id in BlockedIds(ctx, rows, x) ensures id in UntoleratedIds(ctx.waivers, x, findings) {
      var f := BlockedFrom(ctx, rows, x, id);
      var g :| g in findings && g.id == f.id && Rank(g.severity) >= Rank(f.severity);
      if Tolerated(ctx.waivers, x, g) {
        MilderIsTolerated(ctx.waivers, x, f, g);
      }
    }
  }

  lemma BlockedFrom(ctx: Context, rows: seq<ProviderRow>, x: Coordinates, id: string) returns (f: Finding)
    requires id in BlockedIds(ctx, rows, x)
    ensures IsFound(ctx, rows, x, f) && f.id == id && !Tolerated(ctx.waivers, x, f)
  {
    if g :| g in ctx.api(x).findings && !Tolerated(ctx.waivers, x, g) && g.id == id {
      f := g;
    } else {
      var row, g :| row in rows && Names(ctx, row, ctx.normal(x)) && g in row.component.findings
                    && !Tolerated(ctx.waivers, x, g) && g.id == id;
      f := g;
      assert Reports(ctx, row, ctx.normal(x), f);
    }
  }

  lemma SeriousMeaning(ctx: Context, rows: seq<ProviderRow>, x: Coordinates, findings: seq<Finding>, id: string)
    requires Joins(ctx, rows, x, findings)
    ensures (exists g | g in findings :: g.id == id && IsSerious(g)) <==>
            || (exists f | f in ctx.api(x).findings :: f.id == id && IsSerious(f))
            || exists row | row in rows :: ReportsSerious(ctx, row, ctx.normal(x), id)
  {
    if g :| g in findings && g.id == id && IsSerious(g) {
      assert IsFound(ctx, rows, x, g);
      if row :| row in rows && Reports(ctx, row, ctx.normal(x), g) {
        assert ReportsSerious(ctx, row, ctx.normal(x), id);
      }
    }
    if row :| row in rows && ReportsSerious(ctx, row, ctx.normal(x), id) {
      var f :| f in row.component.findings && f.id == id && IsSerious(f);
      assert Reports(ctx, row, ctx.normal(x), f) && IsFound(ctx, rows, x, f);
      assert Represented(findings, f);
    }
    if f :| f in ctx.api(x).findings && f.id == id && IsSerious(f) {
      assert IsFound(ctx, rows, x, f);
      assert Represented(findings, f);
    }
  }

  lemma UsedOnJoined(
      ctx: Context, rows: seq<ProviderRow>, x: Coordinates, license: Option<string>, findings: seq<Finding>, w: Waiver)
    requires Joins(ctx, rows, x, findings) && !IsTestData(ctx, rows, x) && ctx.api(x).status.Observed?
    ensures Uses(ctx.voc, Component(x, license, findings), w) <==> WaiverUsed(ctx, rows, x, license, w)
  {
    if w.kind == ForVulnerability {
      SeriousMeaning(ctx, rows, x, findings, w.value);
    }
  }

  /** The verdict by the joined findings reports the violations and the waivers described. */
  lemma JoinedReports(ctx: Context, rows: seq<ProviderRow>, x: Coordinates, license: Option<string>, findings: seq<Finding>)
    requires Joins(ctx, rows, x, findings) && !IsTestData(ctx, rows, x) && ctx.api(x).status.Observed?
    ensures var verdict := Assess(ctx.voc, ctx.waivers, Component(x, license, findings));
            && verdict.violations == ViolationsOn(ctx, rows, x, license)
            && verdict.exceptions == UsedOn(ctx, rows, x, license)
  {
    var c := Component(x, license, findings);
    AssessReports(ctx.voc, ctx.waivers, c);
    JoinedIds(ctx, rows, x, findings);
    CountDistinct(ctx.waivers, x, findings);
    forall id ensures id in Assess(ctx.voc, ctx.waivers, c).exceptions <==> id in UsedOn(ctx, rows, x, license) {
      forall w ensures Uses(ctx.voc, c, w) <==> WaiverUsed(ctx, rows, x, license, w) {
        UsedOnJoined(ctx, rows, x, license, findings, w);
      }
    }
  }

  lemma TestDataReports(ctx: Context, rows: seq<ProviderRow>, x: Coordinates, license: Option<string>)
    requires IsTestData(ctx, rows, x)
    ensures var verdict := LicenseVerdict(ctx, x, license);
            && verdict.violations == ViolationsOn(ctx, rows, x, license)
            && verdict.exceptions == UsedOn(ctx, rows, x, license)
  {
    var c := Component(x, license, []);
    AssessReports(ctx.voc, ctx.waivers, c);
    var verdict, whole := LicenseVerdict(ctx, x, license), Assess(ctx.voc, ctx.waivers, c);
    assert whole.violations == verdict.violations + [] == verdict.violations;
    assert whole.exceptions == verdict.exceptions;
    forall id ensures id in whole.exceptions <==> id in UsedOn(ctx, rows, x, license) {
      assert forall w :: Uses(ctx.voc, c, w) <==> WaiverUsed(ctx, rows, x, license, w);
    }
  }

  lemma UnobservedReports(ctx: Context, rows: seq<ProviderRow>, x: Coordinates, license: Option<string>)
    requires !IsTestData(ctx, rows, x) && !ctx.api(x).status.Observed?
    ensures ViolationsOn(ctx, rows, x, license) == [CoverageUnknown] && UsedOn(ctx, rows, x, license) == {}
  {
  }

  /** Whatever verdict a head component gets, it reports the violations and the waivers described. */
  lemma VerdictReports(ctx: Context, head: Inventory, rows: seq<ProviderRow>, x: Coordinates)
    requires x in head && RowsFit(ctx, rows)
    requires VerdictOn(ctx, head, EntriesOf(ctx, rows), x, head[x].license).Some?
    ensures var verdict := VerdictOn(ctx, head, EntriesOf(ctx, rows), x, head[x].license).value;
            && verdict.violations == ViolationsOn(ctx, rows, x, head[x].license)
            && verdict.exceptions == UsedOn(ctx, rows, x, head[x].license)
            && (verdict.passed <==> verdict.violations == [])
  {
    var license := head[x].license;
    DataOnlyMeaning(ctx, head, rows, x);
    if IsTestData(ctx, rows, x) {
      TestDataReports(ctx, rows, x, license);
    } else {
      VerdictByFindings(ctx, head, EntriesOf(ctx, rows), x, license);
      if ctx.api(x).status.Observed? {
        JudgedBy(ctx, rows, x, license);
        JoinedReports(ctx, rows, x, license, JoinedFindings(ctx, EntriesOf(ctx, rows), x, license).value);
      } else {
        UnobservedReports(ctx, rows, x, license);
      }
    }
  }

  // ---------------------------------------------------------------- the decision

  /** The component is new, has a new origin or other contents, or the provider names it. */
  predicate NeedsVerdict(ctx: Context, base: Inventory, head: Inventory, rows: seq<ProviderRow>, x: Coordinates)
    requires x in head
  {
    || x !in base || !(head[x].origins <= base[x].origins) || head[x].digest != base[x].digest
    || IsNamed(ctx, rows, ctx.normal(x))
  }

  function Judgeable(ctx: Context, base: Inventory, head: Inventory, rows: seq<ProviderRow>): set<Coordinates> {
    set x | x in head && NeedsVerdict(ctx, base, head, rows, x)
  }

  function AllUsed(ctx: Context, base: Inventory, head: Inventory, rows: seq<ProviderRow>): set<string> {
    set x, id | x in Judgeable(ctx, base, head, rows) && id in UsedOn(ctx, rows, x, head[x].license) :: id
  }

  /** The decision is reached. */
  predicate Decides(ctx: Context, today: int, base: Inventory, head: Inventory, rows: seq<ProviderRow>) {
    && PolicyValid(ctx.voc, ctx.waivers, today) && ProviderRowsValid(ctx, rows) && IdentitiesDiffer(ctx, head)
    && (forall x | x in Judgeable(ctx, base, head, rows) :: Reached(ctx, rows, x, head[x].license))
    && ctx.reviewed(AllUsed(ctx, base, head, rows))
  }

  /** A verdict with the violation that a licence conflict adds. */
  function Marked(verdict: Verdict, conflict: bool): Verdict {
    if conflict then Verdict(false, verdict.violations + [LicenseConflict], verdict.exceptions) else verdict
  }

  /** What is reported of one component. */
  ghost predicate IsVerdict(
      ctx: Context, rows: seq<ProviderRow>, x: Coordinates, license: Option<string>, verdict: Verdict)
  {
    && (verdict.passed <==> ClearedBy(ctx, rows, x, license))
    && verdict.violations == ViolationsOn(ctx, rows, x, license)
                             + (if Disagree(ctx, rows, x, license) then [LicenseConflict] else [])
    && verdict.exceptions == UsedOn(ctx, rows, x, license)
  }

  ghost predicate VerdictsFit(
      ctx: Context, base: Inventory, head: Inventory, rows: seq<ProviderRow>, changes: map<Coordinates, Verdict>)
  {
    && changes.Keys == Judgeable(ctx, base, head, rows)
    && forall x | x in changes :: IsVerdict(ctx, rows, x, head[x].license, changes[x])
  }

  ghost predicate UnmatchedFit(ctx: Context, head: Inventory, rows: seq<ProviderRow>, unmatched: set<Coordinates>) {
    forall key :: key in unmatched <==> IsNamed(ctx, rows, key) && forall x | x in head :: ctx.normal(x) != key
  }

  ghost predicate ConflictsFit(
      ctx: Context, base: Inventory, head: Inventory, rows: seq<ProviderRow>, conflicts: set<Coordinates>)
  {
    forall key :: key in conflicts <==>
      exists x | x in Judgeable(ctx, base, head, rows) :: ctx.normal(x) == key && Disagree(ctx, rows, x, head[x].license)
  }

  /** Every added row is about a head component, and every component that needs a verdict is cleared. */
  ghost predicate AllWell(ctx: Context, base: Inventory, head: Inventory, rows: seq<ProviderRow>) {
    && (forall row | row in rows && !row.removed ::
          exists x | x in head :: ctx.normal(x) == ctx.normal(row.component.coordinates))
    && forall x | x in Judgeable(ctx, base, head, rows) :: ClearedBy(ctx, rows, x, head[x].license)
  }

  /** What is decided: a verdict on every component that needs one, the rows that match no head component, the components
      in conflict, and whether all is well. */
  ghost predicate IsDecision(ctx: Context, base: Inventory, head: Inventory, rows: seq<ProviderRow>, d: Decision) {
    && VerdictsFit(ctx, base, head, rows, d.changes) && UnmatchedFit(ctx, head, rows, d.unmatched)
    && ConflictsFit(ctx, base, head, rows, d.conflicts) && (d.passed <==> AllWell(ctx, base, head, rows))
  }

  lemma AssessedMeaning(ctx: Context, base: Inventory, head: Inventory, rows: seq<ProviderRow>)
    ensures Assessed(ctx, base, head, EntriesOf(ctx, rows)) == Judgeable(ctx, base, head, rows)
  {
    forall x | x in head
      ensures x in Assessed(ctx, base, head, EntriesOf(ctx, rows)) <==> x in Judgeable(ctx, base, head, rows)
    {
      EntriesExactly(ctx, rows, ctx.normal(x));
    }
  }

  lemma UsedMeaning(ctx: Context, base: Inventory, head: Inventory, rows: seq<ProviderRow>)
    requires RowsFit(ctx, rows) && AllDecided(ctx, base, head, EntriesOf(ctx, rows))
    ensures WaiversUsed(ctx, base, head, EntriesOf(ctx, rows)) == AllUsed(ctx, base, head, rows)
  {
    AssessedMeaning(ctx, base, head, rows);
    forall x | x in Judgeable(ctx, base, head, rows)
      ensures VerdictOn(ctx, head, EntriesOf(ctx, rows), x, head[x].license).value.exceptions ==
              UsedOn(ctx, rows, x, head[x].license)
    {
      VerdictReports(ctx, head, rows, x);
    }
  }

  lemma AllDecidedMeaning(ctx: Context, base: Inventory, head: Inventory, rows: seq<ProviderRow>)
    requires RowsFit(ctx, rows)
    ensures AllDecided(ctx, base, head, EntriesOf(ctx, rows)) <==>
            forall x | x in Judgeable(ctx, base, head, rows) :: Reached(ctx, rows, x, head[x].license)
  {
    AssessedMeaning(ctx, base, head, rows);
    forall x | x in Judgeable(ctx, base, head, rows)
      ensures VerdictOn(ctx, head, EntriesOf(ctx, rows), x, head[x].license).Some? <==>
              Reached(ctx, rows, x, head[x].license)
    {
      VerdictExactly(ctx, head, rows, x);
    }
  }

  lemma DecidableExactly(ctx: Context, today: int, base: Inventory, head: Inventory, rows: seq<ProviderRow>)
    ensures Decidable(ctx, today, base, head, rows) <==> Decides(ctx, today, base, head, rows)
  {
    if ProviderRowsValid(ctx, rows) {
      AllDecidedMeaning(ctx, base, head, rows);
      if AllDecided(ctx, base, head, EntriesOf(ctx, rows)) {
        UsedMeaning(ctx, base, head, rows);
      }
    }
  }

  lemma UnmatchedMeaning(ctx: Context, head: Inventory, rows: seq<ProviderRow>, key: Coordinates)
    ensures key in Unmatched(ctx, head, EntriesOf(ctx, rows)) <==>
            IsNamed(ctx, rows, key) && forall x | x in head :: ctx.normal(x) != key
  {
    EntriesExactly(ctx, rows, key);
  }

  lemma UnmatchedIs(ctx: Context, head: Inventory, rows: seq<ProviderRow>)
    ensures UnmatchedFit(ctx, head, rows, Unmatched(ctx, head, EntriesOf(ctx, rows)))
  {
    forall key ensures key in Unmatched(ctx, head, EntriesOf(ctx, rows)) <==>
        IsNamed(ctx, rows, key) && forall x | x in head :: ctx.normal(x) != key
    {
      UnmatchedMeaning(ctx, head, rows, key);
    }
  }

  lemma AllMatched(ctx: Context, head: Inventory, rows: seq<ProviderRow>, unmatched: set<Coordinates>)
    requires UnmatchedFit(ctx, head, rows, unmatched)
    ensures unmatched == {} <==>
            forall row | row in rows && !row.removed ::
              exists x | x in head :: ctx.normal(x) == ctx.normal(row.component.coordinates)
  {
    if unmatched == {} {
      forall row | row in rows && !row.removed
        ensures exists x | x in head :: ctx.normal(x) == ctx.normal(row.component.coordinates)
      {
        var key := ctx.normal(row.component.coordinates);
        assert Names(ctx, row, key) && IsNamed(ctx, rows, key) && key !in unmatched;
      }
    }
  }

  /** The decision passes exactly where every added row matches a head component and every component that needs a
      verdict is cleared. */
  lemma AdmittedExactly(ctx: Context, today: int, base: Inventory, head: Inventory, rows: seq<ProviderRow>)
    requires Decides(ctx, today, base, head, rows)
    ensures Admitted(ctx, today, base, head, rows) <==> AllWell(ctx, base, head, rows)
  {
    DecidableExactly(ctx, today, base, head, rows);
    AssessedMeaning(ctx, base, head, rows);
    UnmatchedIs(ctx, head, rows);
    AllMatched(ctx, head, rows, Unmatched(ctx, head, EntriesOf(ctx, rows)));
    forall x | x in Judgeable(ctx, base, head, rows)
      ensures ComponentAdmitted(ctx, head, EntriesOf(ctx, rows), x) <==> ClearedBy(ctx, rows, x, head[x].license)
    {
      VerdictExactly(ctx, head, rows, x);
    }
  }

  // ---------------------------------------------------------------- the decision as the program makes it

  /** The loop that adds the conflicts to the verdicts. */
  method MarkConflicts(ctx: Context, changes: map<Coordinates, Verdict>, conflicts: set<Coordinates>)
    returns (marked: map<Coordinates, Verdict>)
    ensures marked.Keys == changes.Keys
    ensures forall x | x in changes :: marked[x] == Marked(changes[x], ctx.normal(x) in conflicts)
  {
    marked := changes;
    var rest := changes.Keys;
    while rest != {}
      invariant rest <= changes.Keys && marked.Keys == changes.Keys
      invariant forall x | x in changes ::
                  marked[x] == if x in rest then changes[x] else Marked(changes[x], ctx.normal(x) in conflicts)
    {
      var x :| x in rest;
      if ctx.normal(x) in conflicts {
        var row := marked[x];
        marked := marked[x := Verdict(false, row.violations + [LicenseConflict], row.exceptions)];
      }
      rest := rest - {x};
    }
  }

  lemma ConflictsAre(ctx: Context, base: Inventory, head: Inventory, rows: seq<ProviderRow>, conflicts: set<Coordinates>)
    requires conflicts == ConflictsAmong(ctx, head, EntriesOf(ctx, rows), Judgeable(ctx, base, head, rows))
    ensures ConflictsFit(ctx, base, head, rows, conflicts)
  {
    forall x | x in Judgeable(ctx, base, head, rows)
      ensures Conflicts(ctx, EntriesOf(ctx, rows), x, head[x].license) <==> Disagree(ctx, rows, x, head[x].license)
    {
      ConflictMeaning(ctx, rows, x, head[x].license);
    }
  }

  /** The verdicts that the loop over the changes leaves, with the conflicts marked. */
  lemma MarkedFit(
      ctx: Context, base: Inventory, head: Inventory, rows: seq<ProviderRow>,
      changes: map<Coordinates, Verdict>, conflicts: set<Coordinates>, marked: map<Coordinates, Verdict>)
    requires RowsFit(ctx, rows) && IdentitiesDiffer(ctx, head) && ConflictsFit(ctx, base, head, rows, conflicts)
    requires changes.Keys == Judgeable(ctx, base, head, rows) == marked.Keys
    requires forall x | x in changes :: VerdictOn(ctx, head, EntriesOf(ctx, rows), x, head[x].license) == Some(changes[x])
    requires forall x | x in changes :: marked[x] == Marked(changes[x], ctx.normal(x) in conflicts)
    ensures VerdictsFit(ctx, base, head, rows, marked)
  {
    forall x | x in marked ensures IsVerdict(ctx, rows, x, head[x].license, marked[x]) {
      MarkedIsVerdict(ctx, base, head, rows, conflicts, x, changes[x]);
    }
  }

  lemma PassedMeaning(ctx: Context, base: Inventory, head: Inventory, rows: seq<ProviderRow>, d: Decision)
    requires VerdictsFit(ctx, base, head, rows, d.changes) && UnmatchedFit(ctx, head, rows, d.unmatched)
    requires ConflictsFit(ctx, base, head, rows, d.conflicts)
    requires d.passed == (d.unmatched == {} && d.conflicts == {} && forall x | x in d.changes :: d.changes[x].passed)
    ensures IsDecision(ctx, base, head, rows, d)
  {
    AllMatched(ctx, head, rows, d.unmatched);
    forall x | x in d.changes ensures d.changes[x].passed <==> ClearedBy(ctx, rows, x, head[x].license) {
      assert IsVerdict(ctx, rows, x, head[x].license, d.changes[x]);
    }
    if forall x | x in d.changes :: d.changes[x].passed {
      forall x | x in Judgeable(ctx, base, head, rows) ensures !Disagree(ctx, rows, x, head[x].license) {
        assert d.changes[x].passed;
      }
    }
  }

  /** What the loops leave makes up the decision. */
  lemma LoopsDecide(
      ctx: Context, today: int, base: Inventory, head: Inventory, rows: seq<ProviderRow>,
      changes: map<Coordinates, Verdict>, used: set<string>, d: Decision)
    requires Decides(ctx, today, base, head, rows)
    requires Judged(ctx, base, head, EntriesOf(ctx, rows), head.Keys, changes, used, d.conflicts)
    requires d.changes.Keys == changes.Keys && d.unmatched == Unmatched(ctx, head, EntriesOf(ctx, rows))
    requires forall x | x in changes :: d.changes[x] == Marked(changes[x], ctx.normal(x) in d.conflicts)
    requires d.passed == (d.unmatched == {} && d.conflicts == {} && forall x | x in d.changes :: d.changes[x].passed)
    ensures IsDecision(ctx, base, head, rows, d) && (d.passed <==> Admitted(ctx, today, base, head, rows))
  {
    AssessedMeaning(ctx, base, head, rows);
    assert head.Keys * Assessed(ctx, base, head, EntriesOf(ctx, rows)) == Judgeable(ctx, base, head, rows);
    ConflictsAre(ctx, base, head, rows, d.conflicts);
    MarkedFit(ctx, base, head, rows, changes, d.conflicts, d.changes);
    UnmatchedIs(ctx, head, rows);
    PassedMeaning(ctx, base, head, rows, d);
    AdmittedExactly(ctx, today, base, head, rows);
  }

  lemma MarkedIsVerdict(
      ctx: Context, base: Inventory, head: Inventory, rows: seq<ProviderRow>, conflicts: set<Coordinates>,
      x: Coordinates, verdict: Verdict)
    requires RowsFit(ctx, rows) && IdentitiesDiffer(ctx, head) && x in Judgeable(ctx, base, head, rows)
    requires VerdictOn(ctx, head, EntriesOf(ctx, rows), x, head[x].license) == Some(verdict)
    requires ConflictsFit(ctx, base, head, rows, conflicts)
    ensures IsVerdict(ctx, rows, x, head[x].license, Marked(verdict, ctx.normal(x) in conflicts))
  {
    assert ctx.normal(x) in conflicts <==> Disagree(ctx, rows, x, head[x].license);
    VerdictReports(ctx, head, rows, x);
    VerdictExactly(ctx, head, rows, x);
    ConflictMeaning(ctx, rows, x, head[x].license);
    assert verdict.violations + [] == verdict.violations;
  }

  /** The verdicts, with the waivers they use and the conflicts met on the way. */
  ghost predicate AllJudged(
      ctx: Context, base: Inventory, head: Inventory, rows: seq<ProviderRow>,
      changes: map<Coordinates, Verdict>, used: set<string>, conflicts: set<Coordinates>)
  {
    Judged(ctx, base, head, EntriesOf(ctx, rows), head.Keys, changes, used, conflicts)
  }

  /** The join and the assessment of the changes. */
  method JudgeAll(ctx: Context, today: int, base: Inventory, head: Inventory, rows: seq<ProviderRow>)
    returns (ok: bool, changes: map<Coordinates, Verdict>, used: set<string>, unmatched: set<Coordinates>,
             conflicts: set<Coordinates>)
    requires PolicyValid(ctx.voc, ctx.waivers, today) && Coherent(ctx.voc)
    ensures ok <==> ProviderRowsValid(ctx, rows) && IdentitiesDiffer(ctx, head)
                    && AllDecided(ctx, base, head, EntriesOf(ctx, rows))
    ensures ok ==> AllJudged(ctx, base, head, rows, changes, used, conflicts)
    ensures ok ==> unmatched == Unmatched(ctx, head, EntriesOf(ctx, rows))
    ensures ok ==> used == WaiversUsed(ctx, base, head, EntriesOf(ctx, rows))
  {
    changes, used, unmatched, conflicts := map[], {}, {}, {};
    var joined := new JoinedAdvisories(ctx, head);
    ok := joined.Load(rows);
    if !ok {
      return;
    }
    ok, changes, used := AssessChanges(ctx, today, base, joined);
    if !ok {
      return;
    }
    JudgedAll(ctx, base, head, joined.rows, changes, used, joined.conflicts);
    unmatched, conflicts := joined.unmatched, joined.conflicts;
  }

  /** `dependency_review_join.assess`: the joined decision. */
  method Decide(ctx: Context, today: int, base: Inventory, head: Inventory, rows: seq<ProviderRow>)
    returns (r: Option<Decision>)
    requires Coherent(ctx.voc)
    ensures r.Some? <==> Decides(ctx, today, base, head, rows)
    ensures r.Some? ==> IsDecision(ctx, base, head, rows, r.value)
    ensures r.Some? ==> (r.value.passed <==> Admitted(ctx, today, base, head, rows))
  {
    DecidableExactly(ctx, today, base, head, rows);
    var ok := ValidatePolicy(ctx.voc, ctx.waivers, today);
    if !ok {
      return None;
    }
    var changes, used, unmatched, conflicts;
    ok, changes, used, unmatched, conflicts := JudgeAll(ctx, today, base, head, rows);
    if !ok || !ctx.reviewed(used) {
      return None;
    }
    var marked := MarkConflicts(ctx, changes, conflicts);
    var passed := unmatched == {} && conflicts == {} && forall x | x in marked :: marked[x].passed;
    var decision := Decision(marked, unmatched, conflicts, passed);
    LoopsDecide(ctx, today, base, head, rows, changes, used, decision);
    return Some(decision);
  }
}

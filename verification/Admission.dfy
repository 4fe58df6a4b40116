/** Admission of the source-package components of a change, joined with the provider's own findings
    (scripts/dependency_admission.py and scripts/dependency_review_join.py). */
module Admission {
  import opened Ordering
  import opened Text
  import opened Policy
  import opened Assessment
  import Advisories

  // ---------------------------------------------------------------- inputs

  /** A row of `component_rows`: the effective licence, the origins, and the digest of everything else. */
  datatype SourceRow = SourceRow(license: Option<string>, origins: set<string>, digest: string)

  type Inventory = map<Coordinates, SourceRow>

  datatype Status = Observed | Unsupported | Unavailable

  /** An exact-version advisory lookup. */
  datatype Reply = Reply(status: Status, findings: seq<Finding>)

  /** How `license_tokens` reads a licence. */
  datatype LicenseKey = Unreadable | Unstated | Tokens(tokens: seq<string>)

  /** A row of the provider's comparison. */
  datatype ProviderRow = ProviderRow(component: Component, manifest: string, removed: bool)

  /** What surrounds the decision: policy, advisory lookups, the identity the join compares, licence reading,
      verified data fixtures, manifest syntax, and whether the reviews of a set of waivers verify. */
  datatype Context = Context(
    voc: Vocabulary,
    waivers: seq<Waiver>,
    api: Coordinates -> Reply,
    normal: Coordinates -> Coordinates,
    licenseKey: Option<string> -> LicenseKey,
    isDataFixture: Coordinates -> bool,
    isManifest: string -> bool,
    reviewed: set<string> -> bool)

  // ---------------------------------------------------------------- joining provider rows

  datatype Entry = Entry(licenses: set<seq<string>>, findings: Findings)

  type Entries = map<Coordinates, Entry>

  /** Fold a list of findings into a table, keeping the more severe of two with one identifier. */
  function KeepAll(m: Findings, findings: seq<Finding>): Findings {
    if findings == [] then m
    else
      var n := |findings| - 1;
      Advisories.Keep(KeepAll(m, findings[..n]), findings[n])
  }

  function EntryAt(entries: Entries, key: Coordinates): Entry {
    if key in entries then entries[key] else Entry({}, map[])
  }

  function LicensesOf(key: LicenseKey): set<seq<string>> {
    if key.Tokens? then {key.tokens} else {}
  }

  function AddRow(ctx: Context, entries: Entries, row: ProviderRow): Entries {
    if row.removed then entries
    else
      var key := ctx.normal(row.component.coordinates);
      var entry := EntryAt(entries, key);
      entries[key := Entry(entry.licenses + LicensesOf(ctx.licenseKey(row.component.license)),
                           KeepAll(entry.findings, row.component.findings))]
  }

  function EntriesOf(ctx: Context, rows: seq<ProviderRow>): Entries {
    if rows == [] then map[]
    else
      var n := |rows| - 1;
      AddRow(ctx, EntriesOf(ctx, rows[..n]), rows[n])
  }

  function Observation(ctx: Context, row: ProviderRow): (Coordinates, string, bool) {
    (ctx.normal(row.component.coordinates), row.manifest, row.removed)
  }

  predicate ProviderRowValid(ctx: Context, row: ProviderRow) {
    && ComponentValid(ctx.voc, row.component) && ctx.isManifest(row.manifest)
    && (!row.removed ==> !ctx.licenseKey(row.component.license).Unreadable?)
  }

  const MAX_PROVIDER_ROWS := 4096

  /** Every row can be read, and no row is repeated. */
  predicate RowsFit(ctx: Context, rows: seq<ProviderRow>) {
    && (forall i | 0 <= i < |rows| :: ProviderRowValid(ctx, rows[i]))
    && (forall i, j | 0 <= i < j < |rows| :: Observation(ctx, rows[i]) != Observation(ctx, rows[j]))
  }

  predicate ProviderRowsValid(ctx: Context, rows: seq<ProviderRow>) {
    |rows| <= MAX_PROVIDER_ROWS && RowsFit(ctx, rows)
  }

  /** No two head components share a joined identity. */
  predicate IdentitiesDiffer(ctx: Context, head: Inventory) {
    forall x, y | x in head && y in head && ctx.normal(x) == ctx.normal(y) :: x == y
  }

  /** The head components a provider row speaks about; these are assessed even if unchanged. */
  function Required(ctx: Context, head: Inventory, entries: Entries): set<Coordinates> {
    set x | x in head && ctx.normal(x) in entries
  }

  /** Provider rows that match no head component. */
  function Unmatched(ctx: Context, head: Inventory, entries: Entries): set<Coordinates> {
    set key | key in entries && key !in (set x | x in head :: ctx.normal(x))
  }

  // ---------------------------------------------------------------- one component

  /** Nothing about the component changed: same digest, no origin added, and no provider row about it. */
  predicate Unchanged(base: Inventory, key: Coordinates, row: SourceRow, required: set<Coordinates>) {
    && key in base && row.origins <= base[key].origins && row.digest == base[key].digest
    && key !in required
  }

  predicate IsDataOnly(key: Coordinates, required: set<Coordinates>) {
    key.ecosystem == "fixture" && key !in required
  }

  /** A licence the provider reports differs from another one it reports, or from the one in the source. */
  predicate Conflicts(ctx: Context, entries: Entries, key: Coordinates, license: Option<string>) {
    && ctx.normal(key) in entries
    && var licenses := entries[ctx.normal(key)].licenses;
      var actual := ctx.licenseKey(license);
      |licenses| > 1 || (actual.Tokens? && exists l | l in licenses :: l != actual.tokens)
  }

  function FindingsMap(findings: seq<Finding>): Findings {
    KeepAll(map[], findings)
  }

  /** The findings a component is assessed with: its own lookup joined with the provider's. `None` where the
      lookup itself is not acceptable. */
  function JoinedFindings(ctx: Context, entries: Entries, key: Coordinates, license: Option<string>): Option<seq<Finding>> {
    var own := ctx.api(key).findings;
    if ctx.normal(key) !in entries then Some(own)
    else if !ComponentValid(ctx.voc, Component(key, license, own)) then None
    else Some(Listed(Merge(FindingsMap(own), entries[ctx.normal(key)].findings)))
  }

  /** The licence-only verdict on a verified data fixture. */
  function LicenseVerdict(ctx: Context, key: Coordinates, license: Option<string>): Verdict {
    var c := Component(key, license, []);
    Verdict(LicenseViolations(ctx.voc, ctx.waivers, c) == [], LicenseViolations(ctx.voc, ctx.waivers, c),
            LicenseWaivers(ctx.voc, ctx.waivers, c))
  }

  /** The verdict on one component that is assessed; `None` where the source raises. */
  function VerdictOn(ctx: Context, head: Inventory, entries: Entries, key: Coordinates, license: Option<string>): Option<Verdict> {
    if IsDataOnly(key, Required(ctx, head, entries)) then
      if ctx.isDataFixture(key) && ctx.voc.isCoordinates(key) && ctx.voc.verdict(license).Some?
      then Some(LicenseVerdict(ctx, key, license)) else None
    else if ctx.normal(key) in entries && ctx.licenseKey(license).Unreadable? then None
    else if !ctx.api(key).status.Observed? then Some(Verdict(false, [CoverageUnknown], {}))
    else
      var findings := JoinedFindings(ctx, entries, key, license);
      if findings.None? || !ComponentValid(ctx.voc, Component(key, license, findings.value)) then None
      else Some(Assess(ctx.voc, ctx.waivers, Component(key, license, findings.value)))
  }

  function Assessed(ctx: Context, base: Inventory, head: Inventory, entries: Entries): set<Coordinates> {
    set x | x in head && !Unchanged(base, x, head[x], Required(ctx, head, entries))
  }

  /** Every assessed component has a verdict. */
  predicate AllDecided(ctx: Context, base: Inventory, head: Inventory, entries: Entries) {
    forall x | x in Assessed(ctx, base, head, entries) :: VerdictOn(ctx, head, entries, x, head[x].license).Some?
  }

  function WaiversUsed(ctx: Context, base: Inventory, head: Inventory, entries: Entries): set<string> {
    set x, id | x in Assessed(ctx, base, head, entries) && VerdictOn(ctx, head, entries, x, head[x].license).Some?
                && id in VerdictOn(ctx, head, entries, x, head[x].license).value.exceptions :: id
  }

  /** The decision is reached at all. */
  predicate Decidable(ctx: Context, today: int, base: Inventory, head: Inventory, rows: seq<ProviderRow>) {
    && PolicyValid(ctx.voc, ctx.waivers, today) && ProviderRowsValid(ctx, rows) && IdentitiesDiffer(ctx, head)
    && AllDecided(ctx, base, head, EntriesOf(ctx, rows))
    && ctx.reviewed(WaiversUsed(ctx, base, head, EntriesOf(ctx, rows)))
  }

  predicate ComponentAdmitted(ctx: Context, head: Inventory, entries: Entries, key: Coordinates)
    requires key in head
  {
    && VerdictOn(ctx, head, entries, key, head[key].license).Some?
    && VerdictOn(ctx, head, entries, key, head[key].license).value.passed
    && !Conflicts(ctx, entries, key, head[key].license)
  }

  /** The decision passes. */
  predicate Admitted(ctx: Context, today: int, base: Inventory, head: Inventory, rows: seq<ProviderRow>) {
    && Decidable(ctx, today, base, head, rows)
    && Unmatched(ctx, head, EntriesOf(ctx, rows)) == {}
    && forall x | x in Assessed(ctx, base, head, EntriesOf(ctx, rows)) :: ComponentAdmitted(ctx, head, EntriesOf(ctx, rows), x)
  }

  // ---------------------------------------------------------------- nothing escapes

  /** The component was looked up, and every blocking finding of that lookup and of the provider is waived. */
  predicate BothPass(ctx: Context, entries: Entries, key: Coordinates) {
    && ctx.api(key).status.Observed?
    && (forall f | f in ctx.api(key).findings :: FindingPasses(ctx.waivers, key, f))
    && (ctx.normal(key) in entries ==>
          var theirs := entries[ctx.normal(key)].findings;
          forall id | id in theirs :: FindingPasses(ctx.waivers, key, Finding(id, theirs[id])))
  }

  /** The licence is allowed or waived and in no conflict; and both sources pass, or the component is a verified data
      fixture that the provider does not name. */
  predicate Cleared(ctx: Context, entries: Entries, key: Coordinates, license: Option<string>) {
    && LicensePasses(ctx.voc, ctx.waivers, key, license) && !Conflicts(ctx, entries, key, license)
    && (BothPass(ctx, entries, key)
        || (key.ecosystem == "fixture" && ctx.isDataFixture(key) && ctx.normal(key) !in entries))
  }

  lemma {:induction false} EntriesKeys(ctx: Context, rows: seq<ProviderRow>, row: ProviderRow)
    requires row in rows && !row.removed
    ensures ctx.normal(row.component.coordinates) in EntriesOf(ctx, rows)
  {
    var n := |rows| - 1;
    if rows[n] != row {
      assert rows == rows[..n] + [rows[n]];
      EntriesKeys(ctx, rows[..n], row);
    }
  }

  /** A provider finding of at least this severity is in the entry. */
  predicate Holds(m: Findings, f: Finding) {
    f.id in m && Rank(m[f.id]) >= Rank(f.severity)
  }

  lemma {:induction false} KeepAllHolds(m: Findings, findings: seq<Finding>, f: Finding)
    requires f in findings || Holds(m, f)
    ensures Holds(KeepAll(m, findings), f)
  {
    if findings != [] {
      var n := |findings| - 1;
      assert findings == findings[..n] + [findings[n]];
      if f in findings[..n] || Holds(m, f) {
        KeepAllHolds(m, findings[..n], f);
      }
    }
  }

  lemma {:induction false} EntriesHold(ctx: Context, rows: seq<ProviderRow>, row: ProviderRow, f: Finding)
    requires row in rows && !row.removed && f in row.component.findings
    ensures ctx.normal(row.component.coordinates) in EntriesOf(ctx, rows)
    ensures Holds(EntriesOf(ctx, rows)[ctx.normal(row.component.coordinates)].findings, f)
  {
    var n := |rows| - 1;
    var last := rows[n];
    var key := ctx.normal(row.component.coordinates);
    assert rows == rows[..n] + [last];
    var before := EntriesOf(ctx, rows[..n]);
    if last == row {
      KeepAllHolds(EntryAt(before, key).findings, last.component.findings, f);
    } else {
      EntriesHold(ctx, rows[..n], row, f);
      if !last.removed && ctx.normal(last.component.coordinates) == key {
        KeepAllHolds(before[key].findings, last.component.findings, f);
      }
    }
  }

  lemma ListedHolds(m: Findings, f: Finding)
    requires Holds(m, f) && Blocks(f.severity)
    ensures exists g | g in Listed(m) :: g.id == f.id && Blocks(g.severity)
  {
    assert Finding(f.id, m[f.id]) in Listed(m);
  }

  /** Passing with joined findings is passing with any finding that either source holds. */
  lemma JoinedCovers(ctx: Context, entries: Entries, key: Coordinates, license: Option<string>, f: Finding)
    requires JoinedFindings(ctx, entries, key, license).Some?
    requires Passes(ctx.voc, ctx.waivers, Component(key, license, JoinedFindings(ctx, entries, key, license).value))
    requires f in ctx.api(key).findings || (ctx.normal(key) in entries && Holds(entries[ctx.normal(key)].findings, f))
    ensures FindingPasses(ctx.waivers, key, f)
  {
    if ctx.normal(key) in entries && Blocks(f.severity) {
      var own, theirs := FindingsMap(ctx.api(key).findings), entries[ctx.normal(key)].findings;
      if f in ctx.api(key).findings {
        KeepAllHolds(map[], ctx.api(key).findings, f);
      }
      if f.id in own && f.id in theirs {
        WorseBlocks(own[f.id], theirs[f.id]);
      }
      ListedHolds(Merge(own, theirs), f);
    }
  }

  lemma AdmittedIsCleared(ctx: Context, head: Inventory, entries: Entries, key: Coordinates)
    requires key in head && ComponentAdmitted(ctx, head, entries, key)
    ensures Cleared(ctx, entries, key, head[key].license)
  {
    var license := head[key].license;
    if !IsDataOnly(key, Required(ctx, head, entries)) {
      var findings := JoinedFindings(ctx, entries, key, license);
      AssessMeaning(ctx.voc, ctx.waivers, Component(key, license, findings.value));
      JoinedPass(ctx, entries, key, license);
    }
  }

  lemma JoinedPass(ctx: Context, entries: Entries, key: Coordinates, license: Option<string>)
    requires ctx.api(key).status.Observed? && JoinedFindings(ctx, entries, key, license).Some?
    requires Passes(ctx.voc, ctx.waivers, Component(key, license, JoinedFindings(ctx, entries, key, license).value))
    ensures BothPass(ctx, entries, key)
  {
    forall f | f in ctx.api(key).findings ensures FindingPasses(ctx.waivers, key, f) {
      JoinedCovers(ctx, entries, key, license, f);
    }
    if ctx.normal(key) in entries {
      var theirs := entries[ctx.normal(key)].findings;
      forall id | id in theirs ensures FindingPasses(ctx.waivers, key, Finding(id, theirs[id])) {
        JoinedCovers(ctx, entries, key, license, Finding(id, theirs[id]));
      }
    }
  }

  /** A provider row is answered by a component: the head has it, it was looked up, both sources pass, every blocking
      finding of the row is waived, and no licence is in conflict. */
  ghost predicate Answers(ctx: Context, head: Inventory, entries: Entries, row: ProviderRow, x: Coordinates) {
    && x in head && ctx.normal(x) == ctx.normal(row.component.coordinates)
    && LicensePasses(ctx.voc, ctx.waivers, x, head[x].license) && !Conflicts(ctx, entries, x, head[x].license)
    && BothPass(ctx, entries, x)
    && forall f | f in row.component.findings :: FindingPasses(ctx.waivers, x, f)
  }

  ghost predicate IsAnswered(ctx: Context, head: Inventory, entries: Entries, row: ProviderRow) {
    exists x :: Answers(ctx, head, entries, row, x)
  }

  /** Nothing escapes admission. If the joined decision passes, every head component either is unchanged from its
      base row or was cleared; and every row the provider added is answered by a head component, even if that one is
      unchanged or is test data. */
  lemma NothingEscapes(ctx: Context, today: int, base: Inventory, head: Inventory, rows: seq<ProviderRow>)
    requires Admitted(ctx, today, base, head, rows)
    ensures forall x | x in head ::
              (x in base && head[x].origins <= base[x].origins && head[x].digest == base[x].digest)
              || Cleared(ctx, EntriesOf(ctx, rows), x, head[x].license)
    ensures forall row | row in rows && !row.removed :: IsAnswered(ctx, head, EntriesOf(ctx, rows), row)
  {
    var entries := EntriesOf(ctx, rows);
    forall x | x in Assessed(ctx, base, head, entries) ensures Cleared(ctx, entries, x, head[x].license) {
      AdmittedIsCleared(ctx, head, entries, x);
    }
    forall row | row in rows && !row.removed ensures IsAnswered(ctx, head, entries, row) {
      RowIsAnswered(ctx, today, base, head, rows, row);
    }
  }

  lemma NamedIsCleared(ctx: Context, today: int, base: Inventory, head: Inventory, rows: seq<ProviderRow>, key: Coordinates)
    returns (x: Coordinates)
    requires Admitted(ctx, today, base, head, rows) && key in EntriesOf(ctx, rows)
    ensures x in head && ctx.normal(x) == key && Cleared(ctx, EntriesOf(ctx, rows), x, head[x].license)
  {
    var entries := EntriesOf(ctx, rows);
    assert key !in Unmatched(ctx, head, entries);
    x :| x in head && ctx.normal(x) == key;
    assert x in Required(ctx, head, entries);
    assert x in Assessed(ctx, base, head, entries);
    AdmittedIsCleared(ctx, head, entries, x);
  }

  lemma RowFindingsPass(ctx: Context, rows: seq<ProviderRow>, row: ProviderRow, x: Coordinates, f: Finding)
    requires row in rows && !row.removed && f in row.component.findings
    requires ctx.normal(x) == ctx.normal(row.component.coordinates) && BothPass(ctx, EntriesOf(ctx, rows), x)
    ensures FindingPasses(ctx.waivers, x, f)
  {
    EntriesHold(ctx, rows, row, f);
    var theirs := EntriesOf(ctx, rows)[ctx.normal(x)].findings;
    assert FindingPasses(ctx.waivers, x, Finding(f.id, theirs[f.id]));
  }

  lemma RowIsAnswered(ctx: Context, today: int, base: Inventory, head: Inventory, rows: seq<ProviderRow>, row: ProviderRow)
    requires Admitted(ctx, today, base, head, rows) && row in rows && !row.removed
    ensures IsAnswered(ctx, head, EntriesOf(ctx, rows), row)
  {
    EntriesKeys(ctx, rows, row);
    var x := NamedIsCleared(ctx, today, base, head, rows, ctx.normal(row.component.coordinates));
    forall f | f in row.component.findings ensures FindingPasses(ctx.waivers, x, f) {
      RowFindingsPass(ctx, rows, row, x, f);
    }
    assert Answers(ctx, head, EntriesOf(ctx, rows), row, x);
  }

  /** Provider evidence can only block: what is admitted with provider rows is admitted without them, whenever a
      decision without them is reached. */
  lemma ProviderOnlyBlocks(ctx: Context, today: int, base: Inventory, head: Inventory, rows: seq<ProviderRow>)
    requires Admitted(ctx, today, base, head, rows) && Decidable(ctx, today, base, head, [])
    ensures Admitted(ctx, today, base, head, [])
  {
    forall x | x in Assessed(ctx, base, head, map[]) ensures ComponentAdmitted(ctx, head, map[], x) {
      assert x in Assessed(ctx, base, head, EntriesOf(ctx, rows));
      AdmittedAlone(ctx, head, EntriesOf(ctx, rows), x);
    }
  }

  lemma AdmittedAlone(ctx: Context, head: Inventory, entries: Entries, key: Coordinates)
    requires key in head && ComponentAdmitted(ctx, head, entries, key)
    requires VerdictOn(ctx, head, map[], key, head[key].license).Some?
    ensures ComponentAdmitted(ctx, head, map[], key)
  {
    var license := head[key].license;
    AdmittedIsCleared(ctx, head, entries, key);
    if key.ecosystem != "fixture" {
      AssessMeaning(ctx.voc, ctx.waivers, Component(key, license, ctx.api(key).findings));
    }
  }

  // ---------------------------------------------------------------- lookups that come from observation

  /** The lookup of a component is a complete paged observation. */
  ghost predicate ObservedThrough(
      ctx: Context, key: Coordinates, server: Advisories.Server, read: Advisories.Reader, n: nat)
  {
    && ctx.api(key).status.Observed? && Advisories.Completes(server, read, n)
    && ctx.api(key).findings == Listed(Advisories.Fold(read, Advisories.RecordsOf(server, n)))
  }

  lemma AssessableLookup(ctx: Context, head: Inventory, entries: Entries, key: Coordinates, license: Option<string>)
    requires ctx.api(key).status.Observed? && FindingsValid(ctx.voc, ctx.api(key).findings)
    requires ctx.normal(key) !in entries && !IsDataOnly(key, Required(ctx, head, entries))
    ensures VerdictOn(ctx, head, entries, key, license).Some? <==>
            ctx.voc.isCoordinates(key) && LicenseReadable(ctx.voc, license)
  {
  }

  /** A lookup by observation is never the reason why no verdict is reached. */
  lemma ObservedLookupIsAssessable(
      ctx: Context, server: Advisories.Server, read: Advisories.Reader, n: nat,
      head: Inventory, entries: Entries, key: Coordinates, license: Option<string>)
    requires ObservedThrough(ctx, key, server, read, n) && Advisories.ReadsAdvisories(read, ctx.voc.isAdvisory)
    ensures FindingsValid(ctx.voc, ctx.api(key).findings)
    ensures ctx.normal(key) !in entries && !IsDataOnly(key, Required(ctx, head, entries)) ==>
              (VerdictOn(ctx, head, entries, key, license).Some? <==>
               ctx.voc.isCoordinates(key) && LicenseReadable(ctx.voc, license))
  {
    Advisories.ObservedIsAssessable(ctx.voc, read, Advisories.RecordsOf(server, n));
    if ctx.normal(key) !in entries && !IsDataOnly(key, Required(ctx, head, entries)) {
      AssessableLookup(ctx, head, entries, key, license);
    }
  }

  // ---------------------------------------------------------------- the join as the program builds it

  predicate IsCanonical(ctx: Context, head: Inventory, keys: set<Coordinates>, canonical: map<Coordinates, Coordinates>) {
    && keys <= head.Keys
    && (forall x | x in keys :: ctx.normal(x) in canonical && canonical[ctx.normal(x)] == x)
    && (forall k | k in canonical :: canonical[k] in keys && ctx.normal(canonical[k]) == k)
  }

  /** The first loop of the constructor: index the head components by joined identity. */
  method IndexHead(ctx: Context, head: Inventory) returns (ok: bool, canonical: map<Coordinates, Coordinates>)
    ensures ok <==> IdentitiesDiffer(ctx, head)
    ensures ok ==> IsCanonical(ctx, head, head.Keys, canonical)
  {
    canonical := map[];
    var rest := head.Keys;
    while rest != {}
      invariant rest <= head.Keys
      invariant IsCanonical(ctx, head, head.Keys - rest, canonical)
    {
      var x :| x in rest;
      var key := ctx.normal(x);
      if key in canonical {
        assert canonical[key] in head && ctx.normal(canonical[key]) == ctx.normal(x);
        return false, map[];
      }
      canonical := canonical[key := x];
      rest := rest - {x};
    }
    ok := true;
  }

  function Observations(ctx: Context, rows: seq<ProviderRow>): set<(Coordinates, string, bool)> {
    set i | 0 <= i < |rows| :: Observation(ctx, rows[i])
  }

  lemma RowsStep(ctx: Context, rows: seq<ProviderRow>, i: nat)
    requires i < |rows|
    ensures RowsFit(ctx, rows[..i + 1]) <==>
            RowsFit(ctx, rows[..i]) && ProviderRowValid(ctx, rows[i]) && Observation(ctx, rows[i]) !in Observations(ctx, rows[..i])
    ensures RowsFit(ctx, rows) ==> RowsFit(ctx, rows[..i + 1])
  {
    var before, after := rows[..i], rows[..i + 1];
    assert forall k | 0 <= k < i :: after[k] == before[k] && Observation(ctx, before[k]) in Observations(ctx, before);
    assert after[i] == rows[i] && forall k | 0 <= k <= i :: after[k] == rows[k];
  }

  lemma ObservationsStep(ctx: Context, rows: seq<ProviderRow>, i: nat)
    requires i < |rows|
    ensures Observations(ctx, rows[..i + 1]) == Observations(ctx, rows[..i]) + {Observation(ctx, rows[i])}
  {
    var before, after := rows[..i], rows[..i + 1];
    assert after[i] == rows[i] && forall k | 0 <= k < i :: after[k] == before[k];
  }

  lemma EntriesStep(ctx: Context, rows: seq<ProviderRow>, i: nat)
    requires i < |rows|
    ensures EntriesOf(ctx, rows[..i + 1]) == AddRow(ctx, EntriesOf(ctx, rows[..i]), rows[i])
  {
    var after := rows[..i + 1];
    assert after[..i] == rows[..i] && after[i] == rows[i];
  }

  lemma RequiredStep(ctx: Context, head: Inventory, entries: Entries, row: ProviderRow, canonical: map<Coordinates, Coordinates>)
    requires IsCanonical(ctx, head, head.Keys, canonical)
    ensures var key := ctx.normal(row.component.coordinates);
            Required(ctx, head, AddRow(ctx, entries, row)) ==
            Required(ctx, head, entries) + (if !row.removed && key in canonical then {canonical[key]} else {})
  {
  }

  /** What the loop of the constructor has read. */
  ghost predicate Loading(ctx: Context, head: Inventory, values: seq<ProviderRow>, seen: set<(Coordinates, string, bool)>,
                          rows: Entries, required: set<Coordinates>)
  {
    && RowsFit(ctx, values) && seen == Observations(ctx, values)
    && rows == EntriesOf(ctx, values) && required == Required(ctx, head, rows)
  }

  lemma LoadingStep(ctx: Context, head: Inventory, values: seq<ProviderRow>, i: nat,
                    seen: set<(Coordinates, string, bool)>, rows: Entries, required: set<Coordinates>,
                    canonical: map<Coordinates, Coordinates>)
    requires i < |values| && Loading(ctx, head, values[..i], seen, rows, required)
    requires IsCanonical(ctx, head, head.Keys, canonical)
    ensures !ProviderRowValid(ctx, values[i]) || Observation(ctx, values[i]) in seen ==> !RowsFit(ctx, values)
    ensures ProviderRowValid(ctx, values[i]) && Observation(ctx, values[i]) !in seen ==>
              var row := values[i];
              var key := ctx.normal(row.component.coordinates);
              Loading(ctx, head, values[..i + 1], seen + {Observation(ctx, row)}, AddRow(ctx, rows, row),
                      required + (if !row.removed && key in canonical then {canonical[key]} else {}))
  {
    RowsStep(ctx, values, i);
    ObservationsStep(ctx, values, i);
    EntriesStep(ctx, values, i);
    RequiredStep(ctx, head, rows, values[i], canonical);
  }

  /** Where `observe` raises. */
  predicate LookupRefused(ctx: Context, entries: Entries, key: Coordinates, license: Option<string>) {
    && ctx.normal(key) in entries
    && (ctx.licenseKey(license).Unreadable?
        || (ctx.api(key).status.Observed? && JoinedFindings(ctx, entries, key, license).None?))
  }

  class JoinedAdvisories {
    const ctx: Context
    const head: Inventory
    var rows: Entries
    var required: set<Coordinates>
    var conflicts: set<Coordinates>
    var unmatched: set<Coordinates>

    constructor (ctx: Context, head: Inventory)
      ensures this.ctx == ctx && this.head == head && conflicts == {}
    {
      this.ctx, this.head := ctx, head;
      rows, required, conflicts, unmatched := map[], {}, {}, {};
    }

    /** The body of the source's constructor; `ok` is false where it raises. */
    method Load(values: seq<ProviderRow>) returns (ok: bool)
      modifies this
      ensures ok <==> IdentitiesDiffer(ctx, head) && ProviderRowsValid(ctx, values)
      ensures ok ==> rows == EntriesOf(ctx, values) && required == Required(ctx, head, rows)
      ensures ok ==> unmatched == Unmatched(ctx, head, rows)
      ensures conflicts == old(conflicts)
    {
      var canonical;
      ok, canonical := IndexHead(ctx, head);
      if !ok || |values| > MAX_PROVIDER_ROWS {
        return false;
      }
      rows, required := map[], {};
      var seen: set<(Coordinates, string, bool)> := {};
      for i := 0 to |values|
        invariant Loading(ctx, head, values[..i], seen, rows, required)
        invariant conflicts == old(conflicts)
      {
        var row := values[i];
        LoadingStep(ctx, head, values, i, seen, rows, required, canonical);
        if !ProviderRowValid(ctx, row) || Observation(ctx, row) in seen {
          return false;
        }
        seen := seen + {Observation(ctx, row)};
        rows := AddRow(ctx, rows, row);
        var key := ctx.normal(row.component.coordinates);
        if !row.removed && key in canonical {
          required := required + {canonical[key]};
        }
      }
      assert values[..|values|] == values;
      unmatched := set key | key in rows && key !in canonical;
    }

    /** `observe`: the advisory lookup, joined with the provider's findings where it has a row. */
    method Observe(key: Coordinates, license: Option<string>) returns (r: Option<Reply>)
      modifies this`conflicts
      ensures r.None? <==> LookupRefused(ctx, rows, key, license)
      ensures r.Some? ==> r.value.status == ctx.api(key).status
      ensures r.Some? && r.value.status.Observed? ==> JoinedFindings(ctx, rows, key, license) == Some(r.value.findings)
      ensures r.Some? ==> conflicts == old(conflicts) + (if Conflicts(ctx, rows, key, license) then {ctx.normal(key)} else {})
    {
      var result := ctx.api(key);
      if ctx.normal(key) !in rows {
        return Some(result);
      }
      var entry := rows[ctx.normal(key)];
      var actual := ctx.licenseKey(license);
      if actual.Unreadable? {
        return None;
      }
      if |entry.licenses| > 1 || (actual.Tokens? && exists l | l in entry.licenses :: l != actual.tokens) {
        conflicts := conflicts + {ctx.normal(key)};
      }
      if result.status.Observed? {
        if !ComponentValid(ctx.voc, Component(key, license, result.findings)) {
          return None;
        }
        return Some(Reply(result.status, Listed(Merge(FindingsMap(result.findings), entry.findings))));
      }
      return Some(result);
    }

    /** The body of the loop of `assess_changes` for one component that changed. */
    method Judge(key: Coordinates, license: Option<string>, today: int) returns (r: Option<Verdict>)
      requires required == Required(ctx, head, rows) && key in head
      requires PolicyValid(ctx.voc, ctx.waivers, today) && Coherent(ctx.voc)
      modifies this`conflicts
      ensures r == VerdictOn(ctx, head, rows, key, license)
      ensures r.Some? ==> conflicts == old(conflicts) + (if Conflicts(ctx, rows, key, license) then {ctx.normal(key)} else {})
    {
      if IsDataOnly(key, required) {
        if !ctx.isDataFixture(key) || !ctx.voc.isCoordinates(key) || ctx.voc.verdict(license).None? {
          return None;
        }
        return Some(LicenseVerdict(ctx, key, license));
      }
      var observation := Observe(key, license);
      if observation.None? {
        return None;
      }
      if !observation.value.status.Observed? {
        return Some(Verdict(false, [CoverageUnknown], {}));
      }
      r := AssessComponent(ctx.voc, ctx.waivers, Component(key, license, observation.value.findings), today);
    }
  }

  /** The report: each assessed component with its verdict, the provider rows nothing matches, and the decision. */
  datatype Decision = Decision(changes: map<Coordinates, Verdict>, unmatched: set<Coordinates>, conflicts: set<Coordinates>,
                               passed: bool)

  function UsedBy(changes: map<Coordinates, Verdict>): set<string> {
    set x, id | x in changes && id in changes[x].exceptions :: id
  }

  function ConflictsAmong(ctx: Context, head: Inventory, entries: Entries, keys: set<Coordinates>): set<Coordinates> {
    set x | x in keys && x in head && Conflicts(ctx, entries, x, head[x].license) :: ctx.normal(x)
  }

  lemma UsedByStep(changes: map<Coordinates, Verdict>, x: Coordinates, verdict: Verdict)
    requires x !in changes
    ensures UsedBy(changes[x := verdict]) == UsedBy(changes) + verdict.exceptions
  {
    var longer := changes[x := verdict];
    assert forall y | y in changes :: longer[y] == changes[y];
    assert longer[x] == verdict;
  }

  lemma ConflictsStep(ctx: Context, head: Inventory, entries: Entries, keys: set<Coordinates>, x: Coordinates)
    requires x in head
    ensures ConflictsAmong(ctx, head, entries, keys + {x}) ==
            ConflictsAmong(ctx, head, entries, keys) + (if Conflicts(ctx, entries, x, head[x].license) then {ctx.normal(x)} else {})
  {
  }

  /** The loop of `assess_changes` so far: `done` are the components already visited. */
  ghost predicate Judged(ctx: Context, base: Inventory, head: Inventory, entries: Entries, done: set<Coordinates>,
                         changes: map<Coordinates, Verdict>, used: set<string>, conflicts: set<Coordinates>)
  {
    && done <= head.Keys
    && changes.Keys == done * Assessed(ctx, base, head, entries)
    && (forall x | x in changes :: VerdictOn(ctx, head, entries, x, head[x].license) == Some(changes[x]))
    && used == UsedBy(changes)
    && conflicts == ConflictsAmong(ctx, head, entries, changes.Keys)
  }

  /** The assessment of all changed components. Their order in the report is not modelled. */
  method AssessChanges(ctx: Context, today: int, base: Inventory, joined: JoinedAdvisories)
    returns (ok: bool, changes: map<Coordinates, Verdict>, used: set<string>)
    requires joined.ctx == ctx && joined.required == Required(ctx, joined.head, joined.rows) && joined.conflicts == {}
    requires PolicyValid(ctx.voc, ctx.waivers, today) && Coherent(ctx.voc)
    modifies joined`conflicts
    ensures ok <==> AllDecided(ctx, base, joined.head, joined.rows)
    ensures ok ==> Judged(ctx, base, joined.head, joined.rows, joined.head.Keys, changes, used, joined.conflicts)
  {
    var head := joined.head;
    changes, used := map[], {};
    var rest := head.Keys;
    ghost var done: set<Coordinates> := {};
    while rest != {}
      invariant rest !! done && rest + done == head.Keys
      invariant Judged(ctx, base, head, joined.rows, done, changes, used, joined.conflicts)
    {
      var x :| x in rest;
      if Unchanged(base, x, head[x], joined.required) {
        JudgedSkip(ctx, base, head, joined.rows, done, changes, used, joined.conflicts, x);
      } else {
        ghost var conflicts0 := joined.conflicts;
        var verdict := joined.Judge(x, head[x].license, today);
        if verdict.None? {
          assert x in Assessed(ctx, base, head, joined.rows);
          return false, map[], {};
        }
        JudgedStep(ctx, base, head, joined.rows, done, changes, used, conflicts0, x, verdict.value);
        changes, used := changes[x := verdict.value], used + verdict.value.exceptions;
      }
      rest, done := rest - {x}, done + {x};
    }
    JudgedDecides(ctx, base, head, joined.rows, changes, used, joined.conflicts);
    assert done == head.Keys;
    ok := true;
  }

  lemma JudgedSkip(ctx: Context, base: Inventory, head: Inventory, entries: Entries, done: set<Coordinates>,
                   changes: map<Coordinates, Verdict>, used: set<string>, conflicts: set<Coordinates>, x: Coordinates)
    requires Judged(ctx, base, head, entries, done, changes, used, conflicts)
    requires x in head && x !in Assessed(ctx, base, head, entries)
    ensures Judged(ctx, base, head, entries, done + {x}, changes, used, conflicts)
  {
  }

  lemma JudgedDecides(ctx: Context, base: Inventory, head: Inventory, entries: Entries,
                      changes: map<Coordinates, Verdict>, used: set<string>, conflicts: set<Coordinates>)
    ensures Judged(ctx, base, head, entries, head.Keys, changes, used, conflicts) ==> AllDecided(ctx, base, head, entries)
  {
  }

  lemma JudgedStep(ctx: Context, base: Inventory, head: Inventory, entries: Entries, done: set<Coordinates>,
                   changes: map<Coordinates, Verdict>, used: set<string>, conflicts: set<Coordinates>,
                   x: Coordinates, verdict: Verdict)
    requires Judged(ctx, base, head, entries, done, changes, used, conflicts)
    requires x in Assessed(ctx, base, head, entries) && x !in done
    requires VerdictOn(ctx, head, entries, x, head[x].license) == Some(verdict)
    ensures Judged(ctx, base, head, entries, done + {x}, changes[x := verdict], used + verdict.exceptions,
                   conflicts + (if Conflicts(ctx, entries, x, head[x].license) then {ctx.normal(x)} else {}))
  {
    UsedByStep(changes, x, verdict);
    ConflictsStep(ctx, head, entries, changes.Keys, x);
    assert changes[x := verdict].Keys == changes.Keys + {x};
  }

  /** What the finished loop says about the decision. */
  lemma JudgedAll(ctx: Context, base: Inventory, head: Inventory, entries: Entries, changes: map<Coordinates, Verdict>,
                  used: set<string>, conflicts: set<Coordinates>)
    requires Judged(ctx, base, head, entries, head.Keys, changes, used, conflicts)
    requires AllDecided(ctx, base, head, entries)
    ensures changes.Keys == Assessed(ctx, base, head, entries)
    ensures used == WaiversUsed(ctx, base, head, entries)
    ensures conflicts == {} && (forall x | x in changes :: changes[x].passed) <==>
            forall x | x in Assessed(ctx, base, head, entries) :: ComponentAdmitted(ctx, head, entries, x)
  {
    assert head.Keys * Assessed(ctx, base, head, entries) == Assessed(ctx, base, head, entries);
    UsedAll(ctx, base, head, entries, changes);
    if conflicts == {} {
      forall x | x in changes ensures !Conflicts(ctx, entries, x, head[x].license) {
        assert ctx.normal(x) !in ConflictsAmong(ctx, head, entries, changes.Keys);
      }
    }
  }

  lemma UsedAll(ctx: Context, base: Inventory, head: Inventory, entries: Entries, changes: map<Coordinates, Verdict>)
    requires changes.Keys == Assessed(ctx, base, head, entries)
    requires forall x | x in changes :: VerdictOn(ctx, head, entries, x, head[x].license) == Some(changes[x])
    ensures UsedBy(changes) == WaiversUsed(ctx, base, head, entries)
  {
    forall id | id in UsedBy(changes) ensures id in WaiversUsed(ctx, base, head, entries) {
      var x :| x in changes && id in changes[x].exceptions;
      assert x in Assessed(ctx, base, head, entries);
    }
    forall id | id in WaiversUsed(ctx, base, head, entries) ensures id in UsedBy(changes) {
      var x :| x in Assessed(ctx, base, head, entries) && VerdictOn(ctx, head, entries, x, head[x].license).Some?
               && id in VerdictOn(ctx, head, entries, x, head[x].license).value.exceptions;
      assert x in changes;
    }
  }
}

/** `assess_component`: one component against the waivers in force. */
module Assessment {
  import opened Ordering
  import opened Text
  import opened Policy

  datatype Severity = Low | Moderate | High | Critical | Unknown

  /** The table `SEVERITIES`. */
  function Rank(s: Severity): (n: nat)
    ensures n < 5 && [Low, Moderate, High, Critical, Unknown][n] == s
  {
    match s
    case Low => 0
    case Moderate => 1
    case High => 2
    case Critical => 3
    case Unknown => 4
  }

  predicate Blocks(s: Severity) {
    s.High? || s.Critical? || s.Unknown?
  }

  datatype Finding = Finding(id: string, severity: Severity)

  datatype Component = Component(coordinates: Coordinates, license: Option<string>, findings: seq<Finding>)

  datatype Violation = UnknownLicense | DisallowedLicense | BlockedVulnerability | CoverageUnknown | LicenseConflict

  datatype Verdict = Verdict(passed: bool, violations: seq<Violation>, exceptions: set<string>)

  // ---------------------------------------------------------------- what is assessable

  predicate DistinctFindings(findings: seq<Finding>) {
    forall i, j | 0 <= i < j < |findings| :: findings[i].id != findings[j].id
  }

  predicate LicenseReadable(voc: Vocabulary, license: Option<string>) {
    license.None? || voc.parses(license.value)
  }

  predicate FindingsValid(voc: Vocabulary, findings: seq<Finding>) {
    |findings| <= MAX_FINDINGS && DistinctFindings(findings)
    && forall i | 0 <= i < |findings| :: voc.isAdvisory(findings[i].id)
  }

  /** `_component`. */
  predicate ComponentValid(voc: Vocabulary, c: Component) {
    voc.isCoordinates(c.coordinates) && LicenseReadable(voc, c.license) && FindingsValid(voc, c.findings)
  }

  // ---------------------------------------------------------------- what passes

  predicate Matches(w: Waiver, target: Coordinates, kind: Kind, value: string) {
    w.target == target && w.kind == kind && w.value == value
  }

  /** Some waiver in force covers the violation. */
  predicate Excepted(waivers: seq<Waiver>, target: Coordinates, kind: Kind, value: string) {
    exists w | w in waivers :: Matches(w, target, kind, value)
  }

  predicate LicenseUnknown(voc: Vocabulary, license: Option<string>) {
    license.None? || voc.isUnknown(license.value)
  }

  /** The value a licence waiver must carry for this licence. */
  function LicenseTarget(voc: Vocabulary, license: Option<string>): string {
    if LicenseUnknown(voc, license) then "NOASSERTION" else license.value
  }

  predicate LicensePasses(voc: Vocabulary, waivers: seq<Waiver>, at: Coordinates, license: Option<string>) {
    voc.verdict(license) == Some(true) || Excepted(waivers, at, ForLicense, LicenseTarget(voc, license))
  }

  predicate FindingPasses(waivers: seq<Waiver>, at: Coordinates, f: Finding) {
    Blocks(f.severity) ==> Excepted(waivers, at, ForVulnerability, f.id)
  }

  /** The decision the policy promises: an allowed or waived licence, and every blocking finding waived. */
  predicate Passes(voc: Vocabulary, waivers: seq<Waiver>, c: Component) {
    && LicensePasses(voc, waivers, c.coordinates, c.license)
    && forall f | f in c.findings :: FindingPasses(waivers, c.coordinates, f)
  }

  /** The identifiers of the waivers that cover one violation. */
  function MatchedIds(waivers: seq<Waiver>, at: Coordinates, kind: Kind, value: string): set<string> {
    set w | w in waivers && Matches(w, at, kind, value) :: w.id
  }

  lemma MatchedMeaning(waivers: seq<Waiver>, at: Coordinates, kind: Kind, value: string)
    ensures MatchedIds(waivers, at, kind, value) != {} <==> Excepted(waivers, at, kind, value)
  {
    if w :| w in waivers && Matches(w, at, kind, value) {
      assert w.id in MatchedIds(waivers, at, kind, value);
    }
  }

  function LicenseViolations(voc: Vocabulary, waivers: seq<Waiver>, c: Component): seq<Violation> {
    if LicensePasses(voc, waivers, c.coordinates, c.license) then []
    else [if LicenseUnknown(voc, c.license) then UnknownLicense else DisallowedLicense]
  }

  function LicenseWaivers(voc: Vocabulary, waivers: seq<Waiver>, c: Component): set<string> {
    if voc.verdict(c.license) == Some(true) then {}
    else MatchedIds(waivers, c.coordinates, ForLicense, LicenseTarget(voc, c.license))
  }

  /** One violation per blocking finding that no waiver covers. */
  function FindingViolations(waivers: seq<Waiver>, at: Coordinates, findings: seq<Finding>): seq<Violation> {
    if findings == [] then []
    else
      var n := |findings| - 1;
      FindingViolations(waivers, at, findings[..n])
      + (if FindingPasses(waivers, at, findings[n]) then [] else [BlockedVulnerability])
  }

  function FindingWaivers(waivers: seq<Waiver>, at: Coordinates, findings: seq<Finding>): set<string> {
    set f, id | f in findings && Blocks(f.severity) && id in MatchedIds(waivers, at, ForVulnerability, f.id) :: id
  }

  lemma {:induction false} NoFindingViolations(waivers: seq<Waiver>, at: Coordinates, findings: seq<Finding>)
    ensures FindingViolations(waivers, at, findings) == [] <==> forall f | f in findings :: FindingPasses(waivers, at, f)
  {
    if findings != [] {
      var n := |findings| - 1;
      NoFindingViolations(waivers, at, findings[..n]);
      assert findings == findings[..n] + [findings[n]];
      assert findings[n] in findings;
    }
  }

  function Assess(voc: Vocabulary, waivers: seq<Waiver>, c: Component): Verdict {
    var violations := LicenseViolations(voc, waivers, c) + FindingViolations(waivers, c.coordinates, c.findings);
    Verdict(violations == [], violations,
            LicenseWaivers(voc, waivers, c) + FindingWaivers(waivers, c.coordinates, c.findings))
  }

  // ---------------------------------------------------------------- the decision written out

  /** Some waiver for these coordinates names the advisory. */
  predicate AdvisoryWaived(waivers: seq<Waiver>, at: Coordinates, id: string) {
    exists w | w in waivers :: w.target == at && w.kind == ForVulnerability && w.value == id
  }

  /** A high, critical or unknown finding is waived; a low or moderate one need not be. */
  predicate Tolerated(waivers: seq<Waiver>, at: Coordinates, f: Finding) {
    f.severity == High || f.severity == Critical || f.severity == Unknown ==> AdvisoryWaived(waivers, at, f.id)
  }

  /** The licence is allowed, or some waiver for these coordinates names it; one that is missing or unknown goes by the
      name NOASSERTION. */
  predicate LicenseFine(voc: Vocabulary, waivers: seq<Waiver>, at: Coordinates, license: Option<string>) {
    || voc.verdict(license) == Some(true)
    || exists w | w in waivers ::
         && w.target == at && w.kind == ForLicense
         && w.value == if license.None? || voc.isUnknown(license.value) then "NOASSERTION" else license.value
  }

  lemma ToleratedMeaning(waivers: seq<Waiver>, at: Coordinates, f: Finding)
    ensures FindingPasses(waivers, at, f) <==> Tolerated(waivers, at, f)
  {
    forall w | w in waivers ensures Matches(w, at, ForVulnerability, f.id) <==>
        w.target == at && w.kind == ForVulnerability && w.value == f.id
    {
    }
  }

  lemma LicenseFineMeaning(voc: Vocabulary, waivers: seq<Waiver>, at: Coordinates, license: Option<string>)
    ensures LicensePasses(voc, waivers, at, license) <==> LicenseFine(voc, waivers, at, license)
  {
    var value := LicenseTarget(voc, license);
    forall w | w in waivers ensures Matches(w, at, ForLicense, value) <==>
        w.target == at && w.kind == ForLicense && w.value == value
    {
    }
  }

  /** A component passes exactly when its licence is fine and each of its findings is low, moderate or waived. */
  lemma AssessMeaning(voc: Vocabulary, waivers: seq<Waiver>, c: Component)
    ensures Assess(voc, waivers, c).passed <==> Passes(voc, waivers, c)
    ensures Assess(voc, waivers, c).passed <==>
            && LicenseFine(voc, waivers, c.coordinates, c.license)
            && forall f | f in c.findings :: Tolerated(waivers, c.coordinates, f)
  {
    NoFindingViolations(waivers, c.coordinates, c.findings);
    LicenseFineMeaning(voc, waivers, c.coordinates, c.license);
    forall f | f in c.findings ensures FindingPasses(waivers, c.coordinates, f) <==> Tolerated(waivers, c.coordinates, f) {
      ToleratedMeaning(waivers, c.coordinates, f);
    }
  }

  /** Without a high, critical or unknown finding the licence alone decides. */
  lemma LicenseAloneDecides(voc: Vocabulary, waivers: seq<Waiver>, c: Component)
    requires forall f | f in c.findings :: f.severity == Low || f.severity == Moderate
    ensures Assess(voc, waivers, c).passed <==> LicenseFine(voc, waivers, c.coordinates, c.license)
  {
    AssessMeaning(voc, waivers, c);
  }

  /** How many findings are high, critical or unknown and not waived. */
  function Untolerated(waivers: seq<Waiver>, at: Coordinates, findings: seq<Finding>): nat {
    if findings == [] then 0
    else
      var n := |findings| - 1;
      Untolerated(waivers, at, findings[..n]) + if Tolerated(waivers, at, findings[n]) then 0 else 1
  }

  /** The violation of a licence that is not fine. */
  function LicenseViolation(voc: Vocabulary, license: Option<string>): Violation {
    if license.None? || voc.isUnknown(license.value) then UnknownLicense else DisallowedLicense
  }

  lemma {:induction false} ViolationCount(waivers: seq<Waiver>, at: Coordinates, findings: seq<Finding>)
    ensures FindingViolations(waivers, at, findings) ==
            seq(Untolerated(waivers, at, findings), _ => BlockedVulnerability)
  {
    if findings != [] {
      var n := |findings| - 1;
      ViolationCount(waivers, at, findings[..n]);
      ToleratedMeaning(waivers, at, findings[n]);
    }
  }

  /** Why a waiver counts as used: the licence is not allowed by itself and the waiver names it, or it names a finding
      that is high, critical or unknown. */
  predicate Uses(voc: Vocabulary, c: Component, w: Waiver) {
    && w.target == c.coordinates
    && match w.kind
       case ForLicense =>
         && voc.verdict(c.license) != Some(true)
         && w.value == (if c.license.None? || voc.isUnknown(c.license.value) then "NOASSERTION" else c.license.value)
       case ForVulnerability =>
         exists f | f in c.findings ::
           f.id == w.value && (f.severity == High || f.severity == Critical || f.severity == Unknown)
  }

  /** What a verdict reports: at most one violation for the licence, then one for each finding that is not tolerated, and
      the waivers used, each of them needed for something. */
  lemma AssessReports(voc: Vocabulary, waivers: seq<Waiver>, c: Component)
    ensures Assess(voc, waivers, c).violations ==
            (if LicenseFine(voc, waivers, c.coordinates, c.license) then [] else [LicenseViolation(voc, c.license)])
            + seq(Untolerated(waivers, c.coordinates, c.findings), _ => BlockedVulnerability)
    ensures forall id :: id in Assess(voc, waivers, c).exceptions <==>
              exists w | w in waivers :: Uses(voc, c, w) && w.id == id
  {
    ViolationCount(waivers, c.coordinates, c.findings);
    LicenseFineMeaning(voc, waivers, c.coordinates, c.license);
    var used := Assess(voc, waivers, c).exceptions;
    forall id ensures id in used <==> exists w | w in waivers :: Uses(voc, c, w) && w.id == id {
      UsedMeaning(voc, waivers, c, id);
    }
  }

  lemma UsedMeaning(voc: Vocabulary, waivers: seq<Waiver>, c: Component, id: string)
    ensures id in LicenseWaivers(voc, waivers, c) + FindingWaivers(waivers, c.coordinates, c.findings) <==>
            exists w | w in waivers :: Uses(voc, c, w) && w.id == id
  {
    if id in LicenseWaivers(voc, waivers, c) {
      var w :| w in waivers && Matches(w, c.coordinates, ForLicense, LicenseTarget(voc, c.license)) && w.id == id;
      assert Uses(voc, c, w);
    }
    if id in FindingWaivers(waivers, c.coordinates, c.findings) {
      var f :| f in c.findings && Blocks(f.severity) && id in MatchedIds(waivers, c.coordinates, ForVulnerability, f.id);
      var w :| w in waivers && Matches(w, c.coordinates, ForVulnerability, f.id) && w.id == id;
      assert Uses(voc, c, w);
    }
    if w :| w in waivers && Uses(voc, c, w) && w.id == id {
      if w.kind == ForLicense {
        assert id in LicenseWaivers(voc, waivers, c);
      } else {
        var f :| f in c.findings && f.id == w.value && Blocks(f.severity);
        assert id in MatchedIds(waivers, c.coordinates, ForVulnerability, f.id);
      }
    }
  }

  /** The nested function `excepted`. */
  method FindWaivers(waivers: seq<Waiver>, at: Coordinates, kind: Kind, value: string) returns (matches: set<string>)
    ensures matches == MatchedIds(waivers, at, kind, value)
    ensures matches != {} <==> Excepted(waivers, at, kind, value)
  {
    matches := {};
    for i := 0 to |waivers|
      invariant matches == MatchedIds(waivers[..i], at, kind, value)
    {
      PrefixStep(waivers, i);
      assert forall w :: w in waivers[..i + 1] <==> w in waivers[..i] || w == waivers[i];
      if Matches(waivers[i], at, kind, value) {
        matches := matches + {waivers[i].id};
      }
    }
    assert waivers[..|waivers|] == waivers;
    MatchedMeaning(waivers, at, kind, value);
  }

  lemma FindingStep(waivers: seq<Waiver>, at: Coordinates, findings: seq<Finding>, i: nat)
    requires i < |findings|
    ensures FindingViolations(waivers, at, findings[..i + 1]) == FindingViolations(waivers, at, findings[..i])
            + (if FindingPasses(waivers, at, findings[i]) then [] else [BlockedVulnerability])
    ensures FindingWaivers(waivers, at, findings[..i + 1]) == FindingWaivers(waivers, at, findings[..i])
            + (if Blocks(findings[i].severity) then MatchedIds(waivers, at, ForVulnerability, findings[i].id) else {})
  {
    PrefixStep(findings, i);
    assert findings[..i + 1][..i] == findings[..i];
    assert forall f :: f in findings[..i + 1] <==> f in findings[..i] || f == findings[i];
  }

  /** The licence of a component: its violation, if any, and the waivers used. */
  method AssessLicense(voc: Vocabulary, waivers: seq<Waiver>, c: Component)
    returns (violations: seq<Violation>, matched: set<string>)
    requires Coherent(voc) && ComponentValid(voc, c)
    ensures violations == LicenseViolations(voc, waivers, c) && matched == LicenseWaivers(voc, waivers, c)
  {
    violations, matched := [], {};
    if voc.verdict(c.license) != Some(true) {
      matched := FindWaivers(waivers, c.coordinates, ForLicense, LicenseTarget(voc, c.license));
      if matched == {} {
        violations := [if LicenseUnknown(voc, c.license) then UnknownLicense else DisallowedLicense];
      }
    }
  }

  /** Its findings, added one by one. */
  method AssessFindings(waivers: seq<Waiver>, at: Coordinates, findings: seq<Finding>)
    returns (violations: seq<Violation>, matched: set<string>)
    ensures violations == FindingViolations(waivers, at, findings) && matched == FindingWaivers(waivers, at, findings)
  {
    violations, matched := [], {};
    for i := 0 to |findings|
      invariant violations == FindingViolations(waivers, at, findings[..i])
      invariant matched == FindingWaivers(waivers, at, findings[..i])
    {
      FindingStep(waivers, at, findings, i);
      if Blocks(findings[i].severity) {
        var waived := FindWaivers(waivers, at, ForVulnerability, findings[i].id);
        matched := matched + waived;
        if waived == {} {
          violations := violations + [BlockedVulnerability];
        }
      }
    }
    assert findings[..|findings|] == findings;
  }

  /** `assess_component(component, rules, today)`. The verdict holds the waivers used as a set. */
  method AssessComponent(voc: Vocabulary, waivers: seq<Waiver>, c: Component, today: int) returns (r: Option<Verdict>)
    requires Coherent(voc)
    ensures r.Some? <==> PolicyValid(voc, waivers, today) && ComponentValid(voc, c)
    ensures r.Some? ==> r.value == Assess(voc, waivers, c)
    ensures r.Some? ==>
              (r.value.passed <==>
               && LicenseFine(voc, waivers, c.coordinates, c.license)
               && forall f | f in c.findings :: Tolerated(waivers, c.coordinates, f))
  {
    var ok := ValidatePolicy(voc, waivers, today);
    if !ok || !ComponentValid(voc, c) {
      return None;
    }
    var violations, matched := AssessLicense(voc, waivers, c);
    var found, waived := AssessFindings(waivers, c.coordinates, c.findings);
    violations, matched := violations + found, matched + waived;
    AssessMeaning(voc, waivers, c);
    return Some(Verdict(violations == [], violations, matched));
  }

  // ---------------------------------------------------------------- time

  /** A component that passes under the waivers in force on a later day passes on every earlier day: the passage of
      time alone only withdraws permissions. Of a well-kept list the earlier day reaches that verdict exactly where no
      waiver then in force was reviewed after it, and the later day does wherever the earlier one did. */
  lemma PassesEarlier(voc: Vocabulary, rows: seq<Waiver>, c: Component, day: int, later: int)
    requires day <= later && Passes(voc, Active(rows, later), c)
    ensures Passes(voc, Active(rows, day), c) && Assess(voc, Active(rows, day), c).passed
    ensures WellKept(voc, rows) ==>
              (PolicyValid(voc, Active(rows, day), day) <==> forall w | w in rows && w.expires > day :: w.reviewed <= day)
    ensures WellKept(voc, rows) && PolicyValid(voc, Active(rows, day), day) ==> PolicyValid(voc, Active(rows, later), later)
  {
    BaseAcceptsMeaning(voc, rows, day);
    if BaseAccepts(voc, rows, day) {
      AcceptedLater(voc, rows, day, later);
    }
    AssessMeaning(voc, Active(rows, day), c);
    forall w | w in Active(rows, later) ensures w in Active(rows, day) {
      ActiveMembers(rows, later, w);
      ActiveMembers(rows, day, w);
    }
  }

  // ---------------------------------------------------------------- joining two sets of findings

  type Findings = map<string, Severity>

  function Worse(a: Severity, b: Severity): Severity {
    if Rank(b) > Rank(a) then b else a
  }

  /** Two sources of findings joined by identifier, keeping the more severe of the two. */
  function Merge(a: Findings, b: Findings): Findings {
    map id | id in a.Keys + b.Keys ::
      if id !in b then a[id] else if id !in a then b[id] else Worse(a[id], b[id])
  }

  function WithIds(m: Findings, ids: seq<string>): (r: seq<Finding>)
    requires forall i | 0 <= i < |ids| :: ids[i] in m
    ensures |r| == |ids| && forall i | 0 <= i < |ids| :: r[i] == Finding(ids[i], m[ids[i]])
  {
    seq(|ids|, i requires 0 <= i < |ids| => Finding(ids[i], m[ids[i]]))
  }

  lemma WithIdsHolds(m: Findings, ids: seq<string>)
    requires (forall i | 0 <= i < |ids| :: ids[i] in m) && forall id | id in m :: id in ids
    ensures forall f: Finding :: f in WithIds(m, ids) <==> f.id in m && m[f.id] == f.severity
  {
    var r := WithIds(m, ids);
    forall f: Finding | f.id in m && m[f.id] == f.severity ensures f in r {
      var i :| 0 <= i < |ids| && ids[i] == f.id;
      assert r[i] == f;
    }
  }

  /** The findings as the list the report carries, in order of identifier. */
  function Listed(m: Findings): (r: seq<Finding>)
    ensures |r| == |m| && DistinctFindings(r)
    ensures forall f: Finding :: f in r <==> f.id in m && m[f.id] == f.severity
  {
    SortedList(m.Keys);
    WithIdsHolds(m, Sorted(m.Keys));
    WithIds(m, Sorted(m.Keys))
  }

  lemma SortedList(s: set<string>)
    ensures |Sorted(s)| == |s| && (forall i | 0 <= i < |Sorted(s)| :: Sorted(s)[i] in s) && Distinct(Sorted(s))
    ensures forall x | x in s :: x in Sorted(s)
  {
    var r := Sorted(s);
    AscendingByDistinct(r, Codes);
    assert forall x :: x in r <==> x in Elements(r);
    DistinctSize(r);
  }

  lemma {:induction false} DistinctSize(r: seq<string>)
    requires Distinct(r)
    ensures |Elements(r)| == |r|
  {
    if r != [] {
      var n := |r| - 1;
      DistinctSize(r[..n]);
      assert Elements(r) == Elements(r[..n]) + {r[n]};
    }
  }

  lemma WorseBlocks(a: Severity, b: Severity)
    ensures Blocks(Worse(a, b)) <==> Blocks(a) || Blocks(b)
    ensures Rank(Worse(a, b)) >= Rank(a) && Rank(Worse(a, b)) >= Rank(b)
  {
  }

  /** Joining is a homomorphism for admission: the joined findings pass exactly when each source passes, so
      provider evidence can only block. */
  lemma JoinHomomorphism(voc: Vocabulary, waivers: seq<Waiver>, at: Coordinates, license: Option<string>,
                         a: Findings, b: Findings)
    ensures Passes(voc, waivers, Component(at, license, Listed(Merge(a, b)))) <==>
            && Passes(voc, waivers, Component(at, license, Listed(a)))
            && Passes(voc, waivers, Component(at, license, Listed(b)))
    ensures ComponentValid(voc, Component(at, license, Listed(Merge(a, b)))) ==>
              ComponentValid(voc, Component(at, license, Listed(a))) && ComponentValid(voc, Component(at, license, Listed(b)))
  {
    if FindingsValid(voc, Listed(Merge(a, b))) {
      MergeValid(voc, a, Merge(a, b));
      MergeValid(voc, b, Merge(a, b));
    }
    ListedPasses(waivers, at, a);
    ListedPasses(waivers, at, b);
    ListedPasses(waivers, at, Merge(a, b));
    MergePasses(waivers, at, a, b);
  }

  /** Every blocking entry is waived. */
  predicate AllWaived(waivers: seq<Waiver>, at: Coordinates, m: Findings) {
    forall id | id in m :: Blocks(m[id]) ==> Excepted(waivers, at, ForVulnerability, id)
  }

  lemma ListedPasses(waivers: seq<Waiver>, at: Coordinates, m: Findings)
    ensures (forall f | f in Listed(m) :: FindingPasses(waivers, at, f)) <==> AllWaived(waivers, at, m)
  {
    if forall f | f in Listed(m) :: FindingPasses(waivers, at, f) {
      forall id | id in m && Blocks(m[id]) ensures Excepted(waivers, at, ForVulnerability, id) {
        assert Finding(id, m[id]) in Listed(m);
        assert FindingPasses(waivers, at, Finding(id, m[id]));
      }
    }
  }

  lemma MergeValid(voc: Vocabulary, part: Findings, whole: Findings)
    requires part.Keys <= whole.Keys && FindingsValid(voc, Listed(whole))
    ensures FindingsValid(voc, Listed(part))
  {
    CardinalityMonotone(part.Keys, whole.Keys);
    assert |part| == |part.Keys| && |whole| == |whole.Keys|;
    forall i | 0 <= i < |Listed(part)| ensures voc.isAdvisory(Listed(part)[i].id) {
      var id := Listed(part)[i].id;
      assert Listed(part)[i] in Listed(part);
      assert Finding(id, whole[id]) in Listed(whole);
    }
  }

  lemma MergePasses(waivers: seq<Waiver>, at: Coordinates, a: Findings, b: Findings)
    ensures AllWaived(waivers, at, Merge(a, b)) <==> AllWaived(waivers, at, a) && AllWaived(waivers, at, b)
  {
    var m := Merge(a, b);
    forall id | id in m ensures Blocks(m[id]) <==> (id in a && Blocks(a[id])) || (id in b && Blocks(b[id])) {
      if id in a && id in b {
        WorseBlocks(a[id], b[id]);
      }
    }
  }
}

/** `normalize` and `Client.observe_query`: a paged, all-or-nothing observation of advisories. */
module Advisories {
  import opened Ordering
  import opened Text
  import opened Assessment
  import opened Policy

  const MAX_PAGES := 8
  const MAX_FINDINGS := 128
  const MAX_AFFECTED := 512
  const MAX_ALIASES := 128

  // ---------------------------------------------------------------- one record

  /** A `severity` entry of a record: missing, of another type, or text. */
  datatype Label = Absent | NotText | Given(text: string)

  /** One affected row: whether it names the requested package, and its two severity entries. */
  datatype Affected = Affected(matches: bool, database: Label, ecosystem: Label)

  /** A provider record. `Malformed` fails its type, identifier or timestamp checks. */
  datatype Record =
    | Malformed
    | Withdrawn(source: string)
    | Advisory(source: string, aliases: seq<string>, affected: seq<Affected>, database: Label)

  /** A normalised record: the source identifier with its finding, none for a withdrawn one. */
  datatype Normalized = Normalized(source: string, finding: Option<Finding>)

  /** The severity that an entry names; any other text, and what is not text, stands for an unknown one. */
  function ReadSeverity(entry: Label): (severity: Severity)
    ensures severity == Low <==> entry.Given? && Lower(entry.text) == "low"
    ensures severity == Moderate <==> entry.Given? && Lower(entry.text) in {"moderate", "medium"}
    ensures severity == High <==> entry.Given? && Lower(entry.text) == "high"
    ensures severity == Critical <==> entry.Given? && Lower(entry.text) == "critical"
  {
    if !entry.Given? then Unknown
    else
      var text := Lower(entry.text);
      if text == "medium" || text == "moderate" then Moderate
      else if text == "low" then Low
      else if text == "high" then High
      else if text == "critical" then Critical
      else Unknown
  }

  function LabelsOf(affected: seq<Affected>): seq<Label> {
    if affected == [] then []
    else
      var row := affected[0];
      (if row.matches then [row.database, row.ecosystem] else []) + LabelsOf(affected[1..])
  }

  function Present(labels: seq<Label>): set<Severity> {
    set l | l in labels && !l.Absent? :: ReadSeverity(l)
  }

  function MaxSeverity(s: set<Severity>): Severity {
    if Unknown in s || s == {} then Unknown
    else if Critical in s then Critical
    else if High in s then High
    else if Moderate in s then Moderate
    else Low
  }

  /** The severity chosen is the greatest of the labels given, and unknown where no label is given. */
  lemma MaxSeverityMeaning(s: set<Severity>)
    ensures s == {} ==> MaxSeverity(s) == Unknown
    ensures s != {} ==> MaxSeverity(s) in s && forall x | x in s :: Rank(x) <= Rank(MaxSeverity(s))
  {
    if s != {} {
      var x :| x in s;
      assert x.Low? || x.Moderate? || x.High? || x.Critical? || x.Unknown?;
    }
  }

  function Class(id: string): int {
    if StartsWith(id, "GHSA-") then 0 else if StartsWith(id, "GO-") then 1 else 2
  }

  /** The key `min` compares identifiers by: GitHub's first, then Go's, then the rest. */
  function IdKey(id: string): seq<int> {
    [Class(id)] + Codes(id)
  }

  lemma IdKeysDiffer(ids: set<string>)
    ensures KeysDiffer(ids, IdKey)
  {
    forall x, y | x in ids && y in ids && IdKey(x) == IdKey(y) ensures x == y {
      assert Codes(x) == IdKey(x)[1..] && Codes(y) == IdKey(y)[1..];
      CodesInjective(x, y);
    }
  }

  function Candidates(isAdvisory: string -> bool, record: Record): set<string>
    requires record.Advisory?
  {
    set id | id in [record.source] + record.aliases && isAdvisory(id)
  }

  predicate NamesPackage(record: Record)
    requires record.Advisory?
  {
    exists i | 0 <= i < |record.affected| :: record.affected[i].matches
  }

  /** `normalize`; `None` where the source raises. */
  function Normalize(isAdvisory: string -> bool, record: Record): (r: Option<Normalized>)
    ensures r.Some? && r.value.finding.Some? ==>
              record.Advisory? && IsLeastBy(r.value.finding.value.id, Candidates(isAdvisory, record), IdKey)
  {
    match record
    case Malformed => None
    case Withdrawn(source) => Some(Normalized(source, Option.None))
    case Advisory(source, aliases, affected, database) =>
      var candidates := Candidates(isAdvisory, record);
      if |aliases| > MAX_ALIASES || candidates == {} || !(0 < |affected| <= MAX_AFFECTED) || !NamesPackage(record) then None
      else
        IdKeysDiffer(candidates);
        var severity := MaxSeverity(Present([database] + LabelsOf(affected)));
        Some(Normalized(source, Some(Finding(LeastBy(candidates, IdKey), severity))))
  }

  /** A severity entry that counts: the record's own, or one of a row that names the package. */
  ghost predicate Labels(record: Record, entry: Label)
    requires record.Advisory?
  {
    || entry == record.database
    || exists i | 0 <= i < |record.affected| :: RowLabels(record.affected[i], entry)
  }

  predicate RowLabels(row: Affected, entry: Label) {
    row.matches && (entry == row.database || entry == row.ecosystem)
  }

  lemma {:induction false} LabelsOfMeaning(affected: seq<Affected>, entry: Label)
    ensures entry in LabelsOf(affected) <==> exists i | 0 <= i < |affected| :: RowLabels(affected[i], entry)
  {
    if affected != [] {
      var rest := affected[1..];
      LabelsOfMeaning(rest, entry);
      assert forall i | 0 <= i < |rest| :: rest[i] == affected[i + 1];
      assert forall i | 0 < i < |affected| :: affected[i] == rest[i - 1];
      assert entry in LabelsOf(affected) <==> RowLabels(affected[0], entry) || entry in LabelsOf(rest);
    }
  }

  /** The severity of a finding: at least that of every entry that counts, and that of one of them, or unknown where
      there is none. */
  ghost predicate IsSeverityOf(record: Record, severity: Severity)
    requires record.Advisory?
  {
    && (forall entry :: Labels(record, entry) && !entry.Absent? ==> Rank(ReadSeverity(entry)) <= Rank(severity))
    && ((exists entry :: Labels(record, entry) && !entry.Absent? && ReadSeverity(entry) == severity)
        || (severity.Unknown? && forall entry :: Labels(record, entry) ==> entry.Absent?))
  }

  lemma ChosenSeverity(record: Record)
    requires record.Advisory?
    ensures IsSeverityOf(record, MaxSeverity(Present([record.database] + LabelsOf(record.affected))))
  {
    var entries := [record.database] + LabelsOf(record.affected);
    var present := Present(entries);
    forall entry ensures entry in entries <==> Labels(record, entry) {
      LabelsOfMeaning(record.affected, entry);
    }
    MaxSeverityMeaning(present);
    forall entry | Labels(record, entry) && !entry.Absent?
      ensures Rank(ReadSeverity(entry)) <= Rank(MaxSeverity(present))
    {
      assert ReadSeverity(entry) in present;
    }
    if present != {} {
      var entry :| entry in entries && !entry.Absent? && ReadSeverity(entry) == MaxSeverity(present);
      assert Labels(record, entry);
    } else {
      forall entry | Labels(record, entry) ensures entry.Absent? {
        assert !entry.Absent? ==> ReadSeverity(entry) in present;
      }
    }
  }

  /** What a record must be like: within the limits, with some advisory identifier, about the requested package. */
  predicate Usable(isAdvisory: string -> bool, record: Record)
    requires record.Advisory?
  {
    && |record.aliases| <= MAX_ALIASES && 0 < |record.affected| <= MAX_AFFECTED && NamesPackage(record)
    && exists id | id in [record.source] + record.aliases :: isAdvisory(id)
  }

  /** A record is refused exactly where it is malformed or not usable; a withdrawn one has no finding; any other has the
      first of its advisory identifiers and its greatest severity. */
  lemma NormalizeMeaning(isAdvisory: string -> bool, record: Record)
    ensures var r := Normalize(isAdvisory, record);
            && (r.None? <==> record.Malformed? || (record.Advisory? && !Usable(isAdvisory, record)))
            && (r.Some? ==> r.value.source == record.source && (r.value.finding.None? <==> record.Withdrawn?))
            && (r.Some? && record.Advisory? ==>
                  && IsLeastBy(r.value.finding.value.id, Candidates(isAdvisory, record), IdKey)
                  && IsSeverityOf(record, r.value.finding.value.severity))
  {
    if record.Advisory? {
      ChosenSeverity(record);
      var candidates := Candidates(isAdvisory, record);
      assert candidates != {} <==> exists id | id in [record.source] + record.aliases :: isAdvisory(id) by {
        if candidates != {} {
          var id :| id in candidates;
        }
        if id :| id in [record.source] + record.aliases && isAdvisory(id) {
          assert id in candidates;
        }
      }
    }
  }

  // ---------------------------------------------------------------- many records

  /** `Normalize` under a fixed request, as the page loop uses it. */
  type Reader = Record -> Option<Normalized>

  predicate AllNormalize(read: Reader, records: seq<Record>) {
    forall i | 0 <= i < |records| :: read(records[i]).Some?
  }

  function Sources(read: Reader, records: seq<Record>): set<string> {
    set i | 0 <= i < |records| && read(records[i]).Some? :: read(records[i]).value.source
  }

  predicate DistinctSources(read: Reader, records: seq<Record>)
    requires AllNormalize(read, records)
  {
    forall i, j | 0 <= i < j < |records| :: read(records[i]).value.source != read(records[j]).value.source
  }

  /** What the loop demands of all the records together. */
  predicate RecordsValid(read: Reader, records: seq<Record>) {
    AllNormalize(read, records) && DistinctSources(read, records) && |records| <= MAX_FINDINGS
  }

  function Keep(m: Findings, f: Finding): Findings {
    if f.id !in m || Rank(f.severity) > Rank(m[f.id]) then m[f.id := f.severity] else m
  }

  function AddRecord(m: Findings, n: Normalized): Findings {
    if n.finding.None? then m else Keep(m, n.finding.value)
  }

  /** The findings after folding the records in order. */
  function Fold(read: Reader, records: seq<Record>): Findings
    requires AllNormalize(read, records)
  {
    if records == [] then map[]
    else
      var n := |records| - 1;
      AddRecord(Fold(read, records[..n]), read(records[n]).value)
  }

  /** GitHub's identifier is taken where there is one, else Go's, else any other; of those the first in order. */
  lemma ChosenBySource(isAdvisory: string -> bool, record: Record)
    requires Normalize(isAdvisory, record).Some? && record.Advisory?
    ensures var id, ids := Normalize(isAdvisory, record).value.finding.value.id, [record.source] + record.aliases;
            && id in ids && isAdvisory(id)
            && forall other | other in ids && isAdvisory(other) && other != id ::
                 || (StartsWith(id, "GHSA-") && (!StartsWith(other, "GHSA-") || Less(id, other)))
                 || (StartsWith(id, "GO-") && !StartsWith(other, "GHSA-") && (!StartsWith(other, "GO-") || Less(id, other)))
                 || (!StartsWith(other, "GHSA-") && !StartsWith(other, "GO-") && Less(id, other))
  {
    var id, candidates := Normalize(isAdvisory, record).value.finding.value.id, Candidates(isAdvisory, record);
    forall other | other in [record.source] + record.aliases && isAdvisory(other) && other != id
      ensures Class(id) < Class(other) || (Class(id) == Class(other) && Less(id, other))
    {
      assert other in candidates;
      assert Before(IdKey(id), IdKey(other));
      assert IdKey(id)[1..] == Codes(id) && IdKey(other)[1..] == Codes(other);
    }
  }

  /** Some record that is not withdrawn reports this finding. */
  ghost predicate Reports(read: Reader, records: seq<Record>, f: Finding)
    requires AllNormalize(read, records)
  {
    exists i | 0 <= i < |records| :: read(records[i]).value.finding == Some(f)
  }

  /** The greatest severity reported for each identifier that is reported at all. */
  ghost predicate IsMaximum(read: Reader, records: seq<Record>, m: Findings)
    requires AllNormalize(read, records)
  {
    && (forall id | id in m :: Reports(read, records, Finding(id, m[id])))
    && (forall f | Reports(read, records, f) :: f.id in m && Rank(f.severity) <= Rank(m[f.id]))
  }

  lemma {:induction false} FoldIsMaximum(read: Reader, records: seq<Record>)
    requires AllNormalize(read, records)
    ensures IsMaximum(read, records, Fold(read, records))
  {
    if records != [] {
      var n := |records| - 1;
      var before := records[..n];
      FoldIsMaximum(read, before);
      ReportsStep(read, records);
    }
  }

  /** Every finding read has an advisory identifier; `Normalize` reads so. */
  ghost predicate ReadsAdvisories(read: Reader, isAdvisory: string -> bool) {
    forall record :: read(record).Some? && read(record).value.finding.Some? ==>
                       isAdvisory(read(record).value.finding.value.id)
  }

  lemma NormalizeReadsAdvisories(isAdvisory: string -> bool)
    ensures ReadsAdvisories(record => Normalize(isAdvisory, record), isAdvisory)
  {
  }

  lemma {:induction false} FoldIsBounded(read: Reader, isAdvisory: string -> bool, records: seq<Record>)
    requires AllNormalize(read, records) && ReadsAdvisories(read, isAdvisory)
    ensures |Fold(read, records)| <= |records| && forall id | id in Fold(read, records) :: isAdvisory(id)
  {
    if records != [] {
      var n := |records| - 1;
      FoldIsBounded(read, isAdvisory, records[..n]);
      var before, next := Fold(read, records[..n]), read(records[n]).value;
      if next.finding.Some? {
        var id := next.finding.value.id;
        assert Fold(read, records).Keys <= before.Keys + {id};
        CardinalityMonotone(Fold(read, records).Keys, before.Keys + {id});
      }
    }
  }

  /** What is observed is always a list of findings that the policy accepts, so that assessing it never fails. */
  lemma ObservedIsAssessable(voc: Vocabulary, read: Reader, records: seq<Record>)
    requires RecordsValid(read, records) && ReadsAdvisories(read, voc.isAdvisory)
    ensures FindingsValid(voc, Listed(Fold(read, records)))
  {
    FoldIsBounded(read, voc.isAdvisory, records);
    var listed := Listed(Fold(read, records));
    forall i | 0 <= i < |listed| ensures voc.isAdvisory(listed[i].id) {
      assert listed[i] in listed;
    }
  }

  lemma ReportsStep(read: Reader, records: seq<Record>)
    requires |records| > 0 && AllNormalize(read, records)
    ensures forall f :: Reports(read, records, f) <==>
                Reports(read, records[..|records| - 1], f) || read(records[|records| - 1]).value.finding == Some(f)
  {
    var n := |records| - 1;
    forall f ensures Reports(read, records, f) <==> Reports(read, records[..n], f) || read(records[n]).value.finding == Some(f) {
      if i :| 0 <= i < |records| && read(records[i]).value.finding == Some(f) {
        assert i < n ==> records[..n][i] == records[i];
      }
      if i :| 0 <= i < n && read(records[..n][i]).value.finding == Some(f) {
        assert records[i] == records[..n][i];
      }
    }
  }

  lemma RankInjective(a: Severity, b: Severity)
    requires Rank(a) == Rank(b)
    ensures a == b
  {
  }

  /** The order of the records does not matter, on one page or across pages. */
  lemma FoldOrderIndependent(read: Reader, one: seq<Record>, two: seq<Record>)
    requires AllNormalize(read, one) && multiset(one) == multiset(two)
    ensures AllNormalize(read, two) && Fold(read, one) == Fold(read, two)
  {
    assert forall r :: r in one <==> r in multiset(one);
    assert forall r :: r in two <==> r in multiset(two);
    forall i | 0 <= i < |two| ensures read(two[i]).Some? {
      assert two[i] in one;
    }
    FoldIsMaximum(read, one);
    FoldIsMaximum(read, two);
    forall f ensures Reports(read, one, f) <==> Reports(read, two, f) {
      if i :| 0 <= i < |one| && read(one[i]).value.finding == Some(f) { assert one[i] in two; }
      if i :| 0 <= i < |two| && read(two[i]).value.finding == Some(f) { assert two[i] in one; }
    }
    MaximumUnique(read, one, two, Fold(read, one), Fold(read, two));
  }

  lemma MaximumUnique(read: Reader, one: seq<Record>, two: seq<Record>, a: Findings, b: Findings)
    requires AllNormalize(read, one) && AllNormalize(read, two)
    requires IsMaximum(read, one, a) && IsMaximum(read, two, b)
    requires forall f :: Reports(read, one, f) <==> Reports(read, two, f)
    ensures a == b
  {
    forall id | id in a ensures id in b && b[id] == a[id] {
      assert Reports(read, two, Finding(id, a[id]));
      assert Reports(read, one, Finding(id, b[id]));
      RankInjective(a[id], b[id]);
    }
    forall id | id in b ensures id in a {
      assert Reports(read, one, Finding(id, b[id]));
    }
  }

  // ---------------------------------------------------------------- many pages

  /** A page of the reply; `next` is its continuation token, empty on the last page. */
  datatype Document = Document(records: seq<Record>, next: string)

  /** The reply to each request in turn; `None` is a failed or malformed one. */
  type Server = nat -> Option<Document>

  predicate ValidToken(token: string) {
    0 < |token| <= 4096 && forall i | 0 <= i < |token| :: 32 < token[i] as int < 127
  }

  predicate AllArrived(server: Server, n: nat) {
    forall k | 0 <= k < n :: server(k).Some?
  }

  function RecordsOf(server: Server, n: nat): seq<Record>
    requires AllArrived(server, n)
  {
    if n == 0 then [] else RecordsOf(server, n - 1) + server(n - 1).value.records
  }

  function Tokens(server: Server, n: nat): set<string>
    requires AllArrived(server, n)
  {
    set k | 0 <= k < n :: server(k).value.next
  }

  /** The first `n` pages arrived, each names a continuation not named before, and their records are acceptable. */
  ghost predicate Continues(server: Server, read: Reader, n: nat) {
    && AllArrived(server, n)
    && (forall k | 0 <= k < n :: ValidToken(server(k).value.next))
    && (forall j, k | 0 <= j < k < n :: server(j).value.next != server(k).value.next)
    && RecordsValid(read, RecordsOf(server, n))
  }

  /** A complete observation: `n` pages, within the page budget, the last one without a continuation. */
  ghost predicate Completes(server: Server, read: Reader, n: nat) {
    && 1 <= n <= MAX_PAGES
    && Continues(server, read, n - 1)
    && server(n - 1).Some? && server(n - 1).value.next == ""
    && RecordsValid(read, RecordsOf(server, n))
  }

  datatype Observation = Unsupported | Unavailable | Observed(findings: seq<Finding>, withdrawn: seq<string>)

  lemma {:induction false} RecordsPrefix(server: Server, m: nat, n: nat)
    requires m <= n && AllArrived(server, n)
    ensures RecordsOf(server, m) <= RecordsOf(server, n)
  {
    if m < n {
      RecordsPrefix(server, m, n - 1);
    }
  }

  lemma ValidPrefix(read: Reader, part: seq<Record>, whole: seq<Record>)
    requires part <= whole && RecordsValid(read, whole)
    ensures RecordsValid(read, part)
  {
    assert forall i | 0 <= i < |part| :: part[i] == whole[i];
  }

  lemma NotYet(server: Server, read: Reader, k: nat, n: nat)
    requires Continues(server, read, k) && 1 <= n <= k
    ensures !Completes(server, read, n)
  {
    assert ValidToken(server(n - 1).value.next);
  }

  /** At most one number of pages completes the observation. */
  lemma CompletesUnique(server: Server, read: Reader, m: nat, n: nat)
    requires Completes(server, read, m) && Completes(server, read, n)
    ensures m == n
  {
  }

  lemma CompletesBeyond(server: Server, read: Reader, k: nat, n: nat)
    requires Continues(server, read, k) && Completes(server, read, n)
    ensures n == k + 1 || (n > k + 1 && Continues(server, read, k + 1))
  {
    if n <= k {
      NotYet(server, read, k, n);
    } else if n > k + 1 {
      ContinuesPrefix(server, read, k + 1, n - 1);
    }
  }

  /** If the pages so far continue but page `k` is unacceptable, nothing completes the observation. */
  lemma NeverCompletes(server: Server, read: Reader, k: nat)
    requires Continues(server, read, k)
    requires server(k).None? || !RecordsValid(read, RecordsOf(server, k + 1))
             || (server(k).value.next != "" && (k + 1 >= MAX_PAGES || !Continues(server, read, k + 1)))
    ensures forall n: nat :: !Completes(server, read, n)
  {
    if n: nat :| Completes(server, read, n) {
      CompletesBeyond(server, read, k, n);
    }
  }

  lemma ContinuesPrefix(server: Server, read: Reader, m: nat, n: nat)
    requires m <= n && Continues(server, read, n)
    ensures Continues(server, read, m)
  {
    RecordsPrefix(server, m, n);
    ValidPrefix(read, RecordsOf(server, m), RecordsOf(server, n));
  }

  function WithdrawnSources(read: Reader, records: seq<Record>): set<string> {
    set i | 0 <= i < |records| && read(records[i]).Some? && read(records[i]).value.finding.None? :: read(records[i]).value.source
  }

  /** What the loops hold after a sequence of records. */
  ghost predicate Gathered(read: Reader, records: seq<Record>, seen: set<string>, findings: Findings, withdrawn: set<string>) {
    && RecordsValid(read, records)
    && seen == Sources(read, records) && findings == Fold(read, records) && withdrawn == WithdrawnSources(read, records)
  }

  lemma ValidStep(read: Reader, records: seq<Record>, record: Record)
    requires RecordsValid(read, records)
    ensures RecordsValid(read, records + [record]) <==>
            read(record).Some? && read(record).value.source !in Sources(read, records) && |records| < MAX_FINDINGS
  {
    var longer := records + [record];
    assert longer[|records|] == record && forall i | 0 <= i < |records| :: longer[i] == records[i];
    assert forall i | 0 <= i < |records| :: read(records[i]).value.source in Sources(read, records);
  }

  lemma FoldStep(read: Reader, records: seq<Record>, record: Record)
    requires AllNormalize(read, records) && AllNormalize(read, records + [record])
    ensures read(record).Some?
    ensures Fold(read, records + [record]) == AddRecord(Fold(read, records), read(record).value)
  {
    var longer := records + [record];
    assert longer[|records|] == record && longer[..|records|] == records;
  }

  lemma GatherStep(read: Reader, records: seq<Record>, seen: set<string>, findings: Findings, withdrawn: set<string>,
                   record: Record)
    requires Gathered(read, records, seen, findings, withdrawn) && RecordsValid(read, records + [record])
    requires read(record).Some?
    ensures var n := read(record).value;
            Gathered(read, records + [record], seen + {n.source}, AddRecord(findings, n),
                     if n.finding.None? then withdrawn + {n.source} else withdrawn)
  {
    FoldStep(read, records, record);
    SourcesStep(read, records, record);
  }

  lemma SourcesStep(read: Reader, records: seq<Record>, record: Record)
    requires read(record).Some?
    ensures Sources(read, records + [record]) == Sources(read, records) + {read(record).value.source}
    ensures WithdrawnSources(read, records + [record]) == WithdrawnSources(read, records)
            + (if read(record).value.finding.None? then {read(record).value.source} else {})
  {
    var longer := records + [record];
    assert longer[|records|] == record && forall i | 0 <= i < |records| :: longer[i] == records[i];
    forall x | x in Sources(read, records) ensures x in Sources(read, longer) {
      var i :| 0 <= i < |records| && read(records[i]).Some? && read(records[i]).value.source == x;
      assert longer[i] == records[i];
    }
    forall x | x in WithdrawnSources(read, records) ensures x in WithdrawnSources(read, longer) {
      var i :| 0 <= i < |records| && read(records[i]).Some? && read(records[i]).value.finding.None?
               && read(records[i]).value.source == x;
      assert longer[i] == records[i];
    }
  }

  lemma PageStep(before: seq<Record>, page: seq<Record>, i: nat)
    requires i < |page|
    ensures before + page[..i + 1] == before + page[..i] + [page[i]]
    ensures before + page[..i + 1] <= before + page
  {
  }

  /** The inner loop over the records of one page. */
  method ReadPage(read: Reader, ghost before: seq<Record>, page: seq<Record>,
                  seen0: set<string>, findings0: Findings, withdrawn0: set<string>)
    returns (ok: bool, seen: set<string>, findings: Findings, withdrawn: set<string>)
    requires Gathered(read, before, seen0, findings0, withdrawn0)
    ensures ok <==> RecordsValid(read, before + page)
    ensures ok ==> Gathered(read, before + page, seen, findings, withdrawn)
  {
    ok, seen, findings, withdrawn := true, seen0, findings0, withdrawn0;
    assert before + page[..0] == before;
    for i := 0 to |page|
      invariant Gathered(read, before + page[..i], seen, findings, withdrawn)
    {
      ghost var done := before + page[..i];
      PageStep(before, page, i);
      ok, seen, findings, withdrawn := ReadRecord(read, done, page[i], seen, findings, withdrawn);
      if !ok {
        if RecordsValid(read, before + page) {
          ValidPrefix(read, done + [page[i]], before + page);
        }
        return;
      }
    }
    assert before + page[..|page|] == before + page;
  }

  method ReadRecord(read: Reader, ghost done: seq<Record>, record: Record,
                    seen0: set<string>, findings0: Findings, withdrawn0: set<string>)
    returns (ok: bool, seen: set<string>, findings: Findings, withdrawn: set<string>)
    requires Gathered(read, done, seen0, findings0, withdrawn0)
    ensures ok <==> RecordsValid(read, done + [record])
    ensures ok ==> Gathered(read, done + [record], seen, findings, withdrawn)
  {
    seen, findings, withdrawn := seen0, findings0, withdrawn0;
    ValidStep(read, done, record);
    SourcesCount(read, done);
    var value := read(record);
    if value.None? || value.value.source in seen || |seen| + 1 > MAX_FINDINGS {
      return false, seen, findings, withdrawn;
    }
    GatherStep(read, done, seen, findings, withdrawn, record);
    seen := seen + {value.value.source};
    if value.value.finding.None? {
      withdrawn := withdrawn + {value.value.source};
    }
    findings := AddRecord(findings, value.value);
    ok := true;
  }

  lemma {:induction false} SourcesCount(read: Reader, records: seq<Record>)
    requires AllNormalize(read, records) && DistinctSources(read, records)
    ensures |Sources(read, records)| == |records|
  {
    if records != [] {
      var before, last := records[..|records| - 1], records[|records| - 1];
      SourcesCount(read, before);
      SourcesStep(read, before, last);
      assert records == before + [last];
      assert read(last).value.source !in Sources(read, before);
    }
  }

  lemma TokensStep(server: Server, n: nat)
    requires AllArrived(server, n + 1)
    ensures Tokens(server, n + 1) == Tokens(server, n) + {server(n).value.next}
    ensures server(n).value.next in Tokens(server, n) <==> exists k | 0 <= k < n :: server(k).value.next == server(n).value.next
  {
  }

  /** A page with a fresh valid continuation extends the observation; any other continuation ends it. */
  lemma ContinueStep(server: Server, read: Reader, n: nat)
    requires Continues(server, read, n) && server(n).Some? && RecordsValid(read, RecordsOf(server, n + 1))
    ensures Continues(server, read, n + 1) <==>
            ValidToken(server(n).value.next) && server(n).value.next !in Tokens(server, n)
    ensures Tokens(server, n + 1) == Tokens(server, n) + {server(n).value.next}
  {
    TokensStep(server, n);
    if Continues(server, read, n + 1) {
      assert forall k | 0 <= k < n :: server(k).value.next != server(n).value.next;
    }
  }

  /** The page loop of `observe_query`. An observation is complete or carries nothing: on any failure no finding is
      kept, and on success every identifier has the greatest severity over all pages. */
  method Observe(server: Server, read: Reader) returns (r: Observation)
    ensures r.Observed? <==> exists n: nat :: Completes(server, read, n)
    ensures r.Observed? || r == Unavailable
    ensures r.Observed? ==> exists n: nat ::
              && Completes(server, read, n)
              && r.findings == Listed(Fold(read, RecordsOf(server, n)))
              && r.withdrawn == Sorted(WithdrawnSources(read, RecordsOf(server, n)))
  {
    var seen: set<string>, tokens: set<string>, findings: Findings, withdrawn: set<string> := {}, {}, map[], {};
    var page := 0;
    while true
      invariant 0 <= page < MAX_PAGES
      invariant Continues(server, read, page) && tokens == Tokens(server, page)
      invariant Gathered(read, RecordsOf(server, page), seen, findings, withdrawn)
      decreases MAX_PAGES - page
    {
      var document := server(page);
      if document.None? {
        NeverCompletes(server, read, page);
        return Unavailable;
      }
      var ok;
      ok, seen, findings, withdrawn :=
        ReadPage(read, RecordsOf(server, page), document.value.records, seen, findings, withdrawn);
      if !ok {
        NeverCompletes(server, read, page);
        return Unavailable;
      }
      var next := document.value.next;
      if next == "" {
        assert Completes(server, read, page + 1);
        return Observed(Listed(findings), Sorted(withdrawn));
      }
      ContinueStep(server, read, page);
      if !ValidToken(next) || next in tokens || page + 1 >= MAX_PAGES {
        NeverCompletes(server, read, page);
        return Unavailable;
      }
      tokens := tokens + {next};
      page := page + 1;
    }
  }
}

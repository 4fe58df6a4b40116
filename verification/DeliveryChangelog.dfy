/** The changelog checks of `inspect` (scripts/release_history.py), and what they guarantee for the text that is written
    from its report. */
module DeliveryChangelog {
  import opened Changelog
  import opened ChangelogRender
  import opened ChangelogText
  import opened DeliveryHistory
  import opened DeliveryLaws
  import opened Text

  /** The changelog of the adoption commit and the one in the working tree, with what they are checked against. */
  datatype Ledger = Ledger(
    policy: Policy, hash: string -> string, wording: Wording, original: Option<string>, changelog: string)

  /** An update of the changelog with the notes and exemptions given. */
  function UpdateOf(l: Ledger, c: Characters, fragments: seq<Fragment>, legacy: bool, exempt: seq<string>): Regeneration {
    Regeneration(c, l.wording, l.hash, l.policy, fragments, legacy, exempt)
  }

  /** The Unreleased section at adoption is the frozen one, and a trial update without notes succeeds. */
  predicate Fits(l: Ledger, c: Characters, legacy: bool) {
    var trial := UpdateOf(l, c, [], legacy, []);
    && trial.Text().Some? && l.original.Some?
    && Unreleased(trial, l.original.value).Some? && l.hash(Unreleased(trial, l.original.value).value) == l.policy.digest
    && trial.Apply(l.changelog).Some?
  }

  /** The inspection reads this changelog. */
  ghost predicate Reads(q: Inspection, l: Ledger) {
    forall legacy :: q.changelogFits(legacy) <==> Fits(l, q.characters, legacy)
  }

  /** Nothing but the budgets of rendering stands between a report and its changelog. */
  predicate WithinBudgets(c: Characters, report: Report) {
    && |report.fragments| <= 512 && TotalSize(c, report.fragments) <= 1024 * 1024
    && |report.exempt| <= 512 && forall i | 0 <= i < |report.exempt| :: IsCommit(report.exempt[i])
  }

  lemma {:induction false} DistinctCount(values: seq<Fragment>)
    requires DistinctIds(values)
    ensures |Ids(values)| == |values|
  {
    if values == [] {
      assert Ids(values) == {};
    } else {
      var n := |values| - 1;
      DistinctCount(values[..n]);
      IdsStep(values);
      assert forall i | 0 <= i < n :: values[..n][i] == values[i];
    }
  }

  lemma ReportRenders(q: Inspection, l: Ledger)
    requires Acyclic(q.repo) && Inspect(q).Some? && StemsDiffer(q.rules) && ValidPolicy(l.policy)
    ensures var report := Inspect(q).value;
            UpdateOf(l, q.characters, report.fragments, report.includeLegacy, report.exempt).Text().Some? <==>
            WithinBudgets(q.characters, report)
  {
    ReportedNotesAreRenderable(q);
    DistinctCount(Inspect(q).value.fragments);
  }

  lemma FitsAny(l: Ledger, c: Characters, legacy: bool, fragments: seq<Fragment>, exempt: seq<string>)
    requires Fits(l, c, legacy)
    ensures ValidPolicy(l.policy)
    ensures var update := UpdateOf(l, c, fragments, legacy, exempt);
            update.Text().Some? ==> update.Apply(l.changelog).Some?
  {
    var trial, update := UpdateOf(l, c, [], legacy, []), UpdateOf(l, c, fragments, legacy, exempt);
    if update.Text().Some? {
      TextRefusal(RulesOf(l.policy, l.hash), l.changelog, trial.Text().value, update.Text().value);
    }
  }

  /** The trial update of `inspect` is enough: the report of a successful inspection can be written to the changelog
      exactly where it is within the budgets of rendering. */
  lemma ReportIsWritable(q: Inspection, l: Ledger)
    requires Acyclic(q.repo) && Inspect(q).Some? && Reads(q, l) && StemsDiffer(q.rules)
    ensures var report := Inspect(q).value;
            var update := UpdateOf(l, q.characters, report.fragments, report.includeLegacy, report.exempt);
            update.Apply(l.changelog).Some? <==> WithinBudgets(q.characters, report)
  {
    var report := Inspect(q).value;
    assert Fits(l, q.characters, report.includeLegacy);
    FitsAny(l, q.characters, report.includeLegacy, report.fragments, report.exempt);
    ReportRenders(q, l);
  }

  /** And then the changelog holds exactly the reported notes. */
  lemma WrittenReportIsRead(q: Inspection, l: Ledger)
    requires Acyclic(q.repo) && Inspect(q).Some? && Reads(q, l) && StemsDiffer(q.rules)
    requires Standard(q.characters) && FineWording(l.wording) && WithinBudgets(q.characters, Inspect(q).value)
    ensures var report := Inspect(q).value;
            var update := UpdateOf(l, q.characters, report.fragments, report.includeLegacy, report.exempt);
            update.Apply(l.changelog).Some? && Unreleased(update, update.Apply(l.changelog).value) == update.Text()
  {
    var report := Inspect(q).value;
    ReportIsWritable(q, l);
    ReadsWhatWasWritten(UpdateOf(l, q.characters, report.fragments, report.includeLegacy, report.exempt), l.changelog);
  }
}

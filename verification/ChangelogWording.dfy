/** The fixed wording of `render_unreleased` (scripts/change_fragments.py), which meets what the laws of the changelog ask
    of it. Sentences are written in short phrases. */
module ChangelogWording {
  import opened ChangelogRender
  import opened Text

  const OPENING := "<!-- Generated by scripts/" + "release_history.py; edit " + "changes/fragments/*.json. -->"

  function CategoryHeading(c: Category): string {
    match c
    case Security => "###" + " Security"
    case Added => "###" + " Added"
    case Changed => "###" + " Changed"
    case Fixed => "###" + " Fixed"
    case Deprecated => "###" + " Deprecated"
    case Removed => "###" + " Removed"
  }

  const PREVIOUS := "###" + (" Previous Source " + "Development")
  const EARLIER := "- Earlier source changes " + "remain in the [historical " + "source snapshot"
  const ANCHOR := "historical-source-snapshot-"
  const SNAPSHOT :=
    ("  That snapshot is " + "development history, not a ") + ("published release or " + "independent review evidence.")
  const OTHER := "###" + " Other Source Changes"
  const ADDITIONAL := ("- Additional source " + "deliveries have a verified ") + ("`no-changelog` " + "pull-request label.")
  const COVERAGE := ("  Their source " + "coverage is checked ") + ("against authenticated " + "GitHub metadata.")
  const NONE := "- No unreleased changes."

  /** The line with the link to the historical section, for the first digits of the adoption commit. */
  function LinkLine(commit: string): string {
    EARLIER + "](#" + ANCHOR + commit + "-not-a-release)."
  }

  function LegacyLines(commit: string): seq<string> {
    [PREVIOUS, "", LinkLine(commit), SNAPSHOT, ""]
  }

  const WORDING := Wording(OPENING, CategoryHeading, LegacyLines, [OTHER, "", ADDITIONAL, COVERAGE, ""], NONE)

  // ---------------------------------------------------------------- plain phrases

  predicate IsPlainChar(c: char) {
    c != '\n' && c != '\r' && c != '('
  }

  predicate Plain(s: string) {
    forall c :: c in s ==> IsPlainChar(c)
  }

  lemma PlainConcat(a: string, b: string)
    requires Plain(a) && Plain(b)
    ensures Plain(a + b)
  {
  }

  lemma PlainIsFine(s: string)
    requires Plain(s)
    ensures FineText(s)
  {
    assert forall i | 0 <= i < |s| :: s[i] in s;
  }

  /** A line of plain phrases that does not start with a hash. */
  lemma PlainLine(a: string, b: string, c: string, d: string)
    requires Plain(a) && Plain(b) && Plain(c) && Plain(d) && a != "" && a[0] != '#'
    ensures FineLine((a + b) + (c + d)) && a <= (a + b) + (c + d)
  {
    var s := (a + b) + (c + d);
    PlainConcat(a, b);
    PlainConcat(c, d);
    PlainConcat(a + b, c + d);
    PlainIsFine(s);
    assert s[0] == a[0];
  }

  /** A line that starts with three hashes. */
  lemma PlainHeading(a: string)
    requires Plain(a)
    ensures FineLine("###" + a)
  {
    assert Plain("###");
    PlainConcat("###", a);
    PlainIsFine("###" + a);
    assert ("###" + a)[2] == '#';
  }

  lemma OpeningPhrases()
    ensures Plain("<!-- Generated by scripts/") && Plain("release_history.py; edit ")
  {
  }

  lemma OpeningIsFine()
    ensures FineLine(OPENING) && StartsWith(OPENING, "<")
  {
    var a, b, c := "<!-- Generated by scripts/", "release_history.py; edit ", "changes/fragments/*.json. -->";
    OpeningPhrases();
    assert Plain(c) && Plain("");
    PlainLine(a, b, c, "");
    assert OPENING == (a + b) + (c + "");
  }

  lemma HeadingIsFine(c: Category)
    ensures FineLine(CategoryHeading(c))
  {
    var name := match c
      case Security => " Security" case Added => " Added" case Changed => " Changed"
      case Fixed => " Fixed" case Deprecated => " Deprecated" case Removed => " Removed";
    assert Plain(name);
    PlainHeading(name);
  }

  lemma OtherHeadingsAreFine()
    ensures FineLine(PREVIOUS) && FineLine(OTHER) && FineLine("")
  {
    assert Plain(" Previous Source ") && Plain("Development");
    PlainConcat(" Previous Source ", "Development");
    PlainHeading(" Previous Source " + "Development");
    assert PREVIOUS == "###" + (" Previous Source " + "Development");
    assert Plain(" Other Source Changes");
    PlainHeading(" Other Source Changes");
  }

  lemma NoneIsFine()
    ensures FineLine(NONE)
  {
    assert Plain(NONE);
    PlainLine(NONE, "", "", "");
    assert NONE == (NONE + "") + ("" + "");
  }

  lemma EarlierIsFine()
    ensures FineText(EARLIER) && StartsWith(EARLIER, "-")
  {
    var a, b, c := "- Earlier source changes ", "remain in the [historical ", "source snapshot";
    assert Plain(a) && Plain(b) && Plain(c);
    PlainLine(a, b, c, "");
    assert EARLIER == (a + b) + (c + "");
  }

  lemma LinkPhrases()
    ensures FineText("](#") && Plain(ANCHOR) && Plain("-not-a-release).")
  {
  }

  lemma LinkIsFine(commit: string)
    requires AllOf(commit, IsHex)
    ensures FineLine(LinkLine(commit))
  {
    var link, end := "](#", "-not-a-release).";
    EarlierIsFine();
    LinkPhrases();
    assert Plain(commit);
    PlainIsFine(ANCHOR);
    PlainIsFine(commit);
    PlainIsFine(end);
    FineConcat(EARLIER, link);
    FineConcat(EARLIER + link, ANCHOR);
    FineConcat(EARLIER + link + ANCHOR, commit);
    FineConcat(EARLIER + link + ANCHOR + commit, end);
    assert LinkLine(commit)[0] == EARLIER[0] == '-';
  }

  lemma SnapshotPhrases()
    ensures Plain("  That snapshot is ") && Plain("development history, not a ")
    ensures Plain("published release or ")
  {
  }

  lemma SnapshotIsFine()
    ensures FineLine(SNAPSHOT)
  {
    SnapshotPhrases();
    assert Plain("independent review evidence.");
    PlainLine("  That snapshot is ", "development history, not a ", "published release or ", "independent review evidence.");
  }

  lemma AdditionalPhrases()
    ensures Plain("- Additional source ") && Plain("deliveries have a verified ")
  {
  }

  lemma AdditionalIsFine()
    ensures FineLine(ADDITIONAL)
  {
    AdditionalPhrases();
    assert Plain("`no-changelog` ") && Plain("pull-request label.");
    PlainLine("- Additional source ", "deliveries have a verified ", "`no-changelog` ", "pull-request label.");
  }

  lemma CoveragePhrases()
    ensures Plain("  Their source ") && Plain("coverage is checked ")
  {
  }

  lemma CoverageIsFine()
    ensures FineLine(COVERAGE)
  {
    CoveragePhrases();
    assert Plain("against authenticated ") && Plain("GitHub metadata.");
    PlainLine("  Their source ", "coverage is checked ", "against authenticated ", "GitHub metadata.");
  }

  /** The wording of the script holds no line break, no level-two heading and no bare parenthesis. */
  lemma WordingIsFine()
    ensures FineWording(WORDING)
  {
    OpeningIsFine();
    OtherHeadingsAreFine();
    NoneIsFine();
    AdditionalIsFine();
    CoverageIsFine();
    SnapshotIsFine();
    forall c ensures FineLine(CategoryHeading(c)) {
      HeadingIsFine(c);
    }
    forall commit | AllOf(commit, IsHex) ensures FineLines(LegacyLines(commit)) {
      LinkIsFine(commit);
    }
  }
}

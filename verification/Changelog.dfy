/** `section` and `update_changelog` (scripts/change_fragments.py) on text: the laws of ChangelogLens for the
    changelog's own headings and the text that ChangelogRender writes. */
module Changelog {
  import opened ChangelogLens
  import opened ChangelogRender
  import opened ChangelogText
  import opened LineText
  import opened Text

  // ---------------------------------------------------------------- headings

  predicate IsSectionLine(line: string) {
    StartsWith(line, "## ")
  }

  /** Blanks and a line feed. */
  predicate IsBlankLine(line: string) {
    |line| > 0 && line[|line| - 1] == '\n' && forall i | 0 <= i < |line| - 1 :: line[i] == ' ' || line[i] == '\t'
  }

  /** A level-two heading of this title, perhaps with trailing blanks. */
  predicate IsHeading(title: string, line: string) {
    StartsWith(line, "## " + title) && IsBlankLine(line[|title| + 3..])
  }

  datatype Policy = Policy(adoption: string, release: string, digest: string)

  /** `validate_policy` */
  predicate ValidPolicy(p: Policy) {
    IsCommit(p.adoption) && IsCommit(p.release) && |p.digest| == 64 && AllOf(p.digest, IsHex)
  }

  const UNRELEASED := "Unreleased"

  /** `legacy_heading(policy)` */
  function HistoryTitle(p: Policy): string
    requires ValidPolicy(p)
  {
    "Historical" + (" source snapshot " + p.adoption[..8]) + " (not a release)"
  }

  function Marker(p: Policy): string
    requires ValidPolicy(p)
  {
    "## " + HistoryTitle(p) + "\n"
  }

  function RulesOf(p: Policy, hash: string -> string): Rules
    requires ValidPolicy(p)
  {
    Rules(IsSectionLine, IsBlankLine,
          line => IsHeading(UNRELEASED, line), line => IsHeading(HistoryTitle(p), line),
          line => EndsWith(line, Marker(p)), Marker(p),
          body => hash(Flatten(body)) == p.digest)
  }

  lemma HeadingIsSection(title: string, line: string)
    requires IsHeading(title, line)
    ensures IsSectionLine(line) && |line| > 3 && line[|line| - 1] == '\n'
    ensures title != "" ==> |line| > 4 && line[3] == title[0]
  {
    assert ("## " + title)[..3] == "## ";
    assert line[..3] == (line[..|title| + 3])[..3];
    assert title != "" ==> ("## " + title)[3] == title[0] && line[3] == line[..|title| + 3][3];
  }

  lemma MarkerIsHeading(p: Policy)
    requires ValidPolicy(p)
    ensures IsHeading(HistoryTitle(p), Marker(p))
    ensures HistoryTitle(p)[0] == 'H' && HistoryTitle(p) != ""
  {
    var title := HistoryTitle(p);
    assert Marker(p)[..|title| + 3] == "## " + title;
    assert Marker(p)[|title| + 3..] == "\n";
    assert title[0] == "Historical"[0];
  }

  lemma SectionIsNotBlank(line: string)
    requires IsSectionLine(line)
    ensures !IsBlankLine(line)
  {
    assert line[0] == '#' && |line| > 1;
  }

  lemma RulesAreSound(p: Policy, hash: string -> string)
    requires ValidPolicy(p)
    ensures Sound(RulesOf(p, hash))
  {
    var r := RulesOf(p, hash);
    MarkerIsHeading(p);
    forall line | r.isUnreleased(line) || r.isHistory(line) ensures r.isSection(line) {
      HeadingIsSection(if r.isUnreleased(line) then UNRELEASED else HistoryTitle(p), line);
    }
    forall line ensures !(r.isUnreleased(line) && r.isHistory(line)) {
      if r.isUnreleased(line) && r.isHistory(line) {
        HeadingIsSection(UNRELEASED, line);
        HeadingIsSection(HistoryTitle(p), line);
        assert false;
      }
    }
    forall line | r.isSection(line) ensures !r.isBlank(line) {
      SectionIsNotBlank(line);
    }
    assert |Marker(p)| > 1;
  }

  // ---------------------------------------------------------------- the text around one bare parenthesis

  /** Where the historical heading holds a parenthesis no rendered text can hold. */
  lemma MarkerParenthesis(p: Policy) returns (k: nat)
    requires ValidPolicy(p)
    ensures 0 < k < |Marker(p)| - 1
    ensures Marker(p)[k] == '(' && Marker(p)[k - 1] == ' ' && Marker(p)[k + 1] == 'n'
  {
    var head, end := "## " + ("Historical" + (" source snapshot " + p.adoption[..8])), " (not a release)";
    k := |head| + 1;
    assert Marker(p) == head + end + "\n";
    assert end[0] == ' ' && end[1] == '(' && end[2] == 'n';
  }

  /** A text whose last character is a line feed has only whole lines. */
  lemma {:induction false} WholeLines(lines: Lines)
    requires Proper(lines) && lines != [] && Flatten(lines) != "" && Flatten(lines)[|Flatten(lines)| - 1] == '\n'
    ensures AllLines(lines)
  {
    ProperTail(lines);
    var rest := lines[1..];
    if rest != [] {
      FlattenNonEmpty(rest);
      WholeLines(rest);
      assert lines == [lines[0]] + rest;
    } else {
      assert Flatten(lines) == lines[0];
    }
  }

  lemma FlattenNonEmpty(lines: Lines)
    requires Proper(lines) && lines != []
    ensures Flatten(lines) != ""
  {
    ProperTail(lines);
  }

  lemma StripKeeps(c: Characters, s: string)
    requires s != "" && !c.isSpace(s[0])
    ensures StripEnd(c, s) != "" && StripEnd(c, s)[0] == s[0]
  {
  }

  /** How a page of lines is ended: trailing blanks are stripped, and two line feeds follow. */
  predicate Ends(page: string, stripped: string, s: string) {
    stripped <= page && s == stripped + "\n\n"
  }

  lemma PageHoldsNoHeading(page: string, stripped: string, s: string, k: nat)
    requires NoHeading(page) && Ends(page, stripped, s)
    requires k + 3 <= |s| && (k == 0 || s[k - 1] == '\n')
    ensures s[k..k + 3] != "## "
  {
    if k + 3 <= |stripped| {
      assert s[k..k + 3] == page[k..][..3];
      assert k > 0 ==> page[k - 1] == s[k - 1];
    } else {
      var m := |stripped| - k;
      assert s[k..k + 3][m] == '\n' && m in {1, 2};
    }
  }

  lemma PageHoldsNoMarker(p: Policy, page: string, stripped: string, s: string, k: nat)
    requires ValidPolicy(p) && Tame(page) && Ends(page, stripped, s) && k + |Marker(p)| <= |s|
    ensures s[k..k + |Marker(p)|] != Marker(p)
  {
    var m := Marker(p);
    var q := MarkerParenthesis(p);
    var t := s[k..k + |m|];
    assert t[q - 1] == s[k + q - 1] && t[q] == s[k + q] && t[q + 1] == s[k + q + 1];
    if k + q + 1 < |stripped| {
      assert s[k + q - 1] == page[k + q - 1] && s[k + q] == page[k + q] && s[k + q + 1] == page[k + q + 1];
      assert TameAt(page, k + q);
    } else {
      assert t[q + 1] == '\n';
    }
  }

  // ---------------------------------------------------------------- the rendered text is clean

  lemma RenderedIsClean(
      c: Characters, w: Wording, p: Policy, hash: string -> string, values: seq<Fragment>, o: Options)
    requires Standard(c) && FineWording(w) && ValidPolicy(p) && Render(c, w, values, o).Some?
    ensures var lines := LinesOf(Render(c, w, values, o).value);
            Clean(RulesOf(p, hash), lines) && AllLines(lines)
  {
    var page := Join(AllTheLines(w, values, o), "\n");
    FineAll(c, w, values, o);
    FineJoined(AllTheLines(w, values, o));
    PageStart(w, values, o);
    StripKeeps(c, page);
    StrippedIsClean(p, hash, page, StripEnd(c, page));
  }

  lemma PageStart(w: Wording, values: seq<Fragment>, o: Options)
    requires ValidOptions(o) && StartsWith(w.opening, "<")
    ensures var page := Join(AllTheLines(w, values, o), "\n"); page != "" && page[0] == '<'
  {
    var lines := AllTheLines(w, values, o);
    assert lines[0] == w.opening && w.opening[0] == '<';
    JoinStep(lines, "\n");
  }

  /** `line` is a line of the text, starting at `k`. */
  predicate LineAt(s: string, line: string, k: nat) {
    k + |line| <= |s| && s[k..k + |line|] == line && (k == 0 || s[k - 1] == '\n')
  }

  lemma LineHoldsNoHeading(page: string, stripped: string, s: string, line: string, k: nat)
    requires NoHeading(page) && Ends(page, stripped, s) && LineAt(s, line, k)
    ensures !IsSectionLine(line)
  {
    if |line| >= 3 {
      PageHoldsNoHeading(page, stripped, s, k);
      SliceOfSlice(s, k, |line|, 0, 3);
    }
  }

  lemma LineHoldsNoMarker(p: Policy, page: string, stripped: string, s: string, line: string, k: nat)
    requires ValidPolicy(p) && Tame(page) && Ends(page, stripped, s) && LineAt(s, line, k)
    ensures !EndsWith(line, Marker(p))
  {
    var m, n := |Marker(p)|, |line|;
    if m <= n {
      PageHoldsNoMarker(p, page, stripped, s, k + n - m);
      SliceOfSlice(s, k, n, n - m, n);
    }
  }

  lemma SliceOfSlice(s: string, k: nat, n: nat, a: nat, b: nat)
    requires a <= b <= n && k + n <= |s|
    ensures s[k..k + n][a..b] == s[k + a..k + b]
  {
    var t := s[k..k + n];
    forall i | 0 <= i < b - a ensures t[a..b][i] == s[k + a..k + b][i] {
      assert t[a + i] == s[k + a + i];
    }
  }

  predicate Plain(p: Policy, line: string)
    requires ValidPolicy(p)
  {
    !IsSectionLine(line) && !EndsWith(line, Marker(p))
  }

  lemma EveryLineIsClean(p: Policy, page: string, stripped: string, s: string, lines: Lines)
    requires ValidPolicy(p) && FinePage(page) && Ends(page, stripped, s) && Proper(lines) && Flatten(lines) == s
    ensures forall i | 0 <= i < |lines| :: Plain(p, lines[i])
  {
    forall i | 0 <= i < |lines| ensures Plain(p, lines[i]) {
      var k := LineStarts(lines, i);
      assert LineAt(s, lines[i], k);
      LineHoldsNoHeading(page, stripped, s, lines[i], k);
      LineHoldsNoMarker(p, page, stripped, s, lines[i], k);
    }
  }

  lemma FirstLineIsText(s: string)
    requires s != "" && s[0] == '<'
    ensures LinesOf(s) != [] && LinesOf(s)[0] != "" && !IsBlankLine(LinesOf(s)[0])
  {
    assert LinesOf(s)[0][0] == s[0];
  }

  lemma StrippedIsClean(p: Policy, hash: string -> string, page: string, stripped: string)
    requires ValidPolicy(p) && FinePage(page) && stripped <= page && stripped != "" && stripped[0] == '<'
    ensures var lines := LinesOf(stripped + "\n\n"); Clean(RulesOf(p, hash), lines) && AllLines(lines)
  {
    var s := stripped + "\n\n";
    FlattenLinesOf(s);
    FirstLineIsText(s);
    WholeLines(LinesOf(s));
    EveryLineIsClean(p, page, stripped, s, LinesOf(s));
    assert forall i | 0 <= i < |LinesOf(s)| :: Plain(p, LinesOf(s)[i]);
  }

  // ---------------------------------------------------------------- update_changelog

  /** What `update_changelog` is given beside the document. */
  datatype Regeneration = Regeneration(
    characters: Characters,
    wording: Wording,
    hash: string -> string,
    policy: Policy,
    fragments: seq<Fragment>,
    includeLegacy: bool,
    exempt: seq<string>)
  {
    function Options(): Options {
      ChangelogRender.Options(policy.adoption, includeLegacy, exempt)
    }

    /** The text it writes; `None` where rendering raises. */
    function Text(): Option<string> {
      if ValidPolicy(policy) then Render(characters, wording, fragments, Options()) else None
    }

    function Rules(): Rules
      requires Text().Some?
    {
      RulesOf(policy, hash)
    }

    /** `update_changelog`; `None` where the source raises. */
    function Apply(document: string): Option<string> {
      if Text().None? then None else UpdateText(Rules(), document, Text().value)
    }
  }

  ghost predicate Sane(u: Regeneration) {
    Standard(u.characters) && FineWording(u.wording)
  }

  /** `section(document, 'Unreleased')` and `section(document, legacy_heading(policy))` */
  function Unreleased(u: Regeneration, document: string): Option<string>
    requires u.Text().Some?
  {
    ReadText(u.Rules(), document, u.Rules().isUnreleased)
  }

  function History(u: Regeneration, document: string): Option<string>
    requires u.Text().Some?
  {
    ReadText(u.Rules(), document, u.Rules().isHistory)
  }

  lemma RulesAreEnded(p: Policy, hash: string -> string)
    requires ValidPolicy(p)
    ensures Ended(RulesOf(p, hash))
  {
    var r := RulesOf(p, hash);
    forall line | r.isUnreleased(line) ensures line != "" && line[|line| - 1] == '\n' {
      HeadingIsSection(UNRELEASED, line);
    }
    MarkerIsLine(p);
  }

  lemma MarkerIsLine(p: Policy)
    requires ValidPolicy(p)
    ensures IsLine(Marker(p)) && '\r' !in Marker(p)
  {
    var title := HistoryTitle(p);
    assert OneLine("## ") && OneLine("Historical") && OneLine(" source snapshot ") && OneLine(" (not a release)");
    assert OneLine(p.adoption[..8]);
    assert OneLine(title);
    assert OneLine("## " + title);
    assert Marker(p)[..|Marker(p)| - 1] == "## " + title;
  }

  /** Everything the laws need of a rendered text. */
  lemma TextIsClean(u: Regeneration)
    requires Sane(u) && u.Text().Some?
    ensures Sound(u.Rules()) && Ended(u.Rules())
    ensures CleanText(u.Rules(), u.Text().value)
  {
    RulesAreSound(u.policy, u.hash);
    RulesAreEnded(u.policy, u.hash);
    RenderedIsClean(u.characters, u.wording, u.policy, u.hash, u.fragments, u.Options());
    TextHasNoReturn(u);
  }

  lemma TextHasNoReturn(u: Regeneration)
    requires Sane(u) && u.Text().Some?
    ensures '\r' !in u.Text().value
  {
    var lines := AllTheLines(u.wording, u.fragments, u.Options());
    FineAll(u.characters, u.wording, u.fragments, u.Options());
    FineJoined(lines);
    var stripped := StripEnd(u.characters, Join(lines, "\n"));
    assert forall i | 0 <= i < |stripped| :: stripped[i] == Join(lines, "\n")[i];
  }

  // ---------------------------------------------------------------- the laws on documents

  /** After an update, reading the Unreleased section gives exactly the rendered text. */
  lemma ReadsWhatWasWritten(u: Regeneration, document: string)
    requires Sane(u) && u.Apply(document).Some?
    ensures Unreleased(u, u.Apply(document).value) == u.Text()
  {
    TextIsClean(u);
    TextReads(u.Rules(), document, u.Text().value);
  }

  /** The test `history_marker in document`. */
  predicate HasMarker(u: Regeneration, document: string)
    requires u.Text().Some?
  {
    Occurs(Marker(u.policy), document)
  }

  lemma MarkerIsMentioned(u: Regeneration, document: string)
    requires Sane(u) && u.Text().Some?
    ensures HasMarker(u, document) <==> Mentioned(u.Rules(), LinesOf(document))
  {
    MarkerIsLine(u.policy);
    FlattenLinesOf(document);
    OccursIsSuffix(Marker(u.policy), LinesOf(document));
  }

  /** Some line of the document is the historical heading, perhaps with trailing blanks. */
  predicate HasHistory(u: Regeneration, document: string)
    requires u.Text().Some?
  {
    HasHistoryHeading(u.Rules(), LinesOf(document))
  }

  lemma FrozenIs(u: Regeneration, body: Lines)
    requires u.Text().Some?
    ensures u.Rules().isFrozen(body) <==> u.hash(Flatten(body)) == u.policy.digest
  {
  }

  /** Where the marker occurs, an update leaves the historical section as it was. */
  lemma HistoryIsKept(u: Regeneration, document: string)
    requires Sane(u) && u.Apply(document).Some? && HasMarker(u, document)
    ensures History(u, u.Apply(document).value) == History(u, document)
  {
    TextIsClean(u);
    MarkerIsMentioned(u, document);
    TextKeeps(u.Rules(), document, u.Text().value);
  }

  /** The section that is kept is the one with the frozen digest. */
  lemma KeptHistoryIsFrozen(u: Regeneration, document: string)
    requires Sane(u) && u.Apply(document).Some? && HasMarker(u, document)
    ensures History(u, document).Some? && u.hash(History(u, document).value) == u.policy.digest
  {
    TextIsClean(u);
    MarkerIsMentioned(u, document);
    TextKeeps(u.Rules(), document, u.Text().value);
    FrozenIs(u, ReadHistory(u.Rules(), LinesOf(document)).value);
  }

  /** Otherwise the old Unreleased text has the frozen digest and becomes the historical section, exactly where no
      heading of that title was there already. */
  lemma HistoryIsMoved(u: Regeneration, document: string)
    requires Sane(u) && u.Apply(document).Some? && !HasMarker(u, document)
    ensures Unreleased(u, document).Some? && u.hash(Unreleased(u, document).value) == u.policy.digest
    ensures History(u, u.Apply(document).value) == if HasHistory(u, document) then None else Unreleased(u, document)
  {
    TextIsClean(u);
    MarkerIsMentioned(u, document);
    TextWasFrozen(u.Rules(), document, u.Text().value);
    TextMoves(u.Rules(), document, u.Text().value);
    FrozenIs(u, ReadUnreleased(u.Rules(), LinesOf(document)).value);
  }

  /** The marker occurs outside the body of the Unreleased section, or nothing like it occurs at all. */
  predicate Settled(u: Regeneration, document: string)
    requires u.Text().Some? && Unreleased(u, document).Some?
  {
    Settles(u.Rules(), LinesOf(document))
  }

  /** A second update equals applying only the second, exactly on settled documents. */
  lemma SecondUpdateWins(u: Regeneration, v: Regeneration, document: string)
    requires Sane(u) && Sane(v) && u.Text().Some? && v.Text().Some? && u.policy == v.policy && u.hash == v.hash
    requires u.Apply(document).Some?
    ensures Unreleased(u, document).Some?
    ensures v.Apply(u.Apply(document).value) == v.Apply(document) <==> Settled(u, document)
  {
    TextIsClean(u);
    TextIsClean(v);
    TextTwice(u.Rules(), document, u.Text().value, v.Text().value);
  }

  /** Updating twice is updating once, exactly on settled documents. */
  lemma UpdateIsStable(u: Regeneration, document: string)
    requires Sane(u) && u.Apply(document).Some?
    ensures Unreleased(u, document).Some?
    ensures u.Apply(u.Apply(document).value) == u.Apply(document) <==> Settled(u, document)
  {
    SecondUpdateWins(u, u, document);
  }

  // ---------------------------------------------------------------- where the laws fail

  /** A historical heading with a trailing blank is not the marker, but is a heading of the same title. */
  function StrayHeading(p: Policy): string
    requires ValidPolicy(p)
  {
    "## " + HistoryTitle(p) + " \n"
  }

  function StrayDocument(p: Policy): string
    requires ValidPolicy(p)
  {
    "## Unreleased\n" + StrayHeading(p)
  }

  lemma StrayIsHeading(p: Policy)
    requires ValidPolicy(p)
    ensures IsLine(StrayHeading(p)) && '\r' !in StrayHeading(p)
    ensures IsHeading(HistoryTitle(p), StrayHeading(p)) && !EndsWith(StrayHeading(p), Marker(p))
  {
    var title, line := HistoryTitle(p), StrayHeading(p);
    MarkerIsLine(p);
    assert Marker(p) == "## " + title + "\n";
    assert line[..|title| + 3] == "## " + title && line[|title| + 3..] == " \n";
    assert Marker(p)[..|title| + 3] == "## " + title;
    assert line[..|line| - 1] == "## " + title + " ";
    assert Marker(p)[..|Marker(p)| - 1] == "## " + title;
    MarkerEnd(p);
    assert line[|line| - 2] == ' ';
  }

  lemma MarkerEnd(p: Policy)
    requires ValidPolicy(p)
    ensures Marker(p)[|Marker(p)| - 2] == ')'
  {
    var end := " (not a release)";
    assert end[|end| - 1] == ')';
    assert HistoryTitle(p)[|HistoryTitle(p)| - 1] == ')';
  }

  lemma UnreleasedLine()
    ensures IsLine("## Unreleased\n") && IsHeading(UNRELEASED, "## Unreleased\n") && '\r' !in "## Unreleased\n"
  {
    var line := "## Unreleased\n";
    assert line == "## " + UNRELEASED + "\n";
    assert line[..13] == "## " + UNRELEASED && line[13..] == "\n";
  }

  lemma UnreleasedIsNotMarker(p: Policy)
    requires ValidPolicy(p)
    ensures !EndsWith("## Unreleased\n", Marker(p))
  {
    assert |Marker(p)| > 14;
  }

  /** On such a document an update succeeds, the historical section can no longer be read, and every further update
      is refused. */
  lemma StrayHeadingIsNotSettled(u: Regeneration)
    requires Sane(u) && u.Text().Some? && u.hash("") == u.policy.digest
    ensures var document := StrayDocument(u.policy);
            u.Apply(document).Some? && Unreleased(u, document).Some? && !Settled(u, document)
  {
    TextIsClean(u);
    StrayParts(u.policy, u.hash);
    StrayOnText(u.Rules(), "## Unreleased\n", StrayHeading(u.policy), u.Text().value);
  }

  lemma StrayParts(p: Policy, hash: string -> string)
    requires ValidPolicy(p) && hash("") == p.digest
    ensures Stray(RulesOf(p, hash), "## Unreleased\n", StrayHeading(p))
  {
    StrayIsHeading(p);
    UnreleasedLine();
    UnreleasedIsNotMarker(p);
    assert RulesOf(p, hash).isFrozen([]) <==> hash(Flatten([])) == p.digest;
  }

  /** An empty frozen section, and a heading of the historical title that is not the marker. */
  ghost predicate Stray(r: Rules, line: string, h: string) {
    && r.isUnreleased(line) && r.isHistory(h) && r.isFrozen([]) && !r.mentions(line) && !r.mentions(h)
    && IsLine(line) && IsLine(h) && '\r' !in line && '\r' !in h
  }

  lemma StrayOnText(r: Rules, line: string, h: string, text: string)
    requires Sound(r) && CleanText(r, text) && Stray(r, line, h)
    ensures UpdateText(r, line + h, text).Some? && ReadText(r, line + h, r.isUnreleased).Some?
    ensures !Settles(r, LinesOf(line + h))
  {
    StrayLines(line, h);
    StrayOnDocument(r, line + h, text);
  }

  lemma StrayOnDocument(r: Rules, document: string, text: string)
    requires Sound(r) && CleanText(r, text) && '\r' !in document && StrayPair(r, LinesOf(document))
    ensures UpdateText(r, document, text).Some? && ReadText(r, document, r.isUnreleased).Some?
    ensures !Settles(r, LinesOf(document))
  {
    StrayOnLines(r, LinesOf(document), LinesOf(text));
  }

  ghost predicate StrayPair(r: Rules, lines: Lines) {
    |lines| == 2 && Stray(r, lines[0], lines[1])
  }

  lemma StrayLines(line: string, h: string)
    requires IsLine(line) && IsLine(h) && '\r' !in line && '\r' !in h
    ensures LinesOf(line + h) == [line, h] && '\r' !in line + h
  {
    LinesOfFlatten([line, h]);
    assert Flatten([line, h]) == line + h by {
      assert [line, h][1..] == [h] && [h][1..] == [];
      assert Flatten([h]) == h;
    }
  }

  lemma StrayIsCut(r: Rules, lines: Lines)
    requires Sound(r) && StrayPair(r, lines)
    ensures var p := Parts([], lines[..1], [], lines[1..]); Cut(r, p) && p.Text() == lines
    ensures !Mentioned(r, lines) && HasHistoryHeading(r, lines)
  {
    assert Parts([], lines[..1], [], lines[1..]).Text() == lines;
  }

  lemma StrayOnLines(r: Rules, lines: Lines, body: Lines)
    requires Sound(r) && Clean(r, body) && StrayPair(r, lines)
    ensures ChangelogLens.Update(r, lines, body).Some? && Section(r, lines, r.isUnreleased).Some?
    ensures !Settles(r, lines)
  {
    StrayIsCut(r, lines);
    StrayUnsettles(r, Parts([], lines[..1], [], lines[1..]), body);
  }
}

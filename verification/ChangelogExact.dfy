/** When `update_changelog` (scripts/change_fragments.py) succeeds and what it writes, stated on the parts of the
    document. */
module ChangelogExact {
  import opened ChangelogLens
  import opened ChangelogRender
  import opened ChangelogText
  import opened Changelog
  import opened LineText
  import opened Text

  // ---------------------------------------------------------------- one section

  /** The text is cut around the only section of this title: what precedes its heading, the heading with a blank line
      after it, if any, the body, which ends at the next heading of any title, and what follows. */
  ghost predicate IsCutAt(r: Rules, heads: string -> bool, p: Parts) {
    && Without(p.before, heads) && Without(p.rest, heads)
    && 1 <= |p.top| <= 2 && heads(p.top[0]) && (|p.top| == 2 ==> r.isBlank(p.top[1]))
    && Without(p.body, r.isSection) && (p.rest != [] ==> r.isSection(p.rest[0]))
    && (|p.top| == 1 && p.body != [] ==> !r.isBlank(p.body[0]))
  }

  /** Headings of the title are section headings, and those are not blank. */
  ghost predicate Heads(r: Rules, heads: string -> bool) {
    (forall l :: heads(l) ==> r.isSection(l)) && (forall l :: r.isSection(l) ==> !r.isBlank(l))
  }

  lemma CutTail(r: Rules, heads: string -> bool, p: Parts)
    requires Heads(r, heads) && IsCutAt(r, heads, p)
    ensures var tail := p.top + p.body + p.rest;
            Locate(tail, heads) == Some(0) && Section(r, tail, heads) == Some(Span(|p.top|, |p.top| + |p.body|))
  {
    var tail := p.top + p.body + p.rest;
    assert forall k | 0 <= k < |tail| ::
        tail[k] == if k < |p.top| then p.top[k] else if k < |p.top| + |p.body| then p.body[k - |p.top|]
                   else p.rest[k - |p.top| - |p.body|];
    assert Only(tail, heads, 0);
    LocateIs(tail, heads, 0);
    assert BodyStart(r, tail, 0) == |p.top|;
    NextSectionIs(r, tail, |p.top|, |p.top| + |p.body|);
  }

  lemma CutReads(r: Rules, heads: string -> bool, p: Parts)
    requires Heads(r, heads) && IsCutAt(r, heads, p)
    ensures Read(r, p.Text(), heads) == Some(p.body)
  {
    var tail := p.top + p.body + p.rest;
    CutTail(r, heads, p);
    SectionRight(r, p.before, tail, heads);
    SlicesOf(p);
  }

  /** The cut at given places. */
  function CutAt(lines: Lines, h: nat, start: nat, end: nat): (p: Parts)
    requires h <= start <= end <= |lines|
    ensures p.Text() == lines
  {
    var p := Parts(lines[..h], lines[h..start], lines[start..end], lines[end..]);
    assert p.Text() == lines;
    p
  }

  lemma ReadIsCut(r: Rules, heads: string -> bool, lines: Lines) returns (p: Parts)
    requires Heads(r, heads) && Read(r, lines, heads).Some?
    ensures IsCutAt(r, heads, p) && p.Text() == lines && Read(r, lines, heads) == Some(p.body)
  {
    var h, s := Locate(lines, heads).value, Section(r, lines, heads).value;
    p := CutAt(lines, h, s.start, s.end);
    assert p.top[0] == lines[h];
  }

  /** A section is read exactly where the text can be cut around it, and then its body is what is read. */
  lemma ReadExactly(r: Rules, heads: string -> bool, lines: Lines, body: Lines)
    requires Heads(r, heads)
    ensures Read(r, lines, heads) == Some(body) <==>
            exists p: Parts :: IsCutAt(r, heads, p) && p.Text() == lines && p.body == body
  {
    if Read(r, lines, heads) == Some(body) {
      var p := ReadIsCut(r, heads, lines);
    }
    if p: Parts :| IsCutAt(r, heads, p) && p.Text() == lines && p.body == body {
      CutReads(r, heads, p);
    }
  }

  // ---------------------------------------------------------------- the update on lines

  /** The historical section is there, once, and frozen. */
  ghost predicate HistoryFrozen(r: Rules, lines: Lines) {
    exists h: Parts :: IsCutAt(r, r.isHistory, h) && h.Text() == lines && r.isFrozen(h.body)
  }

  /** What is written for a text cut around its Unreleased section: the body is replaced, and where the historical heading
      is not mentioned the old body follows below it. */
  function Rewritten(r: Rules, p: Parts, mentioned: bool, body: Lines): Lines {
    if mentioned then p.before + p.top + body + p.rest
    else p.before + p.top + body + ([r.marker, BLANK] + p.body + p.rest)
  }

  ghost predicate MayRewrite(r: Rules, p: Parts, lines: Lines) {
    && IsCutAt(r, r.isUnreleased, p) && p.Text() == lines
    && if Mentioned(r, lines) then HistoryFrozen(r, lines) else r.isFrozen(p.body)
  }

  lemma HistoryFrozenMeaning(r: Rules, lines: Lines)
    requires Heads(r, r.isHistory)
    ensures HistoryFrozen(r, lines) <==> ReadHistory(r, lines).Some? && r.isFrozen(ReadHistory(r, lines).value)
  {
    if ReadHistory(r, lines).Some? {
      ReadExactly(r, r.isHistory, lines, ReadHistory(r, lines).value);
    }
    if h: Parts :| IsCutAt(r, r.isHistory, h) && h.Text() == lines && r.isFrozen(h.body) {
      CutReads(r, r.isHistory, h);
    }
  }

  lemma CutSpan(r: Rules, p: Parts, lines: Lines)
    requires Sound(r) && IsCutAt(r, r.isUnreleased, p) && p.Text() == lines
    ensures Section(r, lines, r.isUnreleased) ==
            Some(Span(|p.before| + |p.top|, |p.before| + |p.top| + |p.body|))
    ensures lines[..|p.before| + |p.top|] == p.before + p.top
  {
    CutIsParts(r, p);
    SlicesOf(p);
    PrefixParts(lines, |p.before|, |p.before| + |p.top|);
  }

  lemma PrefixParts(lines: Lines, b: nat, c: nat)
    requires b <= c <= |lines|
    ensures lines[..c] == lines[..b] + lines[b..c]
  {
  }

  lemma RewriteIsUpdate(r: Rules, lines: Lines, body: Lines, p: Parts)
    requires Sound(r) && IsCutAt(r, r.isUnreleased, p) && p.Text() == lines
    ensures MayRewrite(r, p, lines) <==> Update(r, lines, body).Some?
    ensures MayRewrite(r, p, lines) ==> Update(r, lines, body) == Some(Rewritten(r, p, Mentioned(r, lines), body))
  {
    CutSpan(r, p, lines);
    SlicesOf(p);
    HistoryFrozenMeaning(r, lines);
  }

  /** An update succeeds exactly where the text can be cut around its only Unreleased section and the history is frozen,
      and writes exactly the parts with the new body. */
  lemma UpdateExactly(r: Rules, lines: Lines, body: Lines, result: Lines)
    requires Sound(r)
    ensures Update(r, lines, body) == Some(result) <==>
            exists p: Parts :: MayRewrite(r, p, lines) && result == Rewritten(r, p, Mentioned(r, lines), body)
  {
    if Update(r, lines, body) == Some(result) {
      var p := ReadIsCut(r, r.isUnreleased, lines);
      RewriteIsUpdate(r, lines, body, p);
    }
    if p: Parts :| MayRewrite(r, p, lines) && result == Rewritten(r, p, Mentioned(r, lines), body) {
      RewriteIsUpdate(r, lines, body, p);
    }
  }

  // ---------------------------------------------------------------- the update on text

  /** The document cut around its Unreleased section, where the frozen digest allows an update. */
  ghost predicate MayApply(u: Regeneration, p: Parts, document: string)
    requires ValidPolicy(u.policy)
  {
    var r := RulesOf(u.policy, u.hash);
    && IsCutAt(r, line => IsHeading("Unreleased", line), p) && p.Text() == LinesOf(document)
    && if Occurs(Marker(u.policy), document) then
         exists h: Parts ::
           && IsCutAt(r, line => IsHeading(HistoryTitle(u.policy), line), h) && h.Text() == LinesOf(document)
           && u.hash(Flatten(h.body)) == u.policy.digest
       else u.hash(Flatten(p.body)) == u.policy.digest
  }

  /** The document with the rendered text in place of the old body, which becomes history where the marker was not there:
      everything else is copied. */
  function Applied(u: Regeneration, p: Parts, document: string, text: string): string
    requires ValidPolicy(u.policy)
  {
    if Occurs(Marker(u.policy), document) then Flatten(p.before) + Flatten(p.top) + text + Flatten(p.rest)
    else Flatten(p.before) + Flatten(p.top) + text + (Marker(u.policy) + "\n" + Flatten(p.body) + Flatten(p.rest))
  }

  lemma RewrittenText(u: Regeneration, p: Parts, document: string)
    requires Sane(u) && u.Text().Some?
    ensures Flatten(Rewritten(u.Rules(), p, HasMarker(u, document), LinesOf(u.Text().value))) ==
            Applied(u, p, document, u.Text().value)
  {
    var text, body := u.Text().value, LinesOf(u.Text().value);
    var marker := u.Rules().marker;
    FlattenLinesOf(text);
    FlattenConcat(p.before, p.top);
    FlattenConcat(p.before + p.top, body);
    if HasMarker(u, document) {
      FlattenConcat(p.before + p.top + body, p.rest);
    } else {
      var head := [marker, BLANK];
      FlattenConcat(head, p.body);
      FlattenConcat(head + p.body, p.rest);
      FlattenConcat(p.before + p.top + body, head + p.body + p.rest);
      MarkerLines(marker);
    }
  }

  lemma MarkerLines(marker: string)
    ensures Flatten([marker, BLANK]) == marker + "\n"
  {
    assert [marker, BLANK][1..] == [BLANK] && [BLANK][1..] == [];
    assert Flatten([BLANK]) == BLANK;
  }

  lemma HistoryMeaning(u: Regeneration, document: string)
    requires Sane(u) && u.Text().Some?
    ensures HistoryFrozen(u.Rules(), LinesOf(document)) <==>
            exists h: Parts ::
              && IsCutAt(u.Rules(), line => IsHeading(HistoryTitle(u.policy), line), h) && h.Text() == LinesOf(document)
              && u.hash(Flatten(h.body)) == u.policy.digest
  {
    var r := u.Rules();
    forall h: Parts ensures IsCutAt(r, r.isHistory, h) <==>
        IsCutAt(r, line => IsHeading(HistoryTitle(u.policy), line), h)
    {
    }
  }

  lemma MayApplyMeaning(u: Regeneration, p: Parts, document: string)
    requires Sane(u) && u.Text().Some?
    ensures MayApply(u, p, document) <==> MayRewrite(u.Rules(), p, LinesOf(document))
  {
    MarkerIsMentioned(u, document);
    HistoryMeaning(u, document);
  }

  lemma TextOnCut(r: Rules, document: string, text: string, p: Parts)
    requires Sound(r) && '\r' !in document && IsCutAt(r, r.isUnreleased, p) && p.Text() == LinesOf(document)
    ensures UpdateText(r, document, text) ==
            if MayRewrite(r, p, LinesOf(document)) then
              Some(Flatten(Rewritten(r, p, Mentioned(r, LinesOf(document)), LinesOf(text))))
            else None
  {
    RewriteIsUpdate(r, LinesOf(document), LinesOf(text), p);
  }

  lemma ApplyIsUpdateText(u: Regeneration, document: string, text: string)
    requires u.Text() == Some(text)
    ensures u.Apply(document) == UpdateText(u.Rules(), document, text)
  {
  }

  lemma ApplyOnCut(u: Regeneration, document: string, p: Parts)
    requires Sane(u) && u.Text().Some? && '\r' !in document
    requires IsCutAt(u.Rules(), u.Rules().isUnreleased, p) && p.Text() == LinesOf(document)
    ensures u.Apply(document) ==
            if MayApply(u, p, document) then Some(Applied(u, p, document, u.Text().value)) else None
  {
    RulesAreSound(u.policy, u.hash);
    ApplyIsUpdateText(u, document, u.Text().value);
    TextOnCut(u.Rules(), document, u.Text().value, p);
    MarkerIsMentioned(u, document);
    MayApplyMeaning(u, p, document);
    RewrittenText(u, p, document);
  }

  lemma AppliedIsCut(u: Regeneration, document: string) returns (p: Parts)
    requires Sane(u) && u.Apply(document).Some?
    ensures IsCutAt(u.Rules(), u.Rules().isUnreleased, p) && p.Text() == LinesOf(document)
  {
    RulesAreSound(u.policy, u.hash);
    p := ReadIsCut(u.Rules(), u.Rules().isUnreleased, LinesOf(document));
  }

  lemma AppliedIsRewrite(u: Regeneration, document: string) returns (p: Parts)
    requires Sane(u) && u.Apply(document).Some?
    ensures MayApply(u, p, document) && u.Apply(document) == Some(Applied(u, p, document, u.Text().value))
  {
    p := AppliedIsCut(u, document);
    ApplyOnCut(u, document, p);
  }

  lemma RewriteIsApplied(u: Regeneration, document: string, p: Parts)
    requires Sane(u) && u.Text().Some? && '\r' !in document && MayApply(u, p, document)
    ensures u.Apply(document) == Some(Applied(u, p, document, u.Text().value))
  {
    MayApplyMeaning(u, p, document);
    ApplyOnCut(u, document, p);
  }

  /** `update_changelog` succeeds exactly where the text can be rendered, the document has no carriage return and can be
      cut around its only Unreleased section, and the digest is that of the history, or of the old body where the marker
      does not occur; and it writes exactly the parts of the document with the rendered text. */
  lemma ApplyExactly(u: Regeneration, document: string, result: string)
    requires Sane(u)
    ensures u.Apply(document) == Some(result) <==>
            && u.Text().Some? && '\r' !in document
            && exists p: Parts :: MayApply(u, p, document) && result == Applied(u, p, document, u.Text().value)
  {
    if u.Apply(document) == Some(result) {
      var p := AppliedIsRewrite(u, document);
    }
    if u.Text().Some? && '\r' !in document {
      if p: Parts :| MayApply(u, p, document) && result == Applied(u, p, document, u.Text().value) {
        RewriteIsApplied(u, document, p);
      }
    }
  }
}

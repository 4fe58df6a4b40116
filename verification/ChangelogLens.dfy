/** `section` and `update_changelog` over lines: reading one section of the changelog, and replacing one while the
    historical one is kept. */
module ChangelogLens {
  import opened Text
  import opened LineText

  /** How lines are recognised, and when a historical body is the frozen one. `isUnreleased` and `isHistory` are
      the canonical headings of the two titles; `mentions` holds of a line that ends with the text of the
      historical heading. */
  datatype Rules = Rules(
    isSection: string -> bool,
    isBlank: string -> bool,
    isUnreleased: string -> bool,
    isHistory: string -> bool,
    mentions: string -> bool,
    marker: string,
    isFrozen: Lines -> bool)

  const BLANK := "\n"

  ghost predicate Sound(r: Rules) {
    && (forall l :: r.isUnreleased(l) || r.isHistory(l) ==> r.isSection(l))
    && (forall l :: !(r.isUnreleased(l) && r.isHistory(l)))
    && (forall l :: r.isSection(l) ==> !r.isBlank(l))
    && r.isBlank(BLANK) && !r.mentions(BLANK)
    && r.isHistory(r.marker) && r.mentions(r.marker)
  }

  /** A rendered body: it opens with text, holds no section heading, and never spells the historical one. */
  ghost predicate Clean(r: Rules, body: Lines) {
    && body != [] && !r.isBlank(body[0])
    && forall i | 0 <= i < |body| :: !r.isSection(body[i]) && !r.mentions(body[i])
  }

  // ---------------------------------------------------------------- reading a section

  predicate Only(lines: Lines, heads: string -> bool, i: nat) {
    i < |lines| && heads(lines[i]) && forall k | 0 <= k < |lines| && heads(lines[k]) :: k == i
  }

  /** The one line that is this heading, if there is exactly one. */
  function Locate(lines: Lines, heads: string -> bool): (r: Option<nat>)
    ensures r.Some? ==> Only(lines, heads, r.value)
    ensures r.None? ==> forall i: nat :: !Only(lines, heads, i)
  {
    if i: nat :| i < |lines| && Only(lines, heads, i) then Some(i) else None
  }

  datatype Span = Span(start: nat, end: nat)

  /** The body starts after the heading and at most one blank line. */
  function BodyStart(r: Rules, lines: Lines, heading: nat): (start: nat)
    requires heading < |lines|
    ensures heading < start <= |lines|
  {
    if heading + 1 < |lines| && r.isBlank(lines[heading + 1]) then heading + 2 else heading + 1
  }

  /** The body ends at the next section heading of any title, or with the text. */
  function NextSection(r: Rules, lines: Lines, start: nat): (end: nat)
    requires start <= |lines|
    ensures start <= end <= |lines|
    ensures forall k | start <= k < end :: !r.isSection(lines[k])
    ensures end < |lines| ==> r.isSection(lines[end])
    decreases |lines| - start
  {
    if start == |lines| || r.isSection(lines[start]) then start else NextSection(r, lines, start + 1)
  }

  /** `section(document, title)`: where its body lies; `None` where the source raises. */
  function Section(r: Rules, lines: Lines, heads: string -> bool): (s: Option<Span>)
    ensures s.Some? ==> s.value.start <= s.value.end <= |lines|
  {
    var heading := Locate(lines, heads);
    if heading.None? then None
    else
      var start := BodyStart(r, lines, heading.value);
      Some(Span(start, NextSection(r, lines, start)))
  }

  /** The body of a section. */
  function Read(r: Rules, lines: Lines, heads: string -> bool): Option<Lines> {
    var s := Section(r, lines, heads);
    if s.None? then None else Some(lines[s.value.start..s.value.end])
  }

  function ReadUnreleased(r: Rules, lines: Lines): Option<Lines> {
    Read(r, lines, r.isUnreleased)
  }

  function ReadHistory(r: Rules, lines: Lines): Option<Lines> {
    Read(r, lines, r.isHistory)
  }

  /** The text of the historical heading occurs somewhere. */
  predicate Mentioned(r: Rules, lines: Lines) {
    exists i | 0 <= i < |lines| :: r.mentions(lines[i])
  }

  predicate HasHistoryHeading(r: Rules, lines: Lines) {
    exists i | 0 <= i < |lines| :: r.isHistory(lines[i])
  }

  // ---------------------------------------------------------------- replacing a section

  /** `update_changelog(document, ...)` with the rendered body. */
  function Update(r: Rules, lines: Lines, body: Lines): Option<Lines> {
    var s := Section(r, lines, r.isUnreleased);
    if s.None? then None
    else
      var prefix, current, rest := lines[..s.value.start], lines[s.value.start..s.value.end], lines[s.value.end..];
      if Mentioned(r, lines) then
        var history := ReadHistory(r, lines);
        if history.None? || !r.isFrozen(history.value) then None else Some(prefix + body + rest)
      else if !r.isFrozen(current) then None
      else Some(prefix + body + ([r.marker, BLANK] + current + rest))
  }

  // ---------------------------------------------------------------- how a section moves under an edit

  /** No line is this heading. */
  predicate Without(lines: Lines, heads: string -> bool) {
    forall k | 0 <= k < |lines| :: !heads(lines[k])
  }

  /** Empty, or starting with a section heading: where the section before it ends. */
  predicate Opens(r: Rules, lines: Lines) {
    lines == [] || r.isSection(lines[0])
  }

  lemma WithoutConcat(a: Lines, b: Lines, heads: string -> bool)
    ensures Without(a + b, heads) <==> Without(a, heads) && Without(b, heads)
  {
    var lines := a + b;
    assert forall k | 0 <= k < |a| :: lines[k] == a[k];
    assert forall k | 0 <= k < |b| :: lines[|a| + k] == b[k];
  }

  lemma OnlyLeft(a: Lines, b: Lines, heads: string -> bool, i: nat)
    requires Only(a, heads, i) && Without(b, heads)
    ensures Only(a + b, heads, i)
  {
    var lines := a + b;
    assert lines[i] == a[i];
    assert forall k | 0 <= k < |lines| :: lines[k] == if k < |a| then a[k] else b[k - |a|];
  }

  lemma OnlyRight(a: Lines, b: Lines, heads: string -> bool, i: nat)
    requires Only(b, heads, i) && Without(a, heads)
    ensures Only(a + b, heads, |a| + i)
  {
    var lines := a + b;
    assert lines[|a| + i] == b[i];
    assert forall k | 0 <= k < |lines| :: lines[k] == if k < |a| then a[k] else b[k - |a|];
  }

  lemma OnlyOf(a: Lines, b: Lines, heads: string -> bool, i: nat)
    requires Only(a + b, heads, i)
    ensures (Only(a, heads, i) && Without(b, heads)) || (|a| <= i && Only(b, heads, i - |a|) && Without(a, heads))
  {
    var lines := a + b;
    assert forall k | 0 <= k < |a| :: lines[k] == a[k];
    assert forall k | 0 <= k < |b| :: lines[|a| + k] == b[k];
  }

  lemma LocateIs(lines: Lines, heads: string -> bool, i: nat)
    requires Only(lines, heads, i)
    ensures Locate(lines, heads) == Some(i)
  {
  }

  lemma NextSectionIs(r: Rules, lines: Lines, start: nat, end: nat)
    requires start <= end <= |lines|
    requires forall k | start <= k < end :: !r.isSection(lines[k])
    requires end < |lines| ==> r.isSection(lines[end])
    ensures NextSection(r, lines, start) == end
  {
    var found := NextSection(r, lines, start);
  }

  /** A section is not affected by what is added after its text, if that starts with a heading. */
  lemma SectionLeft(r: Rules, a: Lines, b: Lines, heads: string -> bool)
    requires Sound(r) && Opens(r, b) && Without(b, heads) && Section(r, a, heads).Some?
    ensures Section(r, a + b, heads) == Section(r, a, heads)
  {
    var lines, i, s := a + b, Locate(a, heads).value, Section(r, a, heads).value;
    OnlyLeft(a, b, heads, i);
    LocateIs(lines, heads, i);
    assert b != [] ==> lines[|a|] == b[0];
    assert BodyStart(r, lines, i) == s.start;
    assert forall k | s.start <= k < s.end :: lines[k] == a[k];
    NextSectionIs(r, lines, s.start, s.end);
  }

  /** A section moves with its text. */
  lemma SectionRight(r: Rules, a: Lines, b: Lines, heads: string -> bool)
    requires Without(a, heads) && Section(r, b, heads).Some?
    ensures var s := Section(r, b, heads).value;
            Section(r, a + b, heads) == Some(Span(|a| + s.start, |a| + s.end))
  {
    var lines, i, s := a + b, Locate(b, heads).value, Section(r, b, heads).value;
    OnlyRight(a, b, heads, i);
    LocateIs(lines, heads, |a| + i);
    assert i + 1 < |b| ==> lines[|a| + i + 1] == b[i + 1];
    assert forall k | s.start <= k < s.end :: lines[|a| + k] == b[k];
    assert s.end < |b| ==> lines[|a| + s.end] == b[s.end];
    forall k | |a| + s.start <= k < |a| + s.end ensures !r.isSection(lines[k]) {
      assert lines[k] == b[k - |a|];
    }
    NextSectionIs(r, lines, |a| + s.start, |a| + s.end);
  }

  /** What a text of two parts gives for a section, where the second part starts with a heading. */
  function ReadEither(r: Rules, a: Lines, b: Lines, heads: string -> bool): Option<Lines> {
    if Without(b, heads) then Read(r, a, heads) else if Without(a, heads) then Read(r, b, heads) else None
  }

  lemma ReadConcat(r: Rules, a: Lines, b: Lines, heads: string -> bool)
    requires Sound(r) && Opens(r, b)
    ensures Read(r, a + b, heads) == ReadEither(r, a, b, heads)
  {
    var lines := a + b;
    if Section(r, lines, heads).Some? {
      var i := Locate(lines, heads).value;
      OnlyOf(a, b, heads, i);
      if Only(a, heads, i) {
        LocateIs(a, heads, i);
      } else {
        LocateIs(b, heads, i - |a|);
        assert !Without(b, heads);
      }
    }
    if Without(b, heads) && Section(r, a, heads).Some? {
      SectionLeft(r, a, b, heads);
      var s := Section(r, a, heads).value;
      assert lines[s.start..s.end] == a[s.start..s.end];
    } else if Without(a, heads) && Section(r, b, heads).Some? {
      SectionRight(r, a, b, heads);
      var s := Section(r, b, heads).value;
      assert lines[|a| + s.start..|a| + s.end] == b[s.start..s.end];
      assert !Without(b, heads);
    }
  }

  // ---------------------------------------------------------------- the parts of a changelog

  /** A changelog cut around the body of its Unreleased section: what precedes the heading, the heading with the
      blank line after it, the body, and the sections that follow. */
  datatype Parts = Parts(before: Lines, top: Lines, body: Lines, rest: Lines) {
    function Text(): Lines {
      before + (top + body + rest)
    }
  }

  ghost predicate Cut(r: Rules, p: Parts) {
    && Without(p.before, r.isUnreleased) && Without(p.rest, r.isUnreleased)
    && 1 <= |p.top| <= 2 && r.isUnreleased(p.top[0]) && (|p.top| == 2 ==> r.isBlank(p.top[1]))
    && Without(p.body, r.isSection) && Opens(r, p.rest)
    && (|p.top| == 1 && p.body != [] ==> !r.isBlank(p.body[0]))
  }

  /** Every text with one Unreleased heading is cut so. */
  function PartsOf(r: Rules, lines: Lines): (p: Parts)
    requires Section(r, lines, r.isUnreleased).Some?
    ensures p.Text() == lines
  {
    var h, s := Locate(lines, r.isUnreleased).value, Section(r, lines, r.isUnreleased).value;
    var p := Parts(lines[..h], lines[h..s.start], lines[s.start..s.end], lines[s.end..]);
    assert p.Text() == lines;
    p
  }

  lemma PartsAreCut(r: Rules, lines: Lines)
    requires Sound(r) && Section(r, lines, r.isUnreleased).Some?
    ensures Cut(r, PartsOf(r, lines))
  {
  }

  lemma TailSection(r: Rules, p: Parts)
    requires Sound(r) && Cut(r, p)
    ensures var tail := p.top + p.body + p.rest;
            && Locate(tail, r.isUnreleased) == Some(0)
            && Section(r, tail, r.isUnreleased) == Some(Span(|p.top|, |p.top| + |p.body|))
  {
    var tail := p.top + p.body + p.rest;
    assert forall k | 0 <= k < |tail| ::
        tail[k] == if k < |p.top| then p.top[k] else if k < |p.top| + |p.body| then p.body[k - |p.top|]
                   else p.rest[k - |p.top| - |p.body|];
    assert Only(tail, r.isUnreleased, 0);
    LocateIs(tail, r.isUnreleased, 0);
    assert BodyStart(r, tail, 0) == |p.top|;
    NextSectionIs(r, tail, |p.top|, |p.top| + |p.body|);
  }

  /** The cut is the only one: it is where the section is found. */
  lemma CutIsParts(r: Rules, p: Parts)
    requires Sound(r) && Cut(r, p)
    ensures Section(r, p.Text(), r.isUnreleased) ==
            Some(Span(|p.before| + |p.top|, |p.before| + |p.top| + |p.body|))
    ensures PartsOf(r, p.Text()) == p
  {
    var tail := p.top + p.body + p.rest;
    TailSection(r, p);
    SectionRight(r, p.before, tail, r.isUnreleased);
    OnlyRight(p.before, tail, r.isUnreleased, 0);
    LocateIs(p.Text(), r.isUnreleased, |p.before|);
    SlicesOf(p);
  }

  lemma SlicesOf(p: Parts)
    ensures var text, b, c, d := p.Text(), |p.before|, |p.before| + |p.top|, |p.before| + |p.top| + |p.body|;
            text[..b] == p.before && text[b..c] == p.top && text[c..d] == p.body && text[d..] == p.rest
  {
    var inner := p.top + p.body;
    var tail := inner + p.rest;
    var text, b := p.before + tail, |p.before|;
    assert text[..b] == p.before && text[b..] == tail;
    assert tail[..|inner|] == inner && tail[|inner|..] == p.rest;
    assert text[b..b + |p.top|] == tail[..|p.top|] == inner[..|p.top|] == p.top;
    assert text[b + |p.top|..b + |inner|] == tail[|p.top|..|inner|] == inner[|p.top|..] == p.body;
    assert text[b + |inner|..] == tail[|inner|..];
  }

  /** The history is read from the text around the Unreleased section. */
  lemma HistoryAround(r: Rules, p: Parts)
    requires Sound(r) && Cut(r, p)
    ensures ReadHistory(r, p.Text()) == ReadEither(r, p.before, p.rest, r.isHistory)
  {
    var unreleased := p.top + p.body;
    var tail := unreleased + p.rest;
    WithoutConcat(p.top, p.body, r.isHistory);
    assert Without(unreleased, r.isHistory);
    assert tail[0] == p.top[0];
    ReadConcat(r, p.before, tail, r.isHistory);
    ReadConcat(r, unreleased, p.rest, r.isHistory);
    WithoutConcat(unreleased, p.rest, r.isHistory);
    assert Without(p.rest, r.isHistory) ==> Locate(p.rest, r.isHistory).None?;
  }

  /** The two forms an updated changelog takes. */
  function Kept(p: Parts, body: Lines): Parts {
    p.(body := body)
  }

  function Moved(r: Rules, p: Parts, body: Lines): Parts {
    p.(body := body, rest := [r.marker, BLANK] + p.body + p.rest)
  }

  lemma TextIs(p: Parts)
    ensures p.Text() == p.before + p.top + p.body + p.rest
  {
  }

  lemma StartIs(r: Rules, lines: Lines)
    requires Section(r, lines, r.isUnreleased).Some?
    ensures var p, s := PartsOf(r, lines), Section(r, lines, r.isUnreleased).value;
            && lines[..s.start] == p.before + p.top && lines[s.start..s.end] == p.body && lines[s.end..] == p.rest
  {
  }

  lemma UpdateIs(r: Rules, lines: Lines, body: Lines)
    requires Update(r, lines, body).Some?
    ensures Section(r, lines, r.isUnreleased).Some?
    ensures var p := PartsOf(r, lines);
            Update(r, lines, body).value == (if Mentioned(r, lines) then Kept(p, body) else Moved(r, p, body)).Text()
  {
    var p := PartsOf(r, lines);
    StartIs(r, lines);
    TextIs(Kept(p, body));
    TextIs(Moved(r, p, body));
  }

  lemma KeptIsCut(r: Rules, p: Parts, body: Lines)
    requires Cut(r, p) && Clean(r, body)
    ensures Cut(r, Kept(p, body))
  {
  }

  lemma MovedIsCut(r: Rules, p: Parts, body: Lines)
    requires Sound(r) && Cut(r, p) && Clean(r, body)
    ensures Cut(r, Moved(r, p, body))
  {
    WithoutConcat([r.marker, BLANK] + p.body, p.rest, r.isUnreleased);
    WithoutConcat([r.marker, BLANK], p.body, r.isUnreleased);
  }

  // ---------------------------------------------------------------- the laws

  /** Put-get: after an update the Unreleased section holds exactly the rendered text. */
  lemma UpdateThenRead(r: Rules, lines: Lines, body: Lines)
    requires Sound(r) && Clean(r, body) && Update(r, lines, body).Some?
    ensures ReadUnreleased(r, Update(r, lines, body).value) == Some(body)
  {
    UpdateIs(r, lines, body);
    PartsAreCut(r, lines);
    var p := PartsOf(r, lines);
    KeptIsCut(r, p, body);
    MovedIsCut(r, p, body);
    var q := if Mentioned(r, lines) then Kept(p, body) else Moved(r, p, body);
    CutIsParts(r, q);
  }

  /** Where the historical heading is spelled out, an update leaves the historical section as it was. */
  lemma UpdateKeepsHistory(r: Rules, lines: Lines, body: Lines)
    requires Sound(r) && Clean(r, body) && Update(r, lines, body).Some? && Mentioned(r, lines)
    ensures ReadHistory(r, Update(r, lines, body).value) == ReadHistory(r, lines)
    ensures ReadHistory(r, lines).Some? && r.isFrozen(ReadHistory(r, lines).value)
  {
    UpdateIs(r, lines, body);
    PartsAreCut(r, lines);
    var p := PartsOf(r, lines);
    KeptIsCut(r, p, body);
    HistoryAround(r, p);
    HistoryAround(r, Kept(p, body));
  }

  /** Otherwise the section that was Unreleased becomes the historical one, and is found again exactly when no
      other heading of that title was there. */
  lemma UpdateMovesHistory(r: Rules, lines: Lines, body: Lines)
    requires Sound(r) && Clean(r, body) && Update(r, lines, body).Some? && !Mentioned(r, lines)
    ensures r.isFrozen(ReadUnreleased(r, lines).value)
    ensures ReadHistory(r, Update(r, lines, body).value) ==
            if HasHistoryHeading(r, lines) then None else ReadUnreleased(r, lines)
  {
    UpdateIs(r, lines, body);
    PartsAreCut(r, lines);
    var p := PartsOf(r, lines);
    MovedIsCut(r, p, body);
    var q := Moved(r, p, body);
    HistoryAround(r, q);
    var history := [r.marker, BLANK] + p.body;
    assert q.rest == history + p.rest;
    ReadConcat(r, history, p.rest, r.isHistory);
    ReadMoved(r, p.body);
    assert history[0] == r.marker && q.rest[0] == r.marker;
    HeadingsAround(r, p);
  }

  lemma ReadMoved(r: Rules, body: Lines)
    requires Sound(r) && Without(body, r.isSection)
    ensures ReadHistory(r, [r.marker, BLANK] + body) == Some(body)
  {
    var history := [r.marker, BLANK] + body;
    assert forall k | 0 <= k < |body| :: history[k + 2] == body[k];
    assert history[0] == r.marker && history[1] == BLANK;
    WithoutConcat([BLANK], body, r.isHistory);
    OnlyLeft([r.marker], [BLANK] + body, r.isHistory, 0);
    assert history == [r.marker] + ([BLANK] + body);
    LocateIs(history, r.isHistory, 0);
    assert BodyStart(r, history, 0) == 2;
    NextSectionIs(r, history, 2, |history|);
    assert Section(r, history, r.isHistory) == Some(Span(2, |history|));
    assert history[2..|history|] == body;
  }

  lemma HeadingsAround(r: Rules, p: Parts)
    requires Sound(r) && Cut(r, p)
    ensures HasHistoryHeading(r, p.Text()) <==> !Without(p.before, r.isHistory) || !Without(p.rest, r.isHistory)
  {
    WithoutConcat(p.before, p.top + p.body + p.rest, r.isHistory);
    WithoutConcat(p.top + p.body, p.rest, r.isHistory);
    WithoutConcat(p.top, p.body, r.isHistory);
  }

  /** The historical heading is spelled out outside the body of the Unreleased section. */
  predicate MentionedAround(r: Rules, lines: Lines)
    requires Section(r, lines, r.isUnreleased).Some?
  {
    var p := PartsOf(r, lines);
    Mentioned(r, p.before) || Mentioned(r, p.top) || Mentioned(r, p.rest)
  }

  lemma MentionedParts(r: Rules, p: Parts)
    requires Sound(r) && Cut(r, p)
    ensures Mentioned(r, p.Text()) <==>
            Mentioned(r, p.before) || Mentioned(r, p.top) || Mentioned(r, p.rest) || Mentioned(r, p.body)
  {
    WithoutConcat(p.before, p.top + p.body + p.rest, r.mentions);
    WithoutConcat(p.top + p.body, p.rest, r.mentions);
    WithoutConcat(p.top, p.body, r.mentions);
  }

  /** The changelogs on which a second update is no different from a first one. */
  predicate Settles(r: Rules, lines: Lines)
    requires Section(r, lines, r.isUnreleased).Some?
  {
    MentionedAround(r, lines) || !(Mentioned(r, lines) || HasHistoryHeading(r, lines))
  }

  /** Put-put: a second update equals applying only the second, exactly on the changelogs that settle. */
  lemma UpdateTwice(r: Rules, lines: Lines, first: Lines, second: Lines)
    requires Sound(r) && Clean(r, first) && Clean(r, second) && Update(r, lines, first).Some?
    ensures Update(r, Update(r, lines, first).value, second) == Update(r, lines, second) <==> Settles(r, lines)
  {
    UpdateIs(r, lines, first);
    PartsAreCut(r, lines);
    var p := PartsOf(r, lines);
    MentionedParts(r, p);
    if Mentioned(r, lines) {
      TwiceKept(r, p, first, second);
    } else {
      TwiceMoved(r, p, first, second);
    }
  }

  lemma UpdateKept(r: Rules, p: Parts, body: Lines)
    requires Sound(r) && Cut(r, p) && Mentioned(r, p.Text())
    ensures Update(r, p.Text(), body) ==
            var history := ReadHistory(r, p.Text());
            if history.None? || !r.isFrozen(history.value) then None else Some(Kept(p, body).Text())
  {
    CutIsParts(r, p);
    if Update(r, p.Text(), body).Some? {
      UpdateIs(r, p.Text(), body);
    }
  }

  lemma UpdateMoved(r: Rules, p: Parts, body: Lines)
    requires Sound(r) && Cut(r, p) && !Mentioned(r, p.Text())
    ensures Update(r, p.Text(), body) == if !r.isFrozen(p.body) then None else Some(Moved(r, p, body).Text())
  {
    CutIsParts(r, p);
    if Update(r, p.Text(), body).Some? {
      UpdateIs(r, p.Text(), body);
    }
  }

  lemma TwiceKept(r: Rules, p: Parts, first: Lines, second: Lines)
    requires Sound(r) && Clean(r, first) && Clean(r, second) && Cut(r, p)
    requires Update(r, p.Text(), first).Some? && Mentioned(r, p.Text())
    ensures Update(r, Kept(p, first).Text(), second) == Update(r, p.Text(), second) <==>
            Mentioned(r, p.before) || Mentioned(r, p.top) || Mentioned(r, p.rest)
  {
    UpdateKept(r, p, first);
    UpdateKept(r, p, second);
    var q := Kept(p, first);
    KeptIsCut(r, p, first);
    HistoryAround(r, p);
    HistoryAround(r, q);
    MentionedParts(r, q);
    if Mentioned(r, q.Text()) {
      UpdateKept(r, q, second);
      assert Kept(q, second) == Kept(p, second);
    } else {
      UpdateMoved(r, q, second);
      assert |Moved(r, q, second).Text()| > |Kept(p, second).Text()|;
    }
  }

  lemma TwiceMoved(r: Rules, p: Parts, first: Lines, second: Lines)
    requires Sound(r) && Clean(r, first) && Clean(r, second) && Cut(r, p)
    requires Update(r, p.Text(), first).Some? && !Mentioned(r, p.Text())
    ensures Update(r, Moved(r, p, first).Text(), second) == Update(r, p.Text(), second) <==>
            !HasHistoryHeading(r, p.Text())
  {
    UpdateMoved(r, p, first);
    UpdateMoved(r, p, second);
    var q := Moved(r, p, first);
    MovedIsCut(r, p, first);
    MentionedParts(r, q);
    assert q.rest[0] == r.marker;
    CutIsParts(r, p);
    UpdateMovesHistory(r, p.Text(), first);
    UpdateKept(r, q, second);
    assert Kept(q, second) == Moved(r, p, second);
  }

  /** An updated changelog settles whenever the one before did, so that the whole history of regenerations is
      the last one. */
  lemma UpdateSettles(r: Rules, lines: Lines, body: Lines)
    requires Sound(r) && Clean(r, body) && Update(r, lines, body).Some? && Settles(r, lines)
    ensures Section(r, Update(r, lines, body).value, r.isUnreleased).Some?
    ensures Settles(r, Update(r, lines, body).value)
  {
    UpdateIs(r, lines, body);
    PartsAreCut(r, lines);
    var p := PartsOf(r, lines);
    MentionedParts(r, p);
    var q := if Mentioned(r, lines) then Kept(p, body) else Moved(r, p, body);
    KeptIsCut(r, p, body);
    MovedIsCut(r, p, body);
    CutIsParts(r, q);
    assert !Mentioned(r, lines) ==> q.rest[0] == r.marker;
  }

  /** A changelog with a historical heading other than the marker, and no marker, can be updated once. */
  lemma StrayUnsettles(r: Rules, p: Parts, body: Lines)
    requires Sound(r) && Cut(r, p) && !Mentioned(r, p.Text()) && HasHistoryHeading(r, p.Text()) && r.isFrozen(p.body)
    ensures Update(r, p.Text(), body).Some? && Section(r, p.Text(), r.isUnreleased).Some?
    ensures !Settles(r, p.Text())
  {
    CutIsParts(r, p);
    MentionedParts(r, p);
    UpdateMoved(r, p, body);
  }

  /** Any number of updates, one after another. */
  function UpdateAll(r: Rules, lines: Lines, bodies: seq<Lines>): Option<Lines>
    decreases |bodies|
  {
    if bodies == [] then Some(lines)
    else
      var next := Update(r, lines, bodies[0]);
      if next.None? then None else UpdateAll(r, next.value, bodies[1..])
  }

  /** On a changelog that settles, a run of updates equals its last one alone. */
  lemma {:induction false} OnlyTheLastUpdateCounts(r: Rules, lines: Lines, bodies: seq<Lines>)
    requires Sound(r) && bodies != [] && forall i | 0 <= i < |bodies| :: Clean(r, bodies[i])
    requires Section(r, lines, r.isUnreleased).Some? && Settles(r, lines)
    ensures UpdateAll(r, lines, bodies) == Update(r, lines, bodies[|bodies| - 1])
    decreases |bodies|
  {
    var n := |bodies|;
    SameRefusal(r, lines, bodies[0], bodies[n - 1]);
    if n > 1 && Update(r, lines, bodies[0]).Some? {
      UpdateSettles(r, lines, bodies[0]);
      OnlyTheLastUpdateCounts(r, Update(r, lines, bodies[0]).value, bodies[1..]);
      UpdateTwice(r, lines, bodies[0], bodies[n - 1]);
    } else if n == 1 {
      assert UpdateAll(r, lines, bodies) == UpdateAll(r, lines, [bodies[0]]);
    }
  }

  /** Whether an update is refused does not depend on the text it would write. */
  lemma SameRefusal(r: Rules, lines: Lines, first: Lines, second: Lines)
    ensures Update(r, lines, first).None? == Update(r, lines, second).None?
  {
  }
}

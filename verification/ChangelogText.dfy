/** Sections of a changelog as text: what ChangelogLens does to lines, done to the document they make up. */
module ChangelogText {
  import opened ChangelogLens
  import opened LineText
  import opened Text

  /** Headings and blank lines end in a line feed, and nothing that is written holds a carriage return. */
  ghost predicate Ended(r: Rules) {
    && (forall l :: r.isUnreleased(l) || r.isBlank(l) ==> l != "" && l[|l| - 1] == '\n')
    && IsLine(r.marker) && '\r' !in r.marker
  }

  /** `section(document, title)`: the body, `None` where the source raises. */
  function ReadText(r: Rules, document: string, heads: string -> bool): Option<string> {
    if '\r' in document then None
    else
      var body := Read(r, LinesOf(document), heads);
      if body.None? then None else Some(Flatten(body.value))
  }

  /** `update_changelog(document, ...)` with the rendered text. */
  function UpdateText(r: Rules, document: string, rendered: string): Option<string> {
    if '\r' in document then None
    else
      var lines := Update(r, LinesOf(document), LinesOf(rendered));
      if lines.None? then None else Some(Flatten(lines.value))
  }

  // ---------------------------------------------------------------- whole lines

  lemma HeadIsWhole(r: Rules, lines: Lines)
    requires Ended(r) && Proper(lines) && Section(r, lines, r.isUnreleased).Some?
    ensures AllLines(lines[..Section(r, lines, r.isUnreleased).value.start])
  {
    var s := Section(r, lines, r.isUnreleased).value.start;
    if s < |lines| {
      ProperParts(lines, s);
    } else {
      var last := lines[s - 1];
      assert last[|last| - 1] == '\n';
      assert lines[..s] == lines[..s - 1] + [last];
    }
  }

  lemma ProperKept(head: Lines, body: Lines, rest: Lines)
    requires AllLines(head) && AllLines(body) && Proper(rest)
    ensures Proper(head + body + rest)
  {
    AllConcat(head, body);
    ProperConcat(head + body, rest);
  }

  lemma ProperMoved(head: Lines, body: Lines, marker: string, current: Lines, rest: Lines)
    requires AllLines(head) && AllLines(body) && IsLine(marker) && Proper(current + rest)
    ensures Proper(head + body + ([marker, BLANK] + current + rest))
  {
    assert [marker, BLANK] + current + rest == [marker, BLANK] + (current + rest);
    ProperConcat([marker, BLANK], current + rest);
    ProperKept(head, body, [marker, BLANK] + current + rest);
  }

  lemma UpdateIsProper(r: Rules, lines: Lines, body: Lines)
    requires Sound(r) && Ended(r) && Proper(lines) && AllLines(body) && Update(r, lines, body).Some?
    ensures Proper(Update(r, lines, body).value)
  {
    var s := Section(r, lines, r.isUnreleased).value;
    var head, current, rest := lines[..s.start], lines[s.start..s.end], lines[s.end..];
    HeadIsWhole(r, lines);
    if Mentioned(r, lines) {
      ProperParts(lines, s.end);
      ProperKept(head, body, rest);
    } else {
      ProperParts(lines, s.start);
      assert current + rest == lines[s.start..];
      ProperMoved(head, body, r.marker, current, rest);
    }
  }

  lemma AllConcat(a: Lines, b: Lines)
    requires AllLines(a) && AllLines(b)
    ensures AllLines(a + b)
  {
  }

  predicate NoReturns(lines: Lines) {
    forall i | 0 <= i < |lines| :: '\r' !in lines[i]
  }

  lemma {:induction false} FlattenNoReturns(lines: Lines)
    ensures '\r' !in Flatten(lines) <==> NoReturns(lines)
  {
    if lines != [] {
      FlattenNoReturns(lines[1..]);
      var rest := lines[1..];
      assert forall i | 0 <= i < |rest| :: rest[i] == lines[i + 1];
      assert forall i | 0 < i < |lines| :: lines[i] == rest[i - 1];
    }
  }

  lemma NoReturnsSlice(lines: Lines, a: nat, b: nat)
    requires a <= b <= |lines| && NoReturns(lines)
    ensures NoReturns(lines[a..b])
  {
    var part := lines[a..b];
    forall i | 0 <= i < |part| ensures '\r' !in part[i] {
      assert part[i] == lines[a + i];
    }
  }

  lemma UpdateNoReturns(r: Rules, lines: Lines, body: Lines)
    requires Ended(r) && NoReturns(lines) && NoReturns(body) && Update(r, lines, body).Some?
    ensures NoReturns(Update(r, lines, body).value)
  {
    var s := Section(r, lines, r.isUnreleased).value;
    NoReturnsSlice(lines, 0, s.start);
    NoReturnsSlice(lines, s.start, s.end);
    NoReturnsSlice(lines, s.end, |lines|);
    assert NoReturns([r.marker, BLANK]);
  }

  /** The lines of an updated text are the updated lines. */
  lemma UpdatedLines(r: Rules, document: string, rendered: string)
    requires Sound(r) && Ended(r) && AllLines(LinesOf(rendered)) && '\r' !in rendered
    requires UpdateText(r, document, rendered).Some?
    ensures var result := UpdateText(r, document, rendered).value;
            '\r' !in result && Some(LinesOf(result)) == Update(r, LinesOf(document), LinesOf(rendered))
  {
    var lines, body := LinesOf(document), LinesOf(rendered);
    var result := Update(r, lines, body).value;
    FlattenLinesOf(document);
    FlattenLinesOf(rendered);
    UpdateIsProper(r, lines, body);
    LinesOfFlatten(result);
    FlattenNoReturns(lines);
    FlattenNoReturns(body);
    UpdateNoReturns(r, lines, body);
    FlattenNoReturns(result);
  }

  // ---------------------------------------------------------------- the historical heading as a substring

  predicate OccursAt(part: string, s: string, i: nat) {
    i + |part| <= |s| && s[i..i + |part|] == part
  }

  /** Python's `part in s`. */
  predicate Occurs(part: string, s: string) {
    exists i: nat :: i <= |s| && OccursAt(part, s, i)
  }

  predicate SomeEndsWith(lines: Lines, suffix: string) {
    exists i | 0 <= i < |lines| :: EndsWith(lines[i], suffix)
  }

  /** An occurrence of a whole line ends where a line of the text ends. */
  lemma OccursInFirst(part: string, line: string, rest: string, i: nat)
    requires IsLine(part) && (IsLine(line) || (IsTail(line) && rest == ""))
    requires OccursAt(part, line + rest, i)
    ensures EndsWith(line, part) || (|line| <= i && OccursAt(part, rest, i - |line|))
  {
    var s, end := line + rest, i + |part| - 1;
    assert s[i..i + |part|][|part| - 1] == s[end] == '\n';
    if |line| <= i {
      assert s[i..i + |part|] == rest[i - |line|..i - |line| + |part|];
    } else if IsLine(line) {
      var last := |line| - 1;
      assert s[last] == line[last] == '\n';
      if end == last {
        assert line[i..] == s[i..i + |part|];
      } else {
        assert false;
      }
    } else {
      assert false;
    }
  }

  lemma OccursInEither(part: string, line: string, rest: string)
    requires IsLine(part) && (IsLine(line) || (IsTail(line) && rest == ""))
    ensures Occurs(part, line + rest) <==> EndsWith(line, part) || Occurs(part, rest)
  {
    var s := line + rest;
    if Occurs(part, s) {
      var i: nat :| i <= |s| && OccursAt(part, s, i);
      OccursInFirst(part, line, rest, i);
    }
    if EndsWith(line, part) {
      assert s[|line| - |part|..|line|] == line[|line| - |part|..];
      assert OccursAt(part, s, |line| - |part|);
    } else if Occurs(part, rest) {
      var i: nat :| i <= |rest| && OccursAt(part, rest, i);
      SliceAfter(line, rest, i, |part|);
      assert OccursAt(part, s, |line| + i);
    }
  }

  lemma {:induction false} OccursIsSuffix(part: string, lines: Lines)
    requires IsLine(part) && Proper(lines)
    ensures Occurs(part, Flatten(lines)) <==> SomeEndsWith(lines, part)
  {
    if lines != [] {
      ProperTail(lines);
      OccursIsSuffix(part, lines[1..]);
      OccursInEither(part, lines[0], Flatten(lines[1..]));
      TailEndsWith(lines, part);
    }
  }

  lemma TailEndsWith(lines: Lines, part: string)
    requires lines != []
    ensures SomeEndsWith(lines, part) <==> EndsWith(lines[0], part) || SomeEndsWith(lines[1..], part)
  {
    var rest := lines[1..];
    assert forall i | 0 <= i < |rest| :: rest[i] == lines[i + 1];
    assert forall i | 0 < i < |lines| :: lines[i] == rest[i - 1];
  }

  // ---------------------------------------------------------------- the laws on text

  /** A text of clean whole lines. */
  ghost predicate CleanText(r: Rules, s: string) {
    Clean(r, LinesOf(s)) && AllLines(LinesOf(s)) && '\r' !in s
  }

  lemma TextReads(r: Rules, document: string, text: string)
    requires Sound(r) && Ended(r) && CleanText(r, text) && UpdateText(r, document, text).Some?
    ensures ReadText(r, UpdateText(r, document, text).value, r.isUnreleased) == Some(text)
  {
    UpdatedLines(r, document, text);
    UpdateThenRead(r, LinesOf(document), LinesOf(text));
    FlattenLinesOf(text);
  }

  lemma TextKeeps(r: Rules, document: string, text: string)
    requires Sound(r) && Ended(r) && CleanText(r, text) && UpdateText(r, document, text).Some?
    requires Mentioned(r, LinesOf(document))
    ensures ReadText(r, UpdateText(r, document, text).value, r.isHistory) == ReadText(r, document, r.isHistory)
    ensures ReadText(r, document, r.isHistory).Some? && r.isFrozen(ReadHistory(r, LinesOf(document)).value)
  {
    UpdatedLines(r, document, text);
    UpdateKeepsHistory(r, LinesOf(document), LinesOf(text));
  }

  lemma TextWasFrozen(r: Rules, document: string, text: string)
    requires UpdateText(r, document, text).Some? && !Mentioned(r, LinesOf(document))
    ensures ReadText(r, document, r.isUnreleased).Some? && r.isFrozen(ReadUnreleased(r, LinesOf(document)).value)
  {
  }

  lemma TextMoves(r: Rules, document: string, text: string)
    requires Sound(r) && Ended(r) && CleanText(r, text) && UpdateText(r, document, text).Some?
    requires !Mentioned(r, LinesOf(document))
    ensures ReadText(r, UpdateText(r, document, text).value, r.isHistory) ==
            if HasHistoryHeading(r, LinesOf(document)) then None else ReadText(r, document, r.isUnreleased)
  {
    UpdatedLines(r, document, text);
    UpdateMovesHistory(r, LinesOf(document), LinesOf(text));
  }

  /** Updated texts are equal exactly when their lines are. */
  lemma SameUpdate(r: Rules, one: string, two: string, text: string)
    requires Sound(r) && Ended(r) && CleanText(r, text) && '\r' !in one && '\r' !in two
    ensures UpdateText(r, one, text) == UpdateText(r, two, text) <==>
            Update(r, LinesOf(one), LinesOf(text)) == Update(r, LinesOf(two), LinesOf(text))
  {
    if UpdateText(r, one, text).Some? && UpdateText(r, two, text).Some? {
      UpdatedLines(r, one, text);
      UpdatedLines(r, two, text);
    }
  }

  lemma TextTwice(r: Rules, document: string, first: string, second: string)
    requires Sound(r) && Ended(r) && CleanText(r, first) && CleanText(r, second)
    requires UpdateText(r, document, first).Some?
    ensures ReadText(r, document, r.isUnreleased).Some?
    ensures UpdateText(r, UpdateText(r, document, first).value, second) == UpdateText(r, document, second) <==>
            Settles(r, LinesOf(document))
  {
    var middle := UpdateText(r, document, first).value;
    UpdatedLines(r, document, first);
    SameUpdate(r, middle, document, second);
    UpdateTwice(r, LinesOf(document), LinesOf(first), LinesOf(second));
  }

  /** Whether an update is refused does not depend on the text it would write. */
  lemma TextRefusal(r: Rules, document: string, first: string, second: string)
    ensures UpdateText(r, document, first).None? <==> UpdateText(r, document, second).None?
  {
    SameRefusal(r, LinesOf(document), LinesOf(first), LinesOf(second));
  }
}

/** What the text of `render_unreleased` (scripts/change_fragments.py) holds: every fragment under the heading of its
    category, with its summary, identifier and details, and nothing else but the fixed wording. */
module ChangelogContents {
  import opened ChangelogRender
  import opened Ordering
  import opened Text

  // ---------------------------------------------------------------- escaped text

  function Escaped(c: char): string {
    if c in "\\|`[]()" then ['\\', c] else EscapeHtml(c)
  }

  predicate IsSpecial(c: char) {
    c == '\\' || c == '|' || c == '`' || c == '[' || c == ']' || c == '(' || c == ')'
  }

  lemma SpecialMeaning(c: char)
    ensures c in "\\|`[]()" <==> IsSpecial(c)
  {
    var specials := "\\|`[]()";
    assert specials[0] == '\\' && specials[1] == '|' && specials[2] == '`' && specials[3] == '[';
    assert specials[4] == ']' && specials[5] == '(' && specials[6] == ')';
  }

  lemma EscapedLength(c: char)
    ensures |Escaped(c)| == if IsSpecial(c) then 2 else if c == '&' then 5 else if c == '<' || c == '>' then 4 else 1
    ensures IsSpecial(c) ==> Escaped(c)[0] == '\\' && Escaped(c)[1] == c
    ensures c == '&' ==> Escaped(c)[0] == '&' && Escaped(c)[1] == 'a'
    ensures c == '<' ==> Escaped(c)[0] == '&' && Escaped(c)[1] == 'l'
    ensures c == '>' ==> Escaped(c)[0] == '&' && Escaped(c)[1] == 'g'
    ensures !IsSpecial(c) && c != '&' && c != '<' && c != '>' ==> Escaped(c)[0] == c
  {
    SpecialMeaning(c);
  }

  /** An escaped character is recognised at the front of any text. */
  lemma EscapedUnique(c: char, d: char, x: string, y: string)
    requires Escaped(c) + x == Escaped(d) + y
    ensures c == d && x == y
  {
    var a, b := Escaped(c), Escaped(d);
    EscapedLength(c);
    EscapedLength(d);
    assert (a + x)[0] == a[0] && (b + y)[0] == b[0];
    assert |a| > 1 ==> (a + x)[1] == a[1];
    assert |b| > 1 ==> (b + y)[1] == b[1];
    assert x == (a + x)[|a|..] && y == (b + y)[|b|..];
  }

  /** Escaping loses nothing. */
  lemma {:induction false} PublicTextInjective(a: string, b: string)
    requires PublicText(a) == PublicText(b)
    ensures a == b
  {
    if a != "" {
      EscapedLength(a[0]);
    }
    if b != "" {
      EscapedLength(b[0]);
    }
    if a != "" && b != "" {
      EscapedUnique(a[0], b[0], PublicText(a[1..]), PublicText(b[1..]));
      PublicTextInjective(a[1..], b[1..]);
      assert a == [a[0]] + a[1..] == [b[0]] + b[1..];
    }
  }

  /** A character that would open or close markup is gone, or stands after a backslash. */
  predicate Escapes(s: string, i: nat)
    requires i < |s|
  {
    s[i] != '<' && s[i] != '>' && (IsSpecial(s[i]) && s[i] != '\\' ==> i > 0 && s[i - 1] == '\\')
  }

  lemma EscapesHead(c: char)
    ensures forall i | 0 <= i < |Escaped(c)| :: Escapes(Escaped(c), i)
  {
    EscapedLength(c);
  }

  lemma {:induction false} PublicTextEscapes(s: string)
    ensures forall i | 0 <= i < |PublicText(s)| :: Escapes(PublicText(s), i)
  {
    if s != "" {
      var head, tail := Escaped(s[0]), PublicText(s[1..]);
      PublicTextEscapes(s[1..]);
      EscapesHead(s[0]);
      forall i | 0 <= i < |head + tail| ensures Escapes(head + tail, i) {
        if i < |head| {
          assert Escapes(head, i);
        } else {
          assert Escapes(tail, i - |head|);
        }
      }
    }
  }

  // ---------------------------------------------------------------- the lines of a fragment

  /** Each text escaped. */
  function EscapedTexts(items: seq<string>): seq<string> {
    seq(|items|, i requires 0 <= i < |items| => PublicText(items[i]))
  }

  /** The two lines of a fragment: its summary and identifier, then its details. */
  predicate ShowsFragment(first: string, second: string, f: Fragment) {
    && first == "- " + PublicText(f.summary) + " (`" + f.id + "`)."
    && second == "  " + Join(EscapedTexts(f.details), " ")
  }

  lemma {:induction false} PublicTextsAre(items: seq<string>)
    ensures PublicTexts(items) == EscapedTexts(items)
  {
    if items != [] {
      PublicTextsAre(items[1..]);
    }
  }

  lemma LinesShow(f: Fragment)
    ensures ShowsFragment(SummaryLine(f), DetailLine(f), f)
  {
    PublicTextsAre(f.details);
  }

  /** The gap before the identifier stands nowhere in escaped text, so that the line tells the two apart. */
  lemma GapAfter(a: string, b: string, x: string, y: string)
    requires PublicText(a) + " (`" + x == PublicText(b) + " (`" + y
    ensures |PublicText(b)| <= |PublicText(a)|
  {
    var p, q := PublicText(a), PublicText(b);
    PublicTextEscapes(b);
    var left, right := p + " (`" + x, q + " (`" + y;
    forall k | 0 <= k < |q| ensures !(right[k] == ' ' && right[k + 1] == '(') {
      if k + 1 < |q| {
        assert Escapes(q, k + 1) && right[k] == q[k] && right[k + 1] == q[k + 1];
      } else {
        assert right[k + 1] == ' ';
      }
    }
    assert left[|p|] == ' ' && left[|p| + 1] == '(';
  }

  /** The summary line of a fragment gives its summary and its identifier back. */
  lemma SummaryLineInjective(f: Fragment, g: Fragment)
    requires SummaryLine(f) == SummaryLine(g)
    ensures f.summary == g.summary && f.id == g.id
  {
    var x, y := f.id + "`).", g.id + "`).";
    var p, q := PublicText(f.summary), PublicText(g.summary);
    assert SummaryLine(f) == "- " + (p + " (`" + x) && SummaryLine(g) == "- " + (q + " (`" + y);
    assert p + " (`" + x == SummaryLine(f)[2..] == SummaryLine(g)[2..] == q + " (`" + y;
    GapAfter(f.summary, g.summary, x, y);
    GapAfter(g.summary, f.summary, y, x);
    var whole := p + " (`" + x;
    assert p == whole[..|p|] == q;
    assert x == whole[|p| + 3..] == y;
    assert f.id == x[..|x| - 3] == y[..|y| - 3] == g.id;
    PublicTextInjective(f.summary, g.summary);
  }

  // ---------------------------------------------------------------- the lines of a category

  /** The fragments of a category, by identifier. */
  ghost predicate IsSelection(values: seq<Fragment>, c: Category, selected: seq<Fragment>) {
    AscendingBy(selected, IdKey) && forall f :: f in selected <==> f in values && f.category == c
  }

  /** From here on the lines are a heading, a blank, two lines for each fragment and a blank. */
  predicate ShowsAt(lines: seq<string>, at: nat, heading: string, selected: seq<Fragment>) {
    && at + 2 * |selected| + 3 <= |lines|
    && lines[at] == heading && lines[at + 1] == "" && lines[at + 2 * |selected| + 2] == ""
    && forall k | 0 <= k < |selected| :: ShowsFragment(lines[at + 2 * k + 2], lines[at + 2 * k + 3], selected[k])
  }

  /** The lines are the blocks of these categories, one after another, and of a category without fragments nothing. */
  ghost predicate Laid(w: Wording, values: seq<Fragment>, order: seq<Category>, lines: seq<string>) {
    if order == [] then lines == []
    else
      var last := order[|order| - 1];
      exists n: nat, selected: seq<Fragment> ::
        && n <= |lines| && IsSelection(values, last, selected) && Laid(w, values, order[..|order| - 1], lines[..n])
        && if selected == [] then n == |lines|
           else ShowsAt(lines, n, w.heading(last), selected) && |lines| == n + 2 * |selected| + 3
  }

  lemma {:induction false} FragmentLinesAt(selected: seq<Fragment>)
    ensures |FragmentLines(selected)| == 2 * |selected|
    ensures forall k | 0 <= k < |selected| ::
              ShowsFragment(FragmentLines(selected)[2 * k], FragmentLines(selected)[2 * k + 1], selected[k])
  {
    if selected != [] {
      var n := |selected| - 1;
      FragmentLinesAt(selected[..n]);
      LinesShow(selected[n]);
      var lines := FragmentLines(selected);
      forall k | 0 <= k < |selected| ensures ShowsFragment(lines[2 * k], lines[2 * k + 1], selected[k]) {
        if k < n {
          assert lines[2 * k] == FragmentLines(selected[..n])[2 * k];
          assert lines[2 * k + 1] == FragmentLines(selected[..n])[2 * k + 1];
        }
      }
    }
  }

  lemma BlockShows(before: seq<string>, heading: string, selected: seq<Fragment>)
    requires selected != []
    ensures ShowsAt(before + Block(heading, selected), |before|, heading, selected)
    ensures |Block(heading, selected)| == 2 * |selected| + 3
  {
    FragmentLinesAt(selected);
    var lines, n := before + Block(heading, selected), |before|;
    forall k | 0 <= k < |selected|
      ensures ShowsFragment(lines[n + 2 * k + 2], lines[n + 2 * k + 3], selected[k])
    {
      assert lines[n + 2 * k + 2] == FragmentLines(selected)[2 * k];
      assert lines[n + 2 * k + 3] == FragmentLines(selected)[2 * k + 1];
    }
  }

  lemma SelectionOf(values: seq<Fragment>, c: Category)
    requires DistinctIds(values)
    ensures IsSelection(values, c, SortById(OfCategory(values, c)))
  {
    CategoryDistinct(values, c);
    SortAscending(OfCategory(values, c));
  }

  lemma {:induction false} BlocksAreLaid(w: Wording, values: seq<Fragment>, order: seq<Category>)
    requires DistinctIds(values)
    ensures Laid(w, values, order, Blocks(w, values, order))
  {
    if order != [] {
      var k := |order| - 1;
      var before, selected := Blocks(w, values, order[..k]), SortById(OfCategory(values, order[k]));
      BlocksAreLaid(w, values, order[..k]);
      SelectionOf(values, order[k]);
      var lines := before + Block(w.heading(order[k]), selected);
      assert lines[..|before|] == before;
      if selected != [] {
        BlockShows(before, w.heading(order[k]), selected);
      }
    }
  }

  // ---------------------------------------------------------------- the text

  lemma {:induction false} StrippedEnd(c: Characters, s: string)
    ensures forall i | |StripEnd(c, s)| <= i < |s| :: c.isSpace(s[i])
  {
    if s != "" && c.isSpace(s[|s| - 1]) {
      StrippedEnd(c, s[..|s| - 1]);
    }
  }

  /** The text is the lines, one below the other, with the blanks at the end replaced by two line breaks. */
  ghost predicate IsPage(c: Characters, lines: seq<string>, text: string) {
    exists n: nat ::
      && n <= |Join(lines, "\n")| && text == Join(lines, "\n")[..n] + "\n\n"
      && (forall i | n <= i < |Join(lines, "\n")| :: c.isSpace(Join(lines, "\n")[i]))
      && (n > 0 ==> !c.isSpace(Join(lines, "\n")[n - 1]))
  }

  lemma StrippedIsPage(c: Characters, lines: seq<string>)
    ensures IsPage(c, lines, StripEnd(c, Join(lines, "\n")) + "\n\n")
  {
    var whole := Join(lines, "\n");
    StrippedEnd(c, whole);
    assert StripEnd(c, whole) == whole[..|StripEnd(c, whole)|];
  }

  /** The rendered text holds the opening, one block for each category that has fragments, in order, each with all its
      fragments by identifier, and the closing. */
  lemma RenderedExactly(c: Characters, w: Wording, values: seq<Fragment>, o: Options) returns (blocks: seq<string>)
    requires Render(c, w, values, o).Some?
    ensures Laid(w, values, [Security, Added, Changed, Fixed, Deprecated, Removed], blocks)
    ensures IsPage(c, [w.opening, ""] + (if o.includeLegacy then w.legacy(o.commit[..8]) else []) + blocks
                      + ((if o.exempt != [] then w.exempt else [])
                         + (if values == [] && !o.includeLegacy && o.exempt == [] then [w.none, ""] else [])),
                   Render(c, w, values, o).value)
  {
    SizeDistinct(values);
    BlocksAreLaid(w, values, CATEGORIES);
    blocks := Blocks(w, values, CATEGORIES);
    StrippedIsPage(c, Opening(w, o) + blocks + Closing(w, values, o));
  }

  /** So every fragment stands below the heading of its category, with only fragments of that category between. */
  lemma {:induction false} LaidShows(
      w: Wording, values: seq<Fragment>, order: seq<Category>, lines: seq<string>, f: Fragment)
    returns (at: nat, selected: seq<Fragment>)
    requires Laid(w, values, order, lines) && f in values && f.category in order
    ensures ShowsAt(lines, at, w.heading(f.category), selected) && IsSelection(values, f.category, selected)
    ensures f in selected
  {
    var k := |order| - 1;
    var n: nat, chosen: seq<Fragment> :|
      && n <= |lines| && IsSelection(values, order[k], chosen) && Laid(w, values, order[..k], lines[..n])
      && if chosen == [] then n == |lines|
         else ShowsAt(lines, n, w.heading(order[k]), chosen) && |lines| == n + 2 * |chosen| + 3;
    if f.category == order[k] {
      at, selected := n, chosen;
    } else {
      assert order == order[..k] + [order[k]];
      at, selected := LaidShows(w, values, order[..k], lines[..n], f);
      ShownInPrefix(lines, n, at, w.heading(f.category), selected);
    }
  }

  lemma ShownInPrefix(lines: seq<string>, n: nat, at: nat, heading: string, selected: seq<Fragment>)
    requires n <= |lines| && ShowsAt(lines[..n], at, heading, selected)
    ensures ShowsAt(lines, at, heading, selected)
  {
    forall k | 0 <= k < |selected| ensures ShowsFragment(lines[at + 2 * k + 2], lines[at + 2 * k + 3], selected[k]) {
      assert lines[..n][at + 2 * k + 2] == lines[at + 2 * k + 2];
      assert lines[..n][at + 2 * k + 3] == lines[at + 2 * k + 3];
    }
  }
}

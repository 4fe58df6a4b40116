/** `render_unreleased` (scripts/change_fragments.py): the public text written from change fragments. */
module ChangelogRender {
  import opened LineText
  import opened Ordering
  import opened Text

  datatype Category = Security | Added | Changed | Fixed | Deprecated | Removed

  const CATEGORIES := [Security, Added, Changed, Fixed, Deprecated, Removed]

  /** A change fragment. `declared` stands for the checks on the compatibility and security fields, which are not
      rendered, and on a summary that claims no changes. */
  datatype Fragment = Fragment(
    id: string, category: Category, summary: string, details: seq<string>, limitations: seq<string>, declared: bool)

  /** The character tables and sizes a text is checked against. */
  datatype Characters = Characters(
    isSpace: char -> bool,
    isControl: char -> bool,
    size: string -> nat,
    jsonSize: Fragment -> nat)

  ghost predicate Standard(c: Characters) {
    c.isControl('\n') && c.isControl('\r') && c.isSpace('\n') && !c.isSpace('<')
  }

  // ---------------------------------------------------------------- validation

  /** `text(value, maximum)` */
  predicate ValidText(c: Characters, value: string, maximum: nat) {
    && (exists i | 0 <= i < |value| :: !c.isSpace(value[i]))
    && (forall i | 0 <= i < |value| :: !c.isControl(value[i]))
    && c.size(value) <= maximum
  }

  predicate AllOf(s: string, allowed: char -> bool) {
    s != "" && forall i | 0 <= i < |s| :: allowed(s[i])
  }

  predicate IsSlug(c: char) {
    IsDigit(c) || 'a' <= c <= 'z'
  }

  /** `IDENTIFIER`: `EVY`, a number and one or more slug words, joined by hyphens. */
  predicate MatchesIdentifier(id: string) {
    var parts := Split(id, '-');
    && |parts| >= 3
    && parts[0] == "EVY" && AllOf(parts[1], IsDigit) && 3 <= |parts[1]| <= 6
    && forall i | 2 <= i < |parts| :: AllOf(parts[i], IsSlug)
  }

  predicate IsIdentifier(id: string) {
    |id| <= 96 && MatchesIdentifier(id)
  }

  predicate IsCommit(s: string) {
    |s| == 40 && AllOf(s, IsHex)
  }

  predicate ValidItems(c: Characters, items: seq<string>, maximum: nat) {
    1 <= |items| <= maximum && forall i | 0 <= i < |items| :: ValidText(c, items[i], 4096)
  }

  /** `validate_fragment(value)` */
  predicate ValidFragment(c: Characters, f: Fragment) {
    && IsIdentifier(f.id) && ValidText(c, f.summary, 240)
    && ValidItems(c, f.details, 32) && ValidItems(c, f.limitations, 16)
    && f.declared
  }

  function Ids(values: seq<Fragment>): set<string> {
    set i | 0 <= i < |values| :: values[i].id
  }

  function TotalSize(c: Characters, values: seq<Fragment>): nat {
    if values == [] then 0 else c.jsonSize(values[0]) + TotalSize(c, values[1..])
  }

  predicate ValidFragments(c: Characters, values: seq<Fragment>) {
    && |values| <= 512
    && (forall i | 0 <= i < |values| :: ValidFragment(c, values[i]))
    && |Ids(values)| == |values|
    && TotalSize(c, values) <= 1024 * 1024
  }

  // ---------------------------------------------------------------- the lines

  function EscapeHtml(c: char): string {
    if c == '&' then "&amp;" else if c == '<' then "&lt;" else if c == '>' then "&gt;" else [c]
  }

  /** `public_text(value)`; no HTML entity holds a character that is escaped again. */
  function PublicText(s: string): string {
    if s == "" then ""
    else (if s[0] in "\\|`[]()" then ['\\', s[0]] else EscapeHtml(s[0])) + PublicText(s[1..])
  }

  function PublicTexts(items: seq<string>): seq<string> {
    if items == [] then [] else [PublicText(items[0])] + PublicTexts(items[1..])
  }

  /** The fixed wording: the first line, the heading of a category, the link to the historical section of a
      commit, the note on exempt deliveries, and the line for an empty section. */
  datatype Wording = Wording(
    opening: string,
    heading: Category -> string,
    legacy: string -> seq<string>,
    exempt: seq<string>,
    none: string)

  function SummaryLine(f: Fragment): string {
    "- " + PublicText(f.summary) + " (`" + f.id + "`)."
  }

  function DetailLine(f: Fragment): string {
    "  " + Join(PublicTexts(f.details), " ")
  }

  function FragmentLines(selected: seq<Fragment>): seq<string> {
    if selected == [] then []
    else
      var last := selected[|selected| - 1];
      FragmentLines(selected[..|selected| - 1]) + [SummaryLine(last), DetailLine(last)]
  }

  /** The fragments of one category, in the order given. */
  function OfCategory(values: seq<Fragment>, c: Category): (r: seq<Fragment>)
    ensures forall f :: f in r <==> f in values && f.category == c
  {
    if values == [] then []
    else (if values[0].category == c then [values[0]] else []) + OfCategory(values[1..], c)
  }

  function Insert(f: Fragment, sorted: seq<Fragment>): (r: seq<Fragment>)
    ensures |r| == |sorted| + 1
    ensures forall g :: g in r <==> g == f || g in sorted
  {
    if sorted == [] || Less(f.id, sorted[0].id) then [f] + sorted
    else [sorted[0]] + Insert(f, sorted[1..])
  }

  /** `sorted(values, key=id)`, stable. */
  function SortById(values: seq<Fragment>): (r: seq<Fragment>)
    ensures |r| == |values|
    ensures forall f :: f in r <==> f in values
  {
    if values == [] then [] else Insert(values[|values| - 1], SortById(values[..|values| - 1]))
  }

  function Block(heading: string, selected: seq<Fragment>): seq<string> {
    if selected == [] then [] else [heading, ""] + FragmentLines(selected) + [""]
  }

  function CategoryLines(w: Wording, values: seq<Fragment>, c: Category): seq<string> {
    Block(w.heading(c), SortById(OfCategory(values, c)))
  }

  /** The blocks of the categories in the order given. */
  function Blocks(w: Wording, values: seq<Fragment>, order: seq<Category>): seq<string> {
    if order == [] then []
    else
      var n := |order| - 1;
      Blocks(w, values, order[..n]) + CategoryLines(w, values, order[n])
  }

  /** Everything a rendering depends on beside the fragments. */
  datatype Options = Options(commit: string, includeLegacy: bool, exempt: seq<string>)

  predicate ValidOptions(o: Options) {
    IsCommit(o.commit) && |o.exempt| <= 512 && forall i | 0 <= i < |o.exempt| :: IsCommit(o.exempt[i])
  }

  function Opening(w: Wording, o: Options): seq<string>
    requires ValidOptions(o)
  {
    [w.opening, ""] + (if o.includeLegacy then w.legacy(o.commit[..8]) else [])
  }

  function Closing(w: Wording, values: seq<Fragment>, o: Options): seq<string> {
    (if o.exempt != [] then w.exempt else [])
    + (if values == [] && !o.includeLegacy && o.exempt == [] then [w.none, ""] else [])
  }

  function AllTheLines(w: Wording, values: seq<Fragment>, o: Options): seq<string>
    requires ValidOptions(o)
  {
    Opening(w, o) + Blocks(w, values, CATEGORIES) + Closing(w, values, o)
  }

  /** `s.rstrip()` */
  function StripEnd(c: Characters, s: string): (r: string)
    ensures r <= s && (r != "" ==> !c.isSpace(r[|r| - 1]))
  {
    if s != "" && c.isSpace(s[|s| - 1]) then StripEnd(c, s[..|s| - 1]) else s
  }

  /** `render_unreleased`; `None` where the source raises. */
  function Render(c: Characters, w: Wording, values: seq<Fragment>, o: Options): Option<string> {
    if ValidFragments(c, values) && ValidOptions(o) then
      Some(StripEnd(c, Join(AllTheLines(w, values, o), "\n")) + "\n\n")
    else None
  }

  method AddFragments(selected: seq<Fragment>, lines: seq<string>) returns (r: seq<string>)
    ensures r == lines + FragmentLines(selected)
  {
    r := lines;
    for i := 0 to |selected|
      invariant r == lines + FragmentLines(selected[..i])
    {
      PrefixStep(selected, i);
      r := r + [SummaryLine(selected[i])];
      r := r + [DetailLine(selected[i])];
    }
    assert selected[..|selected|] == selected;
  }

  method AddBlock(heading: string, selected: seq<Fragment>, lines: seq<string>) returns (r: seq<string>)
    ensures r == lines + Block(heading, selected)
  {
    r := lines;
    if selected != [] {
      r := r + [heading, ""];
      r := AddFragments(selected, r);
      r := r + [""];
    }
  }

  lemma BlocksStep(w: Wording, values: seq<Fragment>, order: seq<Category>, k: nat, lines: seq<string>)
    requires k < |order|
    ensures lines + Blocks(w, values, order[..k + 1]) ==
            lines + Blocks(w, values, order[..k]) + CategoryLines(w, values, order[k])
  {
    PrefixStep(order, k);
  }

  method AddBlocks(w: Wording, values: seq<Fragment>, order: seq<Category>, lines: seq<string>)
    returns (r: seq<string>)
    ensures r == lines + Blocks(w, values, order)
  {
    r := lines;
    var k := 0;
    while k < |order|
      invariant k <= |order| && r == lines + Blocks(w, values, order[..k])
    {
      BlocksStep(w, values, order, k, lines);
      r := AddBlock(w.heading(order[k]), SortById(OfCategory(values, order[k])), r);
      k := k + 1;
    }
    assert order[..k] == order;
  }

  /** The list of lines, as it is grown. */
  method GrowLines(w: Wording, values: seq<Fragment>, o: Options) returns (lines: seq<string>)
    requires ValidOptions(o)
    ensures lines == AllTheLines(w, values, o)
  {
    lines := AddBlocks(w, values, CATEGORIES, Opening(w, o));
    ghost var shown := lines;
    if o.exempt != [] {
      lines := lines + w.exempt;
    }
    if values == [] && !o.includeLegacy && o.exempt == [] {
      lines := lines + [w.none, ""];
    }
    assert lines == shown + Closing(w, values, o);
  }

  /** `render_unreleased` as the source computes it. */
  method RenderUnreleased(c: Characters, w: Wording, values: seq<Fragment>, o: Options) returns (r: Option<string>)
    ensures r == Render(c, w, values, o)
  {
    if !ValidFragments(c, values) || !ValidOptions(o) {
      return None;
    }
    var lines := GrowLines(w, values, o);
    return Some(StripEnd(c, Join(lines, "\n")) + "\n\n");
  }

  // ---------------------------------------------------------------- the order of fragments does not matter

  function IdKey(f: Fragment): seq<int> {
    Codes(f.id)
  }

  lemma {:induction false} InsertAscending(f: Fragment, sorted: seq<Fragment>)
    requires AscendingBy(sorted, IdKey) && forall g | g in sorted :: g.id != f.id
    ensures AscendingBy(Insert(f, sorted), IdKey)
  {
    if sorted != [] {
      LessTrichotomy(f.id, sorted[0].id);
      if Less(f.id, sorted[0].id) {
        forall j | 0 <= j < |sorted| ensures Less(f.id, sorted[j].id) {
          if j > 0 {
            assert Before(IdKey(sorted[0]), IdKey(sorted[j]));
            BeforeTransitive(Codes(f.id), Codes(sorted[0].id), Codes(sorted[j].id));
          }
        }
      } else {
        InsertAscending(f, sorted[1..]);
        var tail := Insert(f, sorted[1..]);
        forall j | 0 <= j < |tail| ensures Before(IdKey(sorted[0]), IdKey(tail[j])) {
          assert tail[j] in tail;
          if tail[j] != f {
            var i :| 0 <= i < |sorted[1..]| && sorted[1..][i] == tail[j];
            assert sorted[i + 1] == tail[j];
          }
        }
      }
    }
  }

  predicate DistinctIds(values: seq<Fragment>) {
    forall i, j | 0 <= i < j < |values| :: values[i].id != values[j].id
  }

  lemma {:induction false} SortAscending(values: seq<Fragment>)
    requires DistinctIds(values)
    ensures AscendingBy(SortById(values), IdKey)
  {
    if values != [] {
      var n := |values| - 1;
      var init := values[..n];
      SortAscending(init);
      forall g | g in SortById(init) ensures g.id != values[n].id {
        var i :| 0 <= i < |init| && init[i] == g;
        assert values[i] == g;
      }
      InsertAscending(values[n], SortById(init));
    }
  }

  lemma {:induction false} CategoryDistinct(values: seq<Fragment>, c: Category)
    requires DistinctIds(values)
    ensures DistinctIds(OfCategory(values, c))
  {
    if values != [] {
      CategoryDistinct(values[1..], c);
      var tail := OfCategory(values[1..], c);
      forall j | 0 <= j < |tail| ensures tail[j].id != values[0].id {
        assert tail[j] in values[1..];
      }
    }
  }

  lemma IdsStep(values: seq<Fragment>)
    requires values != []
    ensures var n := |values| - 1; Ids(values) == Ids(values[..n]) + {values[n].id}
  {
    var n := |values| - 1;
    assert forall i | 0 <= i < n :: values[..n][i] == values[i];
  }

  lemma DistinctStep(values: seq<Fragment>)
    requires values != []
    requires var n := |values| - 1; DistinctIds(values[..n]) && values[n].id !in Ids(values[..n])
    ensures DistinctIds(values)
  {
    var n := |values| - 1;
    assert forall i | 0 <= i < n :: values[i] == values[..n][i] && values[..n][i].id in Ids(values[..n]);
  }

  lemma {:induction false} SizeDistinct(values: seq<Fragment>)
    requires |Ids(values)| == |values|
    ensures DistinctIds(values)
  {
    if values != [] {
      var n := |values| - 1;
      IdsStep(values);
      IdsBounded(values[..n]);
      SizeDistinct(values[..n]);
      DistinctStep(values);
    }
  }

  lemma {:induction false} IdsBounded(values: seq<Fragment>)
    ensures |Ids(values)| <= |values|
  {
    if values != [] {
      IdsBounded(values[..|values| - 1]);
      IdsStep(values);
    } else {
      assert Ids(values) == {};
    }
  }

  lemma SameCategoryLines(w: Wording, a: seq<Fragment>, b: seq<Fragment>, c: Category)
    requires DistinctIds(a) && DistinctIds(b) && forall f :: f in a <==> f in b
    ensures CategoryLines(w, a, c) == CategoryLines(w, b, c)
  {
    var x, y := SortById(OfCategory(a, c)), SortById(OfCategory(b, c));
    CategoryDistinct(a, c);
    CategoryDistinct(b, c);
    SortAscending(OfCategory(a, c));
    SortAscending(OfCategory(b, c));
    assert Elements(x) == Elements(y);
    AscendingByUnique(x, y, IdKey);
  }

  lemma {:induction false} SameBlocks(w: Wording, a: seq<Fragment>, b: seq<Fragment>, order: seq<Category>)
    requires DistinctIds(a) && DistinctIds(b) && forall f :: f in a <==> f in b
    ensures Blocks(w, a, order) == Blocks(w, b, order)
  {
    if order != [] {
      var n := |order| - 1;
      SameBlocks(w, a, b, order[..n]);
      SameCategoryLines(w, a, b, order[n]);
    }
  }

  /** Whatever order the same fragments are listed in, the text is the same. */
  lemma OrderDoesNotMatter(c: Characters, w: Wording, a: seq<Fragment>, b: seq<Fragment>, o: Options)
    requires Render(c, w, a, o).Some? && Render(c, w, b, o).Some?
    requires forall f :: f in a <==> f in b
    ensures Render(c, w, a, o) == Render(c, w, b, o)
  {
    SizeDistinct(a);
    SizeDistinct(b);
    SameBlocks(w, a, b, CATEGORIES);
    assert a != [] ==> a[0] in b;
    assert b != [] ==> b[0] in a;
  }

  // ---------------------------------------------------------------- what the text can never hold

  /** The escaping leaves no bare parenthesis: one is escaped, opens a link target, or opens a code span. */
  predicate Tame(s: string) {
    forall i | 0 <= i < |s| :: TameAt(s, i)
  }

  predicate TameAt(s: string, i: nat)
    requires i < |s|
  {
    s[i] == '(' ==> (i > 0 && (s[i - 1] == '\\' || s[i - 1] == ']')) || (i + 1 < |s| && s[i + 1] == '`')
  }

  predicate OneLine(s: string) {
    forall i | 0 <= i < |s| :: s[i] != '\n' && s[i] != '\r'
  }

  predicate FineText(s: string) {
    Tame(s) && OneLine(s)
  }

  predicate FineLine(s: string) {
    FineText(s) && !StartsWith(s, "## ")
  }

  predicate FineLines(lines: seq<string>) {
    forall i | 0 <= i < |lines| :: FineLine(lines[i])
  }

  lemma TameConcat(a: string, b: string)
    requires Tame(a) && Tame(b)
    ensures Tame(a + b)
  {
    var s := a + b;
    forall i | 0 <= i < |s| ensures TameAt(s, i) {
      if i < |a| {
        assert TameAt(a, i);
      } else {
        assert TameAt(b, i - |a|);
      }
    }
  }

  lemma FineConcat(a: string, b: string)
    requires FineText(a) && FineText(b)
    ensures FineText(a + b)
  {
    TameConcat(a, b);
  }

  lemma {:induction false} FinePublic(s: string)
    requires OneLine(s)
    ensures FineText(PublicText(s))
  {
    if s != "" {
      FinePublic(s[1..]);
      var head := if s[0] in "\\|`[]()" then ['\\', s[0]] else EscapeHtml(s[0]);
      FineHead(s[0]);
      FineConcat(head, PublicText(s[1..]));
    }
  }

  lemma FineHead(c: char)
    requires c != '\n' && c != '\r'
    ensures FineText(if c in "\\|`[]()" then ['\\', c] else EscapeHtml(c))
  {
    assert '(' in "\\|`[]()" by {
      assert "\\|`[]()"[5] == '(';
    }
  }

  lemma {:induction false} FineJoin(c: Characters, items: seq<string>)
    requires Standard(c) && forall i | 0 <= i < |items| :: ValidText(c, items[i], 4096)
    ensures FineText(Join(PublicTexts(items), " "))
  {
    if items != [] {
      assert ValidText(c, items[0], 4096);
      FinePublic(items[0]);
      FineJoin(c, items[1..]);
      if |items| > 1 {
        FineConcat(PublicText(items[0]), " ");
        FineConcat(PublicText(items[0]) + " ", Join(PublicTexts(items[1..]), " "));
        assert PublicTexts(items)[1..] == PublicTexts(items[1..]);
      } else {
        assert PublicTexts(items) == [PublicText(items[0])];
      }
    }
  }

  lemma FineIdentifier(id: string)
    requires MatchesIdentifier(id)
    ensures FineText(id)
  {
    forall i | 0 <= i < |id| ensures id[i] != '(' && id[i] != '\n' && id[i] != '\r' {
      if id[i] != '-' {
        var k := SplitCharacters(id, '-', i);
        var part := Split(id, '-')[k];
        var j :| 0 <= j < |part| && part[j] == id[i];
        assert k >= 2 ==> AllOf(part, IsSlug);
      }
    }
  }

  lemma FineFragment(c: Characters, f: Fragment)
    requires Standard(c) && ValidFragment(c, f)
    ensures FineLine(SummaryLine(f)) && FineLine(DetailLine(f))
  {
    FinePublic(f.summary);
    FineIdentifier(f.id);
    FineConcat("- ", PublicText(f.summary));
    FineConcat("- " + PublicText(f.summary), " (`");
    FineConcat("- " + PublicText(f.summary) + " (`", f.id);
    FineConcat("- " + PublicText(f.summary) + " (`" + f.id, "`).");
    FineJoin(c, f.details);
    FineConcat("  ", Join(PublicTexts(f.details), " "));
    assert SummaryLine(f)[0] == '-' && DetailLine(f)[0] == ' ';
  }

  lemma FineLinesConcat(a: seq<string>, b: seq<string>)
    requires FineLines(a) && FineLines(b)
    ensures FineLines(a + b)
  {
  }

  lemma {:induction false} FineFragments(c: Characters, selected: seq<Fragment>)
    requires Standard(c) && forall i | 0 <= i < |selected| :: ValidFragment(c, selected[i])
    ensures FineLines(FragmentLines(selected))
  {
    if selected != [] {
      var n := |selected| - 1;
      FineFragments(c, selected[..n]);
      FineFragment(c, selected[n]);
      FineLinesConcat(FragmentLines(selected[..n]), [SummaryLine(selected[n]), DetailLine(selected[n])]);
    }
  }

  lemma {:induction false} FineBlocks(c: Characters, w: Wording, values: seq<Fragment>, order: seq<Category>)
    requires Standard(c) && FineWording(w) && forall i | 0 <= i < |values| :: ValidFragment(c, values[i])
    ensures FineLines(Blocks(w, values, order))
  {
    if order != [] {
      var n := |order| - 1;
      FineBlocks(c, w, values, order[..n]);
      var selected := SortById(OfCategory(values, order[n]));
      forall i | 0 <= i < |selected| ensures ValidFragment(c, selected[i]) {
        assert selected[i] in values;
      }
      FineFragments(c, selected);
      FineLinesConcat([w.heading(order[n]), ""], FragmentLines(selected));
      FineLinesConcat([w.heading(order[n]), ""] + FragmentLines(selected), [""]);
      FineLinesConcat(Blocks(w, values, order[..n]), CategoryLines(w, values, order[n]));
    }
  }

  /** The fixed wording holds no line break, no level-two heading and no bare parenthesis. */
  ghost predicate FineWording(w: Wording) {
    && FineLine(w.opening) && StartsWith(w.opening, "<") && FineLine(w.none) && FineLines(w.exempt)
    && (forall c :: FineLine(w.heading(c)))
    && forall commit :: AllOf(commit, IsHex) ==> FineLines(w.legacy(commit))
  }

  lemma FineAll(c: Characters, w: Wording, values: seq<Fragment>, o: Options)
    requires Standard(c) && FineWording(w) && ValidFragments(c, values) && ValidOptions(o)
    ensures FineLines(AllTheLines(w, values, o)) && AllTheLines(w, values, o)[0] == w.opening
  {
    assert AllOf(o.commit[..8], IsHex);
    var legacy := if o.includeLegacy then w.legacy(o.commit[..8]) else [];
    FineLinesConcat([w.opening, ""], legacy);
    FineBlocks(c, w, values, CATEGORIES);
    FineLinesConcat(Opening(w, o), Blocks(w, values, CATEGORIES));
    FineLinesConcat(if o.exempt != [] then w.exempt else [],
                    if values == [] && !o.includeLegacy && o.exempt == [] then [w.none, ""] else []);
    FineLinesConcat(Opening(w, o) + Blocks(w, values, CATEGORIES), Closing(w, values, o));
  }

  // ---------------------------------------------------------------- from lines to text

  /** No line of the text starts a level-two section. */
  predicate NoHeading(s: string) {
    forall i | 0 <= i < |s| && (i == 0 || s[i - 1] == '\n') :: !StartsWith(s[i..], "## ")
  }

  predicate NoReturn(s: string) {
    forall i | 0 <= i < |s| :: s[i] != '\r'
  }

  ghost predicate FinePage(s: string) {
    Tame(s) && NoHeading(s) && NoReturn(s)
  }

  lemma NoHeadingLine(line: string, rest: string)
    requires OneLine(line) && !StartsWith(line, "## ") && NoHeading(rest)
    ensures NoHeading(line + "\n" + rest)
  {
    var s, n := line + "\n" + rest, |line|;
    assert s[n] == '\n' && forall k | 0 <= k < n :: s[k] == line[k];
    forall i | 0 <= i < |s| && (i == 0 || s[i - 1] == '\n') ensures !StartsWith(s[i..], "## ") {
      if i == 0 {
        assert |line| >= 3 ==> s[..3] == line[..3];
      } else if i <= n {
        assert false;
      } else {
        assert s[i..] == rest[i - n - 1..];
        assert i - n - 1 > 0 ==> rest[i - n - 2] == s[i - 1];
      }
    }
  }

  lemma {:induction false} FineJoined(lines: seq<string>)
    requires FineLines(lines)
    ensures FinePage(Join(lines, "\n"))
  {
    if |lines| == 1 {
      var line := lines[0];
      forall i | 0 <= i < |line| && (i == 0 || line[i - 1] == '\n') ensures !StartsWith(line[i..], "## ") {
        assert i == 0 && line[0..] == line;
      }
    } else if |lines| > 1 {
      var line, rest := lines[0], Join(lines[1..], "\n");
      FineJoined(lines[1..]);
      NoHeadingLine(line, rest);
      TameConcat(line, "\n");
      TameConcat(line + "\n", rest);
    }
  }
}

/** `_Expression` and `license_allowed`: the tokenizer, and the parser that evaluates while it reads. */
module SpdxText {
  import opened Text
  import opened SpdxGrammar

  const MAX_CHARS := 2048
  const MAX_TOKENS := 128

  // ---------------------------------------------------------------- characters and words

  predicate IsAlnum(c: char) {
    'A' <= c <= 'Z' || 'a' <= c <= 'z' || '0' <= c <= '9'
  }

  predicate IsWordChar(c: char) {
    IsAlnum(c) || c == '.' || c == '+' || c == '-'
  }

  function UpperChar(c: char): char {
    if 'a' <= c <= 'z' then (c as int - 32) as char else c
  }

  function Upper(s: string): string {
    seq(|s|, i requires 0 <= i < |s| => UpperChar(s[i]))
  }

  const OPERATORS: set<string> := {"AND", "OR", "WITH"}
  const UNKNOWN_LICENSES: set<string> := {"", "NOASSERTION", "NONE", "UNKNOWN", "UNLICENSED"}

  /** A word without the `+` it may end with. */
  function Stem(s: string): string {
    if |s| > 1 && s[|s| - 1] == '+' then s[..|s| - 1] else s
  }

  predicate IsStemChar(c: char) {
    IsAlnum(c) || c == '.' || c == '-'
  }

  /** The pattern `[A-Za-z0-9][A-Za-z0-9.-]{0,126}\+?`. */
  predicate IsId(s: string) {
    1 <= |s| && IsAlnum(s[0]) && |Stem(s)| <= 127 && forall i | 0 <= i < |Stem(s)| :: IsStemChar(Stem(s)[i])
  }

  /** What may stand for a licence inside an expression. */
  predicate IsLicenseWord(s: string) {
    IsId(s) && s !in OPERATORS
  }

  /** `_license_id`. */
  predicate IsLicenseId(s: string) {
    && IsId(s) && Upper(s) !in OPERATORS + UNKNOWN_LICENSES
    && !StartsWith(Lower(s), "licenseref-") && !StartsWith(Lower(s), "documentref-")
  }

  /** `_exception_id`. */
  predicate IsExceptionWord(s: string) {
    IsLicenseId(s) && '+' !in s
  }

  const LEXICON := Lexicon(IsLicenseWord, IsExceptionWord)

  /** The two allow-lists, already folded to lower case. */
  function RulesOf(allowed: set<string>, pairs: set<string>): Rules {
    Rules(id => Lower(id) in allowed, (id, exception) => Lower(id) + " WITH " + Lower(exception) in pairs)
  }

  // ---------------------------------------------------------------- tokens

  /** A token as the regular expression `[A-Za-z0-9][A-Za-z0-9.+-]*|[()]` cuts it. */
  predicate IsToken(s: string) {
    s == "(" || s == ")" || (s != "" && IsAlnum(s[0]) && forall i | 0 <= i < |s| :: IsWordChar(s[i]))
  }

  function WordLength(s: string): (n: nat)
    ensures n <= |s| && (forall i | 0 <= i < n :: IsWordChar(s[i])) && (n < |s| ==> !IsWordChar(s[n]))
  {
    if s != "" && IsWordChar(s[0]) then 1 + WordLength(s[1..]) else 0
  }

  /** The length of the token at the front, 0 if there is none. */
  function TokenLength(s: string): (n: nat)
    ensures n <= |s| && (n > 0 ==> IsToken(s[..n]))
  {
    if s == "" then 0
    else if s[0] == '(' || s[0] == ')' then 1
    else if IsAlnum(s[0]) then WordLength(s)
    else 0
  }

  /** The tokens of a text, at most `budget` of them. */
  function Scan(s: string, budget: nat): (r: Option<seq<string>>)
    ensures r.Some? ==> |r.value| <= budget && forall i | 0 <= i < |r.value| :: IsToken(r.value[i])
    decreases |s|
  {
    if s == "" then Some([])
    else if s[0] == ' ' then Scan(s[1..], budget)
    else
      var n := TokenLength(s);
      if n == 0 || budget == 0 then None
      else
        var rest := Scan(s[n..], budget - 1);
        if rest.None? then None else Some([s[..n]] + rest.value)
  }

  predicate IsPlain(s: string) {
    |s| <= MAX_CHARS && forall i | 0 <= i < |s| :: 32 <= s[i] as int < 127
  }

  function Tokenize(s: string): Option<seq<string>> {
    if IsPlain(s) then Scan(s, MAX_TOKENS) else None
  }

  function Classify(s: string): Token {
    if s == "(" then Open
    else if s == ")" then Close
    else if s == "AND" then And
    else if s == "OR" then Or
    else if s == "WITH" then With
    else Word(s)
  }

  function ClassifyAll(words: seq<string>): (r: seq<Token>)
    ensures |r| == |words| && forall i | 0 <= i < |words| :: r[i] == Classify(words[i])
  {
    seq(|words|, i requires 0 <= i < |words| => Classify(words[i]))
  }

  // ---------------------------------------------------------------- printing back to text

  lemma {:induction false} WordLengthOf(word: string, rest: string)
    requires forall i | 0 <= i < |word| :: IsWordChar(word[i])
    requires rest == "" || !IsWordChar(rest[0])
    ensures WordLength(word + rest) == |word|
  {
    if word == "" {
      assert word + rest == rest;
    } else {
      WordLengthOf(word[1..], rest);
      assert (word + rest)[1..] == word[1..] + rest;
    }
  }

  predicate IsParen(s: string) {
    s == "(" || s == ")"
  }

  /** What may follow a token: a parenthesis always ends it, a word ends where no character of a word stands. */
  predicate Ends(token: string, rest: string) {
    IsParen(token) || rest == "" || !IsWordChar(rest[0])
  }

  lemma TokenLengthOf(token: string, rest: string)
    requires IsToken(token) && Ends(token, rest)
    ensures TokenLength(token + rest) == |token|
  {
    var s := token + rest;
    assert s[0] == token[0];
    if !IsParen(token) {
      WordLengthOf(token, rest);
    }
  }

  lemma ScanToken(token: string, rest: string, budget: nat)
    requires IsToken(token) && Ends(token, rest)
    ensures Scan(token + rest, budget) ==
            if budget == 0 || Scan(rest, budget - 1).None? then None
            else Some([token] + Scan(rest, budget - 1).value)
  {
    var s := token + rest;
    TokenLengthOf(token, rest);
    assert s[0] == token[0] && s[0] != ' ';
    assert s[..|token|] == token && s[|token|..] == rest;
  }

  // ---------------------------------------------------------------- what a text of tokens looks like

  function Blanks(n: nat): string {
    seq(n, _ => ' ')
  }

  /** The words in order, each after so many blanks, and blanks at the end. */
  function Layout(words: seq<string>, gaps: seq<nat>): string
    requires |gaps| == |words| + 1
  {
    Blanks(gaps[0]) + if words == [] then "" else words[0] + Layout(words[1..], gaps[1..])
  }

  /** At least one blank between two neighbours neither of which is a parenthesis. */
  predicate Separated(words: seq<string>, gaps: seq<nat>) {
    && |gaps| == |words| + 1
    && forall i | 0 < i < |words| && !IsParen(words[i - 1]) && !IsParen(words[i]) :: gaps[i] > 0
  }

  /** The text consists of these words and of blanks. */
  ghost predicate Spaced(s: string, words: seq<string>) {
    exists gaps: seq<nat> :: Separated(words, gaps) && s == Layout(words, gaps)
  }

  predicate AllTokens(words: seq<string>) {
    forall i | 0 <= i < |words| :: IsToken(words[i])
  }

  lemma {:induction false} ScanBlanks(n: nat, s: string, budget: nat)
    ensures Scan(Blanks(n) + s, budget) == Scan(s, budget)
  {
    if n == 0 {
      assert Blanks(n) + s == s;
    } else {
      ScanBlanks(n - 1, s, budget);
      assert (Blanks(n) + s)[1..] == Blanks(n - 1) + s;
    }
  }

  lemma LayoutEnds(words: seq<string>, gaps: seq<nat>)
    requires |words| > 0 && AllTokens(words) && Separated(words, gaps)
    ensures Ends(words[0], Layout(words[1..], gaps[1..]))
  {
    var rest := Layout(words[1..], gaps[1..]);
    if gaps[1] > 0 {
      assert rest[0] == ' ';
    } else if |words| > 1 {
      assert rest[0] == words[1][0];
      if !IsParen(words[0]) {
        assert IsParen(words[1]);
      }
    }
  }

  /** Whatever the spacing, the words are scanned back. */
  lemma {:induction false} ScanLayout(words: seq<string>, gaps: seq<nat>, budget: nat)
    requires |words| <= budget && AllTokens(words) && Separated(words, gaps)
    ensures Scan(Layout(words, gaps), budget) == Some(words)
  {
    if words == [] {
      ScanBlanks(gaps[0], "", budget);
    } else {
      var rest := Layout(words[1..], gaps[1..]);
      ScanBlanks(gaps[0], words[0] + rest, budget);
      LayoutEnds(words, gaps);
      ScanToken(words[0], rest, budget);
      ScanLayout(words[1..], gaps[1..], budget - 1);
      assert [words[0]] + words[1..] == words;
    }
  }

  lemma BlankBefore(s: string, words: seq<string>)
    requires s != "" && s[0] == ' ' && Spaced(s[1..], words)
    ensures Spaced(s, words)
  {
    var gaps: seq<nat> :| Separated(words, gaps) && s[1..] == Layout(words, gaps);
    var more := [gaps[0] + 1] + gaps[1..];
    assert Blanks(gaps[0] + 1) == " " + Blanks(gaps[0]);
    assert s == [s[0]] + s[1..];
    assert Layout(words, more) == s;
  }

  lemma WordBefore(token: string, rest: string, words: seq<string>)
    requires IsToken(token) && AllTokens(words) && Ends(token, rest) && Spaced(rest, words)
    ensures Spaced(token + rest, [token] + words)
  {
    var gaps: seq<nat> :| Separated(words, gaps) && rest == Layout(words, gaps);
    var all, more: seq<nat> := [token] + words, [0] + gaps;
    if words != [] && gaps[0] == 0 {
      assert rest[0] == words[0][0];
    }
    forall i | 0 < i < |all| && !IsParen(all[i - 1]) && !IsParen(all[i]) ensures more[i] > 0 {
      if i > 1 {
        assert all[i - 1] == words[i - 2] && all[i] == words[i - 1];
      }
    }
    assert all[1..] == words && more[1..] == gaps;
    assert Blanks(0) == "";
    assert Layout(all, more) == token + rest;
  }

  lemma TokenEnds(s: string)
    requires TokenLength(s) > 0
    ensures Ends(s[..TokenLength(s)], s[TokenLength(s)..])
  {
  }

  /** What is scanned is laid out in the text. */
  lemma {:induction false} ScanSpaced(s: string, budget: nat)
    requires Scan(s, budget).Some?
    ensures Spaced(s, Scan(s, budget).value)
    decreases |s|
  {
    if s == "" {
      var none: seq<string> := [];
      assert Separated(none, [0]) && Layout(none, [0]) == s;
    } else if s[0] == ' ' {
      ScanSpaced(s[1..], budget);
      BlankBefore(s, Scan(s, budget).value);
    } else {
      var n := TokenLength(s);
      ScanSpaced(s[n..], budget - 1);
      TokenEnds(s);
      WordBefore(s[..n], s[n..], Scan(s[n..], budget - 1).value);
      assert s[..n] + s[n..] == s;
    }
  }

  /** A text has exactly these tokens, within the budget, where it consists of them and of blanks, with a blank between
      two words. So it has no other list of tokens. */
  lemma ScanExact(s: string, words: seq<string>, budget: nat)
    ensures Scan(s, budget) == Some(words) <==> |words| <= budget && AllTokens(words) && Spaced(s, words)
  {
    if Scan(s, budget) == Some(words) {
      ScanSpaced(s, budget);
    }
    if |words| <= budget && AllTokens(words) && Spaced(s, words) {
      var gaps: seq<nat> :| Separated(words, gaps) && s == Layout(words, gaps);
      ScanLayout(words, gaps, budget);
    }
  }

  function Spell(token: Token): string {
    match token
    case Open => "("
    case Close => ")"
    case And => "AND"
    case Or => "OR"
    case With => "WITH"
    case Word(text) => text
  }

  function SpellAll(tokens: seq<Token>): (r: seq<string>)
    ensures |r| == |tokens| && forall i | 0 <= i < |tokens| :: r[i] == Spell(tokens[i])
  {
    seq(|tokens|, i requires 0 <= i < |tokens| => Spell(tokens[i]))
  }

  /** A token that reads back as itself. */
  predicate Readable(token: Token) {
    IsToken(Spell(token)) && Classify(Spell(token)) == token
  }

  lemma WordReadable(s: string)
    requires IsLicenseWord(s) || IsExceptionWord(s)
    ensures Readable(Word(s))
  {
    assert IsId(s);
    forall i | 0 <= i < |s| ensures IsWordChar(s[i]) {
      if i < |Stem(s)| {
        assert IsStemChar(Stem(s)[i]);
      }
    }
    if s in OPERATORS {
      UpperOperators(s);
    }
  }

  lemma UpperOperators(s: string)
    requires s in OPERATORS
    ensures Upper(s) == s
  {
  }

  ghost predicate AllReadable(tokens: seq<Token>) {
    forall i | 0 <= i < |tokens| :: Readable(tokens[i])
  }

  lemma {:induction false} PrimaryReadable(p: Primary)
    requires PrimaryOk(LEXICON, p)
    ensures AllReadable(PrintPrimary(p))
  {
    match p
    case License(id) => WordReadable(id);
    case Exempted(id, exception) =>
      WordReadable(id);
      WordReadable(exception);
    case Group(body) => DisjunctionReadable(body);
  }

  lemma {:induction false} ConjunctionReadable(c: Conjunction)
    requires ConjunctionOk(LEXICON, c)
    ensures AllReadable(PrintConjunction(c))
  {
    PrimaryReadable(c.p);
    if c.Both? {
      ConjunctionReadable(c.rest);
    }
  }

  lemma {:induction false} DisjunctionReadable(d: Disjunction)
    requires DisjunctionOk(LEXICON, d)
    ensures AllReadable(PrintDisjunction(d))
  {
    ConjunctionReadable(d.c);
    if d.Either? {
      DisjunctionReadable(d.rest);
    }
  }

  // ---------------------------------------------------------------- verdicts

  /** The verdict of `_Expression(expression, ...).evaluate()`; `None` is a policy error. */
  function Evaluate(expression: string, allowed: set<string>, pairs: set<string>): Option<bool> {
    var words := Tokenize(expression);
    if words.None? then None
    else
      var tree := Parse(LEXICON, ClassifyAll(words.value));
      if tree.None? then None else Some(Allowed(RulesOf(allowed, pairs), tree.value))
  }

  lemma {:induction false} LayoutPlain(words: seq<string>, gaps: seq<nat>, i: nat)
    requires AllTokens(words) && |gaps| == |words| + 1 && i < |Layout(words, gaps)|
    ensures 32 <= Layout(words, gaps)[i] as int < 127
    decreases |words|
  {
    if i >= gaps[0] {
      var k := i - gaps[0];
      if k < |words[0]| {
        assert Layout(words, gaps)[i] == words[0][k];
        assert IsToken(words[0]);
      } else {
        LayoutPlain(words[1..], gaps[1..], k - |words[0]|);
      }
    }
  }

  /** A text whose tokens are those of a tree of the grammar, however it is spaced, within the three budgets. */
  ghost predicate Writes(s: string, d: Disjunction) {
    var words := SpellAll(PrintDisjunction(d));
    IsExpression(LEXICON, d) && |words| <= MAX_TOKENS && |s| <= MAX_CHARS && Spaced(s, words)
  }

  lemma TokenizeExact(s: string, words: seq<string>)
    ensures Tokenize(s) == Some(words) <==>
            |words| <= MAX_TOKENS && |s| <= MAX_CHARS && AllTokens(words) && Spaced(s, words)
  {
    ScanExact(s, words, MAX_TOKENS);
    if |s| <= MAX_CHARS && AllTokens(words) && Spaced(s, words) {
      var gaps: seq<nat> :| Separated(words, gaps) && s == Layout(words, gaps);
      forall i | 0 <= i < |s| ensures 32 <= s[i] as int < 127 {
        LayoutPlain(words, gaps, i);
      }
    }
  }

  /** Writing any tree that fits the budgets, with any spacing, and evaluating the text gives the tree's meaning. */
  lemma EvaluatePrinted(s: string, d: Disjunction, allowed: set<string>, pairs: set<string>)
    requires Writes(s, d)
    ensures Evaluate(s, allowed, pairs) == Some(Allowed(RulesOf(allowed, pairs), d))
  {
    var tokens := PrintDisjunction(d);
    DisjunctionReadable(d);
    forall i | 0 <= i < |tokens| ensures IsToken(SpellAll(tokens)[i]) {
      assert Readable(tokens[i]);
    }
    TokenizeExact(s, SpellAll(tokens));
    assert ClassifyAll(SpellAll(tokens)) == tokens;
    ParseExact(LEXICON, tokens, d);
  }

  /** A text gets a verdict exactly where it writes a tree of the grammar, and then the meaning of every tree that it
      writes is that verdict. */
  lemma EvaluateExact(s: string, allowed: set<string>, pairs: set<string>)
    ensures Evaluate(s, allowed, pairs).Some? <==> exists d :: Writes(s, d)
    ensures forall d | Writes(s, d) :: Evaluate(s, allowed, pairs) == Some(Allowed(RulesOf(allowed, pairs), d))
  {
    if Evaluate(s, allowed, pairs).Some? {
      var words := Tokenize(s).value;
      var d := Parse(LEXICON, ClassifyAll(words)).value;
      ParseExact(LEXICON, ClassifyAll(words), d);
      assert SpellAll(PrintDisjunction(d)) == words;
      TokenizeExact(s, words);
      assert Writes(s, d);
    }
    forall d | Writes(s, d) ensures Evaluate(s, allowed, pairs) == Some(Allowed(RulesOf(allowed, pairs), d)) {
      EvaluatePrinted(s, d, allowed, pairs);
    }
  }

  /** An expression is accepted or refused whatever the allow-lists are, and larger lists never withdraw a
      permission. So one checked against empty lists never fails later. */
  lemma AcceptanceIndependent(expression: string, allowed: set<string>, pairs: set<string>,
                              allowed': set<string>, pairs': set<string>)
    ensures Evaluate(expression, allowed, pairs).Some? <==> Evaluate(expression, {}, {}).Some?
    ensures allowed <= allowed' && pairs <= pairs' && Evaluate(expression, allowed, pairs) == Some(true) ==>
              Evaluate(expression, allowed', pairs') == Some(true)
  {
    if allowed <= allowed' && pairs <= pairs' && Evaluate(expression, allowed, pairs) == Some(true) {
      var tree := Parse(LEXICON, ClassifyAll(Tokenize(expression).value)).value;
      AllowedMonotone(RulesOf(allowed, pairs), RulesOf(allowed', pairs'), tree);
    }
  }

  /** `expression.strip()` on plain text: what stands between the blanks at the two ends. */
  function TrimSpaces(s: string): (r: string)
    ensures r != "" ==> r[0] != ' ' && r[|r| - 1] != ' '
    decreases |s|
  {
    if s != "" && s[0] == ' ' then TrimSpaces(s[1..])
    else if s != "" && s[|s| - 1] == ' ' then TrimSpaces(s[..|s| - 1])
    else s
  }

  /** What is trimmed is blank. */
  lemma {:induction false} TrimmedBetween(s: string) returns (i: nat, j: nat)
    ensures i <= j <= |s| && TrimSpaces(s) == s[i..j]
    ensures (forall k | 0 <= k < i :: s[k] == ' ') && (forall k | j <= k < |s| :: s[k] == ' ')
    decreases |s|
  {
    if s != "" && s[0] == ' ' {
      i, j := TrimmedBetween(s[1..]);
      assert s[1..][i..j] == s[i + 1..j + 1];
      assert forall k | j <= k < |s[1..]| :: s[1..][k] == s[k + 1];
      assert forall k | 0 < k < i + 1 :: s[k] == s[1..][k - 1];
      assert forall k | j + 1 <= k < |s| :: s[k] == s[1..][k - 1];
      i, j := i + 1, j + 1;
    } else if s != "" && s[|s| - 1] == ' ' {
      i, j := TrimmedBetween(s[..|s| - 1]);
    } else {
      i, j := 0, |s|;
    }
  }

  predicate IsUnknown(expression: string) {
    Upper(TrimSpaces(expression)) in UNKNOWN_LICENSES
  }

  /** `license_allowed`, after the allow-lists are validated. */
  function LicenseAllowed(expression: Option<string>, allowed: set<string>, pairs: set<string>): Option<bool> {
    if expression.None? then Some(false)
    else if Tokenize(expression.value).None? then None
    else if IsUnknown(expression.value) then Some(false)
    else Evaluate(expression.value, allowed, pairs)
  }

  /** The check of a component's licence: read, and unless unknown, evaluated against empty lists. */
  predicate ParsesOnce(expression: string) {
    Tokenize(expression).Some? && (IsUnknown(expression) || Evaluate(expression, {}, {}).Some?)
  }

  /** What was checked against empty lists never raises against the policy's lists. */
  lemma CheckedNeverFails(expression: string, allowed: set<string>, pairs: set<string>)
    ensures ParsesOnce(expression) <==> LicenseAllowed(Some(expression), allowed, pairs).Some?
  {
    AcceptanceIndependent(expression, allowed, pairs, allowed, pairs);
  }

  // ---------------------------------------------------------------- the tokenizer loop

  /** The tokens cut so far, then those of the rest. */
  function After(words: seq<string>, rest: string, budget: nat): Option<seq<string>> {
    var more := Scan(rest, budget);
    if more.None? then None else Some(words + more.value)
  }

  lemma AfterNothing(s: string)
    ensures After([], s[0..], MAX_TOKENS) == Scan(s, MAX_TOKENS)
  {
    assert s[0..] == s;
    var more := Scan(s, MAX_TOKENS);
    assert more.Some? ==> [] + more.value == more.value;
  }

  lemma AfterAll(words: seq<string>, s: string, budget: nat)
    ensures After(words, s[|s|..], budget) == Some(words)
  {
    assert s[|s|..] == "" && words + [] == words;
  }

  lemma AfterSpace(words: seq<string>, s: string, at: nat, budget: nat)
    requires at < |s| && s[at] == ' '
    ensures After(words, s[at..], budget) == After(words, s[at + 1..], budget)
  {
    assert s[at..][1..] == s[at + 1..];
  }

  lemma AfterToken(words: seq<string>, s: string, at: nat, n: nat, budget: nat)
    requires at < |s| && s[at] != ' ' && n == TokenLength(s[at..]) && 0 < n && budget > 0
    ensures at + n <= |s|
    ensures After(words, s[at..], budget) == After(words + [s[at..at + n]], s[at + n..], budget - 1)
  {
    var token, rest := s[at..][..n], s[at..][n..];
    assert token == s[at..at + n] && rest == s[at + n..];
    var more := Scan(rest, budget - 1);
    if more.Some? {
      assert words + ([token] + more.value) == words + [token] + more.value;
    }
  }

  // ---------------------------------------------------------------- the parser as the program runs it

  /** The value a parsing method must return and the position it must reach. */
  type Outcome = Option<Parsed<bool>>

  function PrimaryOutcome(rules: Rules, tokens: seq<Token>, at: nat, depth: nat): Outcome {
    var r := ParsePrimary(LEXICON, tokens, at, depth);
    if r.None? then None else Some(Parsed(PrimaryAllowed(rules, r.value.tree), r.value.next))
  }

  function ConjunctionOutcome(rules: Rules, tokens: seq<Token>, at: nat, depth: nat, before: bool): Outcome {
    var r := ParseConjunction(LEXICON, tokens, at, depth);
    if r.None? then None else Some(Parsed(before && ConjunctionAllowed(rules, r.value.tree), r.value.next))
  }

  function DisjunctionOutcome(rules: Rules, tokens: seq<Token>, at: nat, depth: nat, before: bool): Outcome {
    var r := ParseDisjunction(LEXICON, tokens, at, depth);
    if r.None? then None else Some(Parsed(before || Allowed(rules, r.value.tree), r.value.next))
  }

  predicate Meets(r: Option<bool>, position: nat, outcome: Outcome) {
    if outcome.None? then r.None? else r == Some(outcome.value.tree) && position == outcome.value.next
  }

  /** What is still to be read after an operand of a conjunction, or of a disjunction. */
  function MoreAnd(rules: Rules, tokens: seq<Token>, at: nat, depth: nat, before: bool): Outcome {
    if Peek(tokens, at) == Some(And) then ConjunctionOutcome(rules, tokens, at + 1, depth, before)
    else Some(Parsed(before, at))
  }

  function MoreOr(rules: Rules, tokens: seq<Token>, at: nat, depth: nat, before: bool): Outcome {
    if Peek(tokens, at) == Some(Or) then DisjunctionOutcome(rules, tokens, at + 1, depth, before)
    else Some(Parsed(before, at))
  }

  lemma ConjunctionStep(rules: Rules, tokens: seq<Token>, at: nat, depth: nat, before: bool)
    ensures var first := PrimaryOutcome(rules, tokens, at, depth);
            ConjunctionOutcome(rules, tokens, at, depth, before) ==
            if first.None? then None
            else MoreAnd(rules, tokens, first.value.next, depth, before && first.value.tree)
  {
  }

  lemma DisjunctionStep(rules: Rules, tokens: seq<Token>, at: nat, depth: nat, before: bool)
    ensures var first := ConjunctionOutcome(rules, tokens, at, depth, true);
            DisjunctionOutcome(rules, tokens, at, depth, before) ==
            if first.None? then None
            else MoreOr(rules, tokens, first.value.next, depth, before || first.value.tree)
  {
  }

  class Expression {
    const rules: Rules
    var tokens: seq<Token>
    var position: nat

    /** The constructor's reading of the text; `ok` is false where the source raises. */
    static method Read(expression: string) returns (ok: bool, words: seq<string>)
      ensures ok <==> Tokenize(expression).Some?
      ensures ok ==> words == Tokenize(expression).value
    {
      if !IsPlain(expression) {
        return false, [];
      }
      ok, words := Cut(expression);
    }

    /** The tokenizer loop. */
    static method Cut(expression: string) returns (ok: bool, words: seq<string>)
      ensures ok <==> Scan(expression, MAX_TOKENS).Some?
      ensures ok ==> words == Scan(expression, MAX_TOKENS).value
    {
      words := [];
      var at := 0;
      ghost var all := Scan(expression, MAX_TOKENS);
      AfterNothing(expression);
      while at < |expression|
        invariant 0 <= at <= |expression| && |words| <= MAX_TOKENS
        invariant all == After(words, expression[at..], MAX_TOKENS - |words|)
      {
        if expression[at] == ' ' {
          AfterSpace(words, expression, at, MAX_TOKENS - |words|);
          at := at + 1;
          continue;
        }
        var n := TokenLength(expression[at..]);
        if n == 0 || |words| >= MAX_TOKENS {
          return false, [];
        }
        AfterToken(words, expression, at, n, MAX_TOKENS - |words|);
        words := words + [expression[at..at + n]];
        at := at + n;
      }
      AfterAll(words, expression, MAX_TOKENS - |words|);
      ok := true;
    }

    constructor (words: seq<string>, rules: Rules)
      ensures tokens == ClassifyAll(words) && position == 0 && this.rules == rules
    {
      this.rules := rules;
      tokens := ClassifyAll(words);
      position := 0;
    }

    /** `_primary`. */
    method Primary(depth: nat) returns (r: Option<bool>)
      requires position <= |tokens|
      modifies this`position
      ensures Meets(r, position, PrimaryOutcome(rules, tokens, old(position), depth))
      ensures r.Some? ==> old(position) < position <= |tokens|
      decreases |tokens| - position, 0
    {
      if depth > MAX_DEPTH {
        return None;
      }
      var token := Peek(tokens, position);
      position := position + 1;
      if token == Some(Open) {
        var result := Disjunction(depth + 1);
        if result.None? || Peek(tokens, position) != Some(Close) {
          return None;
        }
        position := position + 1;
        return result;
      }
      if token.None? || !token.value.Word? || !LEXICON.isLicense(token.value.text) {
        return None;
      }
      if Peek(tokens, position) == Some(With) {
        position := position + 1;
        var exception := Peek(tokens, position);
        if exception.None? || !exception.value.Word? || !LEXICON.isException(exception.value.text) {
          return None;
        }
        position := position + 1;
        return Some(rules.allowsWith(token.value.text, exception.value.text));
      }
      return Some(rules.allows(token.value.text));
    }

    /** `_and`. */
    method Conjunction(depth: nat) returns (r: Option<bool>)
      requires position <= |tokens|
      modifies this`position
      ensures Meets(r, position, ConjunctionOutcome(rules, tokens, old(position), depth, true))
      ensures r.Some? ==> old(position) < position <= |tokens|
      decreases |tokens| - position, 1
    {
      ghost var goal := ConjunctionOutcome(rules, tokens, position, depth, true);
      ConjunctionStep(rules, tokens, position, depth, true);
      r := Primary(depth);
      if r.None? {
        return None;
      }
      while Peek(tokens, position) == Some(And)
        invariant old(position) < position <= |tokens| && r.Some?
        invariant goal == MoreAnd(rules, tokens, position, depth, r.value)
        decreases |tokens| - position
      {
        position := position + 1;
        ConjunctionStep(rules, tokens, position, depth, r.value);
        var other := Primary(depth);
        if other.None? {
          return None;
        }
        r := Some(r.value && other.value);
      }
    }

    /** `_or`. */
    method Disjunction(depth: nat) returns (r: Option<bool>)
      requires position <= |tokens|
      modifies this`position
      ensures Meets(r, position, DisjunctionOutcome(rules, tokens, old(position), depth, false))
      ensures r.Some? ==> old(position) < position <= |tokens|
      decreases |tokens| - position, 2
    {
      ghost var goal := DisjunctionOutcome(rules, tokens, position, depth, false);
      DisjunctionStep(rules, tokens, position, depth, false);
      r := Conjunction(depth);
      if r.None? {
        return None;
      }
      while Peek(tokens, position) == Some(Or)
        invariant old(position) < position <= |tokens| && r.Some?
        invariant goal == MoreOr(rules, tokens, position, depth, r.value)
        decreases |tokens| - position
      {
        position := position + 1;
        DisjunctionStep(rules, tokens, position, depth, r.value);
        var other := Conjunction(depth);
        if other.None? {
          return None;
        }
        r := Some(r.value || other.value);
      }
    }
  }

  /** `_Expression(expression, allowed, pairs).evaluate()`. */
  method EvaluateText(expression: string, allowed: set<string>, pairs: set<string>) returns (r: Option<bool>)
    ensures r == Evaluate(expression, allowed, pairs)
    ensures r.Some? <==> exists d :: Writes(expression, d)
    ensures forall d | Writes(expression, d) :: r == Some(Allowed(RulesOf(allowed, pairs), d))
  {
    EvaluateExact(expression, allowed, pairs);
    var ok, words := Expression.Read(expression);
    if !ok {
      return None;
    }
    var parser := new Expression(words, RulesOf(allowed, pairs));
    r := parser.Disjunction(0);
    if r.Some? && parser.position != |parser.tokens| {
      return None;
    }
  }
}

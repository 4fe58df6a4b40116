/** Licence expressions as Annex D of the SPDX Specification 2.3 defines them: WITH binds tighter than AND, and
    AND tighter than OR. The grammar, its printed form, its meaning, and a parser for it. */
module SpdxGrammar {
  import opened Text

  const MAX_DEPTH := 16

  datatype Token = Open | Close | And | Or | With | Word(text: string)

  datatype Primary = License(id: string) | Exempted(id: string, exception: string) | Group(body: Disjunction)
  datatype Conjunction = Only(p: Primary) | Both(p: Primary, rest: Conjunction)
  datatype Disjunction = Just(c: Conjunction) | Either(c: Conjunction, rest: Disjunction)

  /** Which words may stand for a licence and which for a licence exception. */
  datatype Lexicon = Lexicon(isLicense: string -> bool, isException: string -> bool)

  /** Which licences, and which licences with an exception, are allowed. */
  datatype Rules = Rules(allows: string -> bool, allowsWith: (string, string) -> bool)

  // ---------------------------------------------------------------- words of the grammar

  predicate PrimaryOk(lex: Lexicon, p: Primary) {
    match p
    case License(id) => lex.isLicense(id)
    case Exempted(id, exception) => lex.isLicense(id) && lex.isException(exception)
    case Group(body) => DisjunctionOk(lex, body)
  }

  predicate ConjunctionOk(lex: Lexicon, c: Conjunction) {
    PrimaryOk(lex, c.p) && (c.Both? ==> ConjunctionOk(lex, c.rest))
  }

  predicate DisjunctionOk(lex: Lexicon, d: Disjunction) {
    ConjunctionOk(lex, d.c) && (d.Either? ==> DisjunctionOk(lex, d.rest))
  }

  // ---------------------------------------------------------------- nesting

  function Max(a: nat, b: nat): nat { if a < b then b else a }

  function PrimaryDepth(p: Primary): nat {
    match p
    case License(_) => 0
    case Exempted(_, _) => 0
    case Group(body) => 1 + DisjunctionDepth(body)
  }

  function ConjunctionDepth(c: Conjunction): nat {
    match c
    case Only(p) => PrimaryDepth(p)
    case Both(p, rest) => Max(PrimaryDepth(p), ConjunctionDepth(rest))
  }

  function DisjunctionDepth(d: Disjunction): nat {
    match d
    case Just(c) => ConjunctionDepth(c)
    case Either(c, rest) => Max(ConjunctionDepth(c), DisjunctionDepth(rest))
  }

  // ---------------------------------------------------------------- printing

  function PrintPrimary(p: Primary): (r: seq<Token>)
    ensures |r| > 0
  {
    match p
    case License(id) => [Word(id)]
    case Exempted(id, exception) => [Word(id), With, Word(exception)]
    case Group(body) => [Open] + PrintDisjunction(body) + [Close]
  }

  function PrintConjunction(c: Conjunction): (r: seq<Token>)
    ensures |r| > 0
  {
    match c
    case Only(p) => PrintPrimary(p)
    case Both(p, rest) => PrintPrimary(p) + [And] + PrintConjunction(rest)
  }

  function PrintDisjunction(d: Disjunction): (r: seq<Token>)
    ensures |r| > 0
  {
    match d
    case Just(c) => PrintConjunction(c)
    case Either(c, rest) => PrintConjunction(c) + [Or] + PrintDisjunction(rest)
  }

  // ---------------------------------------------------------------- meaning

  predicate PrimaryAllowed(rules: Rules, p: Primary) {
    match p
    case License(id) => rules.allows(id)
    case Exempted(id, exception) => rules.allowsWith(id, exception)
    case Group(body) => Allowed(rules, body)
  }

  predicate ConjunctionAllowed(rules: Rules, c: Conjunction) {
    match c
    case Only(p) => PrimaryAllowed(rules, p)
    case Both(p, rest) => PrimaryAllowed(rules, p) && ConjunctionAllowed(rules, rest)
  }

  predicate Allowed(rules: Rules, d: Disjunction) {
    match d
    case Just(c) => ConjunctionAllowed(rules, c)
    case Either(c, rest) => ConjunctionAllowed(rules, c) || Allowed(rules, rest)
  }

  ghost predicate Weaker(a: Rules, b: Rules) {
    && (forall id :: a.allows(id) ==> b.allows(id))
    && (forall id, exception :: a.allowsWith(id, exception) ==> b.allowsWith(id, exception))
  }

  /** Enlarging the allow-lists never turns an allowed expression into a disallowed one. */
  lemma {:induction false} AllowedMonotone(a: Rules, b: Rules, d: Disjunction)
    requires Weaker(a, b) && Allowed(a, d)
    ensures Allowed(b, d)
  {
    match d
    case Just(c) => ConjunctionMonotone(a, b, c);
    case Either(c, rest) =>
      if ConjunctionAllowed(a, c) {
        ConjunctionMonotone(a, b, c);
      } else {
        AllowedMonotone(a, b, rest);
      }
  }

  lemma {:induction false} ConjunctionMonotone(a: Rules, b: Rules, c: Conjunction)
    requires Weaker(a, b) && ConjunctionAllowed(a, c)
    ensures ConjunctionAllowed(b, c)
  {
    PrimaryMonotone(a, b, c.p);
    if c.Both? {
      ConjunctionMonotone(a, b, c.rest);
    }
  }

  lemma {:induction false} PrimaryMonotone(a: Rules, b: Rules, p: Primary)
    requires Weaker(a, b) && PrimaryAllowed(a, p)
    ensures PrimaryAllowed(b, p)
  {
    if p.Group? {
      AllowedMonotone(a, b, p.body);
    }
  }

  // ---------------------------------------------------------------- parsing

  /** A syntax tree with the position after it. */
  datatype Parsed<T> = Parsed(tree: T, next: nat)

  function Peek(tokens: seq<Token>, at: nat): Option<Token> {
    if at < |tokens| then Some(tokens[at]) else None
  }

  function ParsePrimary(lex: Lexicon, tokens: seq<Token>, at: nat, depth: nat): (r: Option<Parsed<Primary>>)
    ensures r.Some? ==> at < r.value.next <= |tokens|
    decreases |tokens| - at, 0
  {
    if depth > MAX_DEPTH || at >= |tokens| then None
    else
      match tokens[at]
      case Open =>
        var body := ParseDisjunction(lex, tokens, at + 1, depth + 1);
        if body.None? || Peek(tokens, body.value.next) != Some(Close) then None
        else Some(Parsed(Group(body.value.tree), body.value.next + 1))
      case Word(id) =>
        if !lex.isLicense(id) then None
        else if Peek(tokens, at + 1) != Some(With) then Some(Parsed(License(id), at + 1))
        else
          (match Peek(tokens, at + 2)
           case Some(Word(exception)) =>
             if lex.isException(exception) then Some(Parsed(Exempted(id, exception), at + 3)) else None
           case _ => None)
      case _ => None
  }

  function ParseConjunction(lex: Lexicon, tokens: seq<Token>, at: nat, depth: nat): (r: Option<Parsed<Conjunction>>)
    ensures r.Some? ==> at < r.value.next <= |tokens|
    decreases |tokens| - at, 1
  {
    var first := ParsePrimary(lex, tokens, at, depth);
    if first.None? then None
    else if Peek(tokens, first.value.next) != Some(And) then Some(Parsed(Only(first.value.tree), first.value.next))
    else
      var rest := ParseConjunction(lex, tokens, first.value.next + 1, depth);
      if rest.None? then None else Some(Parsed(Both(first.value.tree, rest.value.tree), rest.value.next))
  }

  function ParseDisjunction(lex: Lexicon, tokens: seq<Token>, at: nat, depth: nat): (r: Option<Parsed<Disjunction>>)
    ensures r.Some? ==> at < r.value.next <= |tokens|
    decreases |tokens| - at, 2
  {
    var first := ParseConjunction(lex, tokens, at, depth);
    if first.None? then None
    else if Peek(tokens, first.value.next) != Some(Or) then Some(Parsed(Just(first.value.tree), first.value.next))
    else
      var rest := ParseDisjunction(lex, tokens, first.value.next + 1, depth);
      if rest.None? then None else Some(Parsed(Either(first.value.tree, rest.value.tree), rest.value.next))
  }

  /** The syntax tree of a whole token sequence. */
  function Parse(lex: Lexicon, tokens: seq<Token>): Option<Disjunction> {
    var r := ParseDisjunction(lex, tokens, 0, 0);
    if r.Some? && r.value.next == |tokens| then Some(r.value.tree) else None
  }

  // ---------------------------------------------------------------- only trees of the grammar are parsed

  lemma {:induction false} PrimarySound(lex: Lexicon, tokens: seq<Token>, at: nat, depth: nat)
    ensures var r := ParsePrimary(lex, tokens, at, depth);
            r.Some? ==> && PrimaryOk(lex, r.value.tree)
                        && tokens[at..r.value.next] == PrintPrimary(r.value.tree)
                        && depth + PrimaryDepth(r.value.tree) <= MAX_DEPTH
    decreases |tokens| - at, 0
  {
    var r := ParsePrimary(lex, tokens, at, depth);
    if r.Some? && tokens[at].Open? {
      DisjunctionSound(lex, tokens, at + 1, depth + 1);
      var end := r.value.next - 1;
      assert tokens[at..end + 1] == [tokens[at]] + tokens[at + 1..end] + [tokens[end]];
    }
  }

  lemma {:induction false} ConjunctionSound(lex: Lexicon, tokens: seq<Token>, at: nat, depth: nat)
    ensures var r := ParseConjunction(lex, tokens, at, depth);
            r.Some? ==> && ConjunctionOk(lex, r.value.tree)
                        && tokens[at..r.value.next] == PrintConjunction(r.value.tree)
                        && depth + ConjunctionDepth(r.value.tree) <= MAX_DEPTH
    decreases |tokens| - at, 1
  {
    var r := ParseConjunction(lex, tokens, at, depth);
    if r.Some? {
      PrimarySound(lex, tokens, at, depth);
      var mid := ParsePrimary(lex, tokens, at, depth).value.next;
      if Peek(tokens, mid) == Some(And) {
        ConjunctionSound(lex, tokens, mid + 1, depth);
        assert tokens[at..r.value.next] == tokens[at..mid] + [tokens[mid]] + tokens[mid + 1..r.value.next];
      }
    }
  }

  lemma {:induction false} DisjunctionSound(lex: Lexicon, tokens: seq<Token>, at: nat, depth: nat)
    ensures var r := ParseDisjunction(lex, tokens, at, depth);
            r.Some? ==> && DisjunctionOk(lex, r.value.tree)
                        && tokens[at..r.value.next] == PrintDisjunction(r.value.tree)
                        && depth + DisjunctionDepth(r.value.tree) <= MAX_DEPTH
    decreases |tokens| - at, 2
  {
    var r := ParseDisjunction(lex, tokens, at, depth);
    if r.Some? {
      ConjunctionSound(lex, tokens, at, depth);
      var mid := ParseConjunction(lex, tokens, at, depth).value.next;
      if Peek(tokens, mid) == Some(Or) {
        DisjunctionSound(lex, tokens, mid + 1, depth);
        assert tokens[at..r.value.next] == tokens[at..mid] + [tokens[mid]] + tokens[mid + 1..r.value.next];
      }
    }
  }

  // ---------------------------------------------------------------- every tree of the grammar is parsed

  /** `printed` stands in `tokens` at position `at`. */
  predicate StandsAt(tokens: seq<Token>, at: nat, printed: seq<Token>) {
    at + |printed| <= |tokens| && tokens[at..at + |printed|] == printed
  }

  lemma StandsSplit(tokens: seq<Token>, at: nat, a: seq<Token>, x: Token, b: seq<Token>)
    requires StandsAt(tokens, at, a + [x] + b)
    ensures StandsAt(tokens, at, a) && Peek(tokens, at + |a|) == Some(x) && StandsAt(tokens, at + |a| + 1, b)
  {
    var whole := a + [x] + b;
    var part := tokens[at..at + |whole|];
    assert part[..|a|] == tokens[at..at + |a|] && whole[..|a|] == a;
    assert part[|a|] == tokens[at + |a|] && whole[|a|] == x;
    assert part[|a| + 1..] == tokens[at + |a| + 1..at + |whole|] && whole[|a| + 1..] == b;
  }

  lemma {:induction false} PrimaryComplete(lex: Lexicon, tokens: seq<Token>, at: nat, depth: nat, p: Primary)
    requires PrimaryOk(lex, p) && depth + PrimaryDepth(p) <= MAX_DEPTH
    requires StandsAt(tokens, at, PrintPrimary(p))
    requires Peek(tokens, at + |PrintPrimary(p)|) != Some(With)
    ensures ParsePrimary(lex, tokens, at, depth) == Some(Parsed(p, at + |PrintPrimary(p)|))
    decreases p
  {
    assert tokens[at] == PrintPrimary(p)[0];
    match p
    case License(id) =>
    case Exempted(id, exception) =>
      assert tokens[at + 1] == tokens[at..at + 3][1] && tokens[at + 2] == tokens[at..at + 3][2];
    case Group(body) =>
      var inner := PrintDisjunction(body);
      assert PrintPrimary(p) == [Open] + inner + [Close];
      assert [Open] + inner + [Close] == [] + [Open] + (inner + [Close]);
      StandsSplit(tokens, at, [], Open, inner + [Close]);
      assert inner + [Close] == inner + [Close] + [];
      StandsSplit(tokens, at + 1, inner, Close, []);
      DisjunctionComplete(lex, tokens, at + 1, depth + 1, body);
  }

  lemma {:induction false} ConjunctionComplete(lex: Lexicon, tokens: seq<Token>, at: nat, depth: nat, c: Conjunction)
    requires ConjunctionOk(lex, c) && depth + ConjunctionDepth(c) <= MAX_DEPTH
    requires StandsAt(tokens, at, PrintConjunction(c))
    requires Peek(tokens, at + |PrintConjunction(c)|) !in {Some(With), Some(And)}
    ensures ParseConjunction(lex, tokens, at, depth) == Some(Parsed(c, at + |PrintConjunction(c)|))
    decreases c
  {
    match c
    case Only(p) => PrimaryComplete(lex, tokens, at, depth, p);
    case Both(p, rest) =>
      StandsSplit(tokens, at, PrintPrimary(p), And, PrintConjunction(rest));
      PrimaryComplete(lex, tokens, at, depth, p);
      ConjunctionComplete(lex, tokens, at + |PrintPrimary(p)| + 1, depth, rest);
  }

  lemma {:induction false} DisjunctionComplete(lex: Lexicon, tokens: seq<Token>, at: nat, depth: nat, d: Disjunction)
    requires DisjunctionOk(lex, d) && depth + DisjunctionDepth(d) <= MAX_DEPTH
    requires StandsAt(tokens, at, PrintDisjunction(d))
    requires Peek(tokens, at + |PrintDisjunction(d)|) !in {Some(With), Some(And), Some(Or)}
    ensures ParseDisjunction(lex, tokens, at, depth) == Some(Parsed(d, at + |PrintDisjunction(d)|))
    decreases d
  {
    match d
    case Just(c) => ConjunctionComplete(lex, tokens, at, depth, c);
    case Either(c, rest) =>
      StandsSplit(tokens, at, PrintConjunction(c), Or, PrintDisjunction(rest));
      ConjunctionComplete(lex, tokens, at, depth, c);
      DisjunctionComplete(lex, tokens, at + |PrintConjunction(c)| + 1, depth, rest);
  }

  // ---------------------------------------------------------------- the parser is the inverse of printing

  predicate IsExpression(lex: Lexicon, d: Disjunction) {
    DisjunctionOk(lex, d) && DisjunctionDepth(d) <= MAX_DEPTH
  }

  /** A token sequence is parsed exactly when it prints a tree of the grammar within the nesting budget, and
      then the parser returns that tree. */
  lemma ParseExact(lex: Lexicon, tokens: seq<Token>, d: Disjunction)
    ensures Parse(lex, tokens) == Some(d) <==> IsExpression(lex, d) && tokens == PrintDisjunction(d)
  {
    if Parse(lex, tokens) == Some(d) {
      DisjunctionSound(lex, tokens, 0, 0);
      assert tokens[0..|tokens|] == tokens;
    }
    if IsExpression(lex, d) && tokens == PrintDisjunction(d) {
      assert tokens[0..0 + |tokens|] == tokens;
      DisjunctionComplete(lex, tokens, 0, 0, d);
    }
  }

  /** The grammar is unambiguous. */
  lemma PrintInjective(lex: Lexicon, a: Disjunction, b: Disjunction)
    requires IsExpression(lex, a) && IsExpression(lex, b) && PrintDisjunction(a) == PrintDisjunction(b)
    ensures a == b
  {
    ParseExact(lex, PrintDisjunction(a), a);
    ParseExact(lex, PrintDisjunction(b), b);
  }
}

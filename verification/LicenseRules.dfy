/** `_license_rules` (scripts/dependency_policy.py): the allow-lists of a policy, and that a licence is allowed exactly
    where the lists name it in any mixture of letter cases. */
module LicenseRules {
  import opened Ordering
  import opened Text
  import opened SpdxGrammar
  import opened SpdxText

  const MAX_LICENSES := 128
  const MAX_PAIRS := 64
  const MAX_PAIR_CHARS := 270

  /** The lists as a policy states them. */
  datatype Lists = Lists(licenses: seq<string>, pairs: seq<string>)

  function Folded(s: seq<string>): set<string> {
    set i | 0 <= i < |s| :: Lower(s[i])
  }

  /** A licence and an exception with the operator between them. */
  predicate IsPair(s: string) {
    var parts := Split(s, ' ');
    |s| <= MAX_PAIR_CHARS && |parts| == 3 && parts[1] == "WITH" && IsLicenseId(parts[0]) && IsExceptionWord(parts[2])
  }

  function Pair(id: string, exception: string): string {
    id + " WITH " + exception
  }

  function FoldPair(s: string): string {
    if IsPair(s) then Pair(Lower(Split(s, ' ')[0]), Lower(Split(s, ' ')[2])) else s
  }

  predicate AllOf(check: string -> bool, s: seq<string>) {
    forall i | 0 <= i < |s| :: check(s[i])
  }

  predicate AllPairs(pairs: seq<string>) {
    AllOf(IsPair, pairs)
  }

  function Mapped(fold: string -> string, s: seq<string>): (keys: seq<string>)
    ensures |keys| == |s| && forall i | 0 <= i < |s| :: keys[i] == fold(s[i])
  {
    seq(|s|, i requires 0 <= i < |s| => fold(s[i]))
  }

  function FoldAll(pairs: seq<string>): seq<string> {
    Mapped(FoldPair, pairs)
  }

  function FoldPairs(pairs: seq<string>): set<string> {
    Elements(FoldAll(pairs))
  }

  /** No two entries are alike but for letter case. */
  predicate DistinctPairs(pairs: seq<string>) {
    Distinct(FoldAll(pairs))
  }

  predicate ValidLists(lists: Lists) {
    && 1 <= |lists.licenses| <= MAX_LICENSES && |lists.pairs| <= MAX_PAIRS
    && (forall i | 0 <= i < |lists.licenses| :: IsLicenseId(lists.licenses[i]))
    && |Folded(lists.licenses)| == |lists.licenses|
    && AllPairs(lists.pairs) && DistinctPairs(lists.pairs)
  }

  // ---------------------------------------------------------------- the loop

  lemma KeyStep(keys: seq<string>, i: nat)
    requires i < |keys| && Distinct(keys[..i])
    ensures Distinct(keys) ==> keys[i] !in Elements(keys[..i])
    ensures keys[i] !in Elements(keys[..i]) ==>
              Distinct(keys[..i + 1]) && Elements(keys[..i + 1]) == Elements(keys[..i]) + {keys[i]}
  {
    PrefixStep(keys, i);
    if keys[i] !in Elements(keys[..i]) {
      AppendNew(keys[..i], keys[i]);
    }
  }

  /** `_license_rules(rules)`: the two lists folded to lower case, where they are valid. */
  method ReadRules(lists: Lists) returns (r: Option<(set<string>, set<string>)>)
    ensures r.Some? <==> ValidLists(lists)
    ensures r.Some? ==> r.value == (Folded(lists.licenses), FoldPairs(lists.pairs))
  {
    if !(1 <= |lists.licenses| <= MAX_LICENSES)
       || (exists i | 0 <= i < |lists.licenses| :: !IsLicenseId(lists.licenses[i]))
       || |Folded(lists.licenses)| != |lists.licenses| || |lists.pairs| > MAX_PAIRS
    {
      return None;
    }
    var seen := ReadKeys(IsPair, FoldPair, lists.pairs);
    return if seen.None? then None else Some((Folded(lists.licenses), seen.value));
  }

  /** Its loop over the pairs, for any check and any folding. */
  method ReadKeys(check: string -> bool, fold: string -> string, pairs: seq<string>) returns (r: Option<set<string>>)
    ensures r.Some? <==> AllOf(check, pairs) && Distinct(Mapped(fold, pairs))
    ensures r.Some? ==> r.value == Elements(Mapped(fold, pairs))
  {
    var seen: set<string> := {};
    ghost var keys := Mapped(fold, pairs);
    for i := 0 to |pairs|
      invariant forall k | 0 <= k < i :: check(pairs[k])
      invariant Distinct(keys[..i]) && seen == Elements(keys[..i])
    {
      KeyStep(keys, i);
      if !check(pairs[i]) || fold(pairs[i]) in seen {
        return None;
      }
      seen := seen + {fold(pairs[i])};
    }
    assert keys[..|pairs|] == keys;
    return Some(seen);
  }

  // ---------------------------------------------------------------- what the lists allow

  /** The licence is listed, in whatever letter case. */
  predicate IsListed(lists: Lists, id: string) {
    exists l | l in lists.licenses :: Lower(l) == Lower(id)
  }

  /** The licence is listed with the exception, in whatever letter case. */
  ghost predicate ListsWith(lists: Lists, id: string, exception: string) {
    exists a, b :: Pair(a, b) in lists.pairs && Lower(a) == Lower(id) && Lower(b) == Lower(exception)
  }

  lemma IdHasNoBlank(s: string)
    requires IsId(s)
    ensures ' ' !in s && ' ' !in Lower(s)
  {
    assert forall i | 0 <= i < |Stem(s)| :: IsStemChar(Stem(s)[i]);
  }

  lemma SplitPair(a: string, b: string)
    requires ' ' !in a && ' ' !in b
    ensures Split(Pair(a, b), ' ') == [a, "WITH", b]
  {
    var tail := "WITH" + [' '] + b;
    SplitFirst(b, "", ' ');
    SplitFirst("WITH", b, ' ');
    SplitFirst(a, tail, ' ');
    PairTail(a, b, tail);
  }

  lemma PairTail(a: string, b: string, tail: string)
    requires tail == "WITH" + [' '] + b
    ensures Pair(a, b) == a + [' '] + tail
  {
    assert " WITH " == [' '] + "WITH" + [' '];
  }

  lemma JoinSpaced(a: string, b: string, c: string)
    ensures Join([a, b, c], [' ']) == a + [' '] + (b + [' '] + c)
  {
    JoinStep([a, b, c], [' ']);
    JoinStep([b, c], [' ']);
    assert [a, b, c][1..] == [b, c] && [b, c][1..] == [c];
    assert Join([c], [' ']) == c;
  }

  lemma PairIs(s: string)
    requires IsPair(s)
    ensures s == Pair(Split(s, ' ')[0], Split(s, ' ')[2])
  {
    var parts := Split(s, ' ');
    JoinSplit(s, ' ');
    assert parts == [parts[0], "WITH", parts[2]];
    JoinSpaced(parts[0], "WITH", parts[2]);
    PairTail(parts[0], parts[2], "WITH" + [' '] + parts[2]);
  }

  /** A folded pair is found only where licence and exception are the same, each for itself. */
  lemma FoldedPairUnique(a: string, b: string, c: string, d: string)
    requires ' ' !in a && ' ' !in b && ' ' !in c && ' ' !in d && Pair(a, b) == Pair(c, d)
    ensures a == c && b == d
  {
    SplitPair(a, b);
    SplitPair(c, d);
    var parts := [a, "WITH", b];
    assert parts == [c, "WITH", d];
    assert parts[0] == a == c && parts[2] == b == d;
  }

  lemma FoldedMeaning(lists: Lists, id: string)
    ensures Lower(id) in Folded(lists.licenses) <==> IsListed(lists, id)
  {
    if Lower(id) in Folded(lists.licenses) {
      var i :| 0 <= i < |lists.licenses| && Lower(lists.licenses[i]) == Lower(id);
      assert lists.licenses[i] in lists.licenses;
    }
  }

  lemma FoldedPairListed(lists: Lists, id: string, exception: string)
    requires AllPairs(lists.pairs) && IsId(id) && IsId(exception)
    requires Pair(Lower(id), Lower(exception)) in FoldPairs(lists.pairs)
    ensures ListsWith(lists, id, exception)
  {
    var keys := FoldAll(lists.pairs);
    var i :| 0 <= i < |keys| && keys[i] == Pair(Lower(id), Lower(exception));
    var s := lists.pairs[i];
    var a, b := Split(s, ' ')[0], Split(s, ' ')[2];
    IdHasNoBlank(id);
    IdHasNoBlank(exception);
    IdHasNoBlank(a);
    IdHasNoBlank(b);
    PairIs(s);
    FoldedPairUnique(Lower(a), Lower(b), Lower(id), Lower(exception));
    assert Pair(a, b) in lists.pairs;
  }

  lemma ListedPairFolded(lists: Lists, id: string, exception: string)
    requires AllPairs(lists.pairs) && IsId(id) && IsId(exception) && ListsWith(lists, id, exception)
    ensures Pair(Lower(id), Lower(exception)) in FoldPairs(lists.pairs)
  {
    var a, b :| Pair(a, b) in lists.pairs && Lower(a) == Lower(id) && Lower(b) == Lower(exception);
    var i :| 0 <= i < |lists.pairs| && lists.pairs[i] == Pair(a, b);
    IdHasNoBlank(id);
    IdHasNoBlank(exception);
    NoBlankFolded(a, id);
    NoBlankFolded(b, exception);
    SplitPair(a, b);
    assert FoldAll(lists.pairs)[i] == Pair(Lower(a), Lower(b));
  }

  lemma FoldedPairMeaning(lists: Lists, id: string, exception: string)
    requires AllPairs(lists.pairs) && IsId(id) && IsId(exception)
    ensures Pair(Lower(id), Lower(exception)) in FoldPairs(lists.pairs) <==> ListsWith(lists, id, exception)
  {
    if Pair(Lower(id), Lower(exception)) in FoldPairs(lists.pairs) {
      FoldedPairListed(lists, id, exception);
    }
    if ListsWith(lists, id, exception) {
      ListedPairFolded(lists, id, exception);
    }
  }

  lemma NoBlankFolded(a: string, b: string)
    requires Lower(a) == Lower(b) && ' ' !in Lower(b)
    ensures ' ' !in a
  {
    forall i | 0 <= i < |a| ensures a[i] != ' ' {
      assert Lower(a)[i] == LowerChar(a[i]) && Lower(a)[i] in Lower(b);
    }
  }

  /** The rules as the lists state them. */
  ghost function ByLists(lists: Lists): Rules {
    Rules(id => IsListed(lists, id), (id, exception) => ListsWith(lists, id, exception))
  }

  /** The rules agree on every word of the lexicon. */
  ghost predicate Agree(a: Rules, b: Rules) {
    && (forall id | LEXICON.isLicense(id) :: a.allows(id) <==> b.allows(id))
    && (forall id, exception | LEXICON.isLicense(id) && LEXICON.isException(exception) ::
          a.allowsWith(id, exception) <==> b.allowsWith(id, exception))
  }

  lemma {:induction false} SamePrimary(a: Rules, b: Rules, p: Primary)
    requires Agree(a, b) && PrimaryOk(LEXICON, p)
    ensures PrimaryAllowed(a, p) <==> PrimaryAllowed(b, p)
  {
    if p.Group? {
      SameDisjunction(a, b, p.body);
    }
  }

  lemma {:induction false} SameConjunction(a: Rules, b: Rules, c: Conjunction)
    requires Agree(a, b) && ConjunctionOk(LEXICON, c)
    ensures ConjunctionAllowed(a, c) <==> ConjunctionAllowed(b, c)
  {
    SamePrimary(a, b, c.p);
    if c.Both? {
      SameConjunction(a, b, c.rest);
    }
  }

  lemma {:induction false} SameDisjunction(a: Rules, b: Rules, d: Disjunction)
    requires Agree(a, b) && DisjunctionOk(LEXICON, d)
    ensures Allowed(a, d) <==> Allowed(b, d)
  {
    SameConjunction(a, b, d.c);
    if d.Either? {
      SameDisjunction(a, b, d.rest);
    }
  }

  lemma FoldedRulesAgree(lists: Lists)
    requires ValidLists(lists)
    ensures Agree(RulesOf(Folded(lists.licenses), FoldPairs(lists.pairs)), ByLists(lists))
  {
    var rules := RulesOf(Folded(lists.licenses), FoldPairs(lists.pairs));
    forall id | LEXICON.isLicense(id) ensures rules.allows(id) <==> IsListed(lists, id) {
      FoldedMeaning(lists, id);
    }
    forall id, exception | LEXICON.isLicense(id) && LEXICON.isException(exception)
      ensures rules.allowsWith(id, exception) <==> ListsWith(lists, id, exception)
    {
      FoldedPairMeaning(lists, id, exception);
    }
  }

  /** An expression is allowed by a policy exactly where its meaning holds of what the lists name, whatever the letter
      case and spacing of either. */
  lemma VerdictByLists(lists: Lists, s: string, d: Disjunction)
    requires ValidLists(lists) && Writes(s, d)
    ensures Evaluate(s, Folded(lists.licenses), FoldPairs(lists.pairs)) == Some(Allowed(ByLists(lists), d))
  {
    EvaluatePrinted(s, d, Folded(lists.licenses), FoldPairs(lists.pairs));
    FoldedRulesAgree(lists);
    SameDisjunction(RulesOf(Folded(lists.licenses), FoldPairs(lists.pairs)), ByLists(lists), d);
  }
}

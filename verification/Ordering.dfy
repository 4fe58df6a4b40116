/** Code-point order on text and byte strings, and the ascending enumeration of a finite set.
    It stands for Python's `<` on `str` and `bytes` and for `sorted` on a set of them. */
module Ordering {

  /** Lexicographic order on sequences of code points or bytes. */
  predicate Before(a: seq<int>, b: seq<int>) {
    |b| > 0 && (|a| == 0 || a[0] < b[0] || (a[0] == b[0] && Before(a[1..], b[1..])))
  }

  lemma {:induction false} BeforeTransitive(a: seq<int>, b: seq<int>, c: seq<int>)
    requires Before(a, b) && Before(b, c)
    ensures Before(a, c)
  {
    if |a| > 0 && a[0] == b[0] && b[0] == c[0] {
      BeforeTransitive(a[1..], b[1..], c[1..]);
    }
  }

  lemma {:induction false} BeforeIrreflexive(a: seq<int>)
    ensures !Before(a, a)
  {
    if |a| > 0 {
      BeforeIrreflexive(a[1..]);
    }
  }

  lemma {:induction false} BeforeTotal(a: seq<int>, b: seq<int>)
    ensures a == b || Before(a, b) || Before(b, a)
  {
    if |a| > 0 && |b| > 0 && a[0] == b[0] {
      BeforeTotal(a[1..], b[1..]);
      if a[1..] == b[1..] {
        assert a == [a[0]] + a[1..] == [b[0]] + b[1..] == b;
      }
    }
  }

  function Codes(s: string): (r: seq<int>)
    ensures |r| == |s|
    ensures forall i :: 0 <= i < |s| ==> r[i] == s[i] as int
  {
    seq(|s|, i requires 0 <= i < |s| => s[i] as int)
  }

  lemma CodesInjective(a: string, b: string)
    requires Codes(a) == Codes(b)
    ensures a == b
  {
    forall i | 0 <= i < |a| ensures a[i] == b[i] {
      assert Codes(a)[i] == Codes(b)[i];
    }
  }

  /** Python's `a < b` on `str`. */
  predicate Less(a: string, b: string) {
    Before(Codes(a), Codes(b))
  }

  /** `Less` is a strict total order; one call supplies every instance a pair needs. */
  lemma LessTrichotomy(a: string, b: string)
    ensures !Less(a, a)
    ensures a == b || Less(a, b) || Less(b, a)
    ensures !(Less(a, b) && Less(b, a))
  {
    BeforeIrreflexive(Codes(a));
    BeforeTotal(Codes(a), Codes(b));
    if Codes(a) == Codes(b) {
      CodesInjective(a, b);
    }
    if Less(a, b) && Less(b, a) {
      BeforeTransitive(Codes(a), Codes(b), Codes(a));
    }
  }

  lemma LessTransitive(a: string, b: string, c: string)
    requires Less(a, b) && Less(b, c)
    ensures Less(a, c)
  {
    BeforeTransitive(Codes(a), Codes(b), Codes(c));
  }

  function Elements<T>(s: seq<T>): set<T> {
    set x | x in s
  }

  predicate Distinct<T(==)>(s: seq<T>) {
    forall i, j | 0 <= i < j < |s| :: s[i] != s[j]
  }

  // ---------------------------------------------------------------- sorting a finite set by key

  /** No two members of the set share a sort key. */
  predicate KeysDiffer<T(==)>(s: set<T>, key: T -> seq<int>) {
    forall x, y | x in s && y in s && key(x) == key(y) :: x == y
  }

  predicate IsLeastBy<T(==)>(x: T, s: set<T>, key: T -> seq<int>) {
    x in s && forall y | y in s :: y == x || Before(key(x), key(y))
  }

  predicate AscendingBy<T>(s: seq<T>, key: T -> seq<int>) {
    forall i, j | 0 <= i < j < |s| :: Before(key(s[i]), key(s[j]))
  }

  lemma {:induction false} LeastByExists<T>(s: set<T>, key: T -> seq<int>)
    requires s != {} && KeysDiffer(s, key)
    ensures exists x | x in s :: IsLeastBy(x, s, key)
  {
    var z :| z in s;
    if s == {z} {
      assert IsLeastBy(z, s, key);
    } else {
      var rest := s - {z};
      LeastByExists(rest, key);
      var m :| m in rest && IsLeastBy(m, rest, key);
      BeforeTotal(key(z), key(m));
      if Before(key(z), key(m)) {
        forall y | y in s ensures y == z || Before(key(z), key(y)) {
          if y != z && y != m {
            BeforeTransitive(key(z), key(m), key(y));
          }
        }
        assert IsLeastBy(z, s, key);
      } else {
        assert IsLeastBy(m, s, key);
      }
    }
  }

  lemma LeastByUnique<T>(s: set<T>, key: T -> seq<int>, x: T, y: T)
    requires IsLeastBy(x, s, key) && IsLeastBy(y, s, key)
    ensures x == y
  {
    if x != y {
      BeforeTransitive(key(x), key(y), key(x));
      BeforeIrreflexive(key(x));
    }
  }

  function LeastBy<T(==)>(s: set<T>, key: T -> seq<int>): (x: T)
    requires s != {} && KeysDiffer(s, key)
    ensures IsLeastBy(x, s, key)
  {
    LeastByExists(s, key);
    assert forall x, y | x in s && y in s && IsLeastBy(x, s, key) && IsLeastBy(y, s, key) :: x == y by {
      forall x, y | x in s && y in s && IsLeastBy(x, s, key) && IsLeastBy(y, s, key) ensures x == y {
        LeastByUnique(s, key, x, y);
      }
    }
    var x :| x in s && IsLeastBy(x, s, key);
    x
  }

  /** Python's `sorted(s, key=key)` for keys that differ. */
  function SortedBy<T(==,!new)>(s: set<T>, key: T -> seq<int>): (r: seq<T>)
    requires KeysDiffer(s, key)
    ensures Elements(r) == s
  {
    if s == {} then []
    else
      var x := LeastBy(s, key);
      var rest := SortedBy(s - {x}, key);
      assert forall y :: y in [x] + rest <==> y == x || y in Elements(rest);
      [x] + rest
  }

  lemma {:induction false} SortedByAscending<T(!new)>(s: set<T>, key: T -> seq<int>)
    requires KeysDiffer(s, key)
    ensures AscendingBy(SortedBy(s, key), key)
  {
    if s != {} {
      var x := LeastBy(s, key);
      var rest := SortedBy(s - {x}, key);
      SortedByAscending(s - {x}, key);
      assert forall y | y in rest :: y in Elements(rest);
    }
  }

  lemma {:induction false} AscendingByUnique<T>(a: seq<T>, b: seq<T>, key: T -> seq<int>)
    requires AscendingBy(a, key) && AscendingBy(b, key) && Elements(a) == Elements(b)
    ensures a == b
  {
    assert a != [] ==> a[0] in Elements(a);
    assert b != [] ==> b[0] in Elements(b);
    if a != [] && b != [] {
      AscendingByDistinct(a, key);
      AscendingByDistinct(b, key);
      if a[0] != b[0] {
        var i :| 0 <= i < |b| && b[i] == a[0];
        var j :| 0 <= j < |a| && a[j] == b[0];
        BeforeTransitive(key(a[0]), key(b[0]), key(a[0]));
        BeforeIrreflexive(key(a[0]));
      }
      assert Elements(a[1..]) == Elements(a) - {a[0]};
      assert Elements(b[1..]) == Elements(b) - {b[0]};
      AscendingByUnique(a[1..], b[1..], key);
      assert a == [a[0]] + a[1..];
    }
  }

  lemma AscendingByDistinct<T>(s: seq<T>, key: T -> seq<int>)
    requires AscendingBy(s, key)
    ensures Distinct(s)
  {
    forall i, j | 0 <= i < j < |s| ensures s[i] != s[j] {
      BeforeIrreflexive(key(s[i]));
    }
  }

  // ---------------------------------------------------------------- sorting a set of strings

  predicate IsLeast(x: string, s: set<string>) {
    x in s && forall y | y in s :: y == x || Less(x, y)
  }

  lemma CodesDiffer(s: set<string>)
    ensures KeysDiffer(s, Codes)
  {
    forall x, y | x in s && y in s && Codes(x) == Codes(y) ensures x == y {
      CodesInjective(x, y);
    }
  }

  /** Python's `min` of a non-empty collection of strings. */
  function Least(s: set<string>): (x: string)
    requires s != {}
    ensures IsLeast(x, s)
  {
    CodesDiffer(s);
    LeastBy(s, Codes)
  }

  predicate Ascending(s: seq<string>) {
    forall i, j | 0 <= i < j < |s| :: Less(s[i], s[j])
  }

  /** Python's `sorted` applied to a set of strings. */
  function Sorted(s: set<string>): (r: seq<string>)
    ensures Ascending(r) && Elements(r) == s
  {
    CodesDiffer(s);
    SortedByAscending(s, Codes);
    SortedBy(s, Codes)
  }

  lemma {:induction false} CardinalityMonotone<T>(a: set<T>, b: set<T>)
    requires a <= b
    ensures |a| <= |b|
  {
    if a != {} {
      var x :| x in a;
      CardinalityMonotone(a - {x}, b - {x});
    }
  }

  lemma PrefixStep<T>(s: seq<T>, i: nat)
    requires i < |s|
    ensures s[..i + 1] == s[..i] + [s[i]]
  {
  }

  lemma AppendNew<T>(s: seq<T>, x: T)
    requires Distinct(s) && x !in s
    ensures Distinct(s + [x]) && Elements(s + [x]) == Elements(s) + {x}
  {
  }
}

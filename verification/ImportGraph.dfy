/** Import graphs, walks through them, and the shortest-then-least order on walks. */
module ImportGraph {
  import opened Ordering

  type Graph = map<string, set<string>>

  /** `graph.get(package, ())`. */
  function Successors(g: Graph, package: string): set<string> {
    if package in g then g[package] else {}
  }

  predicate IsWalk(g: Graph, walk: seq<string>) {
    && |walk| > 0
    && forall i | 0 <= i < |walk| - 1 :: walk[i + 1] in Successors(g, walk[i])
  }

  function Last<T>(s: seq<T>): T
    requires |s| > 0
  {
    s[|s| - 1]
  }

  function Init<T>(s: seq<T>): seq<T>
    requires |s| > 0
  {
    s[..|s| - 1]
  }

  lemma WalkExtends(g: Graph, walk: seq<string>, target: string)
    requires IsWalk(g, walk) && target in Successors(g, Last(walk))
    ensures IsWalk(g, walk + [target])
  {
    var longer := walk + [target];
    forall i | 0 <= i < |longer| - 1 ensures longer[i + 1] in Successors(g, longer[i]) {
      if i < |walk| - 1 { assert walk[i + 1] in Successors(g, walk[i]); }
    }
  }

  /** Every package named by the graph, as importer or as import. */
  function Packages(g: Graph): set<string> {
    g.Keys + set p, t | p in g.Keys && t in g[p] :: t
  }

  /** A closed walk: each package imports the next one and the last imports the first. */
  predicate IsCycle(g: Graph, loop: seq<string>) {
    |loop| > 0 && IsWalk(g, loop + [loop[0]])
  }

  ghost predicate HasCycle(g: Graph) {
    exists loop :: IsCycle(g, loop)
  }

  /** Walks of one length compared package by package. */
  predicate LexLess(a: seq<string>, b: seq<string>)
    requires |a| == |b|
  {
    |a| > 0 && (Less(a[0], b[0]) || (a[0] == b[0] && LexLess(a[1..], b[1..])))
  }

  /** Fewer packages first, then the alphabetically least. */
  predicate Precedes(a: seq<string>, b: seq<string>) {
    |a| < |b| || (|a| == |b| && LexLess(a, b))
  }

  predicate AtMost(a: seq<string>, b: seq<string>) {
    a == b || Precedes(a, b)
  }

  lemma {:induction false} LexTransitive(a: seq<string>, b: seq<string>, c: seq<string>)
    requires |a| == |b| == |c| && LexLess(a, b) && LexLess(b, c)
    ensures LexLess(a, c)
  {
    if Less(a[0], b[0]) && Less(b[0], c[0]) {
      LessTransitive(a[0], b[0], c[0]);
    } else if a[0] == b[0] && b[0] == c[0] {
      LexTransitive(a[1..], b[1..], c[1..]);
    }
  }

  lemma {:induction false} LexTotal(a: seq<string>, b: seq<string>)
    requires |a| == |b|
    ensures a == b || LexLess(a, b) || LexLess(b, a)
    ensures !(LexLess(a, b) && LexLess(b, a))
  {
    if |a| > 0 {
      LessTrichotomy(a[0], b[0]);
      LexTotal(a[1..], b[1..]);
      if a[0] == b[0] && a[1..] == b[1..] {
        assert a == [a[0]] + a[1..] == [b[0]] + b[1..];
      }
    }
  }

  lemma PrecedesTotal(a: seq<string>, b: seq<string>)
    ensures a == b || Precedes(a, b) || Precedes(b, a)
    ensures !(Precedes(a, b) && Precedes(b, a))
    ensures !Precedes(a, a)
  {
    if |a| == |b| { LexTotal(a, b); }
    LexTotal(a, a);
  }

  lemma PrecedesTransitive(a: seq<string>, b: seq<string>, c: seq<string>)
    requires AtMost(a, b) && AtMost(b, c)
    ensures AtMost(a, c)
    ensures Precedes(a, b) || Precedes(b, c) ==> Precedes(a, c)
  {
    if |a| == |b| == |c| && a != b && b != c {
      LexTransitive(a, b, c);
    }
  }

  lemma {:induction false} LexExtend(a: seq<string>, b: seq<string>, x: string, y: string)
    requires |a| == |b|
    requires LexLess(a, b) || (a == b && Less(x, y))
    ensures LexLess(a + [x], b + [y])
  {
    if |a| > 0 {
      assert (a + [x])[1..] == a[1..] + [x];
      assert (b + [y])[1..] == b[1..] + [y];
      if a[0] == b[0] && !Less(a[0], b[0]) {
        LexExtend(a[1..], b[1..], x, y);
      }
    }
  }

  /** Extending walks by one package keeps their order. */
  lemma PrecedesExtend(a: seq<string>, b: seq<string>, x: string, y: string)
    requires Precedes(a, b) || (a == b && Less(x, y))
    ensures Precedes(a + [x], b + [y])
  {
    if |a| == |b| {
      LexExtend(a, b, x, y);
    }
  }

  /** The first difference decides. */
  lemma {:induction false} LexAt(a: seq<string>, b: seq<string>, k: nat)
    requires |a| == |b| && k < |a| && a[..k] == b[..k] && Less(a[k], b[k])
    ensures LexLess(a, b)
  {
    if k > 0 {
      assert a[0] == a[..k][0] == b[..k][0] == b[0];
      assert a[1..][..k - 1] == a[..k][1..] == b[..k][1..] == b[1..][..k - 1];
      LexAt(a[1..], b[1..], k - 1);
    }
  }
}

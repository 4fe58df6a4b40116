/** Text as a sequence of lines that keep their line feeds. */
module LineText {

  type Lines = seq<string>

  /** A line with its line feed, which occurs nowhere else in it. */
  predicate IsLine(s: string) {
    |s| > 0 && s[|s| - 1] == '\n' && '\n' !in s[..|s| - 1]
  }

  /** The last line of a text that does not end in a line feed. */
  predicate IsTail(s: string) {
    |s| > 0 && '\n' !in s
  }

  predicate AllLines(lines: Lines) {
    forall i | 0 <= i < |lines| :: IsLine(lines[i])
  }

  /** Only the last line may lack its line feed. */
  predicate Proper(lines: Lines) {
    lines == [] || (AllLines(lines[..|lines| - 1]) && (IsLine(lines[|lines| - 1]) || IsTail(lines[|lines| - 1])))
  }

  function Flatten(lines: Lines): string {
    if lines == [] then "" else lines[0] + Flatten(lines[1..])
  }

  /** The length of the first line of a non-empty text. */
  function FirstLength(s: string): (n: nat)
    requires s != ""
    ensures 0 < n <= |s| && '\n' !in s[..n - 1] && (n < |s| ==> s[n - 1] == '\n')
  {
    if s[0] == '\n' || |s| == 1 then 1 else 1 + FirstLength(s[1..])
  }

  function LinesOf(s: string): Lines {
    if s == "" then [] else [s[..FirstLength(s)]] + LinesOf(s[FirstLength(s)..])
  }

  lemma ProperTail(lines: Lines)
    requires Proper(lines) && |lines| > 0
    ensures Proper(lines[1..]) && (|lines| > 1 ==> IsLine(lines[0])) && (|lines| == 1 ==> IsLine(lines[0]) || IsTail(lines[0]))
  {
    var init := lines[..|lines| - 1];
    if |lines| > 1 {
      assert init[0] == lines[0];
      var rest := lines[1..];
      assert rest[..|rest| - 1] == init[1..];
    }
  }

  lemma ProperCons(line: string, rest: Lines)
    requires Proper(rest) && (IsLine(line) || (rest == [] && IsTail(line)))
    ensures Proper([line] + rest)
  {
    var all := [line] + rest;
    if rest != [] {
      assert all[..|all| - 1] == [line] + rest[..|rest| - 1];
    }
  }

  lemma {:induction false} FlattenLinesOf(s: string)
    ensures Flatten(LinesOf(s)) == s && Proper(LinesOf(s))
  {
    if s != "" {
      var n := FirstLength(s);
      FlattenLinesOf(s[n..]);
      assert s == s[..n] + s[n..];
      assert s[..n][..n - 1] == s[..n - 1];
      if n == |s| && s[n - 1] != '\n' {
        assert s[..n] == s[..n - 1] + [s[n - 1]];
      }
      ProperCons(s[..n], LinesOf(s[n..]));
    }
  }

  lemma {:induction false} FirstLengthOf(line: string, rest: string)
    requires IsLine(line) || (IsTail(line) && rest == "")
    ensures FirstLength(line + rest) == |line|
  {
    var s := line + rest;
    assert s[0] == line[0] && (|line| > 1 ==> line[..|line| - 1][0] == line[0]);
    if |line| > 1 && line[0] != '\n' {
      var tail := line[1..];
      assert IsLine(line) ==> tail[..|tail| - 1] == line[..|line| - 1][1..];
      FirstLengthOf(tail, rest);
      assert s[1..] == tail + rest;
    }
  }

  /** Lines and text determine each other. */
  lemma {:induction false} LinesOfFlatten(lines: Lines)
    requires Proper(lines)
    ensures LinesOf(Flatten(lines)) == lines
  {
    if lines != [] {
      ProperTail(lines);
      var line, rest := lines[0], Flatten(lines[1..]);
      FirstLengthOf(line, rest);
      LinesOfFlatten(lines[1..]);
      assert (line + rest)[..|line|] == line && (line + rest)[|line|..] == rest;
      assert lines == [line] + lines[1..];
    }
  }

  lemma {:induction false} FlattenConcat(a: Lines, b: Lines)
    ensures Flatten(a + b) == Flatten(a) + Flatten(b)
  {
    if a == [] {
      assert a + b == b;
    } else {
      FlattenConcat(a[1..], b);
      assert (a + b)[0] == a[0] && (a + b)[1..] == a[1..] + b;
      var x, y, z := a[0], Flatten(a[1..]), Flatten(b);
      assert x + (y + z) == x + y + z;
    }
  }

  lemma {:induction false} ProperConcat(a: Lines, b: Lines)
    requires AllLines(a) && Proper(b)
    ensures Proper(a + b)
  {
    if a == [] {
      assert a + b == b;
    } else {
      ProperConcat(a[1..], b);
      ProperCons(a[0], a[1..] + b);
      assert a + b == [a[0]] + (a[1..] + b);
    }
  }

  lemma ProperParts(lines: Lines, k: nat)
    requires Proper(lines) && k <= |lines|
    ensures Proper(lines[k..]) && Proper(lines[..k]) && (k < |lines| ==> AllLines(lines[..k]))
  {
    var n := |lines|;
    if k < n {
      var init := lines[..n - 1];
      assert forall i | 0 <= i < k :: lines[..k][i] == init[i];
      assert lines[k..][..n - k - 1] == init[k..];
      assert k > 0 ==> lines[..k][..k - 1] == init[..k - 1];
    } else {
      assert lines[..k] == lines;
    }
  }

  lemma SliceAfter(a: string, b: string, j: nat, n: nat)
    requires j + n <= |b|
    ensures (a + b)[|a| + j..|a| + j + n] == b[j..j + n]
    ensures j > 0 ==> (a + b)[|a| + j - 1] == b[j - 1]
  {
  }

  /** Line `i` of a text and where it starts. */
  lemma {:induction false} LineStarts(lines: Lines, i: nat) returns (k: nat)
    requires Proper(lines) && i < |lines|
    ensures k + |lines[i]| <= |Flatten(lines)| && Flatten(lines)[k..k + |lines[i]|] == lines[i]
    ensures k == 0 || Flatten(lines)[k - 1] == '\n'
  {
    var first, rest := lines[0], lines[1..];
    ProperTail(lines);
    if i == 0 {
      k := 0;
    } else {
      var j := LineStarts(rest, i - 1);
      k := |first| + j;
      assert rest[i - 1] == lines[i];
      SliceAfter(first, Flatten(rest), j, |lines[i]|);
    }
  }
}

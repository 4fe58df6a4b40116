/** The few `str` operations of the policy scripts: `split`, `join`, `startswith`, `removeprefix`. */
module Text {

  datatype Option<+T> = None | Some(value: T)

  /** `s.split(c)` for a one-character separator; never empty. */
  function Split(s: string, c: char): (parts: seq<string>)
    ensures |parts| >= 1
    ensures forall i | 0 <= i < |parts| :: c !in parts[i]
  {
    if s == "" then [""]
    else
      var rest := Split(s[1..], c);
      if s[0] == c then [""] + rest
      else [[s[0]] + rest[0]] + rest[1..]
  }

  /** `sep.join(parts)`. */
  function Join(parts: seq<string>, sep: string): string {
    if |parts| == 0 then ""
    else if |parts| == 1 then parts[0]
    else parts[0] + sep + Join(parts[1..], sep)
  }

  lemma JoinStep(parts: seq<string>, sep: string)
    requires |parts| > 1
    ensures Join(parts, sep) == parts[0] + (sep + Join(parts[1..], sep))
  {
    var tail := Join(parts[1..], sep);
    assert parts[0] + sep + tail == parts[0] + (sep + tail);
  }

  predicate StartsWith(s: string, prefix: string) {
    prefix <= s
  }

  predicate EndsWith(s: string, suffix: string) {
    |suffix| <= |s| && s[|s| - |suffix|..] == suffix
  }

  function LowerChar(c: char): char {
    if 'A' <= c <= 'Z' then (c as int + 32) as char else c
  }

  /** `lower` and `casefold` on ASCII text. */
  function Lower(s: string): string {
    seq(|s|, i requires 0 <= i < |s| => LowerChar(s[i]))
  }

  predicate IsDigit(c: char) {
    '0' <= c <= '9'
  }

  /** A lower-case hexadecimal digit. */
  predicate IsHex(c: char) {
    IsDigit(c) || 'a' <= c <= 'f'
  }

  /** `s.removeprefix(prefix)`. */
  function RemovePrefix(s: string, prefix: string): string {
    if prefix <= s then s[|prefix|..] else s
  }

  /** Splitting and joining with the same separator gives the text back. */
  lemma {:induction false} JoinSplit(s: string, c: char)
    ensures Join(Split(s, c), [c]) == s
  {
    if s != "" {
      JoinSplit(s[1..], c);
      var rest := Split(s[1..], c);
      if s[0] == c {
        assert ([""] + rest)[1..] == rest;
        assert s == [c] + s[1..];
      } else {
        var head := [s[0]] + rest[0];
        if |rest| == 1 {
          assert [head] + rest[1..] == [head];
        } else {
          assert ([head] + rest[1..])[1..] == rest[1..];
          assert head + [c] + Join(rest[1..], [c]) == [s[0]] + (rest[0] + [c] + Join(rest[1..], [c]));
        }
        assert s == [s[0]] + s[1..];
      }
    }
  }

  lemma {:induction false} SplitFirst(part: string, tail: string, c: char)
    requires c !in part
    ensures Split(part, c) == [part]
    ensures Split(part + [c] + tail, c) == [part] + Split(tail, c)
  {
    var whole := part + [c] + tail;
    if part == "" {
      assert whole[1..] == tail;
    } else {
      SplitFirst(part[1..], tail, c);
      assert whole[1..] == part[1..] + [c] + tail;
      assert part == [part[0]] + part[1..];
    }
  }

  /** Joining parts that do not hold the separator and splitting again gives the parts back. */
  lemma {:induction false} SplitJoin(parts: seq<string>, c: char)
    requires |parts| >= 1
    requires forall i | 0 <= i < |parts| :: c !in parts[i]
    ensures Split(Join(parts, [c]), c) == parts
  {
    if |parts| == 1 {
      SplitFirst(parts[0], "", c);
    } else {
      SplitFirst(parts[0], Join(parts[1..], [c]), c);
      SplitJoin(parts[1..], c);
      assert parts == [parts[0]] + parts[1..];
    }
  }

  /** Every character of a split text is the separator or is in one of its parts. */
  lemma {:induction false} SplitCharacters(s: string, c: char, i: nat) returns (k: nat)
    requires i < |s| && s[i] != c
    ensures k < |Split(s, c)| && s[i] in Split(s, c)[k]
  {
    var rest := Split(s[1..], c);
    if i == 0 {
      k := 0;
    } else {
      var j := SplitCharacters(s[1..], c, i - 1);
      k := if s[0] == c then j + 1 else j;
    }
  }

  // ---------------------------------------------------------------- three components

  lemma SplitNext(part: string, tail: string, whole: string)
    requires '/' !in part && whole == part + "/" + tail
    ensures Split(whole, '/') == [part] + Split(tail, '/')
  {
    SplitFirst(part, tail, '/');
    assert whole == part + ['/'] + tail;
  }

  lemma SplitThree(x: string, y: string, z: string)
    requires '/' !in x && '/' !in y && '/' !in z
    ensures Split(x + "/" + (y + "/" + z), '/') == [x, y, z]
  {
    var rest := y + "/" + z;
    SplitFirst(z, "", '/');
    SplitNext(y, z, rest);
    SplitNext(x, rest, x + "/" + rest);
  }

  lemma SplitBeyond(x: string, y: string, z: string, tail: string)
    requires '/' !in x && '/' !in y && '/' !in z
    ensures Split(x + "/" + (y + "/" + (z + "/" + tail)), '/') == [x, y, z] + Split(tail, '/')
  {
    var last := z + "/" + tail;
    var rest := y + "/" + last;
    SplitNext(z, tail, last);
    SplitNext(y, last, rest);
    SplitNext(x, rest, x + "/" + rest);
    ThreeAndMore(x, y, z, Split(tail, '/'));
  }

  lemma ThreeAndMore<T>(x: T, y: T, z: T, more: seq<T>)
    ensures [x] + ([y] + ([z] + more)) == [x, y, z] + more
  {
  }

  lemma JoinTwo(x: string, parts: seq<string>)
    requires parts != []
    ensures Join([x] + parts, "/") == x + "/" + Join(parts, "/")
  {
    assert ([x] + parts)[1..] == parts;
  }

  lemma JoinThree(x: string, y: string, z: string)
    ensures Join([x, y, z], "/") == x + "/" + (y + "/" + z)
  {
    JoinTwo(y, [z]);
    JoinTwo(x, [y, z]);
    assert [x] + [y, z] == [x, y, z] && [y] + [z] == [y, z];
  }

  lemma JoinBeyond(x: string, y: string, z: string, more: seq<string>)
    requires more != []
    ensures Join([x, y, z] + more, "/") == x + "/" + (y + "/" + z) + "/" + Join(more, "/")
  {
    var tail := Join(more, "/");
    JoinTwo(z, more);
    JoinTwo(y, [z] + more);
    JoinTwo(x, [y] + ([z] + more));
    assert [x, y, z] + more == [x] + ([y] + ([z] + more));
    assert x + "/" + (y + "/" + (z + "/" + tail)) == x + "/" + (y + "/" + z) + "/" + tail;
  }
}

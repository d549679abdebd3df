/** JavaScript's `String.prototype.split` on a one-character separator, and the
    inverse joining that a template literal such as `${a}:${b}:${c}` performs. */
module Strings {

  /** `s.split(sep)`: the maximal runs of `s` that do not contain `sep`, in order. */
  function SplitOn(s: string, sep: char): (parts: seq<string>)
    ensures |parts| >= 1
    ensures forall i | 0 <= i < |parts| :: sep !in parts[i]
    decreases |s|
  {
    if s == [] then [[]]
    else
      var rest := SplitOn(s[1..], sep);
      if s[0] == sep then [[]] + rest
      else [[s[0]] + rest[0]] + rest[1..]
  }

  /** The pieces in order with `sep` between neighbours. */
  function JoinWith(parts: seq<string>, sep: char): string
    requires |parts| >= 1
    decreases |parts|
  {
    if |parts| == 1 then parts[0] else parts[0] + [sep] + JoinWith(parts[1..], sep)
  }

  /** Splitting loses nothing: joining the pieces gives back the string. */
  lemma {:induction false} JoinSplit(s: string, sep: char)
    ensures JoinWith(SplitOn(s, sep), sep) == s
    decreases |s|
  {
    if s != [] {
      var rest := SplitOn(s[1..], sep);
      JoinSplit(s[1..], sep);
      assert [s[0]] + s[1..] == s;
      if s[0] == sep {
        assert SplitOn(s, sep) == [[]] + rest;
        JoinEmptyFirst(rest, sep);
      } else {
        assert SplitOn(s, sep) == [[s[0]] + rest[0]] + rest[1..];
        JoinExtendFirst([s[0]], rest, sep);
      }
    }
  }

  /** An empty first piece contributes only its separator. */
  lemma JoinEmptyFirst(rest: seq<string>, sep: char)
    requires |rest| >= 1
    ensures JoinWith([[]] + rest, sep) == [sep] + JoinWith(rest, sep)
  {
    assert ([[]] + rest)[1..] == rest;
  }

  /** Prepending to the first piece prepends to the joined string. */
  lemma JoinExtendFirst(c: string, rest: seq<string>, sep: char)
    requires |rest| >= 1
    ensures JoinWith([c + rest[0]] + rest[1..], sep) == c + JoinWith(rest, sep)
  {
    var parts := [c + rest[0]] + rest[1..];
    if |rest| > 1 {
      assert parts[1..] == rest[1..];
      assert JoinWith(parts, sep) == (c + rest[0]) + [sep] + JoinWith(rest[1..], sep);
    }
  }

  /** A string without the separator is a single piece. */
  lemma {:induction false} SplitWithoutSeparator(a: string, sep: char)
    requires sep !in a
    ensures SplitOn(a, sep) == [a]
    decreases |a|
  {
    if a != [] {
      SplitWithoutSeparator(a[1..], sep);
      assert [a[0]] + a[1..] == a;
    }
  }

  /** A separator-free prefix followed by the separator is the first piece. */
  lemma {:induction false} SplitAfterPiece(a: string, sep: char, rest: string)
    requires sep !in a
    ensures SplitOn(a + [sep] + rest, sep) == [a] + SplitOn(rest, sep)
    decreases |a|
  {
    var s := a + [sep] + rest;
    if a == [] {
      assert s == [sep] + rest;
      assert s[1..] == rest;
    } else {
      assert s[1..] == a[1..] + [sep] + rest;
      SplitAfterPiece(a[1..], sep, rest);
      assert [a[0]] + a[1..] == a;
    }
  }

  /** Joining separator-free pieces and splitting again gives back the pieces. */
  lemma {:induction false} SplitJoin(parts: seq<string>, sep: char)
    requires |parts| >= 1
    requires forall i | 0 <= i < |parts| :: sep !in parts[i]
    ensures SplitOn(JoinWith(parts, sep), sep) == parts
    decreases |parts|
  {
    if |parts| == 1 {
      SplitWithoutSeparator(parts[0], sep);
    } else {
      SplitJoin(parts[1..], sep);
      SplitAfterPiece(parts[0], sep, JoinWith(parts[1..], sep));
      assert [parts[0]] + parts[1..] == parts;
    }
  }

  /** The first piece `s.split(sep)[0]` is the longest prefix of `s` without `sep`:
      it is a prefix, it has no `sep`, and it stops at the end of `s` or at a `sep`. */
  lemma {:induction false} FirstPiece(s: string, sep: char)
    ensures SplitOn(s, sep)[0] <= s
    ensures sep !in SplitOn(s, sep)[0]
    ensures |SplitOn(s, sep)[0]| == |s| || s[|SplitOn(s, sep)[0]|] == sep
    decreases |s|
  {
    if s != [] && s[0] != sep {
      FirstPiece(s[1..], sep);
      var rest := SplitOn(s[1..], sep);
      assert SplitOn(s, sep)[0] == [s[0]] + rest[0];
      assert s == [s[0]] + s[1..];
    }
  }
}

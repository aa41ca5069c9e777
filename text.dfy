/**
 * The .NET string and list primitives the library relies on:
 * `char.IsWhiteSpace` / `string.IsNullOrWhiteSpace`, `string.Split(char)`,
 * `string.Join(string, IEnumerable<string>)` and `List<string>.IndexOf`.
 */
module Text {

  import Constants

  /** The characters .NET's `char.IsWhiteSpace` accepts: the Unicode space, line and
      paragraph separators, plus U+0009..U+000D and U+0085. */
  predicate IsWhiteSpaceChar(c: char) {
    || ('\U{0009}' <= c <= '\U{000D}')
    || c == '\U{0020}' || c == '\U{0085}' || c == '\U{00A0}' || c == '\U{1680}'
    || ('\U{2000}' <= c <= '\U{200A}')
    || c == '\U{2028}' || c == '\U{2029}' || c == '\U{202F}' || c == '\U{205F}' || c == '\U{3000}'
  }

  /**
   * `string.IsNullOrWhiteSpace` on a non-null string: empty, or whitespace only.
   * A blank line never holds the separator.
   */
  function IsWhiteSpace(s: string): (r: bool)
    ensures s == [] ==> r
    ensures r ==> Constants.Separator !in s
  {
    forall k :: 0 <= k < |s| ==> IsWhiteSpaceChar(s[k])
  }

  /** Number of occurrences of `c` in `s`. */
  function Occurrences(s: string, c: char): nat {
    if s == [] then 0 else (if s[0] == c then 1 else 0) + Occurrences(s[1..], c)
  }

  /** No element of `parts` contains `sep`. */
  predicate NoneContains(parts: seq<string>, sep: char) {
    forall k :: 0 <= k < |parts| ==> sep !in parts[k]
  }

  /**
   * `s.Split(sep)`: the maximal `sep`-free pieces between separators, empty
   * pieces included; there is always one more piece than there are separators.
   */
  function Split(s: string, sep: char): (r: seq<string>)
    ensures |r| == Occurrences(s, sep) + 1
    ensures NoneContains(r, sep)
  {
    if s == [] then [""]
    else
      var rest := Split(s[1..], sep);
      if s[0] == sep then [""] + rest
      else [[s[0]] + rest[0]] + rest[1..]
  }

  /** A string has no occurrences of `c` exactly when it does not contain `c`. */
  lemma {:induction false} OccurrencesNone(s: string, c: char)
    ensures Occurrences(s, c) == 0 <==> c !in s
  {
    if s != [] {
      assert s == [s[0]] + s[1..];
      OccurrencesNone(s[1..], c);
    }
  }

  /** Occurrences add up over a concatenation. */
  lemma {:induction false} OccurrencesAppend(a: string, b: string, c: char)
    ensures Occurrences(a + b, c) == Occurrences(a, c) + Occurrences(b, c)
  {
    if a != [] {
      assert (a + b)[0] == a[0];
      assert (a + b)[1..] == a[1..] + b;
      OccurrencesAppend(a[1..], b, c);
    } else {
      assert a + b == b;
    }
  }

  /**
   * `string.Join(sep, parts)`: the parts with one `sep` between neighbours.
   * The result starts with the first part, and when no part holds `sep` it
   * holds exactly one `sep` per pair of neighbours.
   */
  function Join(parts: seq<string>, sep: char): (r: string)
    ensures parts == [] ==> r == ""
    ensures parts != [] ==> parts[0] <= r
    ensures parts != [] && NoneContains(parts, sep) ==> Occurrences(r, sep) == |parts| - 1
  {
    if parts == [] then ""
    else if |parts| == 1 then OccurrencesNone(parts[0], sep); parts[0]
    else
      var tail := Join(parts[1..], sep);
      OccurrencesAppend(parts[0], [sep] + tail, sep);
      OccurrencesAppend([sep], tail, sep);
      OccurrencesNone(parts[0], sep);
      assert Occurrences([sep], sep) == 1 by { assert [sep][1..] == []; }
      assert NoneContains(parts, sep) ==> NoneContains(parts[1..], sep);
      assert parts[0] + [sep] + tail == parts[0] + ([sep] + tail);
      parts[0] + [sep] + tail
  }

  /** Joining a list whose first element is extended by a prefix extends the join by that prefix. */
  lemma {:induction false} JoinConsPrefix(c: char, p: string, tail: seq<string>, sep: char)
    ensures Join([[c] + p] + tail, sep) == [c] + Join([p] + tail, sep)
  {
    var parts := [[c] + p] + tail;
    if tail != [] {
      assert parts[1..] == tail;
      assert ([p] + tail)[1..] == tail;
    }
  }

  /** Round trip: joining the pieces of a split with the same separator gives back the input. */
  lemma {:induction false} JoinSplit(s: string, sep: char)
    ensures Join(Split(s, sep), sep) == s
  {
    if s != [] {
      var rest := Split(s[1..], sep);
      JoinSplit(s[1..], sep);
      if s[0] == sep {
        assert ([""] + rest)[1..] == rest;
      } else {
        assert [rest[0]] + rest[1..] == rest;
        JoinConsPrefix(s[0], rest[0], rest[1..], sep);
      }
    }
  }

  /** Splitting a separator-free prefix followed by more text glues the prefix onto the first piece. */
  lemma {:induction false} SplitPrefix(p: string, u: string, sep: char)
    requires sep !in p
    ensures Split(p + u, sep) == [p + Split(u, sep)[0]] + Split(u, sep)[1..]
  {
    if p != [] {
      assert (p + u)[1..] == p[1..] + u;
      assert (p + u)[0] == p[0];
      SplitPrefix(p[1..], u, sep);
      assert [p[0]] + (p[1..] + Split(u, sep)[0]) == p + Split(u, sep)[0];
    } else {
      assert p + u == u;
      assert p + Split(u, sep)[0] == Split(u, sep)[0];
      assert [Split(u, sep)[0]] + Split(u, sep)[1..] == Split(u, sep);
    }
  }

  /** The other round trip: a non-empty list of separator-free strings survives join-then-split. */
  lemma {:induction false} SplitJoin(parts: seq<string>, sep: char)
    requires |parts| >= 1
    requires NoneContains(parts, sep)
    ensures Split(Join(parts, sep), sep) == parts
  {
    if |parts| == 1 {
      SplitPrefix(parts[0], "", sep);
      assert parts[0] + "" == parts[0];
    } else {
      var t := Join(parts[1..], sep);
      assert sep !in parts[0];
      assert parts[0] + [sep] + t == parts[0] + ([sep] + t);
      SplitPrefix(parts[0], [sep] + t, sep);
      assert ([sep] + t)[1..] == t;
      SplitJoin(parts[1..], sep);
      assert Join(parts, sep) == parts[0] + ([sep] + t);
      assert Split([sep] + t, sep) == [""] + parts[1..];
      assert Split([sep] + t, sep)[0] == "";
      assert Split([sep] + t, sep)[1..] == parts[1..];
      assert parts[0] + "" == parts[0];
      assert [parts[0]] + parts[1..] == parts;
    }
  }

  /** `i` is the position of the first occurrence of `x` in `xs`. */
  predicate IsFirstIndex(xs: seq<string>, x: string, i: int) {
    0 <= i < |xs| && xs[i] == x && x !in xs[..i]
  }

  /** The first occurrence of an element is unique. */
  lemma FirstIndexUnique(xs: seq<string>, x: string, i: int, j: int)
    requires IsFirstIndex(xs, x, i) && IsFirstIndex(xs, x, j)
    ensures i == j
  {
  }

  /** `List<string>.IndexOf`: the first position holding `x` (ordinal equality), or -1. */
  function IndexOf(xs: seq<string>, x: string): (i: int)
    ensures -1 <= i < |xs|
    ensures i == -1 <==> x !in xs
    ensures i != -1 ==> IsFirstIndex(xs, x, i)
  {
    if xs == [] then -1
    else if xs[0] == x then 0
    else
      var j := IndexOf(xs[1..], x);
      if j == -1 then -1
      else
        assert xs[1..][..j] == xs[1..j + 1];
        assert xs[..j + 1] == [xs[0]] + xs[1..j + 1];
        j + 1
  }

  /** No two positions of `xs` hold the same string. */
  predicate Distinct(xs: seq<string>) {
    forall i, j :: 0 <= i < j < |xs| ==> xs[i] != xs[j]
  }
}

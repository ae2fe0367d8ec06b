/**
 * Character classes and string helpers shared by the rest of the model.
 * Strings are sequences of Dafny characters (Unicode scalar values); the
 * letter classes are the ASCII subset of Java's Character.isUpperCase /
 * isLowerCase.
 */
module Strings {
  predicate IsUpper(c: char) { 'A' <= c <= 'Z' }

  predicate IsLower(c: char) { 'a' <= c <= 'z' }

  predicate IsDigit(c: char) { '0' <= c <= '9' }

  predicate IsLineBreak(c: char) { c == '\n' || c == '\r' }

  /** `sep` placed between consecutive parts, as String.join / Collectors.joining do. */
  function Join(parts: seq<string>, sep: string): (r: string)
    ensures parts == [] ==> r == ""
    ensures |parts| == 1 ==> r == parts[0]
  {
    if |parts| == 0 then ""
    else if |parts| == 1 then parts[0]
    else parts[0] + sep + Join(parts[1..], sep)
  }

  lemma JoinAppend(parts: seq<string>, p: string, sep: string)
    requires parts != []
    ensures Join(parts + [p], sep) == Join(parts, sep) + sep + p
  {
    if |parts| == 1 {
      assert parts + [p] == [parts[0], p];
    } else {
      assert (parts + [p])[1..] == parts[1..] + [p];
      JoinAppend(parts[1..], p, sep);
    }
  }

  /** The segments of `s` between occurrences of `sep`, keeping empty ones. */
  function SplitAll(s: string, sep: char): (r: seq<string>)
    ensures |r| >= 1
    ensures forall k :: 0 <= k < |r| ==> sep !in r[k]
    ensures Join(r, [sep]) == s
    decreases |s|
  {
    if |s| == 0 then [""]
    else
      var rest := SplitAll(s[1..], sep);
      if s[0] == sep then
        JoinCons([], rest, [sep]);
        [""] + rest
      else
        JoinHead(s[0], rest, [sep]);
        [[s[0]] + rest[0]] + rest[1..]
  }

  lemma JoinCons(first: string, rest: seq<string>, sep: string)
    requires |rest| >= 1
    ensures Join([first] + rest, sep) == first + sep + Join(rest, sep)
  {
    assert ([first] + rest)[1..] == rest;
  }

  lemma JoinHead(c: char, parts: seq<string>, sep: string)
    requires |parts| >= 1
    ensures Join([[c] + parts[0]] + parts[1..], sep) == [c] + Join(parts, sep)
  {
    var q := [[c] + parts[0]] + parts[1..];
    if |parts| == 1 {
      assert q == [[c] + parts[0]];
    } else {
      assert q[1..] == parts[1..];
    }
  }

  /** Drops trailing empty segments, as java.lang.String.split does; an all-empty list keeps nothing. */
  function DropTrailingEmpty(parts: seq<string>): (r: seq<string>)
    ensures |r| <= |parts| && r == parts[..|r|]
    ensures r == [] || r[|r| - 1] != ""
    ensures forall k :: |r| <= k < |parts| ==> parts[k] == ""
  {
    if |parts| == 0 then []
    else if parts[|parts| - 1] == "" then DropTrailingEmpty(parts[..|parts| - 1])
    else parts
  }

  /**
   * java.lang.String.split with a one-character literal separator: the string
   * "" gives [""]; otherwise trailing empty segments are removed.
   */
  function SplitOn(s: string, sep: char): (r: seq<string>)
    ensures s == "" ==> r == [""]
    ensures forall k :: 0 <= k < |r| ==> sep !in r[k]
  {
    if s == "" then [""] else DropTrailingEmpty(SplitAll(s, sep))
  }

  /** Index of the last occurrence of `c`, or -1: String.lastIndexOf(char). */
  function LastIndexOf(s: string, c: char): (r: int)
    ensures -1 <= r < |s|
    ensures r >= 0 ==> s[r] == c
    ensures forall k :: r < k < |s| ==> s[k] != c
  {
    if |s| == 0 then -1
    else if s[|s| - 1] == c then |s| - 1
    else LastIndexOf(s[..|s| - 1], c)
  }

  /** `n` copies of the character `c`. */
  function Repeat(c: char, n: nat): (r: string)
    ensures |r| == n
    ensures forall k :: 0 <= k < n ==> r[k] == c
  {
    if n == 0 then "" else Repeat(c, n - 1) + [c]
  }

  /** Whether `pat` occurs in `s` starting at index `i`. */
  predicate OccursAt(s: string, pat: string, i: nat)
  {
    i + |pat| <= |s| && s[i..i + |pat|] == pat
  }

  /**
   * String.replace(CharSequence, CharSequence): every non-overlapping
   * occurrence of a non-empty `pat`, scanning from the left, replaced by `rep`.
   */
  function ReplaceLiteral(s: string, pat: string, rep: string): (r: string)
    requires pat != []
    ensures !(exists i: nat :: OccursAt(s, pat, i)) ==> r == s
    decreases |s|
  {
    if |s| < |pat| then s
    else if s[..|pat|] == pat then
      assert OccursAt(s, pat, 0);
      rep + ReplaceLiteral(s[|pat|..], pat, rep)
    else
      var rest := ReplaceLiteral(s[1..], pat, rep);
      assert (!(exists i: nat :: OccursAt(s, pat, i))) ==> !(exists i: nat :: OccursAt(s[1..], pat, i)) by {
        forall i: nat | OccursAt(s[1..], pat, i) ensures OccursAt(s, pat, i + 1) {
          assert s[i + 1..i + 1 + |pat|] == s[1..][i..i + |pat|];
        }
      }
      [s[0]] + rest
  }

  /** Index of the first occurrence of `c`, or -1: String.indexOf(char). */
  function IndexOf(s: string, c: char): (r: int)
    ensures -1 <= r < |s|
    ensures r >= 0 ==> s[r] == c
    ensures forall k :: 0 <= k < |s| && (r < 0 || k < r) ==> s[k] != c
  {
    if |s| == 0 then -1
    else if s[0] == c then 0
    else
      var r := IndexOf(s[1..], c);
      if r < 0 then -1 else r + 1
  }

  /** Index of the last occurrence of `pat`, or -1: String.lastIndexOf(String) for a non-empty `pat`. */
  function LastOccurrence(s: string, pat: string): (r: int)
    requires pat != []
    ensures -1 <= r && (r >= 0 ==> r + |pat| <= |s|)
    ensures r >= 0 ==> OccursAt(s, pat, r)
    ensures forall k: nat :: r < k && OccursAt(s, pat, k) ==> false
  {
    LastOccurrenceFrom(s, pat, |s| - |pat|)
  }

  /** The last occurrence of `pat` starting at or before `k`. */
  function LastOccurrenceFrom(s: string, pat: string, k: int): (r: int)
    requires pat != [] && k <= |s| - |pat|
    ensures r == -1 || 0 <= r <= k
    ensures r >= 0 ==> OccursAt(s, pat, r)
    ensures forall j: nat :: r < j && OccursAt(s, pat, j) ==> j > k
    decreases k + 1
  {
    if k < 0 then -1
    else if OccursAt(s, pat, k) then k
    else LastOccurrenceFrom(s, pat, k - 1)
  }

  /** A string without `sep` is a single segment. */
  lemma {:induction false} SplitAllNoSep(p: string, sep: char)
    requires sep !in p
    ensures SplitAll(p, sep) == [p]
    decreases |p|
  {
    if |p| > 0 {
      SplitAllNoSep(p[1..], sep);
      assert [p[0]] + p[1..] == p;
    }
  }

  /** A separator-free head followed by the separator splits off as one segment. */
  lemma {:induction false} SplitAllHead(p: string, rest: string, sep: char)
    requires sep !in p
    ensures SplitAll(p + [sep] + rest, sep) == [p] + SplitAll(rest, sep)
    decreases |p|
  {
    var s := p + [sep] + rest;
    if |p| == 0 {
      assert s[1..] == rest;
    } else {
      assert s[1..] == p[1..] + [sep] + rest;
      SplitAllHead(p[1..], rest, sep);
      assert [p[0]] + p[1..] == p;
    }
  }

  /** Splitting a join of separator-free parts gives the parts back. */
  lemma {:induction false} SplitJoin(parts: seq<string>, sep: char)
    requires |parts| >= 1
    requires forall k :: 0 <= k < |parts| ==> sep !in parts[k]
    ensures SplitAll(Join(parts, [sep]), sep) == parts
    decreases |parts|
  {
    if |parts| == 1 {
      SplitAllNoSep(parts[0], sep);
    } else {
      SplitJoin(parts[1..], sep);
      SplitAllHead(parts[0], Join(parts[1..], [sep]), sep);
      assert [parts[0]] + parts[1..] == parts;
    }
  }

  /** A pattern whose first character is absent from `s` does not occur in it. */
  lemma AbsentNoOccurrence(s: string, pat: string)
    requires pat != [] && pat[0] !in s
    ensures !(exists i: nat :: OccursAt(s, pat, i))
  {
  }

  /** Join with the empty separator distributes over concatenation. */
  lemma {:induction false} JoinConcat(xs: seq<string>, ys: seq<string>)
    ensures Join(xs + ys, "") == Join(xs, "") + Join(ys, "")
    decreases |ys|
  {
    if ys == [] {
      assert xs + ys == xs;
    } else if xs == [] {
      assert xs + ys == ys;
    } else {
      var init := ys[..|ys| - 1];
      var last := ys[|ys| - 1];
      assert ys == init + [last];
      assert xs + ys == (xs + init) + [last];
      JoinConcat(xs, init);
      JoinAppend(xs + init, last, "");
      if init == [] {
        assert ys == [last];
      } else {
        JoinAppend(init, last, "");
      }
    }
  }

  /** A sequence is its first `n` elements followed by the rest. */
  lemma TakeDrop<T>(s: seq<T>, n: nat)
    requires n <= |s|
    ensures s[..n] + s[n..] == s
  {
  }
}

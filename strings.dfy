/**
 * The parts of Go's `strings` package that the core relies on:
 * `TrimSpace`, `ToLower`, `EqualFold`, and `Split`/`Join` on a single space.
 *
 * A Go string is a sequence of bytes; here each `char` of a `string` stands
 * for one byte. Whitespace and case are the ASCII ones.
 */
module Strings {

  /** ASCII white space as `unicode.IsSpace` sees it: ' ', '\t', '\n', '\v', '\f', '\r'. */
  predicate IsSpace(c: char) {
    c == ' ' || '\t' <= c <= '\r'
  }

  predicate AllSpace(s: string) {
    forall i :: 0 <= i < |s| ==> IsSpace(s[i])
  }

  /** Neither end of `s` is white space (the shape of every `TrimSpace` result). */
  predicate NoOuterSpace(s: string) {
    s == [] || (!IsSpace(s[0]) && !IsSpace(s[|s| - 1]))
  }

  /** First index at or after `i` that does not hold white space (or `|s|`). */
  function SkipSpaces(s: string, i: nat): (n: nat)
    requires i <= |s|
    ensures i <= n <= |s|
    ensures forall k :: i <= k < n ==> IsSpace(s[k])
    ensures n < |s| ==> !IsSpace(s[n])
    decreases |s| - i
  {
    if i < |s| && IsSpace(s[i]) then SkipSpaces(s, i + 1) else i
  }

  /** Smallest `n` in `lo..j` such that `s[n..j]` is all white space. */
  function SkipSpacesBack(s: string, lo: nat, j: nat): (n: nat)
    requires lo <= j <= |s|
    ensures lo <= n <= j
    ensures forall k :: n <= k < j ==> IsSpace(s[k])
    ensures lo < n ==> !IsSpace(s[n - 1])
  {
    if lo < j && IsSpace(s[j - 1]) then SkipSpacesBack(s, lo, j - 1) else j
  }

  /** `r` is `s` with a white-space prefix and a white-space suffix cut off. */
  ghost predicate IsTrimmedFrom(r: string, s: string) {
    exists a, b :: 0 <= a <= b <= |s| && r == s[a..b]
      && (forall k :: 0 <= k < a ==> IsSpace(s[k]))
      && (forall k :: b <= k < |s| ==> IsSpace(s[k]))
  }

  /** `strings.TrimSpace`: `s` without its leading and trailing white space. */
  function TrimSpace(s: string): (r: string)
    ensures IsTrimmedFrom(r, s)
    ensures NoOuterSpace(r)
    ensures r == [] <==> AllSpace(s)
  {
    var a := SkipSpaces(s, 0);
    var b := SkipSpacesBack(s, a, |s|);
    assert a < b ==> s[a..b][0] == s[a] && s[a..b][b - a - 1] == s[b - 1];
    s[a..b]
  }

  /** Trimming is determined by its shape: white space around an untrimmable core. */
  lemma TrimSpaceOf(pre: string, core: string, post: string)
    requires AllSpace(pre) && AllSpace(post) && NoOuterSpace(core)
    ensures TrimSpace(pre + core + post) == core
  {
    var s := pre + core + post;
    var m := |pre| + |core|;
    assert forall i :: 0 <= i < |pre| ==> s[i] == pre[i];
    assert forall i :: m <= i < |s| ==> s[i] == post[i - m];
    var a := SkipSpaces(s, 0);
    if core == [] {
      assert AllSpace(s);
    } else {
      assert s[|pre|] == core[0];
      assert s[m - 1] == core[|core| - 1];
      assert a == |pre|;
      var b := SkipSpacesBack(s, a, |s|);
      assert b == m;
      assert TrimSpace(s) == s[a..b];
      assert s[a..b] == core;
    }
  }

  /** When `s` ends in a non-space byte, trimming only cuts white space off the front. */
  lemma TrimSpaceKeepsEnd(s: string)
    requires s != [] && !IsSpace(s[|s| - 1])
    ensures TrimSpace(s) != []
    ensures |TrimSpace(s)| <= |s| && TrimSpace(s) == s[|s| - |TrimSpace(s)|..]
    ensures AllSpace(s[..|s| - |TrimSpace(s)|])
  {
  }

  lemma TrimSpaceIdempotent(s: string)
    ensures TrimSpace(TrimSpace(s)) == TrimSpace(s)
  {
  }

  /** ASCII `unicode.ToLower`: 'A'..'Z' map to 'a'..'z', every other byte to itself. */
  function LowerChar(c: char): (d: char)
    ensures 'A' <= c <= 'Z' ==> d != c && 'a' <= d <= 'z'
    ensures !('A' <= c <= 'Z') ==> d == c
  {
    if 'A' <= c <= 'Z' then (c as int + 32) as char else c
  }

  /** `strings.ToLower`, byte by byte. */
  function ToLower(s: string): (r: string)
    ensures |r| == |s|
    ensures forall i :: 0 <= i < |s| ==> r[i] == LowerChar(s[i])
  {
    seq(|s|, i requires 0 <= i < |s| => LowerChar(s[i]))
  }

  /** Lower-casing twice is lower-casing once. */
  lemma ToLowerIdempotent(s: string)
    ensures ToLower(ToLower(s)) == ToLower(s)
  {
  }

  /**
   * `strings.EqualFold` for ASCII: equal lengths and equal bytes up to case.
   * Two strings are equal under folding exactly when their lower-case forms are equal.
   */
  predicate EqualFold(a: string, b: string): (r: bool)
    ensures r <==> ToLower(a) == ToLower(b)
  {
    var r := |a| == |b| && forall i :: 0 <= i < |a| ==> LowerChar(a[i]) == LowerChar(b[i]);
    assert ToLower(a) == ToLower(b) ==> r by {
      if ToLower(a) == ToLower(b) {
        forall i | 0 <= i < |a| ensures LowerChar(a[i]) == LowerChar(b[i]) {
          assert ToLower(a)[i] == ToLower(b)[i];
        }
      }
    }
    r
  }

  /** `strings.Split(s, " ")`: the pieces between single spaces, never an empty list. */
  function Split(s: string): (words: seq<string>)
    ensures |words| >= 1
    ensures forall k :: 0 <= k < |words| ==> ' ' !in words[k]
  {
    if s == [] then [""]
    else
      var rest := Split(s[1..]);
      if s[0] == ' ' then [""] + rest
      else [[s[0]] + rest[0]] + rest[1..]
  }

  /** Sum of the lengths of `words`. */
  function TotalLength(words: seq<string>): nat {
    if words == [] then 0 else |words[0]| + TotalLength(words[1..])
  }

  /** `strings.Join(words, " ")`: the words with one separator between each two. */
  function Join(words: seq<string>): (r: string)
    ensures words == [] ==> r == ""
    ensures words != [] ==> |r| == TotalLength(words) + |words| - 1
    ensures words != [] ==> r[..|words[0]|] == words[0]
  {
    if |words| == 0 then ""
    else if |words| == 1 then words[0]
    else words[0] + " " + Join(words[1..])
  }

  /** Joining the pieces of a split gives the string back. */
  lemma {:induction false} JoinSplit(s: string)
    ensures Join(Split(s)) == s
  {
    if s != [] {
      var rest := Split(s[1..]);
      JoinSplit(s[1..]);
      if s[0] != ' ' {
        if |rest| == 1 {
        } else {
          assert Join(rest) == rest[0] + " " + Join(rest[1..]);
          assert ([[s[0]] + rest[0]] + rest[1..])[1..] == rest[1..];
        }
      }
      assert s == [s[0]] + s[1..];
    }
  }

  /** Splitting `a + t`, where `a` holds no space, extends the first piece of `t`. */
  lemma {:induction false} SplitPrefix(a: string, t: string)
    requires ' ' !in a
    ensures Split(a + t) == [a + Split(t)[0]] + Split(t)[1..]
  {
    if a != [] {
      var rest := Split(t);
      SplitPrefix(a[1..], t);
      assert (a + t)[0] == a[0] && (a + t)[1..] == a[1..] + t;
      assert Split(a + t) == [[a[0]] + (a[1..] + rest[0])] + rest[1..];
      assert [a[0]] + (a[1..] + rest[0]) == a + rest[0];
    } else {
      assert a + t == t && a + Split(t)[0] == Split(t)[0];
      assert Split(t) == [Split(t)[0]] + Split(t)[1..];
    }
  }

  /** Splitting a join of space-free words gives the words back. */
  lemma {:induction false} SplitJoin(words: seq<string>)
    requires |words| >= 1
    requires forall k :: 0 <= k < |words| ==> ' ' !in words[k]
    ensures Split(Join(words)) == words
  {
    if |words| == 1 {
      SplitPrefix(words[0], "");
      assert words[0] + "" == words[0];
    } else {
      var tail := " " + Join(words[1..]);
      SplitJoin(words[1..]);
      assert Split(tail) == [""] + words[1..];
      SplitPrefix(words[0], tail);
      assert words[0] + tail == Join(words);
      assert words[0] + "" == words[0];
      assert [words[0]] + words[1..] == words;
    }
  }

  /** A split yields one piece more than there are spaces. */
  lemma {:induction false} SplitCount(s: string)
    ensures |Split(s)| == multiset(s)[' '] + 1
  {
    if s != [] {
      SplitCount(s[1..]);
      assert s == [s[0]] + s[1..];
      assert multiset(s) == multiset{s[0]} + multiset(s[1..]);
    }
  }

  /** Joining words that are each no longer than their counterparts gives a string no longer. */
  lemma {:induction false} JoinNotLonger(short: seq<string>, long: seq<string>)
    requires |short| == |long|
    requires forall k :: 0 <= k < |short| ==> |short[k]| <= |long[k]|
    ensures |Join(short)| <= |Join(long)|
  {
    if |short| > 1 {
      JoinNotLonger(short[1..], long[1..]);
    }
  }
}

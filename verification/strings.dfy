/**
 Character-sequence helpers the generator relies on: Python's `str.join` with a
 one-character separator and its inverse `str.split`, first/last occurrence
 search, and `str.strip()`.
 */
module Strings {

  /** `p` occurs in `s` starting at index `at`. */
  predicate OccursAt(p: string, s: string, at: nat) {
    at + |p| <= |s| && s[at..at + |p|] == p
  }

  predicate IsPrefix(p: string, s: string) {
    OccursAt(p, s, 0)
  }

  predicate IsSuffix(p: string, s: string) {
    |p| <= |s| && s[|s| - |p|..] == p
  }

  /** Index of the first `c` in `s`, or `|s|` when there is none. */
  function FirstIndex(s: string, c: char): (i: nat)
    ensures i <= |s|
    ensures i < |s| ==> s[i] == c
    ensures forall k :: 0 <= k < i ==> s[k] != c
    ensures i == |s| <==> c !in s
  {
    if |s| == 0 then 0
    else if s[0] == c then 0
    else 1 + FirstIndex(s[1..], c)
  }

  /** Index of the last `c` in `s`, or -1 when there is none. */
  function LastIndex(s: string, c: char): (j: int)
    ensures -1 <= j < |s|
    ensures 0 <= j ==> s[j] == c
    ensures forall k :: j < k < |s| ==> s[k] != c
    ensures j == -1 <==> c !in s
  {
    if |s| == 0 then -1
    else if s[|s| - 1] == c then |s| - 1
    else LastIndex(s[..|s| - 1], c)
  }

  /** Python's `sep.join(parts)` for a one-character separator. */
  function Join(parts: seq<string>, sep: char): string
  {
    if |parts| == 0 then ""
    else if |parts| == 1 then parts[0]
    else parts[0] + [sep] + Join(parts[1..], sep)
  }

  /** Python's `s.split(sep)`: the pieces between separators, never empty. */
  function Split(s: string, sep: char): (r: seq<string>)
    ensures |r| >= 1
    ensures forall k :: 0 <= k < |r| ==> sep !in r[k]
    decreases |s|
  {
    if sep !in s then [s]
    else
      var i := FirstIndex(s, sep);
      [s[..i]] + Split(s[i + 1..], sep)
  }

  /** Joining the pieces of a split restores the text, whatever it holds. */
  lemma {:induction false} JoinSplit(s: string, sep: char)
    ensures Join(Split(s, sep), sep) == s
    decreases |s|
  {
    if sep in s {
      var i := FirstIndex(s, sep);
      var rest := Split(s[i + 1..], sep);
      JoinSplit(s[i + 1..], sep);
      assert Split(s, sep) == [s[..i]] + rest;
      assert ([s[..i]] + rest)[1..] == rest;
      assert s == s[..i] + [sep] + s[i + 1..];
    }
  }

  /** Splitting a join gives the parts back when no part holds the separator. */
  lemma {:induction false} SplitJoin(parts: seq<string>, sep: char)
    requires |parts| >= 1
    requires forall k :: 0 <= k < |parts| ==> sep !in parts[k]
    ensures Split(Join(parts, sep), sep) == parts
  {
    if |parts| > 1 {
      var s := Join(parts, sep);
      var head := parts[0];
      assert s == head + [sep] + Join(parts[1..], sep);
      assert s[|head|] == sep;
      assert forall k :: 0 <= k < |head| ==> s[k] == head[k];
      assert FirstIndex(s, sep) == |head|;
      assert s[..|head|] == head;
      assert s[|head| + 1..] == Join(parts[1..], sep);
      SplitJoin(parts[1..], sep);
      assert [head] + parts[1..] == parts;
    }
  }

  /**
   The join is lossy once a part holds the separator: splitting the text does
   not give the parts back, and the pieces it gives are a different list with
   the same join.
   */
  lemma JoinIsLossyOnSeparator(xs: seq<string>, sep: char, k: nat)
    requires k < |xs| && sep in xs[k]
    ensures Split(Join(xs, sep), sep) != xs
    ensures Join(Split(Join(xs, sep), sep), sep) == Join(xs, sep)
  {
    var pieces := Split(Join(xs, sep), sep);
    JoinSplit(Join(xs, sep), sep);
    if k < |pieces| {
      assert sep !in pieces[k];
    }
  }

  /** Python's `str.isspace()` for one character. */
  predicate IsSpace(c: char) {
    || c == ' ' || ('\t' <= c <= '\r') || ('\U{1C}' <= c <= '\U{1F}')
    || c == '\U{85}' || c == '\U{A0}' || c == '\U{1680}'
    || ('\U{2000}' <= c <= '\U{200A}') || c == '\U{2028}' || c == '\U{2029}'
    || c == '\U{202F}' || c == '\U{205F}' || c == '\U{3000}'
  }

  function StripLeft(s: string): (r: string)
    ensures IsSuffix(r, s)
    ensures forall k :: 0 <= k < |s| - |r| ==> IsSpace(s[k])
    ensures |r| > 0 ==> !IsSpace(r[0])
  {
    if |s| > 0 && IsSpace(s[0]) then StripLeft(s[1..]) else s
  }

  function StripRight(s: string): (r: string)
    ensures IsPrefix(r, s)
    ensures forall k :: |r| <= k < |s| ==> IsSpace(s[k])
    ensures |r| > 0 ==> !IsSpace(r[|r| - 1])
  {
    if |s| > 0 && IsSpace(s[|s| - 1]) then StripRight(s[..|s| - 1]) else s
  }

  /** `r` is `s` with the first `i` characters and some trailing characters cut off, all of them whitespace. */
  predicate IsTrimmedAt(r: string, s: string, i: nat) {
    && OccursAt(r, s, i)
    && (forall k :: 0 <= k < i ==> IsSpace(s[k]))
    && (forall k :: i + |r| <= k < |s| ==> IsSpace(s[k]))
  }

  /** Python's `s.strip()`: the text without leading and trailing whitespace. */
  function Strip(s: string): (r: string)
    ensures exists i: nat :: IsTrimmedAt(r, s, i)
    ensures |r| > 0 ==> !IsSpace(r[0]) && !IsSpace(r[|r| - 1])
    ensures r == "" <==> forall k :: 0 <= k < |s| ==> IsSpace(s[k])
  {
    var l := StripLeft(s);
    TrimmedAt(s, l, StripRight(l));
    StripRight(l)
  }

  /** Cutting leading whitespace and then trailing whitespace trims `s`. */
  lemma TrimmedAt(s: string, l: string, r: string)
    requires IsSuffix(l, s) && forall k :: 0 <= k < |s| - |l| ==> IsSpace(s[k])
    requires IsPrefix(r, l) && forall k :: |r| <= k < |l| ==> IsSpace(l[k])
    requires |r| > 0 ==> !IsSpace(r[0])
    ensures IsTrimmedAt(r, s, |s| - |l|)
    ensures r == "" <==> forall k :: 0 <= k < |s| ==> IsSpace(s[k])
  {
    var i := |s| - |l|;
    assert s[i..] == l;
    assert forall k :: i <= k < |s| ==> s[k] == l[k - i];
    assert s[i..i + |r|] == r by {
      assert l[..|r|] == r;
    }
    if |r| > 0 {
      assert s[i] == r[0];
    }
  }

  /** Stripping twice is stripping once. */
  lemma StripIdempotent(s: string)
    ensures Strip(Strip(s)) == Strip(s)
  {
    var r := Strip(s);
    if |r| > 0 {
      assert StripLeft(r) == r;
      assert StripRight(r) == r;
    }
  }
}

/**
 Pulling the JSON array out of the model's reply. The generator searches the
 reply with the pattern `\[.*\]` in dot-matches-newline mode and keeps the
 match, or the whole reply when there is none. Under that mode `.` matches
 every character, so a match is any slice that opens with `[` and closes with
 a later `]`; the search reports the leftmost start and, because `.*` is
 greedy, the longest slice from that start.
 */
module Extract {
  import opened Wrappers
  import opened Strings

  /** A half-open slice `[start, end)` of the reply. */
  datatype Span = Span(start: nat, end: nat)

  /** `\[.*\]` matches the slice `s[i..e]`. */
  predicate MatchesAt(s: string, i: nat, e: nat) {
    i + 2 <= e <= |s| && s[i] == '[' && s[e - 1] == ']'
  }

  /** What a leftmost, greedy search for `\[.*\]` reports for `s`. */
  ghost predicate IsSearchResult(s: string, m: Option<Span>) {
    match m
    case None => forall i: nat, e: nat :: !MatchesAt(s, i, e)
    case Some(sp) =>
      && MatchesAt(s, sp.start, sp.end)
      && (forall i: nat, e: nat :: i < sp.start ==> !MatchesAt(s, i, e))
      && (forall e: nat :: sp.end < e ==> !MatchesAt(s, sp.start, e))
  }

  /** The reply holds a `[` somewhere before a `]`. */
  ghost predicate HasBracketPair(s: string) {
    exists i, j :: 0 <= i < j < |s| && s[i] == '[' && s[j] == ']'
  }

  /** The search reports one answer at most: leftmost, then longest. */
  lemma SearchResultUnique(s: string, m1: Option<Span>, m2: Option<Span>)
    requires IsSearchResult(s, m1) && IsSearchResult(s, m2)
    ensures m1 == m2
  {
    assert m1.Some? ==> MatchesAt(s, m1.value.start, m1.value.end);
    assert m2.Some? ==> MatchesAt(s, m2.value.start, m2.value.end);
  }

  /** The search, computed from the first `[` and the last `]`. */
  function Search(s: string): (m: Option<Span>)
    ensures IsSearchResult(s, m)
    ensures m.Some? <==> HasBracketPair(s)
  {
    var i := FirstIndex(s, '[');
    var j := LastIndex(s, ']');
    if i < j then
      assert MatchesAt(s, i, j + 1);
      Some(Span(i, j + 1))
    else
      assert forall i': nat, e: nat :: MatchesAt(s, i', e) ==> i <= i' && e - 1 <= j;
      assert forall a, b :: 0 <= a < b < |s| && s[a] == '[' && s[b] == ']' ==> i <= a && b <= j;
      None
  }

  /**
   The search as the regular-expression engine runs it: try each start from the
   left; at a `[`, let `.*` take the rest of the reply and give characters back
   one at a time until a `]` closes the match.
   */
  method SearchByBacktracking(s: string) returns (m: Option<Span>)
    ensures IsSearchResult(s, m)
    ensures m == Search(s)
  {
    var start := 0;
    while start < |s|
      invariant 0 <= start <= |s|
      invariant forall i: nat, e: nat :: i < start ==> !MatchesAt(s, i, e)
    {
      if s[start] == '[' {
        var e := |s|;
        while start + 2 <= e
          invariant start + 1 <= e <= |s|
          invariant forall e': nat :: e < e' ==> !MatchesAt(s, start, e')
        {
          if s[e - 1] == ']' {
            m := Some(Span(start, e));
            SearchResultUnique(s, m, Search(s));
            return;
          }
          e := e - 1;
        }
      }
      start := start + 1;
    }
    m := None;
    SearchResultUnique(s, m, Search(s));
  }

  /** The candidate JSON text: the match when there is one, else the whole reply. */
  function ExtractJsonArray(raw: string): (r: string)
    ensures HasBracketPair(raw) ==>
      && r == raw[FirstIndex(raw, '[')..LastIndex(raw, ']') + 1]
      && |r| >= 2 && r[0] == '[' && r[|r| - 1] == ']'
      && OccursAt(r, raw, FirstIndex(raw, '['))
    ensures !HasBracketPair(raw) ==> r == raw
  {
    match Search(raw)
    case Some(sp) => raw[sp.start..sp.end]
    case None => raw
  }

  /** Text that already opens with `[` and closes with `]` is kept whole. */
  lemma CleanArrayKept(s: string)
    requires |s| >= 2 && s[0] == '[' && s[|s| - 1] == ']'
    ensures ExtractJsonArray(s) == s
  {
    assert HasBracketPair(s) by {
      assert 0 < |s| - 1 && s[0] == '[' && s[|s| - 1] == ']';
    }
    assert FirstIndex(s, '[') == 0;
    assert LastIndex(s, ']') == |s| - 1;
  }

  /** Extracting from an extraction changes nothing. */
  lemma ExtractIdempotent(raw: string)
    ensures ExtractJsonArray(ExtractJsonArray(raw)) == ExtractJsonArray(raw)
  {
    if HasBracketPair(raw) {
      CleanArrayKept(ExtractJsonArray(raw));
    }
  }

  /** Prose before the json (with no `[`) and after it (with no `]`) is dropped. */
  lemma ProseAroundArrayDropped(before: string, json: string, after: string)
    requires |json| >= 2 && json[0] == '[' && json[|json| - 1] == ']'
    requires '[' !in before && ']' !in after
    ensures ExtractJsonArray(before + json + after) == json
  {
    var s := before + json + after;
    var i := |before|;
    var j := |before| + |json| - 1;
    assert s[i] == '[' && s[j] == ']';
    assert HasBracketPair(s);
    assert forall k :: 0 <= k < i ==> s[k] == before[k];
    assert FirstIndex(s, '[') == i;
    assert forall k :: j < k < |s| ==> s[k] == after[k - j - 1];
    assert LastIndex(s, ']') == j;
    assert s[i..j + 1] == json;
  }
}

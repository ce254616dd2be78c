/**
 Choosing the API key: the sidebar entry, stripped of surrounding whitespace,
 unless that leaves nothing, in which case the key from the environment; with
 neither, the page stops before anything else is shown.
 */
module ApiKey {
  import opened Wrappers
  import opened Strings

  /** `s` holds nothing but whitespace (or nothing at all). */
  predicate IsBlank(s: string) {
    forall k :: 0 <= k < |s| ==> IsSpace(s[k])
  }

  /** The key the client is built with; `None` means the page halts. */
  function EffectiveKey(entered: string, fallback: string): (key: Option<string>)
    ensures key.None? <==> IsBlank(entered) && fallback == ""
    ensures key.Some? ==> key.value != ""
    ensures !IsBlank(entered) ==> key == Some(Strip(entered))
    ensures IsBlank(entered) && fallback != "" ==> key == Some(fallback)
  {
    var stripped := Strip(entered);
    if stripped != "" then Some(stripped)
    else if fallback != "" then Some(fallback)
    else None
  }

  /** A key typed in the sidebar is used without surrounding whitespace, and stripping it again changes nothing. */
  lemma EnteredKeyIsTrimmed(entered: string, fallback: string)
    requires !IsBlank(entered)
    ensures var key := EffectiveKey(entered, fallback).value;
      && !IsSpace(key[0]) && !IsSpace(key[|key| - 1])
      && Strip(key) == key
  {
    assert Strip(entered) != "";
    StripIdempotent(entered);
  }
}

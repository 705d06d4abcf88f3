/** The text BeautifulSoup gives for an element, shared by the stages:
    `stripped_strings` and `get_text(sep, strip=True)` over the element's
    text nodes. */
module Html {
  import opened Base
  import opened Text
  import opened Seqs

  /** The text nodes of an element, in document order. */
  type Strings = seq<string>

  /** One text node as `stripped_strings` yields it: stripped, or nothing
      when it is all whitespace. */
  function NodeText(s: string): (t: Option<string>)
    ensures t.Some? ==> t.value != "" && Strip(t.value) == t.value
    ensures t.Some? <==> !AllSpace(s)
  {
    StripEmpty(s);
    StripIdempotent(s);
    if Strip(s) == "" then None else Some(Strip(s))
  }

  /** BeautifulSoup's `stripped_strings`: every text node stripped, the
      empty ones dropped, the rest in document order. */
  function StrippedStrings(strs: Strings): (r: seq<string>)
    ensures FilteredBy(r, strs, NodeText)
    ensures |r| <= |strs|
    ensures forall k :: 0 <= k < |r| ==> r[k] != "" && Strip(r[k]) == r[k]
  {
    FilterMapInOrder(strs, NodeText);
    var r := FilterMap(strs, NodeText);
    ghost var idx := KeptPositions(strs, NodeText);
    assert forall k :: 0 <= k < |r| ==> NodeText(strs[idx[k]]) == Some(r[k]);
    r
  }

  /** When no text node is blank, `stripped_strings` is every node stripped,
      position for position. */
  lemma StrippedStringsNoBlank(strs: Strings)
    requires forall i :: 0 <= i < |strs| ==> !AllSpace(strs[i])
    ensures |StrippedStrings(strs)| == |strs|
    ensures forall i :: 0 <= i < |strs| ==> StrippedStrings(strs)[i] == Strip(strs[i])
  {
    FilterMapAll(strs, NodeText);
  }

  /** `get_text(sep, strip=True)`. */
  function GetText(strs: Strings, sep: string): string {
    Join(StrippedStrings(strs), sep)
  }

  /** Text nodes that are all whitespace add nothing to the text. */
  lemma {:induction false} StrippedStringsBlank(strs: Strings, blank: string)
    requires AllSpace(blank)
    ensures StrippedStrings(strs + [blank]) == StrippedStrings(strs)
  {
    assert NodeText(blank).None?;
    assert (strs + [blank])[..|strs|] == strs;
  }
}

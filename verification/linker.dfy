/** The scanners behind the link unit (stelm/linker.py):
    `http://url`, `http://url|text` and `http://url|"quoted text"`. */
module Linker {
  import opened Text

  const Scheme: string := "http://"
  const HrefOpen: string := "<a href=\""
  const HrefClose: string := "\">"
  const AnchorClose: string := "</a>"

  /** `LINK_RE = (http://\S+?)(\s|\||$)` matches at `i`: the scheme, then
      at least one non-space character. The lazy `\S+?` can always stop
      at the next whitespace, `|` or the end of the text, so nothing else
      is needed. The scheme is compared character by character. */
  predicate LinkAt(s: string, i: nat) {
    && i + |Scheme| < |s|
    && s[i] == 'h' && s[i + 1] == 't' && s[i + 2] == 't' && s[i + 3] == 'p'
    && s[i + 4] == ':' && s[i + 5] == '/' && s[i + 6] == '/'
    && !IsSpace(s[i + |Scheme|])
  }

  /** The link unit's bid: the leftmost `LINK_RE` match at or after `pos`. */
  function LinkBid(s: string, pos: nat): (r: Option<nat>)
    ensures r.Some? ==> pos <= r.value && LinkAt(s, r.value)
    ensures r.Some? ==> forall k :: pos <= k < r.value ==> !LinkAt(s, k)
    ensures r.None? ==> forall k :: pos <= k < |s| ==> !LinkAt(s, k)
    decreases |s| - pos
  {
    if pos >= |s| then None
    else if LinkAt(s, pos) then Some(pos)
    else LinkBid(s, pos + 1)
  }

  /** The second group's alternatives, `\s` and `|`. */
  predicate UrlStopAt(s: string, k: nat) {
    k < |s| && (IsSpace(s[k]) || s[k] == '|')
  }

  /** The end of the lazy `\S+?`: the first whitespace or `|` at or after
      `i`, or the end of the text. */
  function UrlEnd(s: string, i: nat): (e: nat)
    requires i <= |s|
    ensures i <= e <= |s|
    ensures e < |s| ==> UrlStopAt(s, e)
    ensures forall k :: i <= k < e ==> !UrlStopAt(s, k)
    decreases |s| - i
  {
    if i == |s| || UrlStopAt(s, i) then i else UrlEnd(s, i + 1)
  }

  /** The URL matched at a bid `b`: `hit.end(1)`. It stops before
      whitespace, `|` or the end of the text. */
  function LinkEnd(s: string, b: nat): (e: nat)
    requires LinkAt(s, b)
    ensures b + |Scheme| < e <= |s|
    ensures e < |s| ==> IsSpace(s[e]) || s[e] == '|'
  {
    UrlEnd(s, b + |Scheme| + 1)
  }

  /** The URL's characters after the scheme are all non-space, and none
      after the first is `|`: the match is the shortest one. */
  lemma LinkEndRun(s: string, b: nat)
    requires LinkAt(s, b)
    ensures forall k :: b + |Scheme| <= k < LinkEnd(s, b) ==> !IsSpace(s[k])
    ensures forall k :: b + |Scheme| < k < LinkEnd(s, b) ==> !UrlStopAt(s, k)
  {
    var e := LinkEnd(s, b);
    forall k | b + |Scheme| <= k < e
      ensures !IsSpace(s[k])
    {
      if k > b + |Scheme| {
        assert !UrlStopAt(s, k);
      }
    }
  }

  /** `has_text`: the URL was ended by `|`. */
  predicate HasText(s: string, e: nat) {
    e < |s| && s[e] == '|'
  }

  /** The end of unquoted link text starting at `a`: the first whitespace
      searched from `a + 1`, or the end of the text. */
  function TextEnd(s: string, a: nat): (n: nat)
    requires a <= |s|
    ensures a <= n <= |s|
    ensures n < |s| ==> a < n && IsSpace(s[n])
    ensures forall k :: a + 1 <= k < n ==> !IsSpace(s[k])
  {
    FindSpace(s, a + 1).GetOr(|s|)
  }
}

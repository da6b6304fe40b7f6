/** The backslash escaper (stelm/escaper.py): `\x` emits `x` literally,
    hidden from every other unit. */
module Escaper {
  import opened Text

  /** `ESC_RE = (\\.)` matches at `i`: a backslash followed by any
      character except a newline (`.` excludes newline). */
  predicate EscAt(s: string, i: nat) {
    i + 1 < |s| && s[i] == '\\' && s[i + 1] != '\n'
  }

  /** The escaper's bid: the leftmost match of `ESC_RE` at or after `pos`. */
  function EscBid(s: string, pos: nat): (r: Option<nat>)
    ensures r.Some? ==> pos <= r.value && EscAt(s, r.value)
    ensures r.Some? ==> forall k :: pos <= k < r.value ==> !EscAt(s, k)
    ensures r.None? ==> forall k :: pos <= k < |s| ==> !EscAt(s, k)
    decreases |s| - pos
  {
    if pos >= |s| then None
    else if EscAt(s, pos) then Some(pos)
    else EscBid(s, pos + 1)
  }

  /** `Escaper.apply`: the text before the backslash (always, even when
      empty), then the escaped character on its own, resuming after it.
      The cursor is the one the unit was constructed with. */
  function EscApply(s: string, pos: nat): (r: Step)
    requires pos <= |s|
    requires EscBid(s, pos).Some?
    ensures var b := EscBid(s, pos).value;
      && r.next == b + 2 <= |s|
      && |r.frags| == 2
      && r.frags[0] == s[pos..b] && s[b] == '\\'
      && r.frags[1] == [s[b + 1]] && s[b + 1] != '\n'
      && Concat(r.frags) == s[pos..b] + s[b + 1..r.next]
  {
    var b := EscBid(s, pos).value;
    assert Concat([s[pos..b], [s[b + 1]]]) == s[pos..b] + [s[b + 1]];
    assert s[b + 1..b + 2] == [s[b + 1]];
    Step([s[pos..b], [s[b + 1]]], b + 2)
  }
}

/** The standalone em-dash unit (stelm/dasher.py): a `--` between
    whitespace, or at the very start of the text, becomes U+2014. Its
    pattern carries no flags, so `\s` is ASCII whitespace and `^` is the
    start of the text only. */
module Dasher {
  import opened Text

  const EmDash: string := "\U{2014}"

  /** `MINUSES_RE = (\s|^)(--)(\s)` matches at `i`; the result is where
      group 2, the `--`, starts. The `\s` alternative is tried first. */
  function MatchAt(s: string, i: nat): (r: Option<nat>)
    ensures r.Some? ==> (r.value == i || r.value == i + 1) && r.value + 3 <= |s|
  {
    if i + 4 <= |s| && IsSpace(s[i]) && s[i + 1] == '-' && s[i + 2] == '-' && IsSpace(s[i + 3]) then Some(i + 1)
    else if i == 0 && 3 <= |s| && s[0] == '-' && s[1] == '-' && IsSpace(s[2]) then Some(0)
    else None
  }

  /** `MINUSES_RE.search(s, pos)`: the start of the leftmost match. */
  function FirstMatch(s: string, pos: nat): (r: Option<nat>)
    ensures r.Some? ==> pos <= r.value && MatchAt(s, r.value).Some?
    ensures r.Some? ==> forall k :: pos <= k < r.value ==> MatchAt(s, k).None?
    ensures r.None? ==> forall k :: pos <= k ==> MatchAt(s, k).None?
    decreases |s| - pos
  {
    if pos >= |s| then None
    else if MatchAt(s, pos).Some? then Some(pos)
    else FirstMatch(s, pos + 1)
  }

  /** `Dasher(s, pos).getStart()`: `hit.start(2)`. */
  function DashBid(s: string, pos: nat): (r: Option<nat>)
    ensures r.Some? ==> pos <= r.value && r.value + 3 <= |s|
  {
    match FirstMatch(s, pos)
    case None => None
    case Some(i) => MatchAt(s, i)
  }

  /** `Dasher(s, pos).apply(s, pos)`: the text before the `--` (with the
      whitespace in front of it), then the dash; the cursor stops right
      after the `--`, leaving the whitespace behind it to the next round. */
  function DashApply(s: string, pos: nat): (r: Step)
    requires pos <= |s|
    ensures r.next <= |s|
    ensures DashBid(s, pos).None? ==> r == Step([], pos)
    ensures DashBid(s, pos).Some? ==> r.next == DashBid(s, pos).value + 2
  {
    match DashBid(s, pos)
    case None => Step([], pos)
    case Some(b) => Step(Prefix(s, pos, b) + [EmDash], b + 2)
  }

  /** Reference reading: a `--` at `b` that a search from `pos` replaces.
      It is followed by whitespace, and preceded by whitespace the search
      can see (at or after `pos`) or sits at the very start of the text. */
  predicate Site(s: string, pos: nat, b: nat) {
    && b + 3 <= |s| && s[b] == '-' && s[b + 1] == '-' && IsSpace(s[b + 2])
    && ((pos < b && IsSpace(s[b - 1])) || b == 0)
  }

  /** A site is found by a match at the whitespace before it, or at the
      start of the text. */
  lemma SiteMatches(s: string, pos: nat, b: nat)
    requires pos <= b && Site(s, pos, b)
    ensures var i := if pos < b && IsSpace(s[b - 1]) then b - 1 else b;
      pos <= i && MatchAt(s, i) == Some(b)
  {
  }

  /** The bid is the leftmost site, and there is none exactly when there
      is no site. */
  lemma BidIsLeftmostSite(s: string, pos: nat)
    ensures forall b: nat :: DashBid(s, pos) == Some(b) <==>
      (pos <= b && Site(s, pos, b) && forall k :: pos <= k < b ==> !Site(s, pos, k))
    ensures DashBid(s, pos).None? <==> forall k :: pos <= k < |s| ==> !Site(s, pos, k)
  {
    match FirstMatch(s, pos)
    case None =>
      forall k | pos <= k < |s| && Site(s, pos, k)
        ensures false
      {
        SiteMatches(s, pos, k);
      }
    case Some(i) =>
      var g := MatchAt(s, i).value;
      assert Site(s, pos, g);
      forall k | pos <= k < g && Site(s, pos, k)
        ensures false
      {
        SiteMatches(s, pos, k);
      }
  }

  /** With a bid, the output keeps everything before the `--`, replaces
      exactly the two hyphens by U+2014, and the whitespace after them is
      still ahead of the cursor. */
  lemma DashReplacesDoubleMinus(s: string, pos: nat)
    requires pos <= |s|
    requires DashBid(s, pos).Some?
    ensures var b := DashBid(s, pos).value;
      var r := DashApply(s, pos);
      && Concat(r.frags) == s[pos..b] + EmDash
      && s[b..r.next] == "--"
      && r.next < |s| && IsSpace(s[r.next])
  {
    var b := DashBid(s, pos).value;
    BidIsLeftmostSite(s, pos);
    assert Site(s, pos, b);
    ConcatAppend(Prefix(s, pos, b), [EmDash]);
    assert Concat([EmDash]) == EmDash;
  }
}

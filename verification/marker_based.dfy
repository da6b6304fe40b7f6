/** The scanners behind the marker units (stelm/marker_based.py): where a
    `*`, `_`, `-` (or the link text's `"`) span opens, and where it
    closes, with backslashes skipping the character after them. */
module MarkerBased {
  import opened Text

  /** `START_RE = (\m(?=\S))` matches at `i`. */
  predicate OpensAt(s: string, m: char, i: nat) {
    i + 1 < |s| && s[i] == m && !IsSpace(s[i + 1])
  }

  /** A marker unit's bid: the leftmost `START_RE` match at or after `pos`.
      There is no test on the character before the marker. */
  function MarkerBid(s: string, m: char, pos: nat): (r: Option<nat>)
    ensures r.Some? ==> pos <= r.value && OpensAt(s, m, r.value)
    ensures r.Some? ==> forall k :: pos <= k < r.value ==> !OpensAt(s, m, k)
    ensures r.None? ==> forall k :: pos <= k < |s| ==> !OpensAt(s, m, k)
    decreases |s| - pos
  {
    if pos >= |s| then None
    else if OpensAt(s, m, pos) then Some(pos)
    else MarkerBid(s, m, pos + 1)
  }

  /** The closing alternative of `END_RE`, `(?<=\S)\m(?=\W|$)`, matches at
      `i`: the marker, after a non-space (which may lie before the search
      offset), before a non-word character or the end of the text. */
  predicate ClosesAt(s: string, m: char, i: nat) {
    0 < i < |s| && s[i] == m && !IsSpace(s[i - 1]) && (i + 1 == |s| || !IsWord(s[i + 1]))
  }

  /** `END_RE` matches at `i`: a backslash, or a closing marker. */
  predicate EndHitAt(s: string, m: char, i: nat) {
    i < |s| && (s[i] == '\\' || ClosesAt(s, m, i))
  }

  /** `END_RE.search(s, left)`. */
  function FindEndHit(s: string, m: char, left: nat): (r: Option<nat>)
    ensures r.Some? ==> left <= r.value && EndHitAt(s, m, r.value)
    ensures r.Some? ==> forall k :: left <= k < r.value ==> !EndHitAt(s, m, k)
    ensures r.None? ==> forall k :: left <= k < |s| ==> !EndHitAt(s, m, k)
    decreases |s| - left
  {
    if left >= |s| then None
    else if EndHitAt(s, m, left) then Some(left)
    else FindEndHit(s, m, left + 1)
  }

  /** The close search loop from `left`: a backslash hit skips itself and
      the character after it; a marker hit is the close. */
  function SeekFrom(s: string, m: char, left: nat): (r: Option<nat>)
    ensures r.Some? ==> left <= r.value && ClosesAt(s, m, r.value)
    decreases |s| + 1 - left
  {
    match FindEndHit(s, m, left)
    case None => None
    case Some(j) => if s[j] == '\\' then SeekFrom(s, m, j + 2) else Some(j)
  }

  /** Where the span opened by a marker ending at `end` closes, if it
      does. A first hit right at `end` (an immediate marker, or a
      backslash) leaves the span unmatched, so a matched span is never
      empty. */
  function CloseAfter(s: string, m: char, end: nat): (r: Option<nat>)
    ensures r.Some? ==> end < r.value < |s| && ClosesAt(s, m, r.value)
  {
    match FindEndHit(s, m, end)
    case None => None
    case Some(j) => if j == end then None else SeekFrom(s, m, end)
  }

  // ---------------------------------------------------------------------
  // Backslash parity.

  /** The number of consecutive backslashes right before `j`, not looking
      below `lo`. */
  function Run(s: string, lo: nat, j: nat): nat
    decreases j
  {
    if j <= lo || j > |s| || s[j - 1] != '\\' then 0 else 1 + Run(s, lo, j - 1)
  }

  /** Jumping over a backslash and its successor keeps the parity of
      every later backslash run, when the jump starts at the head of a
      run. */
  lemma {:induction false} RunParityShift(s: string, l: nat, j: nat, k: nat)
    requires l <= j && j + 2 <= k <= |s| && s[j] == '\\'
    requires j == l || s[j - 1] != '\\'
    ensures Run(s, l, k) % 2 == Run(s, j + 2, k) % 2
    decreases k
  {
    if s[k - 1] == '\\' {
      if k == j + 2 {
        assert Run(s, l, j) == 0;
        assert Run(s, l, j + 1) == 1;
      } else {
        RunParityShift(s, l, j, k - 1);
      }
    }
  }

  /** The close search finds the leftmost closing marker whose run of
      preceding backslashes (counted from where the search started) is
      even; a marker after an odd run is escaped and never closes. */
  lemma {:induction false} SeekFromParity(s: string, m: char, l: nat)
    requires m != '\\'
    ensures var r := SeekFrom(s, m, l);
      && (r.Some? ==> Run(s, l, r.value) % 2 == 0)
      && (r.Some? ==> forall k :: l <= k < r.value && ClosesAt(s, m, k) ==> Run(s, l, k) % 2 == 1)
      && (r.None? ==> forall k :: l <= k < |s| && ClosesAt(s, m, k) ==> Run(s, l, k) % 2 == 1)
    decreases |s| + 1 - l
  {
    match FindEndHit(s, m, l)
    case None =>
      NoHitBefore(s, m, l, |s|);
    case Some(j) =>
      NoHitBefore(s, m, l, j);
      if s[j] == '\\' {
        SeekFromParity(s, m, j + 2);
        RunsAfterSkip(s, l, j);
      } else {
        assert Run(s, l, j) == 0;
      }
  }

  /** Before the first hit there is neither a backslash nor a close. */
  lemma NoHitBefore(s: string, m: char, l: nat, j: nat)
    requires forall k :: l <= k < j ==> !EndHitAt(s, m, k)
    requires j <= |s|
    ensures forall k :: l <= k < j ==> !ClosesAt(s, m, k) && s[k] != '\\'
    ensures j < |s| && l < j ==> s[j - 1] != '\\'
  {
    forall k | l <= k < j
      ensures !ClosesAt(s, m, k) && s[k] != '\\'
    {
      assert !EndHitAt(s, m, k);
    }
  }

  /** Runs counted from the cursor and from just past a skipped pair at
      the head of a run have the same parity; the run ending at the
      backslash is empty and the one right after it is a single one. */
  lemma RunsAfterSkip(s: string, l: nat, j: nat)
    requires l <= j < |s| && s[j] == '\\'
    requires j == l || s[j - 1] != '\\'
    ensures Run(s, l, j) == 0 && (j + 1 <= |s| ==> Run(s, l, j + 1) == 1)
    ensures forall k :: j + 2 <= k <= |s| ==> Run(s, l, k) % 2 == Run(s, j + 2, k) % 2
  {
    assert Run(s, l, j) == 0;
    assert Run(s, l, j + 1) == 1;
    forall k | j + 2 <= k <= |s|
      ensures Run(s, l, k) % 2 == Run(s, j + 2, k) % 2
    {
      RunParityShift(s, l, j, k);
    }
  }

  /** The parity rule on one concrete run: after `n` backslashes starting
      where the search stands, the search resumes at the marker itself
      when `n` is even, and past it when `n` is odd. */
  lemma BackslashRunSkips(s: string, m: char, a: nat, n: nat)
    requires m != '\\'
    requires a + n < |s| && s[a + n] == m
    requires forall p :: a <= p < a + n ==> s[p] == '\\'
    ensures n % 2 == 0 ==> SeekFrom(s, m, a) == SeekFrom(s, m, a + n)
    ensures n % 2 == 1 ==> SeekFrom(s, m, a) == SeekFrom(s, m, a + n + 1)
  {
    var q := n / 2;
    PairsSkip(s, m, a, q);
    if n % 2 == 1 {
      SeekSkipsBackslash(s, m, a + 2 * q);
    }
  }

  /** `q` backslash pairs are passed over two characters at a time. */
  lemma {:induction false} PairsSkip(s: string, m: char, a: nat, q: nat)
    requires a + 2 * q <= |s|
    requires forall p :: a <= p < a + 2 * q ==> s[p] == '\\'
    ensures SeekFrom(s, m, a) == SeekFrom(s, m, a + 2 * q)
    decreases q
  {
    if q > 0 {
      SeekSkipsBackslash(s, m, a);
      PairsSkip(s, m, a + 2, q - 1);
    }
  }

  /** A backslash right where the search stands is passed over together
      with the character after it. */
  lemma SeekSkipsBackslash(s: string, m: char, a: nat)
    requires a < |s| && s[a] == '\\'
    ensures SeekFrom(s, m, a) == SeekFrom(s, m, a + 2)
  {
    assert FindEndHit(s, m, a) == Some(a);
  }
}

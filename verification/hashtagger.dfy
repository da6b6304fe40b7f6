/** The hashtag unit (stelm/hashtagger.py): `#word` (with `.word`
    continuations) becomes a link to `/tag/word`. */
module HashTagger {
  import opened Text

  const TagUrl: string := "/tag/"
  const HrefOpen: string := "<a href=\""
  const HrefClose: string := "\">#"
  const AnchorClose: string := "</a>"

  /** `TAG_RE = #(\w+(?:[\.]\w+)*)` matches at `i`: a `#` and a word
      character. */
  predicate TagAt(s: string, i: nat) {
    i + 1 < |s| && s[i] == '#' && IsWord(s[i + 1])
  }

  /** `TAG_RE.search(s, pos)`: the leftmost match at or after `pos`. */
  function FindTag(s: string, pos: nat): (r: Option<nat>)
    ensures r.Some? ==> pos <= r.value && TagAt(s, r.value)
    ensures r.Some? ==> forall k :: pos <= k < r.value ==> !TagAt(s, k)
    ensures r.None? ==> forall k :: pos <= k < |s| ==> !TagAt(s, k)
    decreases |s| - pos
  {
    if pos >= |s| then None
    else if TagAt(s, pos) then Some(pos)
    else FindTag(s, pos + 1)
  }

  /** Where a greedy `\w*` from `i` stops. */
  function SkipWord(s: string, i: nat): (k: nat)
    requires i <= |s|
    ensures i <= k <= |s|
    ensures forall p :: i <= p < k ==> IsWord(s[p])
    ensures k < |s| ==> !IsWord(s[k])
    decreases |s| - i
  {
    if i == |s| || !IsWord(s[i]) then i else SkipWord(s, i + 1)
  }

  /** A `.` followed by a word character: one more `[\.]\w+` group. */
  predicate DotWordAt(s: string, k: nat) {
    k + 1 < |s| && s[k] == '.' && IsWord(s[k + 1])
  }

  /** The end of the greedy group 1 from a word character at `i`: the
      word run, then as many `.`-word groups as follow. */
  function TagEnd(s: string, i: nat): (w: nat)
    requires i < |s| && IsWord(s[i])
    ensures i < w <= |s|
    ensures w == |s| || (!IsWord(s[w]) && !DotWordAt(s, w))
    decreases |s| - i
  {
    var k := SkipWord(s, i);
    if DotWordAt(s, k) then TagEnd(s, k + 1) else k
  }

  /** `getStart()` as written: `hit and hit.start() or None`, which turns
      a match at offset 0 into no bid at all. */
  function HashBid(s: string, pos: nat): (r: Option<nat>)
    ensures r.Some? ==> 0 < r.value && pos <= r.value && TagAt(s, r.value)
    ensures r.None? ==> FindTag(s, pos).None? || FindTag(s, pos) == Some(0)
  {
    match FindTag(s, pos)
    case None => None
    case Some(i) => if i == 0 then None else Some(i)
  }

  /** `getStart()` as intended: the start of the match, zero included. */
  function HashBidIntended(s: string, pos: nat): (r: Option<nat>)
    ensures r.Some? ==> pos <= r.value && TagAt(s, r.value)
    ensures r.Some? ==> forall k :: pos <= k < r.value ==> !TagAt(s, k)
    ensures r.None? ==> forall k :: pos <= k < |s| ==> !TagAt(s, k)
  {
    FindTag(s, pos)
  }

  /** The tag text shown and linked: group 1 without one trailing `_`. */
  function TagText(s: string, i: nat): (t: string)
    requires TagAt(s, i)
  {
    var g := s[i + 1..TagEnd(s, i + 1)];
    if g[|g| - 1] == '_' then g[..|g| - 1] else g
  }

  /** `HashTagger(s, pos).apply()`, with `boundary = pos`. It uses the
      match itself, not `getStart()`, so it links a tag at offset 0 too. */
  function HashApply(s: string, pos: nat): (r: Step)
    requires pos <= |s|
    ensures r.next <= |s|
    ensures FindTag(s, pos).None? ==> r == Step([], pos)
    ensures FindTag(s, pos).Some? ==> FindTag(s, pos).value < r.next
  {
    match FindTag(s, pos)
    case None => Step([], pos)
    case Some(i) =>
      var w := TagEnd(s, i + 1);
      var t := TagText(s, i);
      var next := if s[w - 1] == '_' then w - 1 else w;
      Step(Prefix(s, pos, i) + LinkFrags(t), next)
  }

  // ---------------------------------------------------------------------
  // The tag, read independently of the regex.

  /** A well-formed tag name: word characters, where each `.` sits
      between two word characters. */
  predicate TagName(t: string) {
    && t != [] && IsWord(t[0]) && IsWord(t[|t| - 1])
    && forall k :: 0 <= k < |t| ==> IsWord(t[k]) || InnerDot(t, k)
  }

  /** A `.` inside `t` with a word character right after it. */
  predicate InnerDot(t: string, k: nat) {
    0 < k < |t| - 1 && t[k] == '.' && IsWord(t[k + 1])
  }

  /** Group 1 from a word character at `i` is a tag name that cannot be
      extended: what follows it is neither a word character nor a `.`
      with a word character after it. */
  lemma {:induction false} TagEndIsMaximalName(s: string, i: nat)
    requires i < |s| && IsWord(s[i])
    ensures var w := TagEnd(s, i);
      && TagName(s[i..w])
      && (w == |s| || (!IsWord(s[w]) && !DotWordAt(s, w)))
    decreases |s| - i
  {
    var k := SkipWord(s, i);
    if DotWordAt(s, k) {
      TagEndIsMaximalName(s, k + 1);
      var w := TagEnd(s, k + 1);
      var t := s[i..w];
      forall p | 0 <= p < |t|
        ensures IsWord(t[p]) || InnerDot(t, p)
      {
        if i + p >= k + 1 {
          assert t[p] == s[k + 1..w][i + p - (k + 1)];
        }
      }
    }
  }

  /** The six fragments of a tag link after the prefix. */
  function LinkFrags(t: string): (r: seq<string>)
    ensures |r| == 6 && r[2] == t && r[4] == t
  {
    [HrefOpen, TagUrl, t, HrefClose, t, AnchorClose]
  }

  lemma LinkFragsText(t: string)
    ensures Concat(LinkFrags(t)) == HrefOpen + TagUrl + t + HrefClose + t + AnchorClose
  {
    var r := LinkFrags(t);
    ConcatCons(AnchorClose, []);
    assert r[5..] == [AnchorClose];
    ConcatCons(t, r[5..]);
    assert r[4..] == [t] + r[5..];
    ConcatCons(HrefClose, r[4..]);
    assert r[3..] == [HrefClose] + r[4..];
    ConcatCons(t, r[3..]);
    assert r[2..] == [t] + r[3..];
    ConcatCons(TagUrl, r[2..]);
    assert r[1..] == [TagUrl] + r[2..];
    ConcatCons(HrefOpen, r[1..]);
    assert r == [HrefOpen] + r[1..];
  }

  /** The tag text is group 1, less one trailing underscore. */
  lemma TagTextOfGroup(s: string, i: nat)
    requires TagAt(s, i)
    ensures var w := TagEnd(s, i + 1);
      && (s[w - 1] == '_' ==> TagText(s, i) + "_" == s[i + 1..w])
      && (s[w - 1] != '_' ==> TagText(s, i) == s[i + 1..w])
  {
    var w := TagEnd(s, i + 1);
    var g := s[i + 1..w];
    assert g[|g| - 1] == s[w - 1];
    if s[w - 1] == '_' {
      assert g[..|g| - 1] + "_" == g;
    }
  }

  /** The output links the tag text under `/tag/` and shows it after a
      `#`, keeping the text before the tag. */
  lemma HashApplyLinksTag(s: string, pos: nat)
    requires pos <= |s|
    requires FindTag(s, pos).Some?
    ensures var i := FindTag(s, pos).value;
      var t := TagText(s, i);
      Concat(HashApply(s, pos).frags) == s[pos..i] + HrefOpen + TagUrl + t + HrefClose + t + AnchorClose
  {
    var i := FindTag(s, pos).value;
    var t := TagText(s, i);
    assert HashApply(s, pos).frags == Prefix(s, pos, i) + LinkFrags(t);
    ConcatLink(HashApply(s, pos).frags, Prefix(s, pos, i), t, s[pos..i]);
  }

  /** The text of a prefix followed by a tag link. */
  lemma ConcatLink(frags: seq<string>, pre: seq<string>, t: string, ps: string)
    requires frags == pre + LinkFrags(t) && Concat(pre) == ps
    ensures Concat(frags) == ps + HrefOpen + TagUrl + t + HrefClose + t + AnchorClose
  {
    ConcatAppend(pre, LinkFrags(t));
    LinkFragsText(t);
  }

  /** The tag text is the tag name, less one trailing underscore, which
      is then left ahead of the cursor. */
  lemma HashApplyStopsBeforeUnderscore(s: string, pos: nat)
    requires pos <= |s|
    requires FindTag(s, pos).Some?
    ensures var i := FindTag(s, pos).value;
      var w := TagEnd(s, i + 1);
      var t := TagText(s, i);
      var r := HashApply(s, pos);
      && (s[w - 1] == '_' ==> t + "_" == s[i + 1..w] && r.next == w - 1)
      && (s[w - 1] != '_' ==> t == s[i + 1..w] && r.next == w)
  {
    TagTextOfGroup(s, FindTag(s, pos).value);
  }

  /** The defect of `getStart`: a text starting with a tag gets no bid,
      although the match is there and `apply` would link it. */
  lemma HashBidLosesOffsetZero(s: string)
    requires TagAt(s, 0)
    ensures HashBid(s, 0).None?
    ensures HashBidIntended(s, 0) == Some(0)
  {
  }

  /** Everywhere else the two readings agree. */
  lemma HashBidAgreesAwayFromZero(s: string, pos: nat)
    requires FindTag(s, pos) != Some(0)
    ensures HashBid(s, pos) == HashBidIntended(s, pos)
  {
  }
}

/** The line-break unit (stelm/linebreaker.py): the first newline
    sequence at or after the cursor becomes `<br/>`. */
module LineBreaker {
  import opened Text

  const Tag: string := "<br/>"

  /** `EOL_RE.search(s, pos).start()`: the first `\n` or `\r` at or after
      `pos`. */
  function BreakBid(s: string, pos: nat): (r: Option<nat>)
    ensures r.Some? ==> pos <= r.value < |s| && IsNewline(s[r.value])
    ensures r.Some? ==> forall k :: pos <= k < r.value ==> !IsNewline(s[k])
    ensures r.None? ==> forall k :: pos <= k < |s| ==> !IsNewline(s[k])
    decreases |s| - pos
  {
    if pos >= |s| then None
    else if IsNewline(s[pos]) then Some(pos)
    else BreakBid(s, pos + 1)
  }

  /** `LineBreaker(s, pos).apply(s, pos)`. */
  function BreakApply(s: string, pos: nat): (r: Step)
    requires pos <= |s|
    ensures r.next <= |s|
    ensures BreakBid(s, pos).None? ==> r == Step([], pos)
    ensures BreakBid(s, pos).Some? ==> BreakBid(s, pos).value < r.next
  {
    match BreakBid(s, pos)
    case None => Step([], pos)
    case Some(b) => Step(Prefix(s, pos, b) + [Tag], NewlineEnd(s, b))
  }

  /** One of the four newline sequences. */
  predicate IsNewlineSeq(t: string) {
    t == "\n" || t == "\r" || t == "\r\n" || t == "\n\r"
  }

  /** With a newline ahead, the text before it is kept, exactly one
      `<br/>` stands for the whole newline sequence, and the cursor moves
      past that sequence and no further: a pair `\r\n` or `\n\r` is taken
      whole, a lone character only when no pair starts there. */
  lemma BreakReplacesOneNewline(s: string, pos: nat)
    requires pos <= |s|
    requires BreakBid(s, pos).Some?
    ensures var b := BreakBid(s, pos).value;
      var r := BreakApply(s, pos);
      && Concat(r.frags) == s[pos..b] + Tag
      && r.frags[|r.frags| - 1] == Tag
      && IsNewlineSeq(s[b..r.next])
      && (r.next == b + 1 ==> b + 1 == |s| || !IsNewline(s[b + 1]) || s[b + 1] == s[b])
      && (forall k :: pos <= k < b ==> !IsNewline(s[k]))
  {
    var b := BreakBid(s, pos).value;
    var r := BreakApply(s, pos);
    ConcatAppend(Prefix(s, pos, b), [Tag]);
    assert Concat([Tag]) == Tag;
  }
}

/** The pre-block unit (stelm/preformatter.py): a `{{` line opens a
    `<pre>` block, a `}}` line closes it, and everything between is
    emitted verbatim, except that `\}}` stands for a literal `}}`. */
module PreFormatter {
  import opened Text

  const OpenTag: string := "<pre>"
  const CloseTag: string := "</pre>"
  /** `END_SEQ`, and what an escaped terminator `\}}` turns into. */
  const EndSeq: string := "}}"

  /** The last newline in `s[a..b]`: where the backtracking `\s*\n`
      after `{{` ends. */
  function LastNewline(s: string, a: nat, b: nat): (r: Option<nat>)
    requires b <= |s|
    ensures r.Some? ==> a <= r.value < b && s[r.value] == '\n'
    decreases b
  {
    if b <= a then None
    else if s[b - 1] == '\n' then Some(b - 1)
    else LastNewline(s, a, b - 1)
  }

  /** `LastNewline` finds the last newline of the range, and none when
      the range has no newline. */
  lemma {:induction false} LastNewlineIsLast(s: string, a: nat, b: nat)
    requires b <= |s|
    ensures var r := LastNewline(s, a, b);
      && (r.Some? ==> forall p :: r.value < p < b ==> s[p] != '\n')
      && (r.None? ==> forall p :: a <= p < b ==> s[p] != '\n')
    decreases b
  {
    if a < b && s[b - 1] != '\n' {
      LastNewlineIsLast(s, a, b - 1);
    }
  }

  /** The end of a match of `START = \n?\s*{{\s*\n` starting at `i`, if
      there is one. The whitespace before `{{` is the maximal run from
      `i`; the match ends after the last newline of the whitespace run
      that follows `{{`. */
  function OpenEnd(s: string, i: nat): (r: Option<nat>)
    ensures r.Some? ==> i + 3 <= r.value <= |s| && s[r.value - 1] == '\n'
  {
    if i > |s| then None
    else
      var k := SkipSpace(s, i);
      if k + 2 <= |s| && s[k] == '{' && s[k + 1] == '{' then
        match LastNewline(s, k + 2, SkipSpace(s, k + 2))
        case Some(n) => Some(n + 1)
        case None => None
      else None
  }

  /** Every character of `s[a..b]` is whitespace. */
  predicate AllSpace(s: string, a: nat, b: nat)
    requires a <= b <= |s|
  {
    forall p :: a <= p < b ==> IsSpace(s[p])
  }

  /** `s[i..e]` reads as `START`: whitespace, `{{` at `k`, whitespace
      ending on a newline. */
  predicate OpenLayout(s: string, i: nat, k: nat, e: nat) {
    && i <= k && k + 3 <= e <= |s|
    && AllSpace(s, i, k) && s[k] == '{' && s[k + 1] == '{'
    && AllSpace(s, k + 2, e) && s[e - 1] == '\n'
  }

  /** `OpenEnd` finds a `START` match exactly when the text from `i` is
      laid out as one, and then ends it at the latest possible newline,
      as the backtracking `\s*\n` does. */
  lemma OpenEndLayout(s: string, i: nat)
    ensures OpenEnd(s, i).Some? ==> exists k: nat :: OpenLayout(s, i, k, OpenEnd(s, i).value)
    ensures forall k: nat, e: nat :: OpenLayout(s, i, k, e) ==> OpenEnd(s, i).Some? && e <= OpenEnd(s, i).value
  {
    if OpenEnd(s, i).Some? {
      var k := SkipSpace(s, i);
      SkipSpaceRun(s, i);
      SkipSpaceRun(s, k + 2);
      assert OpenLayout(s, i, k, OpenEnd(s, i).value);
    }
    forall k: nat, e: nat | OpenLayout(s, i, k, e)
      ensures OpenEnd(s, i).Some? && e <= OpenEnd(s, i).value
    {
      SkipSpaceAt(s, i, k);
      SkipSpacePast(s, k + 2, e);
      LastNewlineIsLast(s, k + 2, SkipSpace(s, k + 2));
    }
  }

  predicate OpensAt(s: string, i: nat) {
    OpenEnd(s, i).Some?
  }

  /** The unit's bid: the leftmost match of `START_RE` at or after `pos`. */
  function PreBid(s: string, pos: nat): (r: Option<nat>)
    ensures r.Some? ==> pos <= r.value < |s| && OpensAt(s, r.value)
    ensures r.Some? ==> forall k :: pos <= k < r.value ==> !OpensAt(s, k)
    ensures r.None? ==> forall k :: pos <= k < |s| ==> !OpensAt(s, k)
    decreases |s| - pos
  {
    if pos >= |s| then None
    else if OpensAt(s, pos) then Some(pos)
    else PreBid(s, pos + 1)
  }

  /** The escaped terminator `\}}` occurs at `j`. */
  predicate EscapedEndAt(s: string, j: nat) {
    j + 3 <= |s| && s[j] == '\\' && s[j + 1] == '}' && s[j + 2] == '}'
  }

  /** The end of a match of `END = \n\s*}}\s*\n?` starting at `j`, if
      there is one. The greedy `\s*` after `}}` swallows every following
      whitespace character, newlines included, so `\n?` matches empty. */
  function CloseEnd(s: string, j: nat): (r: Option<nat>)
    ensures r.Some? ==> j + 3 <= r.value <= |s| && s[j] == '\n'
    ensures r.Some? ==> r.value == |s| || !IsSpace(s[r.value])
  {
    if j < |s| && s[j] == '\n' then
      var k := SkipSpace(s, j + 1);
      if k + 2 <= |s| && s[k] == '}' && s[k + 1] == '}' then Some(SkipSpace(s, k + 2))
      else None
    else None
  }

  /** `s[j..e]` reads as `END`: a newline, whitespace, `}}` at `k`, and
      all the whitespace that follows. */
  predicate CloseLayout(s: string, j: nat, k: nat, e: nat) {
    && j < k && k + 2 <= e <= |s| && s[j] == '\n'
    && AllSpace(s, j + 1, k) && s[k] == '}' && s[k + 1] == '}'
    && AllSpace(s, k + 2, e) && (e == |s| || !IsSpace(s[e]))
  }

  /** `CloseEnd` finds an `END` match exactly when the text from `j` is
      laid out as one, and ends it where that layout ends. */
  lemma CloseEndLayout(s: string, j: nat)
    ensures CloseEnd(s, j).Some? ==> exists k: nat :: CloseLayout(s, j, k, CloseEnd(s, j).value)
    ensures forall k: nat, e: nat :: CloseLayout(s, j, k, e) ==> CloseEnd(s, j) == Some(e)
  {
    if CloseEnd(s, j).Some? {
      var k := SkipSpace(s, j + 1);
      SkipSpaceRun(s, j + 1);
      SkipSpaceRun(s, k + 2);
      assert CloseLayout(s, j, k, CloseEnd(s, j).value);
    }
    forall k: nat, e: nat | CloseLayout(s, j, k, e)
      ensures CloseEnd(s, j) == Some(e)
    {
      SkipSpaceAt(s, j + 1, k);
      SkipSpaceAt(s, k + 2, e);
    }
  }

  predicate ClosesAt(s: string, j: nat) {
    CloseEnd(s, j).Some?
  }

  /** `END_RE` matches at `j`: either alternative. */
  predicate EndHitAt(s: string, j: nat) {
    EscapedEndAt(s, j) || ClosesAt(s, j)
  }

  /** `END_RE.search(s, left)`. */
  function FindEndHit(s: string, left: nat): (r: Option<nat>)
    ensures r.Some? ==> left <= r.value < |s| && EndHitAt(s, r.value)
    ensures r.Some? ==> forall k :: left <= k < r.value ==> !EndHitAt(s, k)
    ensures r.None? ==> forall k :: left <= k < |s| ==> !EndHitAt(s, k)
    decreases |s| - left
  {
    if left >= |s| then None
    else if EndHitAt(s, left) then Some(left)
    else FindEndHit(s, left + 1)
  }

  /** The terminator search of `apply`, from `end` on, with the block
      opened at `start` and the content pieces `innards` gathered so far.
      An escaped `\}}` contributes the text before it and a literal `}}`
      and moves `end` past it; a real terminator closes the block; no hit
      at all emits `s[start:end]` raw. */
  function CloseLoop(s: string, start: nat, end: nat, innards: seq<string>): (r: Step)
    requires start <= end <= |s|
    ensures end <= r.next <= |s|
    decreases |s| - end
  {
    match FindEndHit(s, end)
    case None => Step([s[start..end]], end)
    case Some(j) =>
      if EscapedEndAt(s, j) then
        CloseLoop(s, start, j + 3, innards + [s[end..j], EndSeq])
      else
        Step([OpenTag] + innards + [s[end..j], CloseTag], CloseEnd(s, j).value)
  }

  /** The terminator search always emits something: the raw text or a
      whole block. */
  lemma {:induction false} CloseLoopEmits(s: string, start: nat, end: nat, innards: seq<string>)
    requires start <= end <= |s|
    ensures CloseLoop(s, start, end, innards).frags != []
    decreases |s| - end
  {
    match FindEndHit(s, end)
    case None =>
    case Some(j) =>
      if EscapedEndAt(s, j) {
        CloseLoopEmits(s, start, j + 3, innards + [s[end..j], EndSeq]);
      }
  }

  /** `PreFormatter(s, pos).apply(s, pos)`. */
  function PreApply(s: string, pos: nat): (r: Step)
    requires pos <= |s|
    ensures r.next <= |s|
    ensures PreBid(s, pos).None? ==> r == Step([], pos)
    ensures PreBid(s, pos).Some? ==> PreBid(s, pos).value + 3 <= r.next && r.frags != []
  {
    match PreBid(s, pos)
    case None => Step([], pos)
    case Some(b) =>
      var e := OpenEnd(s, b).value;
      var c := CloseLoop(s, b, e, []);
      CloseLoopEmits(s, b, e, []);
      Step(Prefix(s, pos, b) + c.frags, c.next)
  }

  // ---------------------------------------------------------------------
  // The block content is the source text with each `\}}` unescaped.

  /** Reference reading of a block body: every `\}}`, taken left to right
      without overlap, becomes `}}`; every other character stays. */
  function Unescape(t: string): (r: string)
    ensures |r| <= |t|
    decreases |t|
  {
    if EscapedEndAt(t, 0) then EndSeq + Unescape(t[3..])
    else if t == [] then []
    else [t[0]] + Unescape(t[1..])
  }

  /** The first real terminator at or after `e`: the leftmost match of
      the `END` alternative alone. */
  function Terminator(s: string, e: nat): (r: Option<nat>)
    ensures r.Some? ==> e <= r.value < |s| && ClosesAt(s, r.value)
    ensures r.Some? ==> forall k :: e <= k < r.value ==> !ClosesAt(s, k)
    ensures r.None? ==> forall k :: e <= k < |s| ==> !ClosesAt(s, k)
    decreases |s| - e
  {
    if e >= |s| then None
    else if ClosesAt(s, e) then Some(e)
    else Terminator(s, e + 1)
  }

  /** Text without an escaped terminator starting in its first `n`
      characters unescapes to itself up to `n`. */
  lemma {:induction false} UnescapeKeeps(t: string, n: nat)
    requires n <= |t|
    requires forall p :: 0 <= p < n ==> !EscapedEndAt(t, p)
    ensures Unescape(t) == t[..n] + Unescape(t[n..])
    decreases n
  {
    if n > 0 {
      assert !EscapedEndAt(t, 0);
      var t' := t[1..];
      forall p | 0 <= p < n - 1
        ensures !EscapedEndAt(t', p)
      {
        assert !EscapedEndAt(t, p + 1);
      }
      UnescapeKeeps(t', n - 1);
      ConsSlices(t, n);
      assert Unescape(t) == [t[0]] + Unescape(t');
      Assoc([t[0]], t'[..n - 1], Unescape(t[n..]));
    }
  }

  lemma ConsSlices(t: string, n: nat)
    requires 0 < n <= |t|
    ensures [t[0]] + t[1..][..n - 1] == t[..n] && t[1..][n - 1..] == t[n..]
  {
  }

  /** A real terminator never sits inside an escaped `\}}`: it starts
      with a newline, the escaped form with a backslash and two braces. */
  lemma EscapedBeforeTerminator(s: string, k: nat, j: nat)
    requires EscapedEndAt(s, k) && ClosesAt(s, j) && k < j
    ensures k + 3 <= j
  {
  }

  /** `r` is a closed block: `<pre>`, pieces joining to `content`,
      `</pre>`, resuming at `next`. */
  predicate ClosedBlock(r: Step, content: string, next: nat) {
    && |r.frags| >= 2
    && r.frags[0] == OpenTag && r.frags[|r.frags| - 1] == CloseTag
    && Concat(r.frags[1..|r.frags| - 1]) == content
    && r.next == next
  }

  /** `UnescapeKeeps` on a slice of `s`. */
  lemma UnescapeSlice(s: string, a: nat, k: nat, m: nat)
    requires a <= k <= m <= |s|
    requires forall p :: a <= p < k ==> !EscapedEndAt(s, p)
    ensures Unescape(s[a..m]) == s[a..k] + Unescape(s[k..m])
  {
    var t := s[a..m];
    forall p | 0 <= p < k - a
      ensures !EscapedEndAt(t, p)
    {
      assert !EscapedEndAt(s, a + p);
    }
    UnescapeKeeps(t, k - a);
    assert t[..k - a] == s[a..k];
    assert t[k - a..] == s[k..m];
  }

  /** The terminator loop closes at the first real terminator, and the
      pieces between `<pre>` and `</pre>` join to the body with each
      `\}}` unescaped: the content is never handed to the dispatcher. */
  lemma {:induction false} CloseLoopVerbatim(s: string, start: nat, end: nat, innards: seq<string>, j: nat)
    requires start <= end <= |s|
    requires Terminator(s, end) == Some(j)
    ensures ClosedBlock(CloseLoop(s, start, end, innards), Concat(innards) + Unescape(s[end..j]), CloseEnd(s, j).value)
    decreases |s| - end, 1
  {
    assert EndHitAt(s, j);
    var k := FindEndHit(s, end).value;
    NoHitBefore(s, end, k);
    if EscapedEndAt(s, k) {
      EscapedRound(s, start, end, innards, j, k);
    } else {
      assert k == j;
      ClosedPiece(s, start, end, innards, k);
    }
  }

  /** Before the first hit of `END_RE` there is neither kind of terminator. */
  lemma NoHitBefore(s: string, end: nat, k: nat)
    requires FindEndHit(s, end) == Some(k)
    ensures forall p :: end <= p < k ==> !EscapedEndAt(s, p) && !ClosesAt(s, p)
  {
    forall p | end <= p < k
      ensures !EscapedEndAt(s, p) && !ClosesAt(s, p)
    {
      assert !EndHitAt(s, p);
    }
  }

  /** A round of the loop that meets an escaped terminator at `k`. */
  lemma {:induction false} EscapedRound(s: string, start: nat, end: nat, innards: seq<string>, j: nat, k: nat)
    requires start <= end <= k && k + 3 <= j < |s|
    requires Terminator(s, end) == Some(j)
    requires FindEndHit(s, end) == Some(k) && EscapedEndAt(s, k)
    requires forall p :: end <= p < k ==> !EscapedEndAt(s, p) && !ClosesAt(s, p)
    ensures ClosedBlock(CloseLoop(s, start, end, innards), Concat(innards) + Unescape(s[end..j]), CloseEnd(s, j).value)
    decreases |s| - end, 0
  {
    var inn' := innards + [s[end..k], EndSeq];
    CloseLoopSkipsEscape(s, start, end, innards, k);
    TerminatorAfterEscape(s, end, k, j);
    CloseLoopVerbatim(s, start, k + 3, inn', j);
    EscapedPiece(s, end, k, j);
    ConcatEscapedPiece(innards, s[end..k]);
    Assoc(Concat(innards), s[end..k] + EndSeq, Unescape(s[k + 3..j]));
  }

  /** The loop passes over an escaped terminator, keeping the text
      before it and a literal `}}`. */
  lemma CloseLoopSkipsEscape(s: string, start: nat, end: nat, innards: seq<string>, k: nat)
    requires start <= end <= k
    requires FindEndHit(s, end) == Some(k) && EscapedEndAt(s, k)
    ensures CloseLoop(s, start, end, innards) == CloseLoop(s, start, k + 3, innards + [s[end..k], EndSeq])
  {
  }

  /** An escaped terminator holds no real one, so the terminator search
      may resume after it. */
  lemma TerminatorAfterEscape(s: string, end: nat, k: nat, j: nat)
    requires end <= k && k + 3 <= j < |s|
    requires Terminator(s, end) == Some(j) && EscapedEndAt(s, k)
    requires forall p :: end <= p < k ==> !ClosesAt(s, p)
    ensures Terminator(s, k + 3) == Some(j)
  {
    assert !ClosesAt(s, k) && !ClosesAt(s, k + 1) && !ClosesAt(s, k + 2);
    TerminatorFrom(s, end, k + 3);
  }

  /** The pieces an escaped terminator adds join to the text before it
      and a literal `}}`. */
  lemma ConcatEscapedPiece(innards: seq<string>, x: string)
    ensures Concat(innards + [x, EndSeq]) == Concat(innards) + (x + EndSeq)
  {
    ConcatAppend(innards, [x, EndSeq]);
    assert Concat([x, EndSeq]) == x + EndSeq;
  }

  /** The unescaped body splits at the first escaped terminator `k`. */
  lemma EscapedPiece(s: string, end: nat, k: nat, j: nat)
    requires end <= k && k + 3 <= j <= |s| && EscapedEndAt(s, k)
    requires forall p :: end <= p < k ==> !EscapedEndAt(s, p)
    ensures Unescape(s[end..j]) == s[end..k] + EndSeq + Unescape(s[k + 3..j])
  {
    UnescapeSlice(s, end, k, j);
    assert EscapedEndAt(s[k..j], 0);
    assert s[k..j][3..] == s[k + 3..j];
  }

  /** The last round of the loop, at a real terminator `k`. */
  lemma ClosedPiece(s: string, start: nat, end: nat, innards: seq<string>, k: nat)
    requires start <= end <= k < |s|
    requires FindEndHit(s, end) == Some(k) && !EscapedEndAt(s, k)
    requires forall p :: end <= p < k ==> !EscapedEndAt(s, p)
    ensures ClosedBlock(CloseLoop(s, start, end, innards), Concat(innards) + Unescape(s[end..k]), CloseEnd(s, k).value)
  {
    UnescapeSlice(s, end, k, k);
    assert s[k..k] == [];
    var frags := [OpenTag] + innards + [s[end..k], CloseTag];
    assert CloseLoop(s, start, end, innards).frags == frags;
    assert frags[1..|frags| - 1] == innards + [s[end..k]];
    ConcatAppend(innards, [s[end..k]]);
  }

  /** Without a real terminator the loop emits the text from the block
      start up to where it stopped, raw, as a single fragment. */
  lemma {:induction false} CloseLoopUnclosed(s: string, start: nat, end: nat, innards: seq<string>)
    requires start <= end <= |s|
    requires Terminator(s, end).None?
    ensures var r := CloseLoop(s, start, end, innards);
      |r.frags| == 1 && r.frags[0] == s[start..r.next]
    decreases |s| - end
  {
    match FindEndHit(s, end)
    case None =>
    case Some(k) =>
      if EscapedEndAt(s, k) {
        forall p | end <= p < k
          ensures !ClosesAt(s, p)
        {
          assert !EndHitAt(s, p);
        }
        TerminatorFrom(s, end, k + 3);
        CloseLoopUnclosed(s, start, k + 3, innards + [s[end..k], EndSeq]);
      } else {
        assert false;
      }
  }

  /** Without a real terminator the loop passes over every escaped `\}}`
      from `end` on and stops right after the last one, or at `end` when
      there is none. */
  lemma {:induction false} CloseLoopResumes(s: string, start: nat, end: nat, innards: seq<string>)
    requires start <= end <= |s|
    requires Terminator(s, end).None?
    ensures var r := CloseLoop(s, start, end, innards);
      && (r.next == end || (end + 3 <= r.next && EscapedEndAt(s, r.next - 3)))
      && forall p :: r.next <= p < |s| ==> !EscapedEndAt(s, p)
    decreases |s| - end
  {
    match FindEndHit(s, end)
    case None =>
      forall p | end <= p < |s|
        ensures !EscapedEndAt(s, p)
      {
        assert !EndHitAt(s, p);
      }
    case Some(k) =>
      if EscapedEndAt(s, k) {
        forall p | end <= p < k
          ensures !ClosesAt(s, p)
        {
          assert !EndHitAt(s, p);
        }
        TerminatorFrom(s, end, k + 3);
        CloseLoopResumes(s, start, k + 3, innards + [s[end..k], EndSeq]);
      } else {
        assert false;
      }
  }

  /** Skipping positions that hold no terminator leaves the terminator
      search unchanged. */
  lemma TerminatorFrom(s: string, e: nat, e': nat)
    requires e <= e'
    requires forall p :: e <= p < e' ==> !ClosesAt(s, p)
    ensures Terminator(s, e) == Terminator(s, e')
  {
  }

  /** A closed block: `apply` emits the prefix, `<pre>`, the body with
      `\}}` unescaped and nothing else interpreted, `</pre>`, and resumes
      after the terminator line. */
  lemma PreContentVerbatim(s: string, pos: nat)
    requires pos <= |s|
    requires PreBid(s, pos).Some?
    requires Terminator(s, OpenEnd(s, PreBid(s, pos).value).value).Some?
    ensures var b := PreBid(s, pos).value;
      var e := OpenEnd(s, b).value;
      var j := Terminator(s, e).value;
      var f := PreApply(s, pos).frags;
      var n := |Prefix(s, pos, b)|;
      && n + 2 <= |f|
      && Concat(f[..n]) == s[pos..b]
      && f[n] == OpenTag && f[|f| - 1] == CloseTag
      && Concat(f[n + 1..|f| - 1]) == Unescape(s[e..j])
      && PreApply(s, pos).next == CloseEnd(s, j).value
  {
    var b := PreBid(s, pos).value;
    var e := OpenEnd(s, b).value;
    var j := Terminator(s, e).value;
    CloseLoopVerbatim(s, b, e, [], j);
    PreApplyShape(s, pos);
    var c := CloseLoop(s, b, e, []);
    ClosedAfterPrefix(Prefix(s, pos, b), s[pos..b], c, Unescape(s[e..j]), CloseEnd(s, j).value);
  }

  /** A closed block after the prefix fragments: where its pieces sit. */
  lemma ClosedAfterPrefix(p: seq<string>, ps: string, c: Step, content: string, next: nat)
    requires Concat(p) == ps && ClosedBlock(c, Concat([]) + content, next)
    ensures var f := p + c.frags;
      var n := |p|;
      && n + 2 <= |f|
      && Concat(f[..n]) == ps
      && f[n] == OpenTag && f[|f| - 1] == CloseTag
      && Concat(f[n + 1..|f| - 1]) == content
  {
    SplitAround(p, c.frags);
    assert Concat([]) + content == content;
  }

  /** A bid opens the block and hands the rest to the terminator loop. */
  lemma PreApplyShape(s: string, pos: nat)
    requires pos <= |s| && PreBid(s, pos).Some?
    ensures var b := PreBid(s, pos).value;
      var c := CloseLoop(s, b, OpenEnd(s, b).value, []);
      PreApply(s, pos) == Step(Prefix(s, pos, b) + c.frags, c.next)
  {
  }

  /** Where the pieces of `p + c` sit. */
  lemma SplitAround(p: seq<string>, c: seq<string>)
    requires |c| >= 2
    ensures var f := p + c;
      && f[..|p|] == p && f[|p|] == c[0] && f[|f| - 1] == c[|c| - 1]
      && f[|p| + 1..|f| - 1] == c[1..|c| - 1]
  {
  }

  /** No terminator: the opening sequence and the text up to the end of
      the last escaped `\}}` after it are emitted raw, without tags, and
      dispatch resumes there: right after the opening sequence when no
      `\}}` follows it, else right after the last `\}}`. */
  lemma PreUnclosedRaw(s: string, pos: nat)
    requires pos <= |s|
    requires PreBid(s, pos).Some?
    requires Terminator(s, OpenEnd(s, PreBid(s, pos).value).value).None?
    ensures var b := PreBid(s, pos).value;
      var e := OpenEnd(s, b).value;
      var r := PreApply(s, pos);
      && r.frags == Prefix(s, pos, b) + [s[b..r.next]]
      && (r.next == e || (e + 3 <= r.next && EscapedEndAt(s, r.next - 3)))
      && forall p :: r.next <= p < |s| ==> !EscapedEndAt(s, p)
  {
    var b := PreBid(s, pos).value;
    CloseLoopUnclosed(s, b, OpenEnd(s, b).value, []);
    CloseLoopResumes(s, b, OpenEnd(s, b).value, []);
  }
}

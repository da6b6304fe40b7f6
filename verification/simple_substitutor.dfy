/** The substitutor factory (stelm/simple_substitutor.py): a unit that
    replaces capture group 1 of the first match of a pattern with a fixed
    string, and its two products, the em-dasher and the horizontal ruler.
    Both patterns use `re.U` and `re.MULTILINE`: `\s` is Unicode
    whitespace and `^` matches at the start of the text and after every
    `\n`. */
module SimpleSubstitutor {
  import opened Text

  /** Capture group 1 of a match, as offsets into the text. */
  datatype Span = Span(start: nat, end: nat)

  /** The two patterns `_produce` is called with. */
  datatype Pattern = Dash | Ruler

  /** The class `_produce(pattern, replacement)` returns. */
  datatype Substitutor = Substitutor(pattern: Pattern, replacement: string)

  const Dasher: Substitutor := Substitutor(Dash, "\U{2014}")
  const HorizontalRuler: Substitutor := Substitutor(Ruler, "<hr/>")

  /** `^` under `re.MULTILINE`. */
  predicate LineStart(s: string, i: nat) {
    i == 0 || (i <= |s| && s[i - 1] == '\n')
  }

  // ---------------------------------------------------------------------
  // `(?:\s|^)(--)(?:\s)`

  /** The dash pattern matches at `i`, group 1 being the `--`. The `\s`
      alternative is tried first; the `^` one can only succeed when the
      character at `i` is not whitespace. */
  function DashAt(s: string, i: nat): (r: Option<Span>)
    ensures r.Some? ==> r.value.end == r.value.start + 2 && r.value.end < |s|
    ensures r.Some? ==> r.value.start == i || r.value.start == i + 1
  {
    if i + 4 <= |s| && IsSpaceU(s[i]) && s[i + 1] == '-' && s[i + 2] == '-' && IsSpaceU(s[i + 3]) then
      Some(Span(i + 1, i + 3))
    else if LineStart(s, i) && i + 3 <= |s| && s[i] == '-' && s[i + 1] == '-' && IsSpaceU(s[i + 2]) then
      Some(Span(i, i + 2))
    else None
  }

  // ---------------------------------------------------------------------
  // `((?:\r\n|\n\r|\n|\r|^)[ \t]*-{3,}[ \t]*(?:\r\n|\n\r|\n|\r|$))`

  predicate IsBlank(c: char) {
    c == ' ' || c == '\t'
  }

  /** Where a greedy `[ \t]*` from `i` stops. */
  function SkipBlank(s: string, i: nat): (k: nat)
    requires i <= |s|
    ensures i <= k <= |s|
    ensures forall p :: i <= p < k ==> IsBlank(s[p])
    ensures k < |s| ==> !IsBlank(s[k])
    decreases |s| - i
  {
    if i == |s| || !IsBlank(s[i]) then i else SkipBlank(s, i + 1)
  }

  /** Where a greedy `-*` from `i` stops. */
  function SkipHyphens(s: string, i: nat): (k: nat)
    requires i <= |s|
    ensures i <= k <= |s|
    ensures forall p :: i <= p < k ==> s[p] == '-'
    ensures k < |s| ==> s[k] != '-'
    decreases |s| - i
  {
    if i == |s| || s[i] != '-' then i else SkipHyphens(s, i + 1)
  }

  /** The part of the rule pattern after its leading newline (or `^`),
      matched from `p`: blanks, at least three hyphens, blanks, then one
      newline sequence or the end of the text. Giving back blanks or
      hyphens never helps, since the character then expected is neither,
      so the greedy reading is the only one. */
  function RuleRest(s: string, p: nat): (r: Option<nat>)
    requires p <= |s|
    ensures r.Some? ==> p + 3 <= r.value <= |s|
  {
    var a := SkipBlank(s, p);
    var h := SkipHyphens(s, a);
    if h < a + 3 then None
    else
      var c := SkipBlank(s, h);
      if c == |s| then Some(c)
      else if IsNewline(s[c]) then Some(NewlineEnd(s, c))
      else None
  }

  /** The rule pattern matches at `i`; group 1 is the whole match. A
      leading newline sequence is taken whole; when that fails, the
      shorter alternatives and `^` fail as well, since the rest would
      then start at a newline. */
  function RuleAt(s: string, i: nat): (r: Option<Span>)
    ensures r.Some? ==> r.value.start == i && i + 3 <= r.value.end <= |s|
  {
    if i < |s| && IsNewline(s[i]) then
      match RuleRest(s, NewlineEnd(s, i))
      case None => None
      case Some(e) => Some(Span(i, e))
    else if LineStart(s, i) && i <= |s| then
      match RuleRest(s, i)
      case None => None
      case Some(e) => Some(Span(i, e))
    else None
  }

  // ---------------------------------------------------------------------
  // The generic unit.

  function MatchAt(p: Pattern, s: string, i: nat): (r: Option<Span>)
    ensures r.Some? ==> i <= r.value.start < r.value.end <= |s|
  {
    match p
    case Dash => DashAt(s, i)
    case Ruler => RuleAt(s, i)
  }

  /** `PATTERN_RE.search(s, pos)`: the start of the leftmost match. */
  function FirstMatch(p: Pattern, s: string, pos: nat): (r: Option<nat>)
    ensures r.Some? ==> pos <= r.value < |s| && MatchAt(p, s, r.value).Some?
    ensures r.Some? ==> forall k :: pos <= k < r.value ==> MatchAt(p, s, k).None?
    ensures r.None? ==> forall k :: pos <= k ==> MatchAt(p, s, k).None?
    decreases |s| - pos
  {
    if pos >= |s| then None
    else if MatchAt(p, s, pos).Some? then Some(pos)
    else FirstMatch(p, s, pos + 1)
  }

  /** Group 1 of the leftmost match at or after `pos`. */
  function Hit(p: Pattern, s: string, pos: nat): (r: Option<Span>)
    ensures r.Some? ==> pos <= r.value.start < r.value.end <= |s|
  {
    match FirstMatch(p, s, pos)
    case None => None
    case Some(i) => MatchAt(p, s, i)
  }

  /** `getStart()`: `hit.start(1)`. */
  function SubBid(u: Substitutor, s: string, pos: nat): (r: Option<nat>)
    ensures r.Some? ==> pos <= r.value < |s|
  {
    match Hit(u.pattern, s, pos)
    case None => None
    case Some(g) => Some(g.start)
  }

  /** `apply(s, pos)`: the text before group 1, then the replacement;
      the cursor moves to the end of group 1. */
  function SubApply(u: Substitutor, s: string, pos: nat): (r: Step)
    requires pos <= |s|
    ensures r.next <= |s|
    ensures SubBid(u, s, pos).None? ==> r == Step([], pos)
    ensures SubBid(u, s, pos).Some? ==> SubBid(u, s, pos).value < r.next
  {
    match Hit(u.pattern, s, pos)
    case None => Step([], pos)
    case Some(g) => Step(Prefix(s, pos, g.start) + [u.replacement], g.end)
  }

  /** Every substitutor keeps the text before group 1, emits the
      replacement once, and consumes exactly group 1. */
  lemma SubApplyReplacesGroup(u: Substitutor, s: string, pos: nat)
    requires pos <= |s|
    requires Hit(u.pattern, s, pos).Some?
    ensures var g := Hit(u.pattern, s, pos).value;
      var r := SubApply(u, s, pos);
      && Concat(r.frags) == s[pos..g.start] + u.replacement
      && r.next == g.end
      && Concat(r.frags) + s[r.next..] == s[pos..g.start] + u.replacement + s[g.end..]
  {
    var g := Hit(u.pattern, s, pos).value;
    ConcatAppend(Prefix(s, pos, g.start), [u.replacement]);
    assert Concat([u.replacement]) == u.replacement;
  }

  // ---------------------------------------------------------------------
  // The em-dasher, read independently of the regex.

  /** A `--` at `b` that a search from `pos` replaces: followed by
      whitespace, and preceded by whitespace the search can see or
      standing at a line start. */
  predicate DashSite(s: string, pos: nat, b: nat) {
    && b + 3 <= |s| && s[b] == '-' && s[b + 1] == '-' && IsSpaceU(s[b + 2])
    && ((pos < b && IsSpaceU(s[b - 1])) || LineStart(s, b))
  }

  lemma DashSiteMatches(s: string, pos: nat, b: nat)
    requires pos <= b && DashSite(s, pos, b)
    ensures var i := if pos < b && IsSpaceU(s[b - 1]) then b - 1 else b;
      pos <= i && MatchAt(Dash, s, i) == Some(Span(b, b + 2))
  {
  }

  /** The em-dasher bids at the leftmost site, and at none exactly when
      there is no site. */
  lemma DashBidIsLeftmostSite(s: string, pos: nat)
    ensures forall b: nat :: SubBid(Dasher, s, pos) == Some(b) <==>
      (pos <= b && DashSite(s, pos, b) && forall k :: pos <= k < b ==> !DashSite(s, pos, k))
    ensures SubBid(Dasher, s, pos).None? <==> forall k :: pos <= k < |s| ==> !DashSite(s, pos, k)
  {
    match FirstMatch(Dash, s, pos)
    case None =>
      forall k | pos <= k < |s| && DashSite(s, pos, k)
        ensures false
      {
        DashSiteMatches(s, pos, k);
      }
    case Some(i) =>
      var g := DashAt(s, i).value;
      assert DashSite(s, pos, g.start);
      forall k | pos <= k < g.start && DashSite(s, pos, k)
        ensures false
      {
        DashSiteMatches(s, pos, k);
      }
  }

  /** The em-dasher replaces exactly the two hyphens; the whitespace
      around them stays in the text. */
  lemma DashReplacesDoubleMinus(s: string, pos: nat)
    requires pos <= |s|
    requires SubBid(Dasher, s, pos).Some?
    ensures var b := SubBid(Dasher, s, pos).value;
      var r := SubApply(Dasher, s, pos);
      && Concat(r.frags) == s[pos..b] + "\U{2014}"
      && s[b..r.next] == "--"
      && r.next < |s| && IsSpaceU(s[r.next])
  {
    DashBidIsLeftmostSite(s, pos);
    SubApplyReplacesGroup(Dasher, s, pos);
  }

  // ---------------------------------------------------------------------
  // The horizontal ruler, read independently of the regex.

  predicate AllBlank(t: string) {
    forall k :: 0 <= k < |t| ==> IsBlank(t[k])
  }

  predicate AllHyphens(t: string) {
    forall k :: 0 <= k < |t| ==> t[k] == '-'
  }

  /** Empty, or one of the four newline sequences. */
  predicate OptNewline(t: string) {
    t == "" || t == "\n" || t == "\r" || t == "\r\n" || t == "\n\r"
  }

  /** `t` is a rule line cut into its pieces: an optional newline,
      blanks, three or more hyphens, blanks, an optional newline. */
  predicate RuleLine(t: string, lead: string, pre: string, bar: string, post: string, trail: string) {
    && t == lead + pre + bar + post + trail
    && OptNewline(lead) && AllBlank(pre) && |bar| >= 3 && AllHyphens(bar) && AllBlank(post) && OptNewline(trail)
  }

  /** What the ruler replaces: a rule line whose leading newline is
      absent only at a line start and whose trailing newline is absent
      only at the end of the text. */
  lemma RuleShape(s: string, pos: nat) returns (lead: string, pre: string, bar: string, post: string, trail: string)
    requires pos <= |s|
    requires Hit(Ruler, s, pos).Some?
    ensures var g := Hit(Ruler, s, pos).value;
      && RuleLine(s[g.start..g.end], lead, pre, bar, post, trail)
      && (lead == "" ==> LineStart(s, g.start))
      && (trail == "" ==> g.end == |s|)
  {
    var i := FirstMatch(Ruler, s, pos).value;
    var g := RuleAt(s, i).value;
    assert Hit(Ruler, s, pos) == Some(g);
    var p := if i < |s| && IsNewline(s[i]) then NewlineEnd(s, i) else i;
    assert RuleRest(s, p) == Some(g.end);
    lead := s[i..p];
    if p != i {
      NewlineSeq(s, i);
    }
    pre, bar, post, trail := RestShape(s, p);
    calc {
      s[i..g.end];
      { SliceSplit(s, i, p, g.end); }
      lead + s[p..g.end];
      lead + (pre + bar + post + trail);
      { SeqAssoc4(lead, pre, bar, post, trail); }
      lead + pre + bar + post + trail;
    }
    assert lead == "" ==> LineStart(s, i);
    assert RuleLine(s[i..g.end], lead, pre, bar, post, trail);
  }

  lemma SliceSplit(s: string, i: nat, p: nat, e: nat)
    requires i <= p <= e <= |s|
    ensures s[i..e] == s[i..p] + s[p..e]
  {
  }

  lemma SeqAssoc4(a: string, b: string, c: string, d: string, e: string)
    ensures a + (b + c + d + e) == a + b + c + d + e
  {
  }

  /** The pieces of `RuleRest`. */
  lemma RestShape(s: string, p: nat) returns (pre: string, bar: string, post: string, trail: string)
    requires p <= |s| && RuleRest(s, p).Some?
    ensures var e := RuleRest(s, p).value;
      && s[p..e] == pre + bar + post + trail
      && AllBlank(pre) && |bar| >= 3 && AllHyphens(bar) && AllBlank(post) && OptNewline(trail)
      && (trail == "" ==> e == |s|)
  {
    var e := RuleRest(s, p).value;
    var a := SkipBlank(s, p);
    var h := SkipHyphens(s, a);
    var c := SkipBlank(s, h);
    assert h >= a + 3 && (c == |s| ==> e == c) && (c < |s| ==> IsNewline(s[c]) && e == NewlineEnd(s, c));
    pre, bar, post, trail := s[p..a], s[a..h], s[h..c], s[c..e];
    BlankRun(s, p);
    HyphenRun(s, a);
    BlankRun(s, h);
    if c < |s| {
      NewlineSeq(s, c);
    }
    SliceSplit4(s, p, a, h, c, e);
  }

  /** A greedy `[ \t]*` consumes blanks only. */
  lemma BlankRun(s: string, i: nat)
    requires i <= |s|
    ensures AllBlank(s[i..SkipBlank(s, i)])
  {
    var t := s[i..SkipBlank(s, i)];
    forall k | 0 <= k < |t|
      ensures IsBlank(t[k])
    {
      assert t[k] == s[i + k];
    }
  }

  /** A greedy `-*` consumes hyphens only. */
  lemma HyphenRun(s: string, i: nat)
    requires i <= |s|
    ensures AllHyphens(s[i..SkipHyphens(s, i)])
  {
    var t := s[i..SkipHyphens(s, i)];
    forall k | 0 <= k < |t|
      ensures t[k] == '-'
    {
      assert t[k] == s[i + k];
    }
  }

  /** The newline sequence starting at a newline character. */
  lemma NewlineSeq(s: string, i: nat)
    requires i < |s| && IsNewline(s[i])
    ensures OptNewline(s[i..NewlineEnd(s, i)]) && s[i..NewlineEnd(s, i)] != ""
  {
    if NewlinePairAt(s, i) {
      assert s[i..i + 2] == [s[i], s[i + 1]];
    } else {
      assert s[i..i + 1] == [s[i]];
    }
  }

  lemma SliceSplit4(s: string, p: nat, a: nat, h: nat, c: nat, e: nat)
    requires p <= a <= h <= c <= e <= |s|
    ensures s[p..e] == s[p..a] + s[a..h] + s[h..c] + s[c..e]
  {
    assert s[p..e] == s[p..a] + s[a..e];
    assert s[a..e] == s[a..h] + s[h..e];
    assert s[h..e] == s[h..c] + s[c..e];
  }

  /** The ruler bids exactly where a whole rule line starts: at a newline
      or line start whose rest is a rule, with no such place earlier. */
  lemma RuleBidIsLeftmost(s: string, pos: nat)
    ensures SubBid(HorizontalRuler, s, pos).Some? ==>
      var b := SubBid(HorizontalRuler, s, pos).value;
      && RuleAt(s, b).Some?
      && (IsNewline(s[b]) || LineStart(s, b))
      && forall k :: pos <= k < b ==> RuleAt(s, k).None?
    ensures SubBid(HorizontalRuler, s, pos).None? ==> forall k :: pos <= k ==> RuleAt(s, k).None?
  {
    forall k | pos <= k
      ensures MatchAt(Ruler, s, k) == RuleAt(s, k)
    {
    }
  }

  /** A greedy `[ \t]*` from `i` stops exactly after `n` blanks that are
      followed by a non-blank or the end. */
  lemma {:induction false} SkipBlankAt(s: string, i: nat, n: nat)
    requires i + n <= |s|
    requires forall p :: i <= p < i + n ==> IsBlank(s[p])
    requires i + n == |s| || !IsBlank(s[i + n])
    ensures SkipBlank(s, i) == i + n
    decreases n
  {
    if n > 0 {
      SkipBlankAt(s, i + 1, n - 1);
    }
  }

  /** A greedy `-*` from `i` stops exactly after `n` hyphens that are
      followed by another character or the end. */
  lemma {:induction false} SkipHyphensAt(s: string, i: nat, n: nat)
    requires i + n <= |s|
    requires forall p :: i <= p < i + n ==> s[p] == '-'
    requires i + n == |s| || s[i + n] != '-'
    ensures SkipHyphens(s, i) == i + n
    decreases n
  {
    if n > 0 {
      SkipHyphensAt(s, i + 1, n - 1);
    }
  }

  /** A slice that is a concatenation splits where its parts meet. */
  lemma SliceCut(s: string, k: nat, e: nat, x: string, y: string)
    requires k <= e <= |s| && s[k..e] == x + y
    ensures k + |x| <= e && s[k..k + |x|] == x && s[k + |x|..e] == y
  {
    assert s[k..k + |x|] == s[k..e][..|x|];
    assert s[k + |x|..e] == s[k..e][|x|..];
  }

  lemma BlanksAt(s: string, a: nat, b: nat)
    requires a <= b <= |s| && AllBlank(s[a..b])
    ensures forall q :: a <= q < b ==> IsBlank(s[q])
  {
    forall q | a <= q < b
      ensures IsBlank(s[q])
    {
      assert s[q] == s[a..b][q - a];
    }
  }

  lemma HyphensAt(s: string, a: nat, b: nat)
    requires a <= b <= |s| && AllHyphens(s[a..b])
    ensures forall q :: a <= q < b ==> s[q] == '-'
  {
    forall q | a <= q < b
      ensures s[q] == '-'
    {
      assert s[q] == s[a..b][q - a];
    }
  }

  /** `RuleRest` on offsets: blanks on `[p, a)`, three or more hyphens on
      `[a, h)`, blanks on `[h, c)`, and a newline sequence `[c, e)` or
      the end of the text. */
  lemma RestFoundAt(s: string, p: nat, a: nat, h: nat, c: nat, e: nat)
    requires p <= a && a + 3 <= h <= c <= e <= |s|
    requires forall q :: p <= q < a ==> IsBlank(s[q])
    requires forall q :: a <= q < h ==> s[q] == '-'
    requires forall q :: h <= q < c ==> IsBlank(s[q])
    requires || (e == c && c == |s|)
             || (e == c + 1 && IsNewline(s[c]))
             || (e == c + 2 && NewlinePairAt(s, c))
    ensures RuleRest(s, p).Some? && e <= RuleRest(s, p).value
  {
    SkipBlankAt(s, p, a - p);
    SkipHyphensAt(s, a, h - a);
    SkipBlankAt(s, h, c - h);
  }

  /** The optional newline ending a rule line, read on offsets. */
  lemma TrailAt(s: string, c: nat, e: nat)
    requires c <= e <= |s| && OptNewline(s[c..e])
    ensures || e == c
            || (e == c + 1 && IsNewline(s[c]))
            || (e == c + 2 && NewlinePairAt(s, c))
  {
    if e > c {
      assert s[c] == s[c..e][0];
    }
    if e == c + 2 {
      assert s[c + 1] == s[c..e][1];
    }
  }

  /** The rest of a rule line after its leading newline: blanks, three
      or more hyphens, blanks, then a newline or the end of the text, is
      matched by `RuleRest`, which ends no earlier than the line. */
  lemma RestFound(s: string, p: nat, e: nat, pre: string, bar: string, post: string, trail: string)
    requires p <= e <= |s| && s[p..e] == pre + bar + post + trail
    requires AllBlank(pre) && |bar| >= 3 && AllHyphens(bar) && AllBlank(post) && OptNewline(trail)
    requires trail == "" ==> e == |s|
    ensures RuleRest(s, p).Some? && e <= RuleRest(s, p).value
    ensures s[p] == '-' || IsBlank(s[p])
  {
    SliceCut(s, p, e, pre + bar + post, trail);
    var c := p + |pre + bar + post|;
    SliceCut(s, p, c, pre + bar, post);
    var h := p + |pre + bar|;
    SliceCut(s, p, h, pre, bar);
    var a := p + |pre|;
    BlanksAt(s, p, a);
    HyphensAt(s, a, h);
    BlanksAt(s, h, c);
    TrailAt(s, c, e);
    assert c == e ==> trail == "";
    RestFoundAt(s, p, a, h, c, e);
  }

  /** The converse of `RuleShape`: every rule line at or after `pos`
      whose leading newline is absent only at a line start and whose
      trailing newline is absent only at the end of the text is matched
      where it starts, so the ruler bids there or earlier. */
  lemma RuleLineFound(s: string, pos: nat, k: nat, e: nat, lead: string, pre: string, bar: string, post: string, trail: string)
    requires pos <= k <= e <= |s|
    requires RuleLine(s[k..e], lead, pre, bar, post, trail)
    requires lead == "" ==> LineStart(s, k)
    requires trail == "" ==> e == |s|
    ensures RuleAt(s, k).Some? && e <= RuleAt(s, k).value.end
    ensures SubBid(HorizontalRuler, s, pos).Some? && SubBid(HorizontalRuler, s, pos).value <= k
  {
    assert s[k..e] == lead + (pre + bar + post + trail);
    SliceCut(s, k, e, lead, pre + bar + post + trail);
    var p := k + |lead|;
    RestFound(s, p, e, pre, bar, post, trail);
    if lead != "" {
      TrailAt(s, k, p);
      assert NewlineEnd(s, k) == p;
    }
    assert MatchAt(Ruler, s, k).Some?;
  }
}

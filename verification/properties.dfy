/** Properties of `applyQueue` as a whole (stelm/combinator.py): which
    unit can win a round, plain text passing through, the escaper as the
    inverse of backslash-quoting, marker spans and links wrapping their
    recursively formatted text. */
module Properties {
  import opened Text
  import opened Combinator
  import opened Arbitration
  import PreFormatter
  import MarkerBased
  import Linker
  import Escaper

  // ---------------------------------------------------------------------
  // Who can win a round.

  /** What the text holds where a unit bids. */
  lemma BidWitness(u: Unit, s: string, pos: nat)
    requires Bid(u, s, pos).Some?
    ensures var b := Bid(u, s, pos).value;
      && (u.Pre? ==> var k := SkipSpace(s, b); k < |s| && s[k] == '{' && (k == b || IsSpace(s[b])))
      && (u.Link? ==> Linker.LinkAt(s, b) && s[b] == 'h')
      && (u.Marker? ==> s[b] == u.mark)
      && (u.Esc? ==> s[b] == '\\')
  {
    var b := Bid(u, s, pos).value;
    if u.Link? {
      assert s[b] == s[b..b + |Linker.Scheme|][0];
    }
  }

  /** A unit bidding right at the cursor, with no unit ahead of it in the
      queue bidding there too, wins the round. */
  lemma WinsAt(s: string, pos: nat, w: nat)
    requires w < |QUEUE| && Bid(QUEUE[w], s, pos) == Some(pos)
    requires forall k :: 0 <= k < w ==> Bid(QUEUE[k], s, pos) != Some(pos)
    ensures Winner(s, pos) == Some(QUEUE[w])
  {
    var bids := Bids(s, pos);
    BidsAre(s, pos);
    assert Best(bids, w);
    WinnerIsLowestBid(s, pos);
  }

  /** The marker characters of the queue. */
  lemma QueueMarks()
    ensures forall k :: 0 <= k < |QUEUE| ==> (QUEUE[k].Marker? <==> 2 <= k <= 4)
    ensures forall k :: 2 <= k <= 4 ==> QUEUE[k].Marker? && QUEUE[k].mark == "*_-"[k - 2]
    ensures forall k :: 2 <= k <= 4 ==> QUEUE[k].mark !in "\\{\"" && QUEUE[k].opening != []
  {
  }

  /** A backslash before anything but a newline always wins its round
      against every other unit, even one bidding at the same offset, and
      emits the next character alone: the empty prefix fragment, then
      that character. */
  lemma EscaperWins(s: string, pos: nat)
    requires Escaper.EscAt(s, pos)
    ensures Winner(s, pos) == Some(Esc)
    ensures Round(s, pos) == Step(["", [s[pos + 1]]], pos + 2)
  {
    assert Bid(Esc, s, pos) == Some(pos);
    QueueMarks();
    forall k | 0 <= k < 5 && Bid(QUEUE[k], s, pos) == Some(pos)
      ensures false
    {
      BidWitness(QUEUE[k], s, pos);
    }
    WinsAt(s, pos, 5);
  }

  /** One turn of the dispatch loop. */
  lemma DispatchStep(s: string, pos: nat)
    requires pos < |s|
    ensures Dispatch(s, pos) == Round(s, pos).frags + Dispatch(s, Round(s, pos).next)
  {
    var r := Round(s, pos);
    if r.next == |s| {
      DispatchEnd(s);
      AppendNil(r.frags);
    }
  }

  /** Formatting dispatches from the start of the text. */
  lemma ApplyQueueStarts(s: string)
    ensures ApplyQueue(s) == Dispatch(s, 0)
  {
  }

  /** Nothing is left to format at the end of the text. */
  lemma DispatchEnd(s: string)
    ensures Dispatch(s, |s|) == []
  {
  }

  /** A text taken by one round formats to that round's fragments. */
  lemma SingleRound(s: string)
    requires s != [] && Round(s, 0).next == |s|
    ensures ApplyQueue(s) == Round(s, 0).frags
  {
    ApplyQueueStarts(s);
  }

  // ---------------------------------------------------------------------
  // Literal passthrough.

  /** No character any unit of the queue reacts to. */
  predicate PlainText(s: string) {
    && (forall i :: 0 <= i < |s| ==> s[i] !in "*_-\\{")
    && (forall i :: 0 <= i < |s| ==> !Linker.LinkAt(s, i))
  }

  /** With no bidder at the cursor the rest of the text is emitted as one
      literal fragment and dispatch stops. */
  lemma NoBidsPassThrough(s: string, pos: nat)
    requires pos < |s| && NoBids(Bids(s, pos))
    ensures Dispatch(s, pos) == [s[pos..]]
  {
    WinnerIsLowestBid(s, pos);
  }

  /** Nobody bids anywhere in plain text. */
  lemma PlainTextNoBids(s: string, pos: nat)
    requires PlainText(s)
    ensures NoBids(Bids(s, pos))
  {
    QueueMarks();
    var bids := Bids(s, pos);
    BidsAre(s, pos);
    forall k | 0 <= k < |bids| && bids[k].Some?
      ensures false
    {
      BidWitness(QUEUE[k], s, pos);
    }
  }

  /** Plain text formats to itself, in a single fragment; the empty text
      formats to no fragment at all. */
  lemma PlainTextPassesThrough(s: string)
    requires PlainText(s)
    ensures s != [] ==> ApplyQueue(s) == [s]
    ensures s == [] ==> ApplyQueue(s) == []
  {
    if s != [] {
      PlainTextNoBids(s, 0);
      NoBidsPassThrough(s, 0);
    }
  }

  /** Text ahead of the winning bid comes out first, verbatim and whole. */
  lemma RoundKeepsLeadingText(s: string, pos: nat)
    requires pos < |s| && Winner(s, pos).Some?
    requires pos < Bid(Winner(s, pos).value, s, pos).value
    ensures Round(s, pos).frags != [] && Round(s, pos).frags[0] == s[pos..Bid(Winner(s, pos).value, s, pos).value]
  {
    var u := Winner(s, pos).value;
    assert Round(s, pos) == Apply(u, s, pos);
    ApplyKeepsLeadingText(u, s, pos);
  }

  /** Every unit emits the text ahead of its bid first. */
  lemma ApplyKeepsLeadingText(u: Unit, s: string, pos: nat)
    requires pos < |s| && Bid(u, s, pos).Some? && pos < Bid(u, s, pos).value
    ensures Apply(u, s, pos).frags != [] && Apply(u, s, pos).frags[0] == s[pos..Bid(u, s, pos).value]
  {
    match u
    case Pre => PreLead(s, pos);
    case Esc =>
    case Marker(m, opening, closing) => MarkerLead(m, opening, closing, s, pos);
    case Link => LinkLead(s, pos);
  }

  lemma HeadOfAppend(p: seq<string>, rest: seq<string>)
    requires p != []
    ensures (p + rest)[0] == p[0]
  {
  }

  lemma PreLead(s: string, pos: nat)
    requires PreFormatter.PreBid(s, pos).Some? && pos < PreFormatter.PreBid(s, pos).value
    ensures PreFormatter.PreApply(s, pos).frags != [] && PreFormatter.PreApply(s, pos).frags[0] == s[pos..PreFormatter.PreBid(s, pos).value]
  {
    var b := PreFormatter.PreBid(s, pos).value;
    var c := PreFormatter.CloseLoop(s, b, PreFormatter.OpenEnd(s, b).value, []);
    assert PreFormatter.PreApply(s, pos).frags == Prefix(s, pos, b) + c.frags;
    HeadOfAppend(Prefix(s, pos, b), c.frags);
  }

  lemma MarkerLead(m: char, opening: seq<string>, closing: seq<string>, s: string, pos: nat)
    requires pos <= |s|
    requires MarkerBased.MarkerBid(s, m, pos).Some? && pos < MarkerBased.MarkerBid(s, m, pos).value
    ensures MarkerApply(m, opening, closing, s, pos).frags != [] && MarkerApply(m, opening, closing, s, pos).frags[0] == s[pos..MarkerBased.MarkerBid(s, m, pos).value]
  {
    var b := MarkerBased.MarkerBid(s, m, pos).value;
    var p := Prefix(s, pos, b);
    match MarkerBased.CloseAfter(s, m, b + 1)
    case None =>
      HeadOfAppend(p, [s[b..b + 1]]);
    case Some(j) =>
      var inner := ApplyQueue(s[b + 1..j]);
      HeadOfAppend(p, opening);
      HeadOfAppend(p + opening, inner);
      HeadOfAppend(p + opening + inner, closing);
  }

  lemma LinkLead(s: string, pos: nat)
    requires pos <= |s|
    requires Linker.LinkBid(s, pos).Some? && pos < Linker.LinkBid(s, pos).value
    ensures LinkApply(s, pos).frags != [] && LinkApply(s, pos).frags[0] == s[pos..Linker.LinkBid(s, pos).value]
  {
    var b := Linker.LinkBid(s, pos).value;
    var e := Linker.LinkEnd(s, b);
    var p := Prefix(s, pos, b);
    var head := p + [Linker.HrefOpen, s[b..e], Linker.HrefClose];
    HeadOfAppend(p, [Linker.HrefOpen, s[b..e], Linker.HrefClose]);
    if Linker.HasText(s, e) {
      var a := e + 1;
      if a < |s| && s[a] == '"' {
        var q := MarkerApply(Quote.mark, Quote.opening, Quote.closing, s, a);
        HeadOfAppend(head, q.frags);
        HeadOfAppend(head + q.frags, [Linker.AnchorClose]);
      } else {
        var inner := ApplyQueue(s[a..Linker.TextEnd(s, a)]);
        HeadOfAppend(head, inner);
        HeadOfAppend(head + inner, [Linker.AnchorClose]);
      }
    } else {
      HeadOfAppend(head, [s[b..e], Linker.AnchorClose]);
    }
  }

  // ---------------------------------------------------------------------
  // The escaper undoes backslash-quoting.

  /** Every character preceded by a backslash. */
  function EscapeAll(t: string): (r: string)
    ensures |r| == 2 * |t|
    ensures forall i :: 0 <= i < |t| ==> r[2 * i] == '\\' && r[2 * i + 1] == t[i]
  {
    seq(2 * |t|, k requires 0 <= k < 2 * |t| => if k % 2 == 0 then '\\' else t[k / 2])
  }

  lemma {:induction false} DispatchEscaped(t: string, i: nat)
    requires i <= |t|
    requires forall k :: 0 <= k < |t| ==> t[k] != '\n'
    ensures Concat(Dispatch(EscapeAll(t), 2 * i)) == t[i..]
    decreases |t| - i
  {
    if i < |t| {
      var s := EscapeAll(t);
      EscapedStep(t, i);
      DispatchEscaped(t, i + 1);
      SliceCons(t, i);
      ChainEscaped(Dispatch(s, 2 * i), Dispatch(s, 2 * (i + 1)), t[i], t[i + 1..], t[i..]);
    }
  }

  /** Joining an escaped character's fragments and the rest. */
  lemma ChainEscaped(d: seq<string>, rest: seq<string>, c: char, tail: string, whole: string)
    requires d == ["", [c]] + rest && Concat(rest) == tail && whole == [c] + tail
    ensures Concat(d) == whole
  {
    ConcatEscaped(c, rest);
  }

  /** Each escaped pair is one round of its own. */
  lemma EscapedStep(t: string, i: nat)
    requires i < |t| && t[i] != '\n'
    ensures Dispatch(EscapeAll(t), 2 * i) == ["", [t[i]]] + Dispatch(EscapeAll(t), 2 * (i + 1))
  {
    var s := EscapeAll(t);
    assert 2 * i + 2 == 2 * (i + 1);
    assert s[2 * i + 1] == t[i];
    assert Escaper.EscAt(s, 2 * i);
    EscaperWins(s, 2 * i);
    DispatchStep(s, 2 * i);
  }

  /** The escaper's two fragments join to the escaped character. */
  lemma ConcatEscaped(c: char, rest: seq<string>)
    ensures Concat(["", [c]] + rest) == [c] + Concat(rest)
  {
    ConcatAppend(["", [c]], rest);
    assert Concat(["", [c]]) == [c];
  }

  lemma SliceCons(t: string, i: nat)
    requires i < |t|
    ensures t[i..] == [t[i]] + t[i + 1..]
  {
  }

  /** Quoting every character with a backslash and formatting gives the
      text back, whatever markup it holds, as long as it has no newline
      (a backslash before a newline is not an escape). */
  lemma EscapeRoundTrip(t: string)
    requires forall k :: 0 <= k < |t| ==> t[k] != '\n'
    ensures Format(EscapeAll(t)) == t
  {
    DispatchEscaped(t, 0);
  }

  // ---------------------------------------------------------------------
  // The escaper as the code calls it.

  /** One round as `applyQueue` is written: it calls
      `proc.apply(s, pos)`, but `Escaper.apply` takes no argument besides
      the instance, so the call raises `TypeError` whenever the escaper
      wins. `None` is that exception. */
  function RoundAsWritten(s: string, pos: nat): (r: Option<Step>)
    requires pos < |s|
    ensures r.Some? ==> r.value == Round(s, pos) && Winner(s, pos) != Some(Esc)
  {
    if Winner(s, pos) == Some(Esc) then None else Some(Round(s, pos))
  }

  /** The defect: every backslash-quoted text makes the first round
      raise, while the corrected round gives the text back. */
  lemma EscapeRaisesAsWritten(t: string)
    requires t != [] && forall k :: 0 <= k < |t| ==> t[k] != '\n'
    ensures RoundAsWritten(EscapeAll(t), 0).None?
    ensures Format(EscapeAll(t)) == t
  {
    var s := EscapeAll(t);
    assert s[1] == t[0];
    assert Escaper.EscAt(s, 0);
    EscaperWins(s, 0);
    EscapeRoundTrip(t);
  }

  // ---------------------------------------------------------------------
  // Marker spans.

  /** A marker span from `a`: the marker, `n` characters with no marker
      and no backslash, opening on a non-space and closing after one, and
      the closing marker before a non-word character or the end. */
  predicate SpanAt(s: string, m: char, a: nat, n: nat) {
    && m != '\\' && 1 <= n && a + n + 1 < |s|
    && s[a] == m && s[a + n + 1] == m
    && !IsSpace(s[a + 1]) && !IsSpace(s[a + n])
    && (forall p :: a < p <= a + n ==> s[p] != m && s[p] != '\\')
    && (a + n + 2 == |s| || !IsWord(s[a + n + 2]))
  }

  /** Such a span opens at `a` and closes at its closing marker. */
  lemma SpanCloses(s: string, m: char, a: nat, n: nat)
    requires SpanAt(s, m, a, n)
    ensures MarkerBased.MarkerBid(s, m, a) == Some(a)
    ensures MarkerBased.CloseAfter(s, m, a + 1) == Some(a + n + 1)
  {
    var j := a + n + 1;
    assert MarkerBased.ClosesAt(s, m, j);
    assert MarkerBased.EndHitAt(s, m, j);
    forall p | a + 1 <= p < j && MarkerBased.EndHitAt(s, m, p)
      ensures false
    {
    }
    assert MarkerBased.FindEndHit(s, m, a + 1) == Some(j);
    assert MarkerBased.SeekFrom(s, m, a + 1) == Some(j);
  }

  /** A marker application at such a span wraps the recursively
      formatted inside in the opening and closing fragments and resumes
      after the span. */
  lemma MarkerSpan(m: char, opening: seq<string>, closing: seq<string>, s: string, a: nat, n: nat)
    requires SpanAt(s, m, a, n)
    ensures MarkerApply(m, opening, closing, s, a) == Step(opening + ApplyQueue(s[a + 1..a + n + 1]) + closing, a + n + 2)
  {
    SpanCloses(s, m, a, n);
    var j := a + n + 1;
    MarkerUnfoldsSpan(m, opening, closing, s, a, j);
    assert Prefix(s, a, a) == [];
    MarkerChain(MarkerApply(m, opening, closing, s, a), Prefix(s, a, a), opening, ApplyQueue(s[a + 1..j]), closing, j + 1, a + n + 2);
  }

  /** A marker opening at the cursor and closing at `j`. */
  lemma MarkerUnfoldsSpan(m: char, opening: seq<string>, closing: seq<string>, s: string, a: nat, j: nat)
    requires a < |s|
    requires MarkerBased.MarkerBid(s, m, a) == Some(a) && MarkerBased.CloseAfter(s, m, a + 1) == Some(j)
    ensures MarkerApply(m, opening, closing, s, a) == Step(Prefix(s, a, a) + opening + ApplyQueue(s[a + 1..j]) + closing, j + 1)
  {
  }

  /** Drops the empty prefix from a span's fragments. */
  lemma MarkerChain(st: Step, p: seq<string>, opening: seq<string>, inner: seq<string>, closing: seq<string>, next: nat, next': nat)
    requires st == Step(p + opening + inner + closing, next)
    requires p == [] && next == next'
    ensures st == Step(opening + inner + closing, next')
  {
    NilAppend(opening);
  }

  /** Quoted link text is formatted with nothing around it. */
  lemma QuotedSpan(s: string, a: nat, n: nat)
    requires SpanAt(s, '"', a, n)
    ensures MarkerApply(Quote.mark, Quote.opening, Quote.closing, s, a) == Step(ApplyQueue(s[a + 1..a + n + 1]), a + n + 2)
  {
    var inner := ApplyQueue(s[a + 1..a + n + 1]);
    MarkerSpan(Quote.mark, Quote.opening, Quote.closing, s, a, n);
    assert Quote.opening == [] && Quote.closing == [];
    NilAppend(inner);
    AppendNil(inner);
  }

  /** The same for a marker unit of the queue. */
  lemma SpanApply(s: string, u: Unit, a: nat, n: nat)
    requires u.Marker? && SpanAt(s, u.mark, a, n)
    ensures Apply(u, s, a) == Step(u.opening + ApplyQueue(s[a + 1..a + n + 1]) + u.closing, a + n + 2)
  {
    assert Apply(u, s, a) == MarkerApply(u.mark, u.opening, u.closing, s, a);
    MarkerSpan(u.mark, u.opening, u.closing, s, a, n);
  }

  /** A marker that opens but never closes is emitted as itself after the
      prefix, and dispatch resumes right after it: the output joins to the
      text it consumed. */
  lemma MarkerUnmatched(m: char, opening: seq<string>, closing: seq<string>, s: string, pos: nat)
    requires pos <= |s| && MarkerBased.MarkerBid(s, m, pos).Some?
    requires MarkerBased.CloseAfter(s, m, MarkerBased.MarkerBid(s, m, pos).value + 1).None?
    ensures var b := MarkerBased.MarkerBid(s, m, pos).value;
      var r := MarkerApply(m, opening, closing, s, pos);
      && r == Step(Prefix(s, pos, b) + [[m]], b + 1)
      && Concat(r.frags) == s[pos..r.next]
  {
    var b := MarkerBased.MarkerBid(s, m, pos).value;
    var p := Prefix(s, pos, b);
    assert s[b..b + 1] == [m];
    ConcatAppend(p, [[m]]);
    ConcatCons([m], []);
    assert s[pos..b + 1] == s[pos..b] + [m];
  }

  /** A marker unit of the queue opening right at the cursor wins the
      round: nothing ahead of it in the queue can bid on a marker
      character. */
  lemma MarkerWinsAt(s: string, pos: nat, w: nat)
    requires 2 <= w <= 4 && MarkerBased.OpensAt(s, QUEUE[w].mark, pos)
    ensures Winner(s, pos) == Some(QUEUE[w])
  {
    assert Bid(QUEUE[w], s, pos) == Some(pos);
    QueueMarks();
    forall k | 0 <= k < w && Bid(QUEUE[k], s, pos) == Some(pos)
      ensures false
    {
      BidWitness(QUEUE[k], s, pos);
    }
    WinsAt(s, pos, w);
  }

  /** `m`, `t`, `m` is one marker span when `t` has neither `m` nor a
      backslash and starts and ends on a non-space. */
  lemma WrapIsSpan(m: char, t: string)
    requires m != '\\'
    requires t != [] && !IsSpace(t[0]) && !IsSpace(t[|t| - 1])
    requires m !in t && '\\' !in t
    ensures SpanAt([m] + t + [m], m, 0, |t|)
  {
    var s := [m] + t + [m];
    forall p | 0 < p <= |t|
      ensures s[p] != m && s[p] != '\\'
    {
      assert s[p] == t[p - 1];
    }
  }

  /** Bold, italic and strike-through text: a marker, text that starts
      and ends with a non-space and holds neither that marker nor a
      backslash, and the marker again, formats to the unit's tags around
      the formatted text. */
  lemma MarkerWraps(w: nat, t: string)
    requires 2 <= w <= 4
    requires t != [] && !IsSpace(t[0]) && !IsSpace(t[|t| - 1])
    requires QUEUE[w].mark !in t && '\\' !in t
    ensures var u := QUEUE[w];
      ApplyQueue([u.mark] + t + [u.mark]) == u.opening + ApplyQueue(t) + u.closing
  {
    QueueMarks();
    var u := QUEUE[w];
    var s := [u.mark] + t + [u.mark];
    WrapIsSpan(u.mark, t);
    assert s[1..|t| + 1] == t;
    SpanApply(s, u, 0, |t|);
    MarkerWinsAt(s, 0, w);
    assert Round(s, 0) == Apply(u, s, 0);
    SingleRound(s);
  }

  // ---------------------------------------------------------------------
  // Links.

  /** A URL as the link unit reads it: `http://` and at least one more
      character, none of them whitespace or `|`. */
  predicate IsUrl(u: string) {
    && |u| > |Linker.Scheme| && u[..|Linker.Scheme|] == Linker.Scheme
    && forall k :: |Linker.Scheme| <= k < |u| ==> !IsSpace(u[k]) && u[k] != '|'
  }

  /** A text that starts with a URL opens a link there, and the URL ends
      where the text's URL part does. */
  lemma {:induction false} LinkWinsAtUrl(u: string, s: string)
    requires IsUrl(u) && |u| <= |s| && s[0..|u|] == u
    requires |u| < |s| ==> IsSpace(s[|u|]) || s[|u|] == '|'
    ensures Winner(s, 0) == Some(Link)
    ensures Linker.LinkBid(s, 0) == Some(0) && Linker.LinkEnd(s, 0) == |u|
  {
    assert s[..|Linker.Scheme|] == u[..|Linker.Scheme|];
    assert Linker.LinkAt(s, 0);
    assert Bid(Link, s, 0) == Some(0);
    assert s[0] == 'h';
    if Bid(Pre, s, 0) == Some(0) {
      BidWitness(Pre, s, 0);
    }
    WinsAt(s, 0, 1);
    var e := Linker.LinkEnd(s, 0);
    Linker.LinkEndRun(s, 0);
    if e > |u| {
      assert Linker.UrlStopAt(s, |u|);
    }
  }

  /** A round the link unit wins is the link unit's application. */
  lemma {:induction false} LinkRound(s: string, pos: nat)
    requires pos < |s| && Winner(s, pos) == Some(Link)
    ensures Round(s, pos) == LinkApply(s, pos)
  {
    assert Round(s, pos) == Apply(Link, s, pos);
  }

  /** A link at the cursor with no `|` after its URL shows the URL. */
  lemma {:induction false} LinkApplyBare(s: string, e: nat)
    requires Linker.LinkBid(s, 0) == Some(0) && Linker.LinkEnd(s, 0) == e
    requires !Linker.HasText(s, e)
    ensures LinkApply(s, 0) == Step([Linker.HrefOpen, s[..e], Linker.HrefClose, s[..e], Linker.AnchorClose], e)
  {
    assert Prefix(s, 0, 0) == [];
  }

  /** A link at the cursor with `|` and unquoted text after its URL. */
  lemma {:induction false} LinkApplyText(s: string, e: nat, n: nat)
    requires Linker.LinkBid(s, 0) == Some(0) && Linker.LinkEnd(s, 0) == e
    requires Linker.HasText(s, e) && (e + 1 == |s| || s[e + 1] != '"')
    requires Linker.TextEnd(s, e + 1) == n
    ensures LinkApply(s, 0) == Step([Linker.HrefOpen, s[0..e], Linker.HrefClose] + ApplyQueue(s[e + 1..n]) + [Linker.AnchorClose], n)
  {
    LinkUnfoldsText(s, e);
    LinkChain(LinkApply(s, 0), Prefix(s, 0, 0), s[0..e], Step(ApplyQueue(s[e + 1..n]), n), ApplyQueue(s[e + 1..n]), n);
  }

  lemma {:induction false} LinkUnfoldsText(s: string, e: nat)
    requires Linker.LinkBid(s, 0) == Some(0) && Linker.LinkEnd(s, 0) == e
    requires Linker.HasText(s, e) && (e + 1 == |s| || s[e + 1] != '"')
    ensures var n := Linker.TextEnd(s, e + 1);
      LinkApply(s, 0) == Step(Prefix(s, 0, 0) + [Linker.HrefOpen, s[0..e], Linker.HrefClose] + Step(ApplyQueue(s[e + 1..n]), n).frags + [Linker.AnchorClose], n)
  {
  }

  /** A link at the cursor with `|` and a quoted span after its URL. */
  lemma {:induction false} LinkApplyQuoted(s: string, e: nat, n: nat)
    requires Linker.LinkBid(s, 0) == Some(0) && Linker.LinkEnd(s, 0) == e
    requires Linker.HasText(s, e) && SpanAt(s, '"', e + 1, n)
    ensures var a := e + 1;
      LinkApply(s, 0) == Step([Linker.HrefOpen, s[0..e], Linker.HrefClose] + ApplyQueue(s[a + 1..a + n + 1]) + [Linker.AnchorClose], a + n + 2)
  {
    var a := e + 1;
    QuotedSpan(s, a, n);
    var q := MarkerApply(Quote.mark, Quote.opening, Quote.closing, s, a);
    assert LinkApply(s, 0) == Step(Prefix(s, 0, 0) + [Linker.HrefOpen, s[0..e], Linker.HrefClose] + q.frags + [Linker.AnchorClose], q.next);
    LinkChain(LinkApply(s, 0), Prefix(s, 0, 0), s[0..e], q, ApplyQueue(s[a + 1..a + n + 1]), a + n + 2);
  }

  /** Drops the empty prefix from an anchor's fragments. */
  lemma LinkChain(st: Step, p: seq<string>, x: string, q: Step, inner: seq<string>, next: nat)
    requires st == Step(p + [Linker.HrefOpen, x, Linker.HrefClose] + q.frags + [Linker.AnchorClose], q.next)
    requires p == [] && q == Step(inner, next)
    ensures st == Step([Linker.HrefOpen, x, Linker.HrefClose] + inner + [Linker.AnchorClose], next)
  {
  }

  /** A bare URL becomes a link showing the URL itself. */
  lemma {:induction false} LinkAlone(u: string)
    requires IsUrl(u)
    ensures ApplyQueue(u) == [Linker.HrefOpen, u, Linker.HrefClose, u, Linker.AnchorClose]
  {
    LinkWinsAtUrl(u, u);
    assert u[..|u|] == u;
    LinkApplyBare(u, |u|);
    LinkRound(u, 0);
    SingleRound(u);
  }

  /** The text after `url|` runs to the end when it has no whitespace. */
  lemma {:induction false} TextRunsToEnd(u: string, t: string)
    requires IsUrl(u)
    requires forall k :: 0 <= k < |t| ==> !IsSpace(t[k])
    requires t == [] || t[0] != '"'
    ensures var s := u + "|" + t;
      && |u| < |s| && s[0..|u|] == u && (IsSpace(s[|u|]) || s[|u|] == '|')
      && Linker.HasText(s, |u|) && (|u| + 1 == |s| || s[|u| + 1] != '"')
      && Linker.TextEnd(s, |u| + 1) == |s| && s[|u| + 1..|s|] == t
  {
    var s := u + "|" + t;
    var a := |u| + 1;
    assert s[0..|u|] == u;
    assert s[a..|s|] == t;
    forall k | a + 1 <= k < |s|
      ensures !IsSpace(s[k])
    {
      assert s[k] == t[k - a];
    }
  }

  /** `url|text`, with text free of whitespace and not starting with a
      quote: a link whose text is `text`, formatted. */
  lemma {:induction false} LinkWithText(u: string, t: string)
    requires IsUrl(u)
    requires forall k :: 0 <= k < |t| ==> !IsSpace(t[k])
    requires t == [] || t[0] != '"'
    ensures ApplyQueue(u + "|" + t) == [Linker.HrefOpen, u, Linker.HrefClose] + ApplyQueue(t) + [Linker.AnchorClose]
  {
    var s := u + "|" + t;
    TextLinkApply(u, t);
    LinkRound(s, 0);
    SingleRound(s);
  }

  /** The link unit's application to `url|text`. */
  lemma {:induction false} TextLinkApply(u: string, t: string)
    requires IsUrl(u)
    requires forall k :: 0 <= k < |t| ==> !IsSpace(t[k])
    requires t == [] || t[0] != '"'
    ensures var s := u + "|" + t;
      && Winner(s, 0) == Some(Link)
      && LinkApply(s, 0) == Step([Linker.HrefOpen, u, Linker.HrefClose] + ApplyQueue(t) + [Linker.AnchorClose], |s|)
  {
    var s := u + "|" + t;
    TextRunsToEnd(u, t);
    TextLinkAt(s, u, t);
  }

  /** The same, for any text laid out as `url|text`. */
  lemma {:induction false} TextLinkAt(s: string, u: string, t: string)
    requires IsUrl(u)
    requires && |u| < |s| && s[0..|u|] == u && (IsSpace(s[|u|]) || s[|u|] == '|')
      && Linker.HasText(s, |u|) && (|u| + 1 == |s| || s[|u| + 1] != '"')
      && Linker.TextEnd(s, |u| + 1) == |s| && s[|u| + 1..|s|] == t
    ensures Winner(s, 0) == Some(Link)
    ensures LinkApply(s, 0) == Step([Linker.HrefOpen, u, Linker.HrefClose] + ApplyQueue(t) + [Linker.AnchorClose], |s|)
  {
    LinkWinsAtUrl(u, s);
    LinkApplyText(s, |u|, |s|);
    NameParts(LinkApply(s, 0), s[0..|u|], u, s[|u| + 1..|s|], t, |s|, |s|);
  }

  /** Rewrites a link's fragments to name the URL and the formatted text
      directly. */
  lemma NameParts(st: Step, x: string, u: string, w: string, t: string, n: nat, m: nat)
    requires st == Step([Linker.HrefOpen, x, Linker.HrefClose] + ApplyQueue(w) + [Linker.AnchorClose], n)
    requires x == u && w == t && n == m
    ensures st == Step([Linker.HrefOpen, u, Linker.HrefClose] + ApplyQueue(t) + [Linker.AnchorClose], m)
  {
  }

  /** The text after `url|` is one quoted span when it is a quote, text
      as inside a marker span, and a quote. */
  lemma {:induction false} QuoteRunsToEnd(u: string, t: string)
    requires IsUrl(u)
    requires t != [] && !IsSpace(t[0]) && !IsSpace(t[|t| - 1])
    requires '"' !in t && '\\' !in t
    ensures var s := u + "|\"" + t + "\"";
      var a := |u| + 1;
      && |u| < |s| && s[0..|u|] == u && (IsSpace(s[|u|]) || s[|u|] == '|')
      && Linker.HasText(s, |u|) && SpanAt(s, '"', a, |t|)
      && s[a + 1..a + |t| + 1] == t && a + |t| + 2 == |s|
  {
    var s := u + "|\"" + t + "\"";
    var a := |u| + 1;
    assert s[0..|u|] == u;
    assert s[a + 1..a + |t| + 1] == t;
    forall p | a < p <= a + |t|
      ensures s[p] != '"' && s[p] != '\\'
    {
      assert s[p] == t[p - a - 1];
    }
  }

  /** `url|"text"`, with text as inside a marker span: a link whose text
      is `text`, formatted, without the quotes. */
  lemma {:induction false} LinkQuoted(u: string, t: string)
    requires IsUrl(u)
    requires t != [] && !IsSpace(t[0]) && !IsSpace(t[|t| - 1])
    requires '"' !in t && '\\' !in t
    ensures ApplyQueue(u + "|\"" + t + "\"") == [Linker.HrefOpen, u, Linker.HrefClose] + ApplyQueue(t) + [Linker.AnchorClose]
  {
    var s := u + "|\"" + t + "\"";
    QuotedLinkApply(u, t);
    LinkRound(s, 0);
    SingleRound(s);
  }

  /** The link unit's application to `url|"text"`. */
  lemma {:induction false} QuotedLinkApply(u: string, t: string)
    requires IsUrl(u)
    requires t != [] && !IsSpace(t[0]) && !IsSpace(t[|t| - 1])
    requires '"' !in t && '\\' !in t
    ensures var s := u + "|\"" + t + "\"";
      && Winner(s, 0) == Some(Link)
      && LinkApply(s, 0) == Step([Linker.HrefOpen, u, Linker.HrefClose] + ApplyQueue(t) + [Linker.AnchorClose], |s|)
  {
    var s := u + "|\"" + t + "\"";
    QuoteRunsToEnd(u, t);
    QuotedLinkAt(s, u, t);
  }

  /** The same, for any text laid out as `url|"text"`. */
  lemma {:induction false} QuotedLinkAt(s: string, u: string, t: string)
    requires IsUrl(u)
    requires var a := |u| + 1;
      && |u| < |s| && s[0..|u|] == u && (IsSpace(s[|u|]) || s[|u|] == '|')
      && Linker.HasText(s, |u|) && SpanAt(s, '"', a, |t|)
      && s[a + 1..a + |t| + 1] == t && a + |t| + 2 == |s|
    ensures Winner(s, 0) == Some(Link)
    ensures LinkApply(s, 0) == Step([Linker.HrefOpen, u, Linker.HrefClose] + ApplyQueue(t) + [Linker.AnchorClose], |s|)
  {
    LinkWinsAtUrl(u, s);
    LinkApplyQuoted(s, |u|, |t|);
    var a := |u| + 1;
    NameParts(LinkApply(s, 0), s[0..|u|], u, s[a + 1..a + |t| + 1], t, a + |t| + 2, |s|);
  }
}

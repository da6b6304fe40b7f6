/** The dispatcher (stelm/combinator.py) and the units whose `apply`
    re-enters it. Every round, each unit of the queue bids for the
    earliest offset at or after the cursor where it can act; the lowest
    bid wins, ties going to the earlier unit; the winner's fragments are
    appended and the cursor moves to where it stopped.

    The marker units and the link unit hand inner text back to
    `ApplyQueue`, so their `apply` lives here, in one mutually recursive
    group with the dispatcher. Termination is by the lexicographic
    measure (|s|, rank, |s| - cursor): inner text is strictly shorter, and
    every round strictly advances the cursor. */
module Combinator {
  import opened Text
  import Escaper
  import PreFormatter
  import MarkerBased
  import Linker

  /** The units a queue can hold. A marker unit is `produce`'s class:
      its marker character and the fragments that open and close a
      matched span. */
  datatype Unit =
    | Pre
    | Link
    | Marker(mark: char, opening: seq<string>, closing: seq<string>)
    | Esc

  /** `produce(MarkerBased, marker, tag)`: tags `<tag>` and `</tag>`. */
  function Produce(mark: char, tag: string): Unit {
    Marker(mark, ["<" + tag + ">"], ["</" + tag + ">"])
  }

  const Bold: Unit := Produce('*', "b")
  const Italic: Unit := Produce('_', "i")
  const Strike: Unit := Produce('-', "s")

  /** `QuoteWrapper`: a `"` marker unit whose opening and closing
      fragments are empty, used for quoted link text. */
  const Quote: Unit := Marker('"', [], [])

  /** `QUEUE`, in priority order. */
  const QUEUE: seq<Unit> := [Pre, Link, Bold, Italic, Strike, Esc]

  /** `proc_class(s, pos).getStart()`. */
  function Bid(u: Unit, s: string, pos: nat): (r: Option<nat>)
    ensures r.Some? ==> pos <= r.value < |s|
  {
    match u
    case Pre => PreFormatter.PreBid(s, pos)
    case Link => Linker.LinkBid(s, pos)
    case Marker(m, _, _) => MarkerBased.MarkerBid(s, m, pos)
    case Esc => Escaper.EscBid(s, pos)
  }

  /** `proc_class(s, pos).apply(s, pos)`. Every unit except the escaper
      has a no-bid branch; the escaper has none, so it may only be applied
      once it has bid. With a bid, the cursor moves strictly past it. */
  function Apply(u: Unit, s: string, pos: nat): (r: Step)
    requires pos <= |s|
    requires u.Esc? ==> Bid(u, s, pos).Some?
    ensures r.next <= |s|
    ensures Bid(u, s, pos).None? ==> r == Step([], pos)
    ensures Bid(u, s, pos).Some? ==> Bid(u, s, pos).value < r.next
    ensures Bid(u, s, pos).Some? && (u.Marker? ==> u.opening != []) ==> r.frags != []
    decreases |s|, 1, 2
  {
    match u
    case Pre => PreFormatter.PreApply(s, pos)
    case Esc => Escaper.EscApply(s, pos)
    case Marker(m, opening, closing) => MarkerApply(m, opening, closing, s, pos)
    case Link => LinkApply(s, pos)
  }

  /** `MarkerBased.apply`: a matched span gives the prefix, the opening
      fragments, the inner text formatted, the closing fragments, and
      resumes after the closing marker; an unmatched marker is emitted as
      itself after the prefix, and dispatch resumes right after it. */
  function MarkerApply(m: char, opening: seq<string>, closing: seq<string>, s: string, pos: nat): (r: Step)
    requires pos <= |s|
    ensures r.next <= |s|
    ensures MarkerBased.MarkerBid(s, m, pos).None? ==> r == Step([], pos)
    ensures MarkerBased.MarkerBid(s, m, pos).Some? ==> MarkerBased.MarkerBid(s, m, pos).value < r.next
    ensures MarkerBased.MarkerBid(s, m, pos).Some? && opening != [] ==> r.frags != []
    decreases |s|, 1, 0
  {
    match MarkerBased.MarkerBid(s, m, pos)
    case None => Step([], pos)
    case Some(b) =>
      match MarkerBased.CloseAfter(s, m, b + 1)
      case None => Step(Prefix(s, pos, b) + [s[b..b + 1]], b + 1)
      case Some(j) => Step(Prefix(s, pos, b) + opening + ApplyQueue(s[b + 1..j]) + closing, j + 1)
  }

  /** `Linker.apply`: the prefix, then an anchor whose href is the raw
      URL. Its text is the URL itself, or after a `|` either the quoted
      text (through `QuoteWrapper`) or the text up to the next
      whitespace, formatted. */
  function LinkApply(s: string, pos: nat): (r: Step)
    requires pos <= |s|
    ensures r.next <= |s|
    ensures Linker.LinkBid(s, pos).None? ==> r == Step([], pos)
    ensures Linker.LinkBid(s, pos).Some? ==> Linker.LinkBid(s, pos).value < r.next && r.frags != []
    ensures Linker.LinkBid(s, pos).Some? ==>
      var b := Linker.LinkBid(s, pos).value;
      var head := Prefix(s, pos, b) + [Linker.HrefOpen, s[b..Linker.LinkEnd(s, b)], Linker.HrefClose];
      && |head| < |r.frags| && r.frags[..|head|] == head
      && r.frags[|r.frags| - 1] == Linker.AnchorClose
    decreases |s|, 1, 1
  {
    match Linker.LinkBid(s, pos)
    case None => Step([], pos)
    case Some(b) =>
      var e := Linker.LinkEnd(s, b);
      var url := s[b..e];
      var head := Prefix(s, pos, b) + [Linker.HrefOpen, url, Linker.HrefClose];
      if Linker.HasText(s, e) then
        var a := e + 1;
        if a < |s| && s[a] == '"' then
          var q := MarkerApply(Quote.mark, Quote.opening, Quote.closing, s, a);
          Step(head + q.frags + [Linker.AnchorClose], q.next)
        else
          var n := Linker.TextEnd(s, a);
          Step(head + ApplyQueue(s[a..n]) + [Linker.AnchorClose], n)
      else
        Step(head + [url, Linker.AnchorClose], e)
  }

  /** Every unit's bid at `pos`, in queue order. The source asks a unit
      for its bid only while it is still scanning the queue; asking has
      no effect, so listing all of them up front changes nothing. */
  function Bids(s: string, pos: nat): (r: seq<Option<nat>>)
    ensures |r| == |QUEUE|
  {
    BidsFrom(s, pos, 0)
  }

  /** The bids of the units from queue index `k` on. */
  function BidsFrom(s: string, pos: nat, k: nat): (r: seq<Option<nat>>)
    requires k <= |QUEUE|
    ensures |r| == |QUEUE| - k
    decreases |QUEUE| - k
  {
    if k == |QUEUE| then [] else [Bid(QUEUE[k], s, pos)] + BidsFrom(s, pos, k + 1)
  }

  /** Entry `k` of the bid list is the bid of the `k`-th unit. */
  lemma BidsAre(s: string, pos: nat)
    ensures forall k :: 0 <= k < |QUEUE| ==> Bids(s, pos)[k] == Bid(QUEUE[k], s, pos)
  {
    BidsFromAre(s, pos, 0);
  }

  lemma {:induction false} BidsFromAre(s: string, pos: nat, k: nat)
    requires k <= |QUEUE|
    ensures forall j :: 0 <= j < |QUEUE| - k ==> BidsFrom(s, pos, k)[j] == Bid(QUEUE[k + j], s, pos)
    decreases |QUEUE| - k
  {
    if k < |QUEUE| {
      BidsFromAre(s, pos, k + 1);
    }
  }

  /** The `for proc_class in QUEUE` loop from index `i` on, over the
      units' bids, with the candidate index and its bid `bet` found so
      far. A unit replaces the candidate only with a strictly smaller
      bid; with `early` set the scan stops at a bid of 0, as the source
      does. */
  function Select(bids: seq<Option<nat>>, i: nat, cand: Option<nat>, bet: nat, early: bool): (r: Option<nat>)
    requires i <= |bids|
    requires cand.Some? ==> cand.value < i && bids[cand.value].Some?
    ensures r.Some? ==> r.value < |bids| && bids[r.value].Some?
    decreases |bids| - i
  {
    if i == |bids| then cand
    else
      match bids[i]
      case Some(t) =>
        if t < bet then
          if early && t == 0 then Some(i)
          else Select(bids, i + 1, Some(i), t, early)
        else Select(bids, i + 1, cand, bet, early)
      case None => Select(bids, i + 1, cand, bet, early)
  }

  /** The unit that wins the round at `pos`, starting from `bet = len(s)`. */
  function Winner(s: string, pos: nat): (r: Option<Unit>)
    ensures r.Some? ==> r.value in QUEUE && Bid(r.value, s, pos).Some?
  {
    BidsAre(s, pos);
    match Select(Bids(s, pos), 0, None, |s|, true)
    case None => None
    case Some(i) => Some(QUEUE[i])
  }

  /** One round of the `while pos < maxlen` loop at cursor `pos`: with
      no bidder the rest of the text is appended once, literally, and
      dispatch ends; otherwise the winner is applied at `pos`. Every
      round emits something and moves the cursor forward. */
  function Round(s: string, pos: nat): (r: Step)
    requires pos < |s|
    ensures pos < r.next <= |s| && r.frags != []
    ensures Winner(s, pos).None? ==> r.next == |s|
    decreases |s|, 2, 0
  {
    match Winner(s, pos)
    case None => Step([s[pos..]], |s|)
    case Some(u) => Apply(u, s, pos)
  }

  /** The loop from cursor `pos`: each round's fragments, in order. The
      loop ends once a round leaves the cursor at the end of the text,
      so the last round's fragments close the list. */
  function Dispatch(s: string, pos: nat): (r: seq<string>)
    requires pos <= |s|
    ensures r == [] <==> pos == |s|
    decreases |s|, 3, |s| - pos
  {
    if pos == |s| then []
    else
      var st := Round(s, pos);
      if st.next == |s| then st.frags else st.frags + Dispatch(s, st.next)
  }

  /** `applyQueue(s)`: the fragments of `s`, fully formatted. */
  function ApplyQueue(s: string): (r: seq<string>)
    ensures r == [] <==> s == []
    decreases |s|, 4, 0
  {
    Dispatch(s, 0)
  }

  /** `format` without its HTML-escaping pre-pass: the joined fragments. */
  function Format(s: string): string {
    Concat(ApplyQueue(s))
  }
}

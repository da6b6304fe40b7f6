/** The arbitration rule of `applyQueue` (stelm/combinator.py), stated
    independently of the scan that implements it: the winner of a round
    is the unit with the lowest bid, the earliest such unit on a tie, and
    there is no winner exactly when nobody bids. The early exit at a bid
    of 0 never changes the winner. The scan is studied over any list of
    bids below the initial bet. */
module Arbitration {
  import opened Text
  import opened Combinator

  /** Entry `w` wins: it bids, nobody bids lower, and everybody ahead of
      it bids strictly higher (or not at all). */
  predicate Best(bids: seq<Option<nat>>, w: nat) {
    && w < |bids|
    && bids[w].Some?
    && (forall k :: 0 <= k < |bids| && bids[k].Some? ==> bids[w].value <= bids[k].value)
    && (forall k :: 0 <= k < w && bids[k].Some? ==> bids[w].value < bids[k].value)
  }

  /** Nobody bids. */
  predicate NoBids(bids: seq<Option<nat>>) {
    forall k :: 0 <= k < |bids| ==> bids[k].None?
  }

  /** Every bid is below `top`, the initial bet. */
  predicate Below(bids: seq<Option<nat>>, top: nat) {
    forall k :: 0 <= k < |bids| && bids[k].Some? ==> bids[k].value < top
  }

  /** What the scan knows after looking at the first `i` entries. */
  predicate ScanState(bids: seq<Option<nat>>, top: nat, i: nat, cand: Option<nat>, bet: nat) {
    && i <= |bids|
    && Below(bids, top)
    && (cand.None? ==> bet == top && forall k :: 0 <= k < i ==> bids[k].None?)
    && (cand.Some? ==>
          && cand.value < i
          && bids[cand.value] == Some(bet)
          && (forall k :: 0 <= k < i && bids[k].Some? ==> bet <= bids[k].value)
          && (forall k :: 0 <= k < cand.value && bids[k].Some? ==> bet < bids[k].value))
  }

  lemma {:induction false} SelectFromState(bids: seq<Option<nat>>, top: nat, i: nat, cand: Option<nat>, bet: nat, early: bool)
    requires ScanState(bids, top, i, cand, bet)
    ensures var r := Select(bids, i, cand, bet, early);
      && (r.Some? ==> Best(bids, r.value))
      && (r.None? ==> NoBids(bids))
    decreases |bids| - i
  {
    if i == |bids| {
      ScanDone(bids, top, cand, bet);
    } else {
      match bids[i]
      case Some(t) =>
        if t < bet {
          if early && t == 0 {
            EarlyBest(bids, top, i, cand, bet);
          } else {
            ScanTakes(bids, top, i, cand, bet);
            SelectFromState(bids, top, i + 1, Some(i), t, early);
          }
        } else {
          ScanKeeps(bids, top, i, cand, bet);
          SelectFromState(bids, top, i + 1, cand, bet, early);
        }
      case None =>
        ScanKeeps(bids, top, i, cand, bet);
        SelectFromState(bids, top, i + 1, cand, bet, early);
    }
  }

  /** After the whole list the candidate is the winner. */
  lemma ScanDone(bids: seq<Option<nat>>, top: nat, cand: Option<nat>, bet: nat)
    requires ScanState(bids, top, |bids|, cand, bet)
    ensures cand.Some? ==> Best(bids, cand.value)
    ensures cand.None? ==> NoBids(bids)
  {
  }

  /** A bid of 0 below the bet wins at once: nobody can bid lower, and
      everybody ahead bid at least the bet. */
  lemma EarlyBest(bids: seq<Option<nat>>, top: nat, i: nat, cand: Option<nat>, bet: nat)
    requires ScanState(bids, top, i, cand, bet) && i < |bids|
    requires bids[i] == Some(0) && 0 < bet
    ensures Best(bids, i)
  {
  }

  /** A bid below the bet becomes the candidate. */
  lemma ScanTakes(bids: seq<Option<nat>>, top: nat, i: nat, cand: Option<nat>, bet: nat)
    requires ScanState(bids, top, i, cand, bet) && i < |bids|
    requires bids[i].Some? && bids[i].value < bet
    ensures ScanState(bids, top, i + 1, Some(i), bids[i].value)
  {
  }

  /** No bid, or one not below the bet, leaves the candidate. */
  lemma ScanKeeps(bids: seq<Option<nat>>, top: nat, i: nat, cand: Option<nat>, bet: nat)
    requires ScanState(bids, top, i, cand, bet) && i < |bids|
    requires bids[i].Some? ==> bet <= bids[i].value
    ensures ScanState(bids, top, i + 1, cand, bet)
  {
  }

  /** There is at most one winner. */
  lemma BestUnique(bids: seq<Option<nat>>, w: nat, w': nat)
    requires Best(bids, w) && Best(bids, w')
    ensures w == w'
  {
  }

  /** The scan's answer is exactly the reference winner, with or without
      the early exit: it names `w` if and only if `w` is best, and it
      names nobody if and only if nobody bids. */
  lemma SelectIsBest(bids: seq<Option<nat>>, top: nat, early: bool)
    requires Below(bids, top)
    ensures var r := Select(bids, 0, None, top, early);
      && (forall w: nat :: r == Some(w) <==> Best(bids, w))
      && (r.None? <==> NoBids(bids))
  {
    var r := Select(bids, 0, None, top, early);
    SelectFromState(bids, top, 0, None, top, early);
    forall w: nat
      ensures r == Some(w) <==> Best(bids, w)
    {
      if Best(bids, w) {
        assert r.Some?;
        BestUnique(bids, w, r.value);
      }
    }
  }

  /** Stopping the scan at a bid of 0 never changes the winner. */
  lemma EarlyExitSameWinner(bids: seq<Option<nat>>, top: nat)
    requires Below(bids, top)
    ensures Select(bids, 0, None, top, true) == Select(bids, 0, None, top, false)
  {
    SelectIsBest(bids, top, true);
    SelectIsBest(bids, top, false);
    var a := Select(bids, 0, None, top, true);
    if a.Some? {
      assert Best(bids, a.value);
    }
  }

  /** The queue holds six different units. */
  lemma QueueDistinct()
    ensures forall i, j :: 0 <= i < j < |QUEUE| ==> QUEUE[i] != QUEUE[j]
  {
  }

  /** The winner of a round of the standard queue: unit `w` wins if and
      only if its bid is the lowest of all and strictly lower than every
      bid ahead of it; there is no winner exactly when nobody bids. */
  lemma WinnerIsLowestBid(s: string, pos: nat)
    ensures Winner(s, pos).None? <==> NoBids(Bids(s, pos))
    ensures forall w :: 0 <= w < |QUEUE| ==> (Winner(s, pos) == Some(QUEUE[w]) <==> Best(Bids(s, pos), w))
  {
    var bids := Bids(s, pos);
    BidsAre(s, pos);
    assert Below(bids, |s|);
    SelectIsBest(bids, |s|, true);
    QueueDistinct();
  }
}

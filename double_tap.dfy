/**
  Double-tap zoom suppression.

  Every `touchend` on the document reads the clock in integer milliseconds. The
  event's default action (the browser's double-tap zoom) is prevented when at
  most 300 ms have passed since the previous `touchend`; either way the time of
  this `touchend` becomes the new reference. Before the first touch the
  reference is 0.
 */
module DoubleTap {

  /** Touches no more than this many milliseconds apart form a double tap. */
  const Window: int := 300

  /** Whether a `touchend` at `now` follows the previous one at `lastTouchEnd`
      closely enough to be prevented. */
  predicate IsDoubleTap(lastTouchEnd: int, now: int) {
    now - lastTouchEnd <= Window
  }

  /** For a stream of `touchend` times, oldest first, whether each event is
      prevented, starting from the reference time `last`. */
  function Prevented(last: int, times: seq<int>): (r: seq<bool>)
    ensures |r| == |times|
    decreases |times|
  {
    if times == [] then [] else [IsDoubleTap(last, times[0])] + Prevented(times[0], times[1..])
  }

  /** The reference time after a stream of `touchend` events. */
  function LastTouchEnd(last: int, times: seq<int>): int {
    if times == [] then last else times[|times| - 1]
  }

  /** The first event is judged against the initial reference; every later
      event only against the time of the event just before it, whether or not
      that one was itself prevented. */
  lemma {:induction false} PreventedByPreviousTouch(last: int, times: seq<int>, k: nat)
    requires k < |times|
    ensures Prevented(last, times)[k] == IsDoubleTap(if k == 0 then last else times[k - 1], times[k])
    decreases k
  {
    if k > 0 {
      PreventedByPreviousTouch(times[0], times[1..], k - 1);
    }
  }

  /** One more `touchend` appends exactly one verdict, judged against the last
      reference time. */
  lemma {:induction false} PreventedAppend(last: int, times: seq<int>, now: int)
    ensures Prevented(last, times + [now])
         == Prevented(last, times) + [IsDoubleTap(LastTouchEnd(last, times), now)]
    decreases |times|
  {
    if times == [] {
      assert Prevented(now, []) == [];
    } else {
      assert (times + [now])[1..] == times[1..] + [now];
      PreventedAppend(times[0], times[1..], now);
    }
  }

  /** With a real clock (epoch milliseconds far above 300) the first touch of a
      page is never prevented. */
  lemma FirstTouchNotPrevented(times: seq<int>)
    requires times != [] && times[0] > Window
    ensures !Prevented(0, times)[0]
  {
  }

  /** A clock that steps backwards makes the next touch count as a double tap. */
  lemma BackwardClockPrevents(last: int, now: int)
    requires now < last
    ensures IsDoubleTap(last, now)
  {
  }

  /** The document-level `touchend` listener and its reference time. */
  class Guard {
    var lastTouchEnd: int
    /** Every `touchend` time seen so far and the verdict given to each. */
    ghost var times: seq<int>
    ghost var verdicts: seq<bool>

    ghost predicate Valid()
      reads this
    {
      lastTouchEnd == LastTouchEnd(0, times) && verdicts == Prevented(0, times)
    }

    constructor ()
      ensures Valid() && lastTouchEnd == 0 && times == []
    {
      lastTouchEnd := 0;
      times := [];
      verdicts := [];
    }

    /** The `touchend` listener, given the clock reading `now`; the result says
        whether it prevented the event's default action. */
    method OnTouchEnd(now: int) returns (prevented: bool)
      requires Valid()
      modifies this
      ensures Valid()
      ensures prevented <==> now - old(lastTouchEnd) <= 300
      ensures lastTouchEnd == now
      ensures times == old(times) + [now] && verdicts == old(verdicts) + [prevented]
    {
      prevented := false;
      if IsDoubleTap(lastTouchEnd, now) {
        prevented := true;
      }
      PreventedAppend(0, times, now);
      lastTouchEnd := now;
      times := times + [now];
      verdicts := verdicts + [prevented];
    }
  }
}

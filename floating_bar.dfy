/**
  Floating call-to-action bar.

  Every scroll event reads the page's vertical offset, a possibly fractional
  number of pixels, gives the bar its `visible` flag when the offset is
  strictly greater than 300 and takes the flag away otherwise, and then
  records the offset in `lastScroll`. There
  is no delay, no frame coalescing and no use of the scroll direction: the
  decision is made afresh from each sample alone.
 */
module FloatingBar {

  /** Offsets strictly above this many pixels show the bar. */
  const Threshold: real := 300.0

  /** Whether a scroll offset shows the bar. */
  predicate Shows(offset: real) {
    offset > Threshold
  }

  /** The handler's state: the bar's `visible` flag and the last offset recorded. */
  datatype BarState = BarState(visible: bool, lastScroll: real)

  /** One scroll event on a page that has the bar. */
  function Step(st: BarState, offset: real): BarState {
    BarState(Shows(offset), offset)
  }

  /** A stream of scroll events, oldest first. */
  function Run(st: BarState, samples: seq<real>): BarState
    decreases |samples|
  {
    if samples == [] then st else Run(Step(st, samples[0]), samples[1..])
  }

  /** Running two streams one after the other is running their concatenation. */
  lemma {:induction false} RunAppend(st: BarState, a: seq<real>, b: seq<real>)
    ensures Run(st, a + b) == Run(Run(st, a), b)
    decreases |a|
  {
    if a == [] {
      assert a + b == b;
    } else {
      assert (a + b)[1..] == a[1..] + b;
      RunAppend(Step(st, a[0]), a[1..], b);
    }
  }

  /** After any non-empty stream the bar is shown iff the latest sample is
      above the threshold, and that sample is the one recorded; nothing
      earlier, and not the initial state, has any influence. */
  lemma {:induction false} LatestSampleDecides(st: BarState, samples: seq<real>)
    requires samples != []
    ensures Run(st, samples).visible <==> samples[|samples| - 1] > 300.0
    ensures Run(st, samples).lastScroll == samples[|samples| - 1]
    decreases |samples|
  {
    if |samples| > 1 {
      LatestSampleDecides(Step(st, samples[0]), samples[1..]);
    }
  }

  /** The threshold itself hides the bar; any offset beyond it, even by a
      fraction of a pixel, shows it. */
  lemma ThresholdBoundary(st: BarState, offset: real)
    ensures !Step(st, 300.0).visible
    ensures offset > 300.0 ==> Step(st, offset).visible
  {
  }

  /** Repeating the latest sample changes nothing. */
  lemma {:induction false} RepeatedSampleIsIdempotent(st: BarState, samples: seq<real>, offset: real)
    ensures Run(st, samples + [offset, offset]) == Run(st, samples + [offset])
  {
    RunAppend(st, samples, [offset, offset]);
    RunAppend(st, samples, [offset]);
    var mid := Run(st, samples);
    assert Run(mid, [offset, offset]) == Run(Step(mid, offset), [offset]);
    assert Run(mid, [offset]) == Run(Step(mid, offset), []);
  }

  /** The scroll handler and the bar element it looked up once at load time. */
  class Controller {
    /** Whether the page has an element with id `floatingBar`. */
    const barPresent: bool
    var visible: bool
    var lastScroll: real
    /** The initial state and every offset the handler has recorded. */
    ghost const initial: BarState
    ghost var samples: seq<real>

    function State(): BarState
      reads this
    {
      BarState(visible, lastScroll)
    }

    ghost predicate Valid()
      reads this
    {
      State() == Run(initial, samples)
    }

    constructor (barPresent: bool, initiallyVisible: bool)
      ensures Valid() && this.barPresent == barPresent
      ensures visible == initiallyVisible && lastScroll == 0.0 && samples == []
    {
      this.barPresent := barPresent;
      visible := initiallyVisible;
      lastScroll := 0.0;
      initial := BarState(initiallyVisible, 0.0);
      samples := [];
    }

    /** The scroll listener, given the offset it reads from the window. Without
        the bar element the listener throws on its first access to the bar,
        before `lastScroll` is written, so nothing changes. */
    method OnScroll(offset: real) returns (threw: bool)
      requires Valid()
      modifies this
      ensures Valid()
      ensures threw == !barPresent
      ensures threw ==> State() == old(State()) && samples == old(samples)
      ensures !threw ==> State() == Step(old(State()), offset) && samples == old(samples) + [offset]
      ensures !threw ==> (visible <==> offset > 300.0) && lastScroll == offset
    {
      if !barPresent {
        return true;
      }
      if offset > Threshold {
        visible := true;
      } else {
        visible := false;
      }
      lastScroll := offset;
      RunAppend(initial, samples, [offset]);
      samples := samples + [offset];
      threw := false;
    }
  }
}

# Landing-page interaction state, verified

This project models the stateful event handlers of the landing page's
`script.js`. Each handler is abstracted from the DOM to plain state and written
as a Dafny class with one method per event. `FloatingBar.Controller`,
`DoubleTap.Guard` and `Konami.Listener` keep a ghost history of the events they
have seen, and `Valid()` ties their fields to a fold over that history, so the
lemmas about the fold speak about the class. `ScrollReveal.Observer.OnIntersection`
and `Faq.Accordion.Click` work in place on an array of flags and state the new
array as a function of the old one.

- `ScrollReveal` (`scroll_reveal.dfy`): the intersection-observer callback. It
  gives each observed element the `visible` flag once an entry reports it
  intersecting, and never takes the flag away.
- `FloatingBar` (`floating_bar.dfy`): the scroll listener. It shows the
  floating call-to-action bar iff the page offset (a possibly fractional
  number of pixels) is strictly above 300,
  then records the offset in `lastScroll`.
- `Faq` (`faq_accordion.dfy`): the FAQ accordion. A click closes every other
  item and toggles the clicked one, based on the flag it read before closing
  the others.
- `DoubleTap` (`double_tap.dfy`): the `touchend` guard. It prevents the
  default action when at most 300 ms have passed since the previous
  `touchend`, and always records the new time.
- `Konami` (`konami_code.dfy`): the easter-egg key buffer. It keeps the last ten
  key names. It fires when the concatenation of the buffer equals the
  concatenation of the pattern.

DOM elements are positions in document order. The clock reading, the scroll
offset, the key name and the intersection entries are parameters of the
handler methods.

The scroll handler has no debounce, no frame coalescing and no scroll-direction
check: it applies the `> 300` rule on every scroll event (script.js:29-39).

When the page has no `floatingBar` element, `getElementById` returns `null` and
the listener throws on its first access to the bar, before it writes
`lastScroll` (script.js:27-38). `FloatingBar.Controller.OnScroll` reports
`threw` and leaves the state unchanged.

## Model

| member | source | states |
|---|---|---|
| `ScrollReveal.Revealed` | script.js:9-15 | After a batch of entries, an element carries `visible` iff it carried it before or some entry of the batch reported it intersecting |
| `ScrollReveal.RevealedIsMonotone` | script.js:10-14 | A batch never clears the `visible` flag |
| `ScrollReveal.BatchingIsIrrelevant` | script.js:9-15 | Two callbacks in a row have the same effect as one callback holding both batches |
| `ScrollReveal.Observer.constructor` | script.js:18-21 | One flag per observed element, as found on the page |
| `ScrollReveal.Observer.OnIntersection` | script.js:9-15 | The callback walks its entries and leaves exactly the flags `Revealed` gives; no flag goes from set to clear |
| `FloatingBar.RunAppend` | script.js:29-39 | Handling two streams of scroll events one after the other is handling their concatenation |
| `FloatingBar.LatestSampleDecides` | script.js:30-38 | After any non-empty stream of samples, the bar is shown iff the latest sample is above 300, and that sample is in `lastScroll`; earlier samples and the initial state have no influence |
| `FloatingBar.ThresholdBoundary` | script.js:32 | An offset of exactly 300 hides the bar; any offset above 300, fractional ones included, shows it |
| `FloatingBar.RepeatedSampleIsIdempotent` | script.js:29-39 | Repeating the latest sample changes neither the flag nor `lastScroll` |
| `FloatingBar.Controller.constructor` | script.js:26-27 | `lastScroll` starts at 0; whether the bar element exists is fixed at load |
| `FloatingBar.Controller.OnScroll` | script.js:29-39 | With the bar: `visible` iff offset > 300, then `lastScroll` is the offset. Without the bar: the listener throws and nothing changes |
| `Faq.OpenCountZero` | script.js:50-64 | The count of open items is zero iff no item is open |
| `Faq.AtMostOneOpenIff` | script.js:52-64 | "At most one item open" means the same as a count and as a pairwise statement, in both directions |
| `Faq.OpenCountOnlyAt` | script.js:53-64 | When every other item is closed, the count of open items is the clicked item's flag |
| `Faq.ClickLeavesAtMostOneOpen` | script.js:50-64 | After any click, whatever the prior state: clicking a closed item leaves exactly one item open, clicking the open item leaves none, and at most one item is open |
| `Faq.Accordion.constructor` | script.js:44 | One `active` flag per FAQ item, as found on the page |
| `Faq.Accordion.Click` | script.js:49-65 | Every other item ends closed; the clicked item ends with the negation of the flag read before the close-others loop; exactly zero or one item is open afterwards |
| `DoubleTap.Prevented` | script.js:185-191 | One verdict per `touchend` of a stream |
| `DoubleTap.PreventedByPreviousTouch` | script.js:186-190 | Each `touchend` is prevented iff it comes at most 300 ms after the one before it, or after the initial reference for the first; whether that earlier one was prevented does not matter |
| `DoubleTap.PreventedAppend` | script.js:185-191 | One more `touchend` appends exactly one verdict, judged against the last recorded time |
| `DoubleTap.FirstTouchNotPrevented` | script.js:184-187 | With an epoch clock above 300 ms, the page's first touch is never prevented |
| `DoubleTap.BackwardClockPrevents` | script.js:187 | A clock reading earlier than the recorded time counts as a double tap |
| `DoubleTap.Guard.constructor` | script.js:184 | The reference time starts at 0 |
| `DoubleTap.Guard.OnTouchEnd` | script.js:185-191 | Prevented iff `now - lastTouchEnd <= 300`; afterwards `lastTouchEnd == now` in every case |
| `Konami.LastKeys` | script.js:252 | `slice(-n)` keeps min(length, n) entries, and they are a suffix of the input |
| `Konami.SlidingWindow` | script.js:251-252 | Trimming the buffer before or after adding a key gives the same window, so the buffer is always the last keys pressed |
| `Konami.PatternKeysPrefixFree` | script.js:248 | No key name of the pattern is a prefix of another |
| `Konami.JoinInjectiveOnPatternKeys` | script.js:254 | For buffers made of the pattern's key names, equal joined strings mean equal buffers |
| `Konami.ActivatesIffPatternOnPatternKeys` | script.js:248-254 | A buffer of the pattern's key names fires iff it equals the pattern entry by entry |
| `Konami.PatternTriggers` | script.js:248-254 | Once the last ten keys pressed are the pattern, the easter egg fires |
| `Konami.JoinedComparisonAdmitsOtherBuffers` | script.js:254 | The joined comparison is weaker than entry-by-entry equality: a one-entry buffer that spells the whole pattern also fires |
| `Konami.Listener.constructor` | script.js:247 | The buffer starts empty |
| `Konami.Listener.OnKeyDown` | script.js:250-261 | The buffer becomes the last min(n, 10) keys pressed, in order, so it never holds more than 10. The result is true iff the joined buffer equals the joined pattern |

## Left out

- The DOM and browser APIs (`IntersectionObserver`, `querySelectorAll`, `classList`, `addEventListener`, style injection at script.js:264-271): they are abstract state and parameters here.
- Cosmetic `setTimeout` resets (button scale, card pulse, play button, rainbow animation): they are timing-only visual effects with no logical state.
- The easter egg's effect (the rainbow animation and its 5-second reset): `OnKeyDown` only reports that it fired.
- Smooth scrolling of the call-to-action buttons: it is a single browser call.
- Mouse parallax (script.js:124-129): floating-point division and CSS string building.
- Lazy-image loading and image preload handling: they depend on browser image-loading behaviour.
- Carousel pause, the touch-device flag, and ARIA/tabindex attributes: one-shot attribute writes.
- Analytics `console.log`, the global error logger, the console banner and the service-worker stub: I/O with no behaviour to verify.
- FloatingBar.Controller.OnScroll: offsets are exact reals rather than IEEE doubles; every double is a real, and the comparison with 300 gives the same answer for it.
- FloatingBar.Controller.OnScroll: `lastScroll` is written but never read by the code. It is kept in the state.
- Faq.Accordion.Click: a missing `.faq-question` inside an item makes setup throw at load. This is not modelled. Every item is assumed to have its question.
- ScrollReveal.Observer.OnIntersection: entries are assumed to refer to observed elements, as the observer guarantees.

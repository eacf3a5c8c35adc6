# Résumé site carousel — verified model

The site's script (`js/scripts.js`) drives a small image carousel. A global
1-based counter `slideIndex` starts at 1 and is rendered once when the
script loads. The previous/next arrows call `plusSlide(n)`, which adds a
delta to the counter. The thumbnails call `currentSlide(n)`, which stores an
absolute index. Both then call `showSlide`, the render step. It wraps the
counter: past the last slide resets to 1, and before the first resets to the
slide count. It then sets `display: none` on the slides at positions below
the dot count and removes `slide-active` from every dot. Finally it sets
`display: block` on the current slide and adds `slide-active` to that slide.

The project has three modules:

- `SlideModel` (`slide_model.dfy`) holds the state as values. A slide is
  `Slide(shown, active)`. `shown` is the display (block or none) and
  `active` says whether the slide carries `slide-active`. A dot is its
  `slide-active` flag. `Render` is the render step. `AfterPlus`,
  `AfterCurrent` and `AtLoad` are the two handlers and the initial render.
  `Run` handles a sequence of clicks.
- `SlideProperties` (`slide_properties.dfy`) proves what the script
  guarantees, and what it does not, as lemmas about that model.
- `Slideshow` (`slideshow.dfy`) is the script as it runs. Class `Page` holds the counter as a mutable
  field and the two element collections as arrays that the render step
  writes in place. Each method is proved to leave exactly the state, and
  return exactly the outcome, that `SlideModel` gives.

The model follows the code as written, in several places where the intended
design of a carousel says otherwise:

- The wrap rule resets to the ends; it is not a modulus. Three steps forward
  from slide 4 of 5 give slide 1.
- The hide loop is bounded by the number of dots but writes slides
  (`js/scripts.js:64-67`). Slides at or past the dot count keep their display.
- Line 75 adds `slide-active` to the current slide, not to its dot. So no dot
  is ever marked active, and a slide never loses the class once it has it.
  "Exactly one indicator active" therefore does not hold. "Exactly one slide
  shown" holds when there are as many dots as slides
  (`AlignedShowsExactlyOne`). With fewer dots, a slide past the dot count
  that was already shown stays shown (`FewerDotsCanShowTwo`).
- The script does not guard an empty slide collection. When there are no
  slides, or more dots than slides, a write to `slides[i]` reaches
  `undefined` and the browser throws a TypeError (`js/scripts.js:66`,
  `js/scripts.js:74`). This is modelled as the outcome `Threw`. The state
  the step leaves behind is kept: the counter is already wrapped, and with
  more dots than slides every slide is already hidden. An uncaught exception
  in a click handler does not undo these writes, and the next click starts
  from them.

## Model

| member | source | states |
|---|---|---|
| SlideModel.WrapIndex | js/scripts.js:56-63 | An index in range is kept. One above the slide count becomes 1 and one below 1 becomes the count, whatever the overshoot. With at least one slide the result lies between 1 and the count |
| SlideModel.HideFirst | js/scripts.js:64-67 | The hide pass keeps the number of slides and never touches a slide's `slide-active` flag |
| SlideModel.Cleared | js/scripts.js:68-72 | After the clear pass no dot carries `slide-active` |
| SlideModel.Throws | js/scripts.js:64-74 | The step completes exactly when every position the hide pass writes (one per dot) is a slide and every stored index wraps onto a slide; otherwise a write reaches `undefined` at line 66 or 74 (see `SlideProperties.ThrowsExactly`) |
| SlideModel.Render | js/scripts.js:51-76 | The step throws exactly when there is no slide or there are more dots than slides. The collections keep their lengths and the index is the wrapped one. On completion the index is in range and the current slide is shown with `slide-active` |
| SlideModel.AfterPlus | js/scripts.js:40-43 | `plusSlide(d)` leaves the wrapped sum of the old index and d, throws exactly when `Throws` holds, and keeps both collections' lengths (exact values in `ClickInRangeLands`, `OvershootResets`, `ResetIsNotModular`) |
| SlideModel.AfterCurrent | js/scripts.js:46-49 | `currentSlide(k)` leaves the wrapped k, throws exactly when `Throws` holds, and keeps both collections' lengths (idempotence in `CurrentSlideIdempotent`) |
| SlideModel.AtLoad | js/scripts.js:36-37 | The load-time render lands on slide 1 when there is a slide, throws exactly when `Throws` holds, and keeps both collections' lengths (the lasting invariant in `IndexAlwaysInRange`) |
| SlideModel.Apply | js/scripts.js:40-49 | One handler, run to its end whether or not it throws, leaves the wrapped new index (old + delta for an arrow, the target for a thumbnail) and keeps both collections' lengths |
| SlideModel.Run | js/scripts.js:40-49 | Handlers run one after another, each from the state the previous one left, keep both collections' lengths (the index invariant in `RunKeepsIndexInRange`) |
| SlideProperties.ClickInRangeLands | js/scripts.js:40-49 | `currentSlide(k)` with 1 ≤ k ≤ count lands on k; `plusSlide(d)` whose sum is in range lands on old + d |
| SlideProperties.OvershootResets | js/scripts.js:56-63 | A new index above the count becomes 1, and one below 1 becomes the count, whatever the overshoot, for both handlers |
| SlideProperties.ResetIsNotModular | js/scripts.js:42 | With 5 slides: +3 from 4 gives 1 (a modulus would give 2), +1 from 5 gives 1, −1 from 1 gives 5, and `currentSlide(-3)` gives 5 |
| SlideProperties.ThrowsExactly | js/scripts.js:66 | The render step throws if and only if there are no slides or more dots than slides; with as many dots as slides (at least one) it completes |
| SlideProperties.RenderedSlides | js/scripts.js:64-67 | After a completed step the current slide is shown and active. Other slides below the dot count are hidden with their class kept. Slides at or past the dot count, other than the current one, are unchanged |
| SlideProperties.RenderedFlags | js/scripts.js:68-75 | After a completed step no dot is active. No slide loses `slide-active`, and only the current slide can gain it |
| SlideProperties.AlignedShowsExactlyOne | js/scripts.js:64-74 | With as many dots as slides, the current slide is the only one shown after a render step |
| SlideProperties.FewerDotsCanShowTwo | js/scripts.js:64-74 | With two slides and one dot, where slide 2 is already shown, rendering slide 1 completes with both slides shown |
| SlideProperties.ThrownState | js/scripts.js:64-67 | When the step throws, the dots are as before and every slide is hidden with its `slide-active` flag kept |
| SlideProperties.HideFirstTwice | js/scripts.js:64-67 | Running the hide pass twice equals running it once |
| SlideProperties.RenderIdempotent | js/scripts.js:51-76 | Rendering the state a render step left gives the same outcome and state again |
| SlideProperties.CurrentSlideIdempotent | js/scripts.js:46-49 | Calling `currentSlide(k)` twice in a row leaves the same index, displays, flags and outcome as calling it once |
| SlideProperties.RunKeepsIndexInRange | js/scripts.js:40-63 | On a page with at least one slide, any non-empty sequence of handler calls leaves the index in range, whether or not a handler threw |
| SlideProperties.IndexAlwaysInRange | js/scripts.js:36-37 | The initial render lands on slide 1, and from there every sequence of clicks keeps 1 ≤ index ≤ count |
| Slideshow.Page.constructor | js/scripts.js:36 | The counter starts at 1 and the page holds the injected collections |
| Slideshow.Page.Load | js/scripts.js:36-37 | Loading the script leaves the state and outcome of rendering index 1 over the given collections |
| Slideshow.Page.PlusSlide | js/scripts.js:40-43 | The arrow handler leaves exactly the state and outcome of `AfterPlus` on the old state |
| Slideshow.Page.CurrentSlide | js/scripts.js:46-49 | The thumbnail handler leaves exactly the state and outcome of `AfterCurrent` on the old state |
| Slideshow.Page.ShowSlide | js/scripts.js:51-76 | The in-place render step leaves exactly `Render` of the old state. It throws if and only if there are no slides or more dots than slides. On completion the current slide is shown and active |

## Left out

- The DOMContentLoaded handler (`js/scripts.js:10-34`) is not modelled. It constructs Bootstrap's ScrollSpy and collapses the navbar through `getComputedStyle`. It is wiring over an external UI library with no logic of its own.
- The DOM lookups by class name (`js/scripts.js:54-55`) are not modelled. The slide and dot collections are arrays injected into `Page`, and their lengths are fixed. A live collection that changes length between calls is not modelled.
- CSS values are booleans. The display is block or none, and class membership is a flag per element. A slide's display before the first render ("unset") is modelled as one of the two.
- When the initial `showSlide(1)` runs relative to document parsing is a browser load-order matter and is not modelled.
- `Slideshow.Page.ShowSlide` requires `n == slideIndex`. Both callers pass the value they just stored, so calls with a different `n` are not modelled.
- JavaScript numbers are modelled as unbounded integers. Fractional, NaN or very large indices passed from markup are not modelled.

/** Value-level model of the résumé page's image carousel (js/scripts.js).

    The page keeps one global counter, `slideIndex` (1-based), and two
    element collections looked up by class name: the slides and the dot
    indicators. A slide has an inline display (block or none) and may carry
    the `slide-active` class; a dot may carry `slide-active`. This module
    describes, as functions on values, what one render step and the two
    click handlers do to that state, including the partial state the script
    leaves behind when it throws. */
module SlideModel {

  /** One slide element: `shown` is `style.display == "block"` (false for
      "none"), `active` is membership of `slide-active` in its class list. */
  datatype Slide = Slide(shown: bool, active: bool)

  /** How a render step ends: normally, or with the TypeError the browser
      raises when the script writes a property of `slides[i]` that is
      undefined (an index at or past the end of the slide collection). */
  datatype Outcome = Completed | Threw

  /** The carousel's observable state: the global index, the slides, and
      the `slide-active` flag of each dot. */
  datatype State = State(index: int, slides: seq<Slide>, dots: seq<bool>)

  /** A render step's outcome together with the state it leaves. */
  datatype Step = Step(outcome: Outcome, after: State)

  /** The user's two ways of changing the slide: the previous/next arrows
      pass a delta, a thumbnail passes an absolute 1-based index. */
  datatype Click = Plus(delta: int) | Jump(target: int)

  /** The wrap rule of the render step, applied to the index just stored:
      past the end resets to the first slide, before the start resets to
      the last one; this is a reset, not a modulus. */
  function WrapIndex(n: int, count: nat): (r: int)
    ensures count >= 1 ==> 1 <= r <= count
    ensures 1 <= n <= count ==> r == n
    ensures n > count ==> r == 1
    ensures n < 1 ==> r == count
  {
    if n > count then 1
    else if n < 1 then count
    else n
  }

  /** The first `k` slides with their display set to none; the others as
      they were. */
  function HideFirst(slides: seq<Slide>, k: nat): (r: seq<Slide>)
    ensures |r| == |slides|
    ensures forall j :: 0 <= j < |slides| ==> r[j].active == slides[j].active
  {
    seq(|slides|, j requires 0 <= j < |slides| =>
      if j < k then slides[j].(shown := false) else slides[j])
  }

  /** `n` dots, none of them carrying `slide-active`. */
  function Cleared(n: nat): (r: seq<bool>)
    ensures |r| == n
    ensures forall j :: 0 <= j < n ==> !r[j]
  {
    seq(n, _ => false)
  }

  /** The render step fails exactly when some write reaches an undefined
      slide. The hide pass writes as many positions as there are dots, and
      the final writes go to the wrapped index: the step completes exactly
      when every hide position is a slide and every stored index wraps
      onto a slide. */
  function Throws(slideCount: nat, dotCount: nat): (b: bool)
    ensures !b <==> dotCount <= slideCount &&
                    forall n :: 1 <= WrapIndex(n, slideCount) <= slideCount
  {
    assert slideCount == 0 ==> WrapIndex(0, slideCount) == 0;
    slideCount == 0 || dotCount > slideCount
  }

  /** The smaller of two counts. */
  function Min(a: nat, b: nat): (m: nat)
    ensures m <= a && m <= b && (m == a || m == b)
  {
    if a <= b then a else b
  }

  /** One render step on the state whose index was just stored: wrap the
      index, hide the slides at positions below the dot count, clear every
      dot, then show the current slide and add `slide-active` to it. When
      the hide pass runs past the last slide, or there is no slide to
      show, the step throws and leaves the writes it already made. */
  function Render(s: State): (r: Step)
    ensures r.outcome == Threw <==> Throws(|s.slides|, |s.dots|)
    ensures |r.after.slides| == |s.slides| && |r.after.dots| == |s.dots|
    ensures r.after.index == WrapIndex(s.index, |s.slides|)
    ensures r.outcome == Completed ==>
              1 <= r.after.index <= |s.slides| &&
              r.after.slides[r.after.index - 1] == Slide(true, true)
  {
    var index := WrapIndex(s.index, |s.slides|);
    var hidden := HideFirst(s.slides, Min(|s.dots|, |s.slides|));
    if Throws(|s.slides|, |s.dots|) then
      Step(Threw, State(index, hidden, s.dots))
    else
      Step(Completed, State(index, hidden[index - 1 := Slide(true, true)], Cleared(|s.dots|)))
  }

  /** `plusSlide(n)`: add the delta to the index, then render. */
  function AfterPlus(s: State, delta: int): (r: Step)
    ensures r.after.index == WrapIndex(s.index + delta, |s.slides|)
    ensures r.outcome == Threw <==> Throws(|s.slides|, |s.dots|)
    ensures |r.after.slides| == |s.slides| && |r.after.dots| == |s.dots|
  {
    Render(s.(index := s.index + delta))
  }

  /** `currentSlide(n)`: store the absolute index, then render. */
  function AfterCurrent(s: State, target: int): (r: Step)
    ensures r.after.index == WrapIndex(target, |s.slides|)
    ensures r.outcome == Threw <==> Throws(|s.slides|, |s.dots|)
    ensures |r.after.slides| == |s.slides| && |r.after.dots| == |s.dots|
  {
    Render(s.(index := target))
  }

  /** Script load: the index starts at 1 and is rendered once. */
  function AtLoad(slides: seq<Slide>, dots: seq<bool>): (r: Step)
    ensures 1 <= |slides| ==> r.after.index == 1
    ensures r.outcome == Threw <==> Throws(|slides|, |dots|)
    ensures |r.after.slides| == |slides| && |r.after.dots| == |dots|
  {
    Render(State(1, slides, dots))
  }

  /** One click handler run to its end (normally or by throwing: the
      global index and the element writes survive an uncaught exception). */
  function Apply(s: State, c: Click): (r: State)
    ensures |r.slides| == |s.slides| && |r.dots| == |s.dots|
    ensures r.index == WrapIndex(if c.Plus? then s.index + c.delta else c.target, |s.slides|)
  {
    match c
    case Plus(d) => AfterPlus(s, d).after
    case Jump(k) => AfterCurrent(s, k).after
  }

  /** A sequence of clicks, handled one after another. */
  function Run(s: State, clicks: seq<Click>): (r: State)
    ensures |r.slides| == |s.slides| && |r.dots| == |s.dots|
    decreases |clicks|
  {
    if clicks == [] then s else Run(Apply(s, clicks[0]), clicks[1..])
  }
}

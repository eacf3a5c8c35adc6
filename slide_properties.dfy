/** What the carousel script guarantees, and what it does not, stated as
    lemmas about the value-level model in SlideModel. */
module SlideProperties {
  import opened SlideModel

  /** `currentSlide(k)` with k in range lands on k; `plusSlide(d)` whose sum
      stays in range lands on the sum. */
  lemma ClickInRangeLands(s: State, delta: int, target: int)
    ensures 1 <= target <= |s.slides| ==> AfterCurrent(s, target).after.index == target
    ensures 1 <= s.index + delta <= |s.slides| ==> AfterPlus(s, delta).after.index == s.index + delta
  {
  }

  /** Going past the last slide resets to the first, whatever the overshoot;
      going before the first resets to the last, whatever the undershoot. */
  lemma OvershootResets(s: State, delta: int, target: int)
    ensures s.index + delta > |s.slides| ==> AfterPlus(s, delta).after.index == 1
    ensures s.index + delta < 1 ==> AfterPlus(s, delta).after.index == |s.slides|
    ensures target > |s.slides| ==> AfterCurrent(s, target).after.index == 1
    ensures target < 1 ==> AfterCurrent(s, target).after.index == |s.slides|
  {
  }

  /** The reset is not a modulus: three steps forward from slide 4 of 5
      give slide 1, not slide 2; one step back from slide 1 gives slide 5;
      `currentSlide(-3)` gives the last slide. */
  lemma ResetIsNotModular(slides: seq<Slide>, dots: seq<bool>)
    requires |slides| == 5
    ensures AfterPlus(State(4, slides, dots), 3).after.index == 1
    ensures AfterPlus(State(5, slides, dots), 1).after.index == 1
    ensures AfterPlus(State(1, slides, dots), -1).after.index == 5
    ensures AfterCurrent(State(2, slides, dots), -3).after.index == 5
  {
  }

  /** The render step throws exactly when there is no slide or there are
      more dots than slides; in particular it completes on a page with as
      many dots as slides. */
  lemma ThrowsExactly(s: State)
    ensures Render(s).outcome == Threw <==> |s.slides| == 0 || |s.dots| > |s.slides|
    ensures 1 <= |s.slides| && |s.dots| == |s.slides| ==> Render(s).outcome == Completed
  {
  }

  /** After a completed render step: the current slide is shown and carries
      `slide-active`; every other slide below the dot count is hidden with
      its class untouched; every slide at or past the dot count, other than
      the current one, is exactly as before. */
  lemma RenderedSlides(s: State, j: int)
    requires Render(s).outcome == Completed
    requires 0 <= j < |s.slides|
    ensures var r := Render(s).after;
      (j == r.index - 1 ==> r.slides[j] == Slide(true, true)) &&
      (j != r.index - 1 && j < |s.dots| ==> r.slides[j] == Slide(false, s.slides[j].active)) &&
      (j != r.index - 1 && j >= |s.dots| ==> r.slides[j] == s.slides[j])
  {
  }

  /** After a completed render step no dot carries `slide-active`, and a
      slide's `slide-active` flag is only ever added, never removed. */
  lemma RenderedFlags(s: State)
    requires Render(s).outcome == Completed
    ensures forall j :: 0 <= j < |s.dots| ==> !Render(s).after.dots[j]
    ensures forall j :: 0 <= j < |s.slides| && s.slides[j].active ==> Render(s).after.slides[j].active
    ensures forall j :: 0 <= j < |s.slides| && j != Render(s).after.index - 1 ==>
              Render(s).after.slides[j].active == s.slides[j].active
  {
  }

  /** With as many dots as slides, exactly one slide is shown after a
      render step: the current one. */
  lemma AlignedShowsExactlyOne(s: State)
    requires 1 <= |s.slides| && |s.dots| == |s.slides|
    ensures forall j :: 0 <= j < |s.slides| ==>
              (Render(s).after.slides[j].shown <==> j == Render(s).after.index - 1)
  {
  }

  /** With fewer dots than slides more than one slide can be shown: a
      slide past the dot count that was already shown stays shown. */
  lemma FewerDotsCanShowTwo()
    ensures var r := Render(State(1, [Slide(false, false), Slide(true, false)], [false]));
      r.outcome == Completed && r.after.slides[0].shown && r.after.slides[1].shown
  {
  }

  /** When the step throws, the index is still wrapped, the slides below
      the dot count are hidden (which is all of them), and the dots and
      every `slide-active` flag are as before. */
  lemma ThrownState(s: State)
    requires Render(s).outcome == Threw
    ensures Render(s).after.dots == s.dots
    ensures forall j :: 0 <= j < |s.slides| ==>
              Render(s).after.slides[j] == Slide(false, s.slides[j].active)
  {
  }

  /** Hiding a prefix twice is hiding it once. */
  lemma HideFirstTwice(slides: seq<Slide>, k: nat)
    ensures HideFirst(HideFirst(slides, k), k) == HideFirst(slides, k)
  {
  }

  /** A render step leaves a state that renders to itself. */
  lemma RenderIdempotent(s: State)
    ensures Render(Render(s).after) == Render(s)
  {
  }

  /** Clicking the same thumbnail twice in a row leaves the same index,
      displays and class flags as clicking it once. */
  lemma CurrentSlideIdempotent(s: State, target: int)
    ensures AfterCurrent(AfterCurrent(s, target).after, target) == AfterCurrent(s, target)
  {
  }

  /** On a page with at least one slide the index is in range after the
      initial render and after any sequence of clicks, whether or not a
      handler threw. */
  lemma {:induction false} RunKeepsIndexInRange(s: State, clicks: seq<Click>)
    requires 1 <= |s.slides|
    ensures clicks != [] ==> 1 <= Run(s, clicks).index <= |s.slides|
    decreases |clicks|
  {
    if clicks != [] {
      var next := Apply(s, clicks[0]);
      assert 1 <= next.index <= |s.slides|;
      RunKeepsIndexInRange(next, clicks[1..]);
    }
  }

  /** The initial render lands on slide 1 when there is one, and every
      later sequence of clicks keeps the index between 1 and the slide
      count. */
  lemma {:induction false} IndexAlwaysInRange(slides: seq<Slide>, dots: seq<bool>, clicks: seq<Click>)
    requires 1 <= |slides|
    ensures AtLoad(slides, dots).after.index == 1
    ensures 1 <= Run(AtLoad(slides, dots).after, clicks).index <= |slides|
  {
    RunKeepsIndexInRange(AtLoad(slides, dots).after, clicks);
  }
}

/** The carousel as the script runs it: a global index overwritten by the
    click handlers, and a render step that writes the slide and dot
    elements in place. The element collections are injected as arrays of
    fixed length; each method is proved to leave exactly the state the
    value-level model in SlideModel describes. */
module Slideshow {
  import opened SlideModel

  class Page {
    /** The elements of class "slides", in document order. */
    const slides: array<Slide>
    /** The `slide-active` flag of each element of class "slides-dot". */
    const dots: array<bool>
    /** The global 1-based slide counter. */
    var slideIndex: int

    /** The page's state as a value. */
    function View(): (v: State)
      reads this, slides, dots
      ensures v.index == slideIndex && |v.slides| == slides.Length && |v.dots| == dots.Length
    {
      State(slideIndex, slides[..], dots[..])
    }

    /** The declaration of the counter: it starts at 1, nothing is rendered. */
    constructor (slides: array<Slide>, dots: array<bool>)
      ensures this.slides == slides && this.dots == dots
      ensures slideIndex == 1
    {
      this.slides := slides;
      this.dots := dots;
      slideIndex := 1;
    }

    /** Script load: declare the counter and render slide 1 once. */
    static method Load(slides: array<Slide>, dots: array<bool>) returns (page: Page, outcome: Outcome)
      modifies slides, dots
      ensures fresh(page) && page.slides == slides && page.dots == dots
      ensures Step(outcome, page.View()) == AtLoad(old(slides[..]), old(dots[..]))
    {
      page := new Page(slides, dots);
      outcome := page.ShowSlide(page.slideIndex);
    }

    /** Next/previous arrows: add the delta to the counter, then render. */
    method PlusSlide(delta: int) returns (outcome: Outcome)
      modifies this, slides, dots
      ensures Step(outcome, View()) == AfterPlus(old(View()), delta)
    {
      slideIndex := slideIndex + delta;
      outcome := ShowSlide(slideIndex);
    }

    /** Thumbnail click: store the absolute index, then render. */
    method CurrentSlide(target: int) returns (outcome: Outcome)
      modifies this, slides, dots
      ensures Step(outcome, View()) == AfterCurrent(old(View()), target)
    {
      slideIndex := target;
      outcome := ShowSlide(slideIndex);
    }

    /** The render step. Both callers pass the value they just stored, so
        the wrap checks on `n` are checks on the counter. A write to a
        slide position past the end of the collection is the TypeError the
        browser raises; the method then stops with the writes made so far. */
    method ShowSlide(n: int) returns (outcome: Outcome)
      requires n == slideIndex
      modifies this, slides, dots
      ensures Step(outcome, View()) == Render(old(View()))
      ensures outcome == Threw <==> slides.Length == 0 || dots.Length > slides.Length
      ensures outcome == Completed ==>
                1 <= slideIndex <= slides.Length && slides[slideIndex - 1] == Slide(true, true)
    {
      ghost var before := View();
      var count := slides.Length;
      if n > count {
        slideIndex := 1;
      }
      if n < 1 {
        slideIndex := count;
      }
      assert slideIndex == WrapIndex(before.index, count);

      var i := 0;
      while i < dots.Length
        invariant 0 <= i <= dots.Length && i <= count
        invariant forall j :: 0 <= j < count ==>
                    slides[j] == if j < i then before.slides[j].(shown := false) else before.slides[j]
        invariant dots[..] == before.dots
        invariant slideIndex == WrapIndex(before.index, count)
      {
        if i >= count {
          // slides[i] is undefined: setting its style throws
          assert slides[..] == HideFirst(before.slides, Min(dots.Length, count));
          assert Render(before) == Step(Threw, View());
          return Threw;
        }
        slides[i] := slides[i].(shown := false);
        i := i + 1;
      }
      ghost var hidden := HideFirst(before.slides, Min(dots.Length, count));
      assert slides[..] == hidden;

      i := 0;
      while i < dots.Length
        invariant 0 <= i <= dots.Length
        invariant forall j :: 0 <= j < i ==> !dots[j]
        invariant slides[..] == hidden
        invariant slideIndex == WrapIndex(before.index, count)
      {
        dots[i] := false;
        i := i + 1;
      }
      assert dots[..] == Cleared(dots.Length);

      if slideIndex < 1 || slideIndex > count {
        // slides[slideIndex - 1] is undefined: setting its style throws
        assert Render(before) == Step(Threw, View());
        return Threw;
      }
      slides[slideIndex - 1] := slides[slideIndex - 1].(shown := true);
      slides[slideIndex - 1] := slides[slideIndex - 1].(active := true);
      assert slides[..] == hidden[slideIndex - 1 := Slide(true, true)];
      assert Render(before) == Step(Completed, View());
      outcome := Completed;
    }
  }
}

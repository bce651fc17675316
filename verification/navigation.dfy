/**
 Slide navigation of the presentation controller.

 The page elements the controller writes to are held as plain values:
 - `slides[j]` is the `active`/`prev` class pair of the slide element whose
   `data-slide` is `j + 1`;
 - `indicators[j]` is the `active` class of the `(j + 1)`-th indicator dot;
 - `progress` is the numerator of the progress bar, whose width is
   `progress / TotalSlides` of the full bar;
 - `prevDisabled` and `nextDisabled` are the `disabled` attributes of the
   two navigation buttons.
 */
module Navigation {

  /** Number of slides in the deck; slides are numbered 1 to TotalSlides. */
  const TotalSlides: int := 8

  /** The two classes the controller toggles on a slide element. */
  datatype SlideFlags = SlideFlags(active: bool, prev: bool)

  datatype Deck = Deck(
    current: int,
    slides: seq<SlideFlags>,
    indicators: seq<bool>,
    progress: int,
    prevDisabled: bool,
    nextDisabled: bool)

  /** The bounds guard of slide navigation: a slide number that exists. */
  predicate InRange(n: int) {
    1 <= n <= TotalSlides
  }

  /** What the controller relies on: one slide element and one indicator per
      slide number, and a current slide among them. */
  predicate WellFormed(d: Deck) {
    && |d.slides| == TotalSlides
    && |d.indicators| == TotalSlides
    && InRange(d.current)
  }

  /** Exactly the current slide carries `active`. */
  predicate OnlyCurrentActive(d: Deck) {
    forall j :: 0 <= j < |d.slides| ==> (d.slides[j].active <==> j + 1 == d.current)
  }

  /** Indicators, progress bar and buttons all show the current slide. */
  predicate Synced(d: Deck) {
    && (forall j :: 0 <= j < |d.indicators| ==> (d.indicators[j] <==> j + 1 == d.current))
    && d.progress == d.current
    && (d.prevDisabled <==> d.current == 1)
    && (d.nextDisabled <==> d.current == TotalSlides)
  }

  /** The state invariant of the deck between two events. */
  predicate Valid(d: Deck) {
    WellFormed(d) && OnlyCurrentActive(d) && Synced(d)
  }

  /** Slide numbers whose element carries `active`. */
  function ActiveSlides(d: Deck): set<int> {
    set j | 0 <= j < |d.slides| && d.slides[j].active :: j + 1
  }

  /** Slide numbers whose element carries `prev`. */
  function PrevSlides(d: Deck): set<int> {
    set j | 0 <= j < |d.slides| && d.slides[j].prev :: j + 1
  }

  // ----- Initial state -----

  /** Page start-up for the slides: the first element gets `active`, every
      other loses it; `prev` is left as the markup had it. */
  function InitSlides(markup: seq<SlideFlags>): (r: seq<SlideFlags>)
    ensures |r| == |markup|
    ensures forall j :: 0 <= j < |r| ==> (r[j].active <==> j == 0) && r[j].prev == markup[j].prev
  {
    if |markup| == 0 then []
    else InitSlides(markup[..|markup| - 1]) + [SlideFlags(|markup| == 1, markup[|markup| - 1].prev)]
  }

  /** Page start-up for the indicators: the container is emptied and one dot
      per slide is created, only the first one active. */
  function InitIndicators(): seq<bool> {
    seq(TotalSlides, j => j == 0)
  }

  /** The deck once the page has loaded: slides and indicators initialised,
      then progress bar and buttons rendered for slide 1. */
  function Initial(markup: seq<SlideFlags>): (r: Deck)
    ensures r.current == 1 && |r.slides| == |markup|
    ensures forall j :: 0 <= j < |r.slides| ==> r.slides[j].prev == markup[j].prev
    ensures |markup| == TotalSlides ==> Valid(r) && ActiveSlides(r) == {1}
  {
    var loaded := Deck(1, InitSlides(markup), InitIndicators(), 0, false, false);
    var r := UpdateNavigation(UpdateProgress(loaded));
    if |markup| == TotalSlides then ExactlyOneActive(r); r else r
  }

  // ----- Rendering of the current slide -----

  /** The progress bar shows `current` out of TotalSlides. */
  function UpdateProgress(d: Deck): Deck {
    d.(progress := d.current)
  }

  /** Every indicator dot is re-rendered from its position: the dot at
      position `j + 1` is active exactly when `j + 1` is the current slide. */
  function SyncIndicators(indicators: seq<bool>, current: int): (r: seq<bool>)
    ensures |r| == |indicators|
    ensures forall j :: 0 <= j < |r| ==> (r[j] <==> j + 1 == current)
  {
    if |indicators| == 0 then []
    else SyncIndicators(indicators[..|indicators| - 1], current) + [|indicators| == current]
  }

  function UpdateIndicators(d: Deck): Deck {
    d.(indicators := SyncIndicators(d.indicators, d.current))
  }

  /** "previous" is disabled on the first slide and "next" on the last. */
  function UpdateNavigation(d: Deck): Deck {
    d.(prevDisabled := d.current == 1, nextDisabled := d.current == TotalSlides)
  }

  // ----- Navigation -----

  /** Both classes are removed from every slide element. */
  function ClearFlags(slides: seq<SlideFlags>): (r: seq<SlideFlags>)
    ensures |r| == |slides|
    ensures forall j :: 0 <= j < |r| ==> !r[j].active && !r[j].prev
  {
    if |slides| == 0 then []
    else [SlideFlags(false, false)] + ClearFlags(slides[1..])
  }

  /** Adds `active` to the element of slide `n`. */
  function MarkActive(slides: seq<SlideFlags>, n: int): seq<SlideFlags>
    requires 1 <= n <= |slides|
  {
    slides[n - 1 := slides[n - 1].(active := true)]
  }

  /** Adds `prev` to the element of slide `n`. */
  function MarkPrev(slides: seq<SlideFlags>, n: int): seq<SlideFlags>
    requires 1 <= n <= |slides|
  {
    slides[n - 1 := slides[n - 1].(prev := true)]
  }

  /** Jump to slide `n`. A target outside 1..TotalSlides is ignored. Otherwise
      only slide `n` is active afterwards, and the slide left behind is marked
      `prev` when, and only when, the move goes backward; the progress bar,
      indicators and buttons are re-rendered for `n`. */
  function GoToSlide(d: Deck, n: int): (r: Deck)
    requires WellFormed(d)
    ensures WellFormed(r)
    ensures !InRange(n) ==> r == d
    ensures InRange(n) ==> r.current == n && OnlyCurrentActive(r) && Synced(r)
    ensures InRange(n) ==>
      forall j :: 0 <= j < |r.slides| ==> (r.slides[j].prev <==> j + 1 == d.current && n < d.current)
    ensures Valid(d) ==> Valid(r)
  {
    if !InRange(n) then d
    else
      var cleared := ClearFlags(d.slides);
      var slides :=
        if n > d.current then MarkActive(cleared, n)
        else if n < d.current then MarkPrev(MarkActive(cleared, n), d.current)
        else MarkActive(cleared, n);
      UpdateNavigation(UpdateIndicators(UpdateProgress(d.(current := n, slides := slides))))
  }

  /** Move by `direction` slides; a move that would leave the deck is
      ignored, so there is no wrap-around at either end. A legal move is a
      jump, so a backward one marks the slide left behind `prev`. */
  function ChangeSlide(d: Deck, direction: int): (r: Deck)
    requires WellFormed(d)
    ensures WellFormed(r)
    ensures InRange(d.current + direction) ==>
      r.current == d.current + direction && OnlyCurrentActive(r) && Synced(r)
    ensures InRange(d.current + direction) ==>
      forall j :: 0 <= j < |r.slides| ==> (r.slides[j].prev <==> j + 1 == d.current && direction < 0)
    ensures !InRange(d.current + direction) ==> r == d
    ensures Valid(d) ==> Valid(r)
  {
    var target := d.current + direction;
    if InRange(target) then GoToSlide(d, target) else d
  }

  // ----- Properties -----

  /** The invariant means exactly one slide is active, the current one. */
  lemma ExactlyOneActive(d: Deck)
    requires WellFormed(d) && OnlyCurrentActive(d)
    ensures ActiveSlides(d) == {d.current}
    ensures |ActiveSlides(d)| == 1
  {
    assert d.slides[d.current - 1].active;
    assert d.current in ActiveSlides(d);
    assert forall k :: k in ActiveSlides(d) ==> k == d.current;
  }

  /** After a legal jump from slide `c` to slide `n` at most one slide is
      `prev`: slide `c` when `n < c`, and none otherwise. */
  lemma GoToSlidePrev(d: Deck, n: int)
    requires WellFormed(d) && InRange(n)
    ensures PrevSlides(GoToSlide(d, n)) == if n < d.current then {d.current} else {}
    ensures ActiveSlides(GoToSlide(d, n)) == {n}
  {
    var r := GoToSlide(d, n);
    ExactlyOneActive(r);
    if n < d.current {
      assert r.slides[d.current - 1].prev;
      assert d.current in PrevSlides(r);
    } else {
      assert forall j :: 0 <= j < |r.slides| ==> !r.slides[j].prev;
    }
  }

  /** Repeating a legal jump changes nothing but the slide flags, and after
      it every flag is clear except `active` on the target: the repeat is a
      move to the current slide, which clears every flag. */
  lemma RepeatedJumpClearsPrev(d: Deck, n: int)
    requires WellFormed(d) && InRange(n)
    ensures GoToSlide(GoToSlide(d, n), n).(slides := GoToSlide(d, n).slides) == GoToSlide(d, n)
    ensures forall j :: 0 <= j < TotalSlides ==> GoToSlide(GoToSlide(d, n), n).slides[j] == SlideFlags(j + 1 == n, false)
  {
    var once := GoToSlide(d, n);
    var twice := GoToSlide(once, n);
    assert twice.indicators == once.indicators;
    forall j | 0 <= j < TotalSlides ensures twice.slides[j] == SlideFlags(j + 1 == n, false) {
      assert twice.slides[j].active == (j + 1 == n);
    }
  }

  /** Jumping twice to the same slide equals jumping once except after a
      backward move, whose `prev` mark the repeat drops. */
  lemma GoToSlideTwice(d: Deck, n: int)
    requires WellFormed(d)
    ensures GoToSlide(GoToSlide(d, n), n) == GoToSlide(d, n) <==> !(InRange(n) && n < d.current)
  {
    if InRange(n) {
      var once := GoToSlide(d, n);
      var twice := GoToSlide(once, n);
      RepeatedJumpClearsPrev(d, n);
      if n < d.current {
        assert once.slides[d.current - 1].prev;
        assert !twice.slides[d.current - 1].prev;
      } else {
        assert once.slides == twice.slides by {
          forall j | 0 <= j < TotalSlides ensures once.slides[j] == twice.slides[j] {
            assert once.slides[j].active == (j + 1 == n);
          }
        }
      }
    }
  }

  /** Moving past either end of the deck is ignored. */
  lemma NoWrapAround(d: Deck)
    requires WellFormed(d)
    ensures d.current == TotalSlides ==> ChangeSlide(d, 1) == d
    ensures d.current == 1 ==> ChangeSlide(d, -1) == d
    ensures d.current < TotalSlides ==> ChangeSlide(d, 1).current == d.current + 1
    ensures d.current > 1 ==> ChangeSlide(d, -1).current == d.current - 1
  {
  }

  /** Once the page has loaded, the buttons and indicators agree with the
      current slide no matter how far navigation has gone: the button that
      is disabled is the one whose move would be ignored. */
  lemma DisabledButtonsAreNoOps(d: Deck)
    requires Valid(d)
    ensures d.prevDisabled <==> ChangeSlide(d, -1) == d
    ensures d.nextDisabled <==> ChangeSlide(d, 1) == d
  {
    if !d.prevDisabled {
      assert ChangeSlide(d, -1).current != d.current;
    }
    if !d.nextDisabled {
      assert ChangeSlide(d, 1).current != d.current;
    }
  }
}

/**
 Input dispatch of the presentation controller: the page state is the deck
 and the overlays together, and every input event the page listens to is a
 transition of it.
 */
module Controller {

  import opened Navigation
  import opened Overlay

  datatype Page = Page(deck: Deck, overlays: Overlays)

  predicate ValidPage(p: Page) {
    Navigation.Valid(p.deck) && Overlay.Valid(p.overlays)
  }

  /** The page once loaded, from the markup's slide classes and the ids of
      its modals. */
  function Start(markup: seq<SlideFlags>, modals: set<ModalId>): (r: Page)
    requires |markup| == TotalSlides
    ensures ValidPage(r) && r.deck.current == 1 && !AnyOpen(r.overlays)
  {
    Page(Initial(markup), Closed(modals))
  }

  // ----- Keyboard -----

  /** What a key asks for when no modal is open. */
  datatype Command = Move(direction: int) | Jump(target: int) | CloseAll | Ignore

  /** The key bindings, keyed by the event's `key` value. */
  function KeyCommand(key: string): Command {
    match key
    case "ArrowLeft" => Move(-1)
    case "ArrowRight" => Move(1)
    case "Home" => Jump(1)
    case "End" => Jump(TotalSlides)
    case " " => Move(1)
    case "Escape" => CloseAll
    case _ => Ignore
  }

  function Perform(p: Page, c: Command): Page
    requires WellFormed(p.deck)
  {
    match c
    case Move(direction) => p.(deck := ChangeSlide(p.deck, direction))
    case Jump(target) => p.(deck := GoToSlide(p.deck, target))
    case CloseAll => p.(overlays := CloseAllModals(p.overlays))
    case Ignore => p
  }

  /** A key press. While a modal is open only Escape does anything, and it
      closes every modal; otherwise the key's binding is performed. */
  function HandleKeyPress(p: Page, key: string): (r: Page)
    requires WellFormed(p.deck)
    ensures WellFormed(r.deck) && r.overlays.modals == p.overlays.modals
    ensures ValidPage(p) ==> ValidPage(r)
    ensures AnyOpen(p.overlays) ==> r.deck == p.deck
  {
    if AnyOpen(p.overlays) then
      if key == "Escape" then p.(overlays := CloseAllModals(p.overlays)) else p
    else Perform(p, KeyCommand(key))
  }

  // ----- Touch and wheel -----

  /** Horizontal distance a swipe must exceed to change slide. */
  const SwipeThreshold: int := 50

  /** End of a touch: a swipe to the left goes to the next slide and a swipe
      to the right to the previous one. The two tests are made one after the
      other on the same coordinates. */
  function HandleSwipe(d: Deck, startX: int, endX: int): (r: Deck)
    requires WellFormed(d)
    ensures WellFormed(r)
    ensures Navigation.Valid(d) ==> Navigation.Valid(r)
  {
    var afterLeft := if endX < startX - SwipeThreshold then ChangeSlide(d, 1) else d;
    if endX > startX + SwipeThreshold then ChangeSlide(afterLeft, -1) else afterLeft
  }

  /** A wheel turn over a slide: scrolling down when the slide is already
      scrolled to its bottom goes to the next slide, scrolling up when it is
      scrolled to its top goes to the previous one. */
  function HandleWheel(d: Deck, deltaY: int, atTop: bool, atBottom: bool): (r: Deck)
    requires WellFormed(d)
    ensures WellFormed(r)
    ensures Navigation.Valid(d) ==> Navigation.Valid(r)
  {
    if deltaY > 0 && atBottom then ChangeSlide(d, 1)
    else if deltaY < 0 && atTop then ChangeSlide(d, -1)
    else d
  }

  // ----- Events -----

  datatype Event =
    | KeyDown(key: string)
      /** A touch that started at `startX` and ended at `endX` on screen. */
    | Touch(startX: int, endX: int)
      /** A wheel turn; `atTop` and `atBottom` tell where the slide is scrolled. */
    | Wheel(deltaY: int, atTop: bool, atBottom: bool)
    | IndicatorClick(slide: int)
      /** A click on a clickable element naming the modal it opens. */
    | OpenClick(modal: ModalId)
      /** A click on a modal's close cross or on the modal backdrop. */
    | CloseClick(modal: ModalId)
    | Resize

  /** The page's reaction to one event. Only key presses look at the open
      modals; touch and wheel navigate whether or not a modal is open. */
  function Step(p: Page, e: Event): (r: Page)
    requires WellFormed(p.deck)
    ensures WellFormed(r.deck) && r.overlays.modals == p.overlays.modals
    ensures ValidPage(p) ==> ValidPage(r)
    ensures !(e.KeyDown? || e.OpenClick? || e.CloseClick?) ==> r.overlays == p.overlays
    ensures (e.OpenClick? || e.CloseClick?) ==> r.deck == p.deck
  {
    match e
    case KeyDown(key) => HandleKeyPress(p, key)
    case Touch(startX, endX) => p.(deck := HandleSwipe(p.deck, startX, endX))
    case Wheel(deltaY, atTop, atBottom) => p.(deck := HandleWheel(p.deck, deltaY, atTop, atBottom))
    case IndicatorClick(slide) => p.(deck := GoToSlide(p.deck, slide))
    case OpenClick(id) => p.(overlays := OpenModal(p.overlays, id))
    case CloseClick(id) => p.(overlays := CloseModal(p.overlays, id))
    case Resize => p.(deck := UpdateProgress(p.deck))
  }

  /** The page after a sequence of events, in order. */
  function Run(p: Page, events: seq<Event>): (r: Page)
    requires WellFormed(p.deck)
    ensures WellFormed(r.deck)
    decreases |events|
  {
    if |events| == 0 then p else Run(Step(p, events[0]), events[1..])
  }

  // ----- Properties -----

  /** Every page reachable from page load keeps the invariants: the current
      slide is in range, only it is active, indicators, progress bar and
      buttons show it, and scrolling is suppressed only while a modal is
      open. */
  lemma {:induction false} RunPreservesValid(p: Page, events: seq<Event>)
    requires ValidPage(p)
    ensures ValidPage(Run(p, events))
    decreases |events|
  {
    if |events| > 0 {
      RunPreservesValid(Step(p, events[0]), events[1..]);
    }
  }

  lemma ReachableIsValid(markup: seq<SlideFlags>, modals: set<ModalId>, events: seq<Event>)
    requires |markup| == TotalSlides
    ensures ValidPage(Run(Start(markup, modals), events))
    ensures ActiveSlides(Run(Start(markup, modals), events).deck) == {Run(Start(markup, modals), events).deck.current}
  {
    RunPreservesValid(Start(markup, modals), events);
    ExactlyOneActive(Run(Start(markup, modals), events).deck);
  }

  /** While a modal is open no key changes the slide: Escape closes every
      modal and restores scrolling, and any other key changes nothing. */
  lemma KeysWhileModalOpen(p: Page, key: string)
    requires WellFormed(p.deck) && AnyOpen(p.overlays)
    ensures HandleKeyPress(p, key).deck == p.deck
    ensures key == "Escape" ==>
      !AnyOpen(HandleKeyPress(p, key).overlays) && !HandleKeyPress(p, key).overlays.overflowHidden
    ensures key != "Escape" ==> HandleKeyPress(p, key) == p
  {
  }

  /** With no modal open, the arrows and space move by one slide, Home and
      End jump to the first and last slide, and every other key, Escape
      included, leaves a valid page as it is. */
  lemma KeysWithoutModal(p: Page, key: string)
    requires ValidPage(p) && !AnyOpen(p.overlays)
    ensures key == "ArrowLeft" ==> HandleKeyPress(p, key).deck == ChangeSlide(p.deck, -1)
    ensures key == "ArrowRight" || key == " " ==> HandleKeyPress(p, key).deck == ChangeSlide(p.deck, 1)
    ensures key == "Home" ==> HandleKeyPress(p, key).deck == GoToSlide(p.deck, 1)
    ensures key == "End" ==> HandleKeyPress(p, key).deck == GoToSlide(p.deck, TotalSlides)
    ensures HandleKeyPress(p, key).overlays == p.overlays
    ensures key !in {"ArrowLeft", "ArrowRight", " ", "Home", "End"} ==> HandleKeyPress(p, key) == p
  {
  }

  /** A swipe moves at most one slide: next when the touch ends more than
      the threshold to the left of where it started, previous when it ends
      more than the threshold to the right, and nowhere otherwise. The two
      tests never both succeed, so a swipe never makes two moves. */
  lemma SwipeOutcome(d: Deck, startX: int, endX: int)
    requires WellFormed(d)
    ensures endX < startX - SwipeThreshold ==> HandleSwipe(d, startX, endX) == ChangeSlide(d, 1)
    ensures endX > startX + SwipeThreshold ==> HandleSwipe(d, startX, endX) == ChangeSlide(d, -1)
    ensures startX - SwipeThreshold <= endX <= startX + SwipeThreshold ==> HandleSwipe(d, startX, endX) == d
    ensures var r := HandleSwipe(d, startX, endX);
      r == d || r == ChangeSlide(d, 1) || r == ChangeSlide(d, -1)
  {
  }

  /** A wheel turn changes the slide only at an edge of the slide's own
      scrolling, in the direction of the turn. */
  lemma WheelOutcome(d: Deck, deltaY: int, atTop: bool, atBottom: bool)
    requires WellFormed(d)
    ensures deltaY > 0 && atBottom ==> HandleWheel(d, deltaY, atTop, atBottom) == ChangeSlide(d, 1)
    ensures deltaY < 0 && atTop ==> HandleWheel(d, deltaY, atTop, atBottom) == ChangeSlide(d, -1)
    ensures !(deltaY > 0 && atBottom) && !(deltaY < 0 && atTop) ==> HandleWheel(d, deltaY, atTop, atBottom) == d
  {
  }

  /** Resizing the window re-renders the progress bar, which on a valid page
      already shows the current slide. */
  lemma ResizeIsNoOp(p: Page)
    requires ValidPage(p)
    ensures Step(p, Resize) == p
  {
  }
}

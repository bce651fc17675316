# Slide-deck presentation controller, in Dafny

This project models the controller of a browser slide-deck presentation
(`script.js`). The deck has eight slides, numbered 1 to 8. The controller
keeps the number of the current slide. It mirrors that number onto the page:
the `active` and `prev` classes of the slide elements, the indicator dots,
the progress bar and the disabled state of the previous/next buttons. It
reacts to key presses, touch swipes, wheel turns at the edge of a slide's
scrolling, clicks on indicators, and clicks that open or close modal
overlays. Opening a modal suppresses the page body's scrolling, and closing
any modal restores it, even when another modal is still open.

The page is a plain immutable value and every event is a pure transition
function:

- `navigation.dfy`, module `Navigation`: the deck (current slide, per-slide
  `active`/`prev` flags, indicator flags, progress numerator, button flags),
  its start-up state, `GoToSlide`, `ChangeSlide` and the re-rendering of
  indicators, progress bar and buttons.
- `overlay.dfy`, module `Overlay`: the ids of the page's modals, the set of
  open ones and the body-overflow-hidden flag, with `OpenModal`, `CloseModal`
  and `CloseAllModals`.
- `controller.dfy`, module `Controller`: the key bindings and their gating by
  open modals, the swipe and wheel rules, the event type, one `Step` per
  event and `Run` over a sequence of events.

The central invariant (`Navigation.Valid`, `Overlay.Valid`) says four things.
The current slide is in 1..8. Exactly that slide is active. Indicators,
progress bar and buttons show it. Scrolling is suppressed only while some
modal is open. `Controller.RunPreservesValid` proves that every event
sequence keeps it. `Controller.ReachableIsValid` proves it for every page
reachable from page load.

Two behaviours of the code are modelled as written:

- Repeating a jump is not always the same as jumping once. After a backward
  move from slide `c`, slide `c` carries `prev`. Jumping again to the same
  slide is a move to the current slide, which clears every flag and sets only
  `active`, so slide `c` loses `prev`. `Navigation.GoToSlideTwice` proves
  that the repeat is a no-op exactly when the first move was not backward.
- Closing one modal restores scrolling even when another modal is still
  open (`script.js:235`). So opening and then closing a modal brings the
  scroll state back only when no other modal had suppressed it.
  `Overlay.OpenThenClose` states this as an if-and-only-if, and
  `Overlay.CloseOneOfTwoUnlocksScrolling` shows the two-modal case.

Only key presses check for open modals. Swipes and wheel turns change the
slide whether or not a modal is open, and the model keeps that.

## Model

| member | source | states |
|---|---|---|
| Navigation.InitSlides | script.js:68-77 | at start-up exactly the first slide element is active; the `prev` classes of the markup are kept |
| Navigation.Initial | script.js:68-93 | after slide and indicator start-up and the first render of progress bar and buttons, the deck is on slide 1 and satisfies the invariant (so only indicator 1 is active), with slide 1 the only active slide, when the page has one element per slide |
| Navigation.SyncIndicators | script.js:139-148 | after re-rendering, the dot at position `j + 1` is active iff `j + 1` is the current slide, for every dot |
| Navigation.ClearFlags | script.js:104-106 | every slide element has lost both `active` and `prev` |
| Navigation.GoToSlide | script.js:96-122 | an out-of-range target leaves the whole deck unchanged; a legal one makes the target current and the only active slide, marks the old slide `prev` iff the move goes backward, re-renders indicators, progress and buttons, and preserves the invariant |
| Navigation.ChangeSlide | script.js:125-130 | a relative move that stays in the deck makes `current + direction` current and the only active slide, marks the old slide `prev` iff the move goes backward and re-renders indicators, progress and buttons; any other move is ignored; the invariant is preserved |
| Navigation.ExactlyOneActive | script.js:104-118 | under the invariant the set of active slides is exactly `{current}` |
| Navigation.GoToSlidePrev | script.js:108-116 | after a legal jump from `c` to `n` the `prev` slides are `{c}` when `n < c` and none otherwise; the active slides are `{n}` |
| Navigation.RepeatedJumpClearsPrev | script.js:104-118 | repeating a legal jump to `n` changes only slide flags, and leaves slide `n` active and no slide `prev` |
| Navigation.GoToSlideTwice | script.js:104-118 | jumping twice to `n` equals jumping once iff the first jump is not a backward move |
| Navigation.NoWrapAround | script.js:125-130 | moving forward from the last slide or backward from the first is a no-op; elsewhere the move is by exactly one slide |
| Navigation.DisabledButtonsAreNoOps | script.js:151-157 | on a valid deck the previous (next) button is disabled iff moving back (forward) would change nothing |
| Overlay.OpenModal | script.js:222-228 | opening a page modal adds exactly that modal to the open set, leaves every other modal as it was and suppresses scrolling; the invariant is preserved |
| Overlay.CloseModal | script.js:231-237 | closing a page modal removes exactly that modal from the open set, so every other open modal stays open, and restores scrolling regardless; the invariant is preserved |
| Overlay.CloseAllModals | script.js:240-246 | afterwards no modal is open and scrolling is restored |
| Overlay.UnknownIdIgnored | script.js:223-224 | opening or closing an id the page does not hold changes nothing |
| Overlay.OpenThenClose | script.js:222-237 | open then close of one modal leaves the others open and scrolling allowed; the overlays return to their old value iff that modal was closed and scrolling allowed before |
| Overlay.OpenThenCloseFromClosed | script.js:222-237 | with no modal open, open then close is the identity |
| Overlay.CloseOneOfTwoUnlocksScrolling | script.js:231-237 | after opening two modals and closing one, the other is open while scrolling is allowed |
| Overlay.Closed | script.js:6-10 | the overlays at page load, for markup with no active modal and no inline overflow style: nothing open, scrolling allowed, invariant holds |
| Controller.Start | script.js:6-10 | the page after load is valid, on slide 1, with no modal open, for markup with no active modal and no inline overflow style |
| Controller.HandleKeyPress | script.js:160-193 | while a modal is open no key changes the deck; the invariant of the page is preserved |
| Controller.HandleSwipe | script.js:28-35 | a swipe keeps the deck well formed and valid |
| Controller.HandleWheel | script.js:196-211 | a wheel turn keeps the deck well formed and valid |
| Controller.Step | script.js:13-63 | each event preserves the page invariant; navigation events leave the overlays alone and modal clicks leave the deck alone |
| Controller.RunPreservesValid | script.js:96-130 | any sequence of events from a valid page ends on a valid page |
| Controller.ReachableIsValid | script.js:2-10 | every page reachable from load is valid and has exactly the current slide active |
| Controller.KeysWhileModalOpen | script.js:160-168 | with a modal open, Escape closes every modal and restores scrolling, and any other key changes nothing |
| Controller.KeysWithoutModal | script.js:170-192 | with no modal open, ArrowLeft moves back, ArrowRight and Space move forward, Home and End jump to slides 1 and 8 exactly as `GoToSlide` does (including the `prev` mark of a backward jump), the overlays stay as they are, and every other key is a no-op |
| Controller.SwipeOutcome | script.js:28-35 | a swipe more than 50 to the left goes next, more than 50 to the right goes back, anything within 50 changes nothing, and every swipe makes at most one of the two moves |
| Controller.WheelOutcome | script.js:201-209 | scrolling down at the bottom goes next, scrolling up at the top goes back, and every other wheel turn changes nothing |
| Controller.ResizeIsNoOp | script.js:214-217 | a resize re-renders the progress bar, which leaves a valid page unchanged |

## Left out

- Page lookups, listener registration, `innerHTML`, `preventDefault` and `stopPropagation` are host plumbing. Slides, indicators and modals are values indexed by slide number or modal id.
- The page is assumed to hold one slide element per slide number 1..8. Without one, the code throws on the missing element. `Navigation.WellFormed` states this assumption.
- The progress bar width `(currentSlide / totalSlides) * 100 + '%'` is floating point and string formatting. The model keeps the numerator `progress`, and the width is `progress / 8` of the bar.
- The pixel tests behind "scrolled to top" and "scrolled to bottom" (a 10-pixel margin on `scrollTop`, `scrollHeight` and `clientHeight`) are inputs `atTop` and `atBottom` of the wheel rule.
- Coordinates and `deltaY` are integers, not floating-point numbers. Slide targets are integers, so a fractional target that the bounds guard would let through is not modelled.
- Click target resolution through `closest('.clickable')`, `closest('.modal')` and the `data-modal` attribute is not modelled. Those clicks arrive already resolved, as `OpenClick(id)` and `CloseClick(id)` events.
- A lookup by an id that names some non-modal element of the page is not modelled. Ids are either modals of the page or unknown.
- The listener that stores the touch start is not a separate event. A `Touch(startX, endX)` event pairs the last recorded start with the end, and any start value is allowed.
- The prev/next buttons' click handlers are not part of `script.js`, so there is no event for them. The transition they would trigger, an ungated `ChangeSlide` by -1 or +1, is already produced by `Touch` and `Wheel` events, so `Controller.RunPreservesValid` covers it.
- The markup is assumed to have no modal carrying `active` and no inline `overflow: hidden` on the body. Page load never clears either, so `Overlay.Closed` and `Controller.Start` describe the page only under that assumption.
- The markup is assumed to list the slide elements in the order of their `data-slide` numbers. Start-up activates the first slide element in document order, while navigation looks slides up by `data-slide`. The model identifies the two, so `Navigation.InitSlides` holds only when the orders agree.

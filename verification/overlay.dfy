/**
 Modal overlay manager of the presentation controller.

 `modals` is the set of element ids the page holds (a lookup by an id outside
 it finds nothing), `open` the ids of the modals carrying the `active` class,
 and `overflowHidden` whether the page body's overflow is set to `hidden`,
 which stops the slide behind the overlay from scrolling.
 */
module Overlay {

  type ModalId = string

  datatype Overlays = Overlays(modals: set<ModalId>, open: set<ModalId>, overflowHidden: bool)

  /** Only modals of the page are open, and scrolling is suppressed only
      while at least one of them is on screen. */
  predicate Valid(o: Overlays) {
    && o.open <= o.modals
    && (o.overflowHidden ==> o.open != {})
  }

  /** Whether the page has an active modal. */
  predicate AnyOpen(o: Overlays) {
    o.open != {}
  }

  /** The overlays right after page load: nothing open, scrolling allowed.
      Page load resets neither, so this is the markup's own starting state. */
  function Closed(modals: set<ModalId>): (r: Overlays)
    ensures Valid(r) && !AnyOpen(r) && r.modals == modals
  {
    Overlays(modals, {}, false)
  }

  /** Shows modal `id` and suppresses scrolling; an unknown id is ignored.
      Modals already open stay open. */
  function OpenModal(o: Overlays, id: ModalId): (r: Overlays)
    ensures r.modals == o.modals
    ensures id in o.modals ==> r.open == o.open + {id} && r.overflowHidden
    ensures Valid(o) ==> Valid(r)
  {
    if id in o.modals then o.(open := o.open + {id}, overflowHidden := true) else o
  }

  /** Hides modal `id` and restores scrolling, even when another modal is
      still open; an unknown id is ignored. */
  function CloseModal(o: Overlays, id: ModalId): (r: Overlays)
    ensures r.modals == o.modals
    ensures id in o.modals ==> r.open == o.open - {id} && !r.overflowHidden
    ensures Valid(o) ==> Valid(r)
  {
    if id in o.modals then o.(open := o.open - {id}, overflowHidden := false) else o
  }

  /** Hides every open modal and restores scrolling. */
  function CloseAllModals(o: Overlays): (r: Overlays)
    ensures r.modals == o.modals
    ensures Valid(r) && !AnyOpen(r) && !r.overflowHidden
  {
    o.(open := {}, overflowHidden := false)
  }

  // ----- Properties -----

  /** Opening or closing an id the page does not hold changes nothing. */
  lemma UnknownIdIgnored(o: Overlays, id: ModalId)
    requires id !in o.modals
    ensures OpenModal(o, id) == o && CloseModal(o, id) == o
  {
  }

  /** Opening then closing the same modal removes it from the open set and
      leaves scrolling allowed. The overlays come back exactly as they were
      if, and only if, that modal was not open before and scrolling was not
      suppressed before: closing does not restore a suppression that another
      modal had set. */
  lemma OpenThenClose(o: Overlays, id: ModalId)
    requires id in o.modals
    ensures CloseModal(OpenModal(o, id), id).open == o.open - {id}
    ensures !CloseModal(OpenModal(o, id), id).overflowHidden
    ensures CloseModal(OpenModal(o, id), id) == o <==> id !in o.open && !o.overflowHidden
  {
    var r := CloseModal(OpenModal(o, id), id);
    if r == o {
      assert id !in r.open;
    }
  }

  /** With no modal open, opening then closing one restores the overlays. */
  lemma OpenThenCloseFromClosed(o: Overlays, id: ModalId)
    requires Valid(o) && !AnyOpen(o)
    ensures CloseModal(OpenModal(o, id), id) == o
  {
    if id in o.modals {
      OpenThenClose(o, id);
    }
  }

  /** Closing one of two open modals restores scrolling although the other
      one is still on screen. */
  lemma CloseOneOfTwoUnlocksScrolling(o: Overlays, a: ModalId, b: ModalId)
    requires a in o.modals && b in o.modals && a != b
    ensures var r := CloseModal(OpenModal(OpenModal(o, a), b), b);
      AnyOpen(r) && a in r.open && !r.overflowHidden
  {
    var r := CloseModal(OpenModal(OpenModal(o, a), b), b);
    assert a in r.open;
  }
}

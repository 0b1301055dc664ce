/** The enquiry popup: `showPopup(force)`, `closePopup()` and the four things
    that trigger them (a 3 s timer, a `mouseout` near the top of the window,
    the "enquire" buttons, and clicks on the overlay or its close button). */
module Popup {

  /** The popup's visible state: the two globals `popupOpened` and
      `popupDismissed`, whether the overlay is displayed (`display: flex`) and
      whether the popup box carries `active`. */
  datatype View = View(isOpen: bool, dismissed: bool, shown: bool, boxActive: bool)

  /** The page starts with the popup closed and never dismissed. */
  const Initial := View(false, false, false, false)

  /** What the user or the page does. */
  datatype Trigger =
    | Timer                        // the 3 s timer: `showPopup()`
    | MouseOut(clientY: int)     // `mouseout` on the document
    | Enquire                      // an `.enquire-btn` click: `showPopup(true)`
    | CloseButton                  // the close button: `closePopup()`
    | OverlayClick(onBackdrop: bool) // a click inside the overlay; closes it only on the backdrop itself

  /** A `mouseout` counts only when its `clientY` is below 15 pixels, wherever
      the mouse goes; it then shows the popup, forced, unless it was already
      opened or dismissed. */
  const ExitBand := 15

  /** Displayed, box animated and `popupOpened` always agree. */
  predicate InStep(v: View) {
    v.isOpen == v.shown && v.isOpen == v.boxActive
  }

  /** `showPopup(force)`; `present` says whether the page has the overlay. */
  function Show(present: bool, v: View, force: bool): (r: View)
    ensures InStep(v) ==> InStep(r)
    ensures r.dismissed == v.dismissed
    ensures r.isOpen <==> v.isOpen || (present && (force || !v.dismissed))
    ensures !present || v.isOpen ==> r == v
  {
    if !present || v.isOpen then v
    else if v.dismissed && !force then v
    else View(true, v.dismissed, true, true)
  }

  /** `closePopup()`. Without an overlay its first statement fails, before it
      changes anything. */
  function Close(present: bool, v: View): (r: View)
    ensures present ==> !r.isOpen && !r.shown && !r.boxActive && r.dismissed
    ensures !present ==> r == v
  {
    if !present then v else View(false, true, false, false)
  }

  /** How each trigger acts on the popup. */
  function React(present: bool, v: View, t: Trigger): (r: View)
    ensures InStep(v) ==> InStep(r)
    ensures v.dismissed ==> r.dismissed
    // Only the close button or a click on the backdrop dismisses the popup.
    ensures r.dismissed && !v.dismissed ==> present && (t.CloseButton? || t.OverlayClick?)
    // Only an "enquire" button reopens a dismissed popup.
    ensures v.dismissed && !v.isOpen && r.isOpen ==> t == Enquire
  {
    match t
    case Timer => Show(present, v, false)
    case MouseOut(y) => if y < ExitBand && !v.isOpen && !v.dismissed then Show(present, v, true) else v
    case Enquire => Show(present, v, true)
    case CloseButton => Close(present, v)
    case OverlayClick(onBackdrop) => if present && onBackdrop then Close(present, v) else v
  }

  function Run(present: bool, v: View, ts: seq<Trigger>): View
    decreases |ts|
  {
    if ts == [] then v else Run(present, React(present, v, ts[0]), ts[1..])
  }

  /** The popup state of the page, updated in place. */
  class PopupState {
    /** Whether `#popupOverlay` exists. */
    const present: bool
    var isOpen: bool
    var dismissed: bool
    var shown: bool
    var boxActive: bool

    function State(): View
      reads this
    {
      View(isOpen, dismissed, shown, boxActive)
    }

    constructor (present: bool)
      ensures this.present == present && State() == Initial
    {
      this.present := present;
      isOpen, dismissed, shown, boxActive := false, false, false, false;
    }

    /** `showPopup(force)`: nothing when there is no overlay or it is already
        open, nor when it was dismissed and the call is not forced; otherwise
        display it, mark it opened and start the box animation. */
    method ShowPopup(force: bool)
      modifies this
      ensures State() == Show(present, old(State()), force)
      ensures dismissed == old(dismissed)
      ensures present && !old(isOpen) && (force || !old(dismissed)) ==> isOpen && shown && boxActive
    {
      if !present || isOpen {
        return;
      }
      if dismissed && !force {
        return;
      }
      shown := true;
      isOpen := true;
      boxActive := true;
    }

    /** `closePopup()`: hide the overlay, reset the animation, and remember
        that the user dismissed the popup. */
    method ClosePopup()
      modifies this
      ensures State() == Close(present, old(State()))
      ensures present ==> !isOpen && !shown && !boxActive && dismissed
    {
      if !present {
        return;
      }
      shown := false;
      isOpen := false;
      dismissed := true;
      boxActive := false;
    }

    /** The listeners: each trigger calls `showPopup` or `closePopup` as wired. */
    method On(t: Trigger)
      modifies this
      ensures State() == React(present, old(State()), t)
    {
      match t
      case Timer => ShowPopup(false);
      case MouseOut(y) =>
        if y < ExitBand && !isOpen && !dismissed {
          ShowPopup(true);
        }
      case Enquire => ShowPopup(true);
      case CloseButton => ClosePopup();
      case OverlayClick(onBackdrop) =>
        if present && onBackdrop {
          ClosePopup();
        }
    }
  }

  /** Every trigger keeps the overlay, the box animation and `popupOpened` in step. */
  lemma {:induction false} RunInStep(present: bool, v: View, ts: seq<Trigger>)
    requires InStep(v)
    ensures InStep(Run(present, v, ts))
    decreases |ts|
  {
    if ts != [] {
      RunInStep(present, React(present, v, ts[0]), ts[1..]);
    }
  }

  /** Once dismissed, always dismissed. */
  lemma {:induction false} DismissalSticks(present: bool, v: View, ts: seq<Trigger>)
    requires v.dismissed
    ensures Run(present, v, ts).dismissed
    decreases |ts|
  {
    if ts != [] {
      DismissalSticks(present, React(present, v, ts[0]), ts[1..]);
    }
  }

  /** After the user closed the popup, neither the timer nor leaving the page
      brings it back: only an "enquire" button does. */
  lemma {:induction false} OnlyEnquireReopens(present: bool, v: View, ts: seq<Trigger>)
    requires v.dismissed && !v.isOpen
    requires forall i :: 0 <= i < |ts| ==> ts[i] != Enquire
    ensures !Run(present, v, ts).isOpen
    decreases |ts|
  {
    if ts != [] {
      OnlyEnquireReopens(present, React(present, v, ts[0]), ts[1..]);
    }
  }

  /** Without an overlay nothing ever changes. */
  lemma {:induction false} NoOverlayNoChange(v: View, ts: seq<Trigger>)
    ensures Run(false, v, ts) == v
    decreases |ts|
  {
    if ts != [] {
      NoOverlayNoChange(React(false, v, ts[0]), ts[1..]);
    }
  }

  /** Showing twice is showing once; an open popup is left as it is, forced or not. */
  lemma ShowIdempotent(present: bool, v: View, force: bool, force': bool)
    ensures Show(present, Show(present, v, force), force) == Show(present, v, force)
    ensures v.isOpen ==> Show(present, v, force') == v
  {
  }

  /** On a fresh page the timer opens the popup. */
  lemma TimerOpensFreshPage()
    ensures React(true, Initial, Timer) == View(true, false, true, true)
  {
  }
}

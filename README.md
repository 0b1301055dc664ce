# Landing-page behaviour, modelled in Dafny

The repository is the front end of a real-estate landing page. Two scripts
drive it:

- `js/script.js` holds the lead-form validation and submission, the phone
  pickers, the three "cylinder" carousels, the enquiry popup, the FAQ reveal
  button, the accordions, the scroll spy and a frame throttle.
- `js/integration.js` adapts the exported form of the form processor (the
  "sample form", element id `form`) to those helpers.

The Dafny project models these rules one module per concern:

- `Text` (`text.dfy`): `trim()` on ASCII whitespace, digit cleaning
  `replace(/\D/g, "")`, `replace("+", "")` and `includes`.
- `Validation` (`validation.dfy`): the name, email and phone patterns as
  explicit predicates, and what the whole form check accepts.
- `LeadForm` (`leadform.dfy`): `addError`/`removeError`, `customValidateForm`,
  the two submit handlers, and the picker registry with its initialisation.
- `Carousel` (`carousel.dfy`): the closest-to-centre classification shared by
  the pricing, floor-plan and gallery carousels.
- `Throttle` (`throttle.dfy`): `rafThrottle`.
- `Popup` (`popup.dfy`): `showPopup`/`closePopup` and their triggers.
- `Faq` (`faq.dfy`): the three-stage "Read more" button.
- `Accordion` (`accordion.dfy`): the page-wide and FAQ accordion handlers.
- `ScrollSpy` (`scrollspy.dfy`): the section highlight in the menus.

How the model is built:

- State that the page changes in place is a class with `modifies` clauses:
  a form's input values and error markers, the picker registry, class lists
  of cards, the popup and FAQ globals, and the throttle's closure.
- The popup and the throttle also have a value-level step function. The
  class's methods are proved against it, and the lemmas about whole runs of
  events are stated on it. The scroll spy's loop is proved against a
  recursive function, the carousel update against the closest-item
  function, and the FAQ button against its three-stage invariant.
- The DOM is reduced to what the rules read and write. Inputs are found by
  name or id in maps. The class lists of carousel items and FAQ cards are
  sets of strings. The accordion's `active` classes and bodies, and the
  scroll spy's links, are arrays of booleans. Geometry is whole pixels.

Three details of the code that the model keeps:

- `initPhoneInput` registers a new picker every time it is called. The new
  picker replaces any earlier entry under that id (js/script.js:101,
  `LeadForm.Page.InitPhoneInput`). Only the by-name path of
  js/integration.js:18-19 checks the registry first.
- The `countrychange` listener and the submit handlers differ when the
  picker reports a dial code of `""`. The listener writes a bare `"+"`
  (js/script.js:182). The handlers fall back to `"91"` and write `"+91"`
  (js/script.js:206). Both are proved in `LeadForm.EmptyDialWriters`.
- `replace("+", "")` removes only the first `"+"` of the dial code
  (js/script.js:182 and 214, `Text.RemoveFirstPlusSplit`,
  `LeadForm.OnlyFirstPlusRemoved`).

## Model

| member | source | states |
|---|---|---|
| Text.Trim | js/script.js:52-59 | the trimmed value is the middle slice of the input with only whitespace cut at both ends, and it neither starts nor ends with whitespace |
| Text.TrimBlank | js/script.js:52-58 | a trimmed value is empty exactly when the input is all whitespace |
| Text.TrimIdempotent | js/script.js:52 | trimming a trimmed value changes nothing, so the test and the match see the same text |
| Text.TrimKeeps | js/script.js:52 | every non-whitespace character of the input survives trimming |
| Text.TrimUntouched | js/script.js:52-58 | a value with no whitespace at either end is its own trim |
| Text.Digits | js/script.js:69 | the cleaned phone value holds only digits and is no longer than the input |
| Text.DigitsAppend | js/script.js:69 | digit cleaning distributes over concatenation |
| Text.DigitsOfDigits | js/script.js:207-211 | a string of digits is its own cleaning |
| Text.DigitsIdempotent | js/script.js:207-219 | cleaning an already cleaned number changes nothing |
| Text.DigitsLength | js/script.js:69 | the cleaning keeps exactly as many characters as the input has digits |
| Text.CleanExample | js/script.js:69 | `"9123 4567"` cleans to `"91234567"` |
| Text.RemoveFirstPlus | js/script.js:214 | a code without `+` is returned unchanged; otherwise exactly one character is removed |
| Text.RemoveFirstPlusSplit | js/script.js:214 | what is removed is exactly the first `+`; the text before it and after it is kept in order |
| Text.PlusRoundTrip | js/script.js:214-218 | for a code with no `+` of its own, removing the `+` from `"+" + code` gives `code` back, and the dial field's `"+" + code` is the same whether the code was reported with or without its `+` |
| Text.IncludesOccurs | js/script.js:413 | `includes` holds exactly when the needle occurs at some offset of the haystack |
| Text.IncludesEmpty | js/script.js:413 | every string includes the empty string |
| Text.TrimFrom | js/script.js:58-59 | every character of a trimmed value comes from the input |
| Validation.NameMatches | js/script.js:14 | a string the name pattern accepts is non-empty and holds no digit and no `@` |
| Validation.TrimNameChars | js/script.js:52 | the trimmed value consists of name characters exactly when the whole value does, since only whitespace is cut |
| Validation.NameOk | js/script.js:52 | the name rule holds exactly when every character of the value is a letter, whitespace or `.`, and not all are whitespace |
| Validation.NameRejectsForeign | js/script.js:14-55 | a name containing any character outside letters, whitespace and `.` is rejected |
| Validation.NameRejectsDigit | js/script.js:14-55 | a name containing a digit is rejected |
| Validation.NameRejectsBlank | js/script.js:52-55 | an empty or all-whitespace name is rejected |
| Validation.NameAccepted | js/script.js:14-55 | `"John Q. Public"` passes the name rule |
| Validation.EmailMatchesIffShape | js/script.js:16 | the scanning email check accepts exactly the strings split as local `@` host `.` tld, each part a non-empty run without whitespace or `@` |
| Validation.EmailMatches | js/script.js:16 | an address the email pattern accepts has an `@`, at least five characters, and no whitespace at either end |
| Validation.AddressEnds | js/script.js:16 | a non-empty local part and a domain around an `@` give at least five characters and no whitespace at either end |
| Validation.EmailOk | js/script.js:58-59 | a blank email is accepted, and an accepted email that is not blank contains an `@` |
| Validation.EmailBlankOk | js/script.js:57-67 | a blank email is always accepted |
| Validation.PhoneMatches | js/script.js:15 | a string the phone pattern accepts is already its own digit cleaning |
| Validation.PhoneOk | js/script.js:14-73 | the phone is accepted exactly when it has 7 to 15 digits |
| Validation.LeadOk | js/script.js:75 | an accepted lead has a name that is not all whitespace, an email that is blank or contains an `@`, and 7 to 15 phone digits |
| Validation.LeadOkMeans | js/script.js:42-76 | the form check accepts iff the trimmed name is non-empty and in `[A-Za-z\s.]`, the trimmed email is empty or has the email shape, and the phone has 7 to 15 digits |
| Validation.NameExamples | js/script.js:14 | `"John Q. Public"` is a name, `"John5"` is not |
| Validation.TrimmedExample | js/script.js:58 | `"a@b.co"` has no whitespace to trim |
| Validation.MatchedExample | js/script.js:16 | `"a@b.co"` matches the email pattern |
| Validation.EmailExampleOk | js/script.js:16 | `"a@b.co"` is an acceptable email |
| Validation.EmailExampleRejected | js/script.js:16 | `"not-an-email"` is not an acceptable email |
| Validation.PhoneExamples | js/script.js:14-73 | `"9123 4567"` passes and `"12-34-56"` fails |
| LeadForm.Form.AddError | js/script.js:18-31 | the input is marked, its container holds exactly one error node with the message, a node is created only if there was none, and no other input's error state changes |
| LeadForm.Form.RemoveError | js/script.js:33-40 | the input is unmarked, its container holds no error node, and no other input's error state changes |
| LeadForm.Put | js/script.js:216-225 | a hidden value is written only into an input the form has, and no other input changes |
| LeadForm.Form.FillHidden | js/script.js:216-225 | the dial inputs get `"+" + d`, the phone input the digits, the backup `"+" + d + digits`, each only if present; no other input changes and none is added |
| LeadForm.CheckName | js/script.js:52-55 | the result is the name rule, and the name input shows that verdict with its message |
| LeadForm.CheckEmail | js/script.js:57-67 | the result is the email rule, and a blank or valid email clears the marker while an invalid one sets it |
| LeadForm.CheckPhone | js/script.js:69-73 | the result is the phone rule, and the phone input shows that verdict |
| LeadForm.CustomValidateForm | js/script.js:42-76 | false when the form is absent; otherwise the result is true iff all three rules hold, each input shows its verdict, no value changes, and one error node is created for each failing input that had none |
| LeadForm.Page.InitPhoneInput | js/script.js:82-101 | when the input exists and the picker library is loaded, a new picker on the initial country is registered under the id, replacing any earlier one; nothing changes otherwise |
| LeadForm.Page.CountryChange | js/script.js:177-184 | the picker's dial code changes; when the code is reported, the form's lower-case dial input, if any, gets `"+"` and the code without its first `+`; when it is missing, no input changes |
| LeadForm.Page.InitSampleForm | js/integration.js:5-24 | nothing without the helper script; the sample form's phone input gets a picker; an input found by name keeps an existing picker, else gets one under its id or, if it has none, under `PhoneNumber_countrycode_auto`; no other picker is added or changed |
| LeadForm.DialFor | js/script.js:202-214 | without a picker, or when it reports no code, the dial code is `"91"`; a reported code without `+` is used as it is, and one with a `+` loses exactly one character (the sample form's handler, js/integration.js:43-54, is the same code) |
| LeadForm.PickerInputFor | js/script.js:199 | the hero form's picker input is `heroMobile`; every other form's is `popupMobile` |
| LeadForm.DialWithoutPicker | js/script.js:201-205 | without a picker, or when it reports no code, the dial code is `"91"` |
| LeadForm.DialFieldNormal | js/script.js:203-218 | the dial field gets one leading `+` whether the picker reported the code with or without one |
| LeadForm.EmptyDialWriters | js/script.js:177-214 | on a reported dial code of `""` the country-change listener writes `"+"` while a submit handler writes `"+91"` |
| LeadForm.OnlyFirstPlusRemoved | js/script.js:214 | `"++65"` becomes `"+65"`: only the first `+` goes |
| LeadForm.DialExample | js/script.js:201-214 | a hero picker reporting `"+65"` gives the dial code `"65"` |
| LeadForm.NumberFor | js/script.js:202-212 | the number a submit sends holds only digits |
| LeadForm.SampleNumberFor | js/integration.js:43-52 | the number the sample form sends holds only digits, and is empty when there is neither a picker nor a phone input |
| LeadForm.CustomValidateAndSubmit | js/script.js:192-229 | false with no hidden field written when validation fails; otherwise true, with every verdict shown and the dial code, digits and backup written |
| LeadForm.ZfValidateAndSubmit | js/integration.js:29-73 | false when the form is absent; false with no write when the check fails; otherwise both dial inputs (the lower one by id as fallback) get the same `"+" + d`, the phone the digits, the backup `"+" + d + digits` |
| LeadForm.HiddenConsistent | js/integration.js:56-69 | after the writes the phone holds only digits, both dial inputs agree, and the backup is the dial value followed by the phone value |
| LeadForm.SubmitExample | js/script.js:203-225 | dial code `"+65"` and typed `"9123 4567"` give `"+65"`, `"91234567"` and `"+6591234567"` |
| Carousel.ClosestIn | js/script.js:449-466 | the scan over the first `n` items picks an item at minimal distance with every earlier item strictly farther |
| Carousel.Closest | js/script.js:449-466 | the picked item is at minimal distance from the centre and is the leftmost such item |
| Carousel.ClosestUnique | js/script.js:462 | exactly one item satisfies that description |
| Carousel.Relabelled | js/script.js:460-472 | a relabelled class list differs from the old one only in the three labels |
| Carousel.RelabelledLabels | js/script.js:468-472 | `active-card` is on the picked item only, `prev-card` on the item before it, `next-card` on the item after it, and no item has two labels |
| Carousel.Strip.Update | js/script.js:446-472 | every item's classes become its old classes relabelled around the closest item; an empty strip is unchanged (the floor-plan copy at js/script.js:513-538 is the same code) |
| Carousel.Strip.Label | js/script.js:465-470 | `active-card` is added to the picked item, `prev-card` to the one before it and `next-card` to the one after it, where they exist; nothing else changes |
| Carousel.Strip.UpdateGallery | js/script.js:586-614 | above 900 pixels of width nothing changes; otherwise the same update |
| Carousel.ActiveIsClosest | js/script.js:446-472 | after an update an item is `active-card` exactly when it is the leftmost item nearest the centre |
| Throttle.Step | js/script.js:426-433 | a step keeps `ticking` and the pending request in step; a call never runs `fn` and changes nothing while a frame is pending; a frame runs `fn` once on the pending arguments, if any |
| Throttle.Throttled.Call | js/script.js:426-429 | a call requests a frame with its arguments only when none is pending; `ticking` is set afterwards |
| Throttle.Throttled.Frame | js/script.js:429-433 | a frame applies `fn` to the pending arguments, if any, and clears `ticking` |
| Throttle.RunConsistent | js/script.js:424-435 | `ticking` is set exactly while a callback is pending, so at most one is outstanding |
| Throttle.RunOncePerFrame | js/script.js:424-435 | `fn` runs at most once per frame and earlier runs are never changed |
| Throttle.CallsCoalesce | js/script.js:427 | calls made while a frame is pending change nothing |
| Throttle.RunOnlyCalledArgs | js/script.js:428-431 | every argument `fn` runs with was pending at the start or passed to a call |
| Throttle.FirstCallWins | js/script.js:424-435 | two calls before one frame run `fn` once, with the first call's arguments |
| Popup.Show | js/script.js:325-354 | showing keeps display, animation and `popupOpened` in step and never changes `popupDismissed`; the popup ends open exactly when it was open or there is an overlay and the call is forced or the popup was never dismissed |
| Popup.Close | js/script.js:356-363 | with an overlay the popup ends closed, hidden, unanimated and dismissed; without one nothing changes |
| Popup.React | js/script.js:365-383 | every trigger keeps display, animation and `popupOpened` in step and never undoes a dismissal; only the close button or a backdrop click dismisses, and only an enquire button reopens a dismissed popup |
| Popup.PopupState.ShowPopup | js/script.js:325-354 | no change without an overlay, when open, or when dismissed and not forced; otherwise opened, displayed and animated; `popupDismissed` never changes |
| Popup.PopupState.ClosePopup | js/script.js:356-363 | the popup ends closed, hidden, unanimated and dismissed |
| Popup.PopupState.On | js/script.js:365-383 | the timer shows unforced, any `mouseout` with `clientY` below 15 shows forced if neither opened nor dismissed, an enquire button shows forced, the close button and a backdrop click close |
| Popup.RunInStep | js/script.js:325-363 | display, box animation and `popupOpened` always agree |
| Popup.DismissalSticks | js/script.js:359 | once dismissed the popup stays dismissed |
| Popup.OnlyEnquireReopens | js/script.js:327-383 | after the user closed the popup only an enquire button reopens it |
| Popup.NoOverlayNoChange | js/script.js:326 | without an overlay no trigger changes anything |
| Popup.ShowIdempotent | js/script.js:326 | showing twice is showing once, and an open popup is left as it is |
| Popup.TimerOpensFreshPage | js/script.js:380 | on a fresh page the timer opens the popup |
| Faq.Revealed | js/script.js:714-717 | a revealed card is not hidden and carries `faq-revealed` |
| Faq.Concealed | js/script.js:741-744 | a collapsed card is hidden and lacks `faq-revealed` |
| Faq.ConcealedIdempotent | js/script.js:739-755 | the extra collapse pass changes nothing, and collapsing a revealed card equals collapsing it directly |
| Faq.FaqList.constructor | js/script.js:695-705 | every card from the sixth on gets `faq-hidden`, the ask button is hidden, the stage is 0 |
| Faq.FaqList.RevealRange | js/script.js:714-717 | exactly the cards of the set are revealed |
| Faq.FaqList.ConcealRange | js/script.js:741-744 | exactly the cards of the set are collapsed |
| Faq.FaqList.ReadMore | js/script.js:710-764 | the stage goes 0 to 1 to 2 to 0; stage 0 reveals the second set, stage 1 the final set, the ask button and "Show Less", stage 2 collapses both sets, hides the button and restores "Read more"; the first five cards never change |
| Faq.StageVisibility | js/script.js:695-764 | in stage 0 every card from the sixth on is hidden, in stage 1 cards six to eight show, in stage 2 all show |
| Accordion.Toggled | js/script.js:283-299 | the clicked card flips, every other card in scope closes, cards out of scope keep their state |
| Accordion.ToggleExclusive | js/script.js:291-297 | after a toggle at most one card in scope is open |
| Accordion.ToggleTwice | js/script.js:776-782 | two clicks on the same header bring its card back |
| Accordion.BothHandlers | js/script.js:283-299 | one click with both handlers leaves the FAQ card's `active` class as it was |
| Accordion.FaqCardStuck | js/script.js:283-299 | with both handlers, any number of clicks on a FAQ header leaves its card's `active` class as it was: a closed card never opens, an open one never closes; from the first click on every other card is closed |
| Accordion.BodiesAfter | js/script.js:291-297 | after a click every body but the clicked card's is collapsed |
| Accordion.FaqBodyOpposite | js/script.js:283-299 | on every click the clicked FAQ card's body ends opposite to its starting state and so opposite to its `active` class |
| Accordion.DoubleHandlerDisagrees | js/script.js:283-299 | with both handlers a FAQ card's `active` ends as it was while its body's height flips |
| Accordion.Cards.PageClick | js/script.js:283-299 | every card is toggled exclusively around the clicked one, bodies following classes |
| Accordion.Cards.FaqClick | js/script.js:770-784 | the FAQ cards are toggled exclusively around the clicked one; other cards and all bodies are untouched |
| Accordion.Cards.FaqHeaderClick | js/script.js:776-783 | both handlers in order leave the clicked card's `active` unchanged and opposite to its body's height |
| Accordion.Cards.OtherClick | js/script.js:283-299 | the page-wide handler restricted to the cards outside the FAQ keeps body and class together |
| Accordion.Cards.HeaderClick | js/script.js:770-784 | with one handler per card the clicked card's `active` flips, its group has no other open card, the other group is untouched |
| ScrollSpy.Spied | js/script.js:401-409 | the current id is `""` or the id of a section that has been reached |
| ScrollSpy.SpyCurrent | js/script.js:401-409 | the loop's result is the id of the last section reached, starting from `""` |
| ScrollSpy.SpiedIsLast | js/script.js:403-409 | the current id is that of the last section whose top minus 120 is at most the offset |
| ScrollSpy.SpiedNone | js/script.js:401-409 | with no section reached the current id is `""` |
| ScrollSpy.MarkLinks | js/script.js:411-416 | a link is active exactly when its `href` includes the current id (`"null"` for a section without id) |
| ScrollSpy.OnScroll | js/script.js:400-417 | each link is active exactly when its `href` includes the current section's id |
| ScrollSpy.AboveAllSectionsAllActive | js/script.js:401-413 | above every section all links are active |
| ScrollSpy.ActiveMeansOccurs | js/script.js:413 | a link is active exactly when the current id occurs somewhere in its `href` |

## Left out

- The picker library `intlTelInput` is not modelled: configuration, dropdown container, `utilsScript`, `getSelectedCountryData`. A picker is the dial code of its selected country.
- The dropdown repositioning (js/script.js:108-175 and 336-353) is pixel geometry and style strings behind timers, with swallowed exceptions.
- Listener registration, `setTimeout` delays and real `requestAnimationFrame` scheduling are not modelled. A frame is an explicit step, and each trigger is a method call.
- `scrollBy` arrows and the initial scroll centring of the carousels are left out. They only move the container; the update then sees new centres.
- IntersectionObserver reveals, the review counter, the amenity parallax, the mobile menu and the scroll-to-top button are left out. They are timing, float easing and styling, with no rule about the forms or the navigation state.
- Floating point is not modelled: positions and widths are integers.
- Whitespace is the ASCII set (space, tab, line feed, vertical tab, form feed, carriage return), not Unicode `\s`.
- The regular-expression engine is not modelled; the patterns are explicit predicates.
- Aliasing between an input reached by id (`heroMobile`, `popupMobile`, the sample form's ids) and the same input reached by name inside a form is not modelled. The submit handlers read the picker input's value by id.
- Error nodes live in one container per checked input; `addError` looking past an `.iti` wrapper is not modelled.
- A missing name, email or phone input makes `customValidateForm` throw; the model requires the three inputs instead.
- A throwing `fn` inside `rafThrottle` (which would leave `ticking` set) is not modelled.
- A missing `.popup-box` (which makes `showPopup` throw after `popupOpened` is set) is not modelled; every page with an overlay is taken to have the box.
- `closePopup` without an overlay throws before changing anything; the model leaves the state unchanged.
- The FAQ set-up's guard (no FAQ section, no cards or no buttons: no handler) and `scrollIntoView` are not modelled. `Faq.FaqList` models the section after its set-up ran.
- `Faq.FaqList` tracks visibility by `faq-hidden` only, as the stages use it; a card's initial `faq-revealed` class is carried along unchanged until a stage rewrites it.
- A link without `href` (where the scroll spy throws) is not modelled.
- Accordion.Cards: every accordion card is assumed to have an `.accordion-body` (js/script.js:291) and every header a next element sibling (js/script.js:296). On other markup the page-wide handler throws; that is not modelled.
- LeadForm.Page.CountryChange: the registry holds a string per picker, so a missing `dialCode` is stored as `""`. The listener's throw on a missing code is modelled as writing nothing; that the throw happens only when the form has a dial input is not distinguished.
- Carousel.Strip.Update: `prev-card` and `next-card` go to the closest item's previous and next element siblings (js/script.js:467-470, 533-536, 609-612). The model gives them to the neighbouring items of the list, so it assumes each strip's items are exactly consecutive element siblings. A sibling that is not an item would get a label that the clearing loop (js/script.js:457) never removes; that is not captured.

## Findings

| source | as written | input that shows it | evidently intended | confidence | as-written member | corrected member |
|---|---|---|---|---|---|---|
| js/script.js:283-299, js/script.js:770-784 | a FAQ header is also an `.accordion-header`, so a click runs the page-wide handler and then the FAQ handler; the first opens a closed card (class and body), the second sees it open and closes its class again | a click on the header of a closed FAQ card: it ends without `active` but with its body's `max-height` set; a click on an open one leaves `active` set with the body collapsed | each card toggled by one handler, so that a click opens a closed card and closes an open one | not executed; medium, since what is drawn depends on the FAQ stylesheet, which is not part of this model | Accordion.Cards.FaqHeaderClick | Accordion.Cards.HeaderClick |

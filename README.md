# MAPOLY Alumni page scripts in Dafny

This project models the browser scripts of the MAPOLY alumni association
website: the site-wide script (`js/main.js`) and the scripts of the events,
donations, membership, contact and branches pages. Each script wires event
handlers to a static page. The model keeps the page state those handlers
read and write as Dafny classes:

- class lists, inline `display` styles and `disabled` flags;
- the error notes and messages the forms insert;
- the options, modal content and highlight the scripts produce.

Each handler is a method whose postcondition states the new state. The
string logic the handlers run is modelled as functions, with lemmas relating
each one to an independent description:

- `trim`;
- the `/[^0-9]/g` strip;
- `parseInt` and the `en-NG` thousands grouping;
- the two e-mail regexes and the phone regex;
- `indexOf` and `split`.

Modules:

- `Text`: JavaScript's `\s` set, `trim`, the digit strip, decimal numerals
  and their value, comma grouping, `indexOf`, `split`.
- `Email`: the strict e-mail regex `/^[^\s@]+@[^\s@]+\.[^\s@]+$/` and the
  loose one `/^\S+@\S+\.\S+$/`. Each is written as the split the regex
  performs, and the strict one is characterised without a regex.
- `Nullable`: `Option` for attributes and lookups that can be `null`, and how
  `null` turns into the text "null".
- `Forms`: form fields and their error notes, shared by the donations,
  membership and contact forms:
  - the `[required]` loop, the e-mail check, `showError` and its `input`
    listener;
  - the `.form-actions` message of the donations and contact pages.

  An error note records its field and which of the four messages it shows
  (a required field, an invalid e-mail address, amount or phone number).
  `Forms.Message.Text` gives the text each one displays.
- `Widgets`: interface state written once but used by several pages:
  - the mobile menu and the dropdown;
  - a group of buttons with one active;
  - the FAQ accordion that keeps one item open;
  - the IntersectionObserver one-shot reveal.
- `MainPage`, `EventsPage`, `DonationsPage`, `MembershipPage`,
  `ContactPage`, `BranchesPage`: one module per page script.

Environment inputs are parameters of the methods that need them:

- the window width, scroll offset and element offsets;
- the current year;
- whether a click landed on the backdrop;
- the element `querySelector` returns;
- when a timer fires.

## Model

| member | source | states |
|---|---|---|
| Text.Trim | js/donations.js:164 | `trim` keeps a slice of the value that starts right after its leading whitespace and has only whitespace before and after it; the slice is empty exactly when the value is all whitespace, and otherwise starts and ends with a non-space |
| Text.BlankIffTrimEmpty | js/contact.js:51 | the `!field.value.trim()` test holds exactly when the value is all whitespace |
| Text.DigitsOnly | js/donations.js:33 | the `/[^0-9]/g` strip leaves only digits and never lengthens the value |
| Text.DigitsOnlyAppend | js/donations.js:33 | the strip works character by character: stripping a concatenation concatenates the two strips |
| Text.DigitsOnlyKeepsDigits | js/donations.js:33 | stripping a run of digits changes nothing |
| Text.DigitsOnlyEmptyIff | js/donations.js:36 | the strip leaves nothing exactly when the value has no digit |
| Text.DigitsOnlyNonZero | js/donations.js:183-184 | the strip keeps whether the value has a digit other than 0 |
| Text.Decimal | js/donations.js:37 | the numeral of a number is a non-empty run of digits, starting with 0 only for zero, one digit exactly below ten |
| Text.StripZeros | js/donations.js:37 | dropping leading zeros keeps a suffix whose dropped prefix is all '0' and which starts with a non-zero digit, or is "0" |
| Text.DecimalRoundTrip | js/donations.js:37 | the value of the numeral printed for n is n |
| Text.ValueZeroIffNoNonZeroDigit | js/donations.js:184 | a run of digits parses to 0 exactly when no digit is non-zero |
| Text.LeadingZeroIgnored | js/donations.js:37 | a leading 0 does not change the parsed value |
| Text.CanonicalNumeral | js/donations.js:37 | a numeral without leading zeros is reprinted unchanged |
| Text.ReprintDropsLeadingZeros | js/donations.js:37 | parsing and reprinting a run of digits drops its leading zeros and nothing else |
| Text.GroupThousands | js/donations.js:37 | grouping adds one comma per full group of three digits beyond the first group |
| Text.GroupingKeepsDigits | js/donations.js:37 | removing the commas from a grouped numeral gives the digits back |
| Text.GroupingShape | js/donations.js:37 | a grouped numeral starts with a digit and holds a comma exactly at the positions followed by a multiple of four characters |
| Text.IndexOfFirst | js/branches.js:283 | the index of the first occurrence, or the length when there is none |
| Text.SplitCount | js/branches.js:284 | `split` gives exactly one piece when the separator does not occur, and more when it does |
| Email.MatchesStrictIsWellFormed | js/membership.js:147 | any split the strict regex accepts makes the address well formed: no whitespace, one '@', non-empty local part, a domain with an inner '.' |
| Email.WellFormedMatchesStrict | js/membership.js:147 | every well-formed address has a split the strict regex accepts |
| Email.MatchesStrictIff | js/donations.js:173 | the strict regex accepts exactly the well-formed addresses |
| Email.StrictImpliesLoose | js/main.js:212 | whatever the strict regex accepts, the loose one accepts |
| Email.LooseAcceptsSecondAt | js/main.js:212 | the loose regex accepts "a@b@c.d", which the strict one rejects |
| Forms.NotesWhereSound | js/donations.js:163-168 | the notes the loop appends are in field order, at most one per field, each with the given message on a selected field |
| Forms.NotesWhereComplete | js/donations.js:163-168 | a field gets a note exactly when the mask selects it |
| Forms.NotesWhereEmpty | js/donations.js:163-168 | no note exactly when no field is selected |
| Forms.RequiredNotesMeaning | js/donations.js:163-168 | one "This field is required" note per blank required field, in field order, and nothing else; none exactly when no required field is blank |
| Forms.BlankFieldOnlyRequired | js/donations.js:170-178 | a blank field that the format checks never note ends with the required note if it is required and with no note otherwise |
| Forms.FormatNotesOnePerField | js/donations.js:163-188 | format notes on non-blank fields never share a field with a required note |
| Forms.TwoFormatNotes | js/donations.js:154-191 | with two format checks on different fields: at most one note per field, and a note exactly on the failing fields |
| Forms.DropFirstNote | js/donations.js:207-210 | with no note for the field nothing changes; otherwise exactly the first note for it is removed and every other note stays, in order; no other field gains or loses a note |
| Forms.FirstNoteFor | js/donations.js:207 | the index of the field's first note: below the length it is a note for the field, and no earlier note is |
| Forms.DropOnlyNote | js/donations.js:206-212 | with at most one note per field, the listener's removal leaves any field it is applied to with no note |
| Forms.FirstEmailInputFirst | js/donations.js:171 | the first `input[type="email"]`, or none |
| Forms.FirstWithIdFirst | js/donations.js:181 | the first field with the id, or none |
| Forms.FormState.ClearNotes | js/donations.js:159-160 | every error note is removed; the fields and marks are kept |
| Forms.FormState.ClearMarks | js/membership.js:95-98 | every control loses its `error` class; the notes are kept |
| Forms.FormState.ShowError | js/donations.js:194-203 | one note for the field is appended and the field is marked |
| Forms.FormState.Input | js/donations.js:206-212 | typing into a marked field clears its mark and removes its first note; an unmarked field is unaffected |
| Forms.FormState.CheckEmail | js/donations.js:171-178 | the e-mail check fails exactly on a present, non-blank field the strict regex rejects, and then adds the note and marks the field |
| Forms.FormState.CheckRequired | js/donations.js:163-168 | appends exactly the required notes, marks exactly the blank required fields in addition to earlier marks, and returns whether no required field is blank |
| Forms.OthersHasNoMessages | js/membership.js:169-170 | after every form message is removed, none remains |
| Forms.RemoveFirstMessage | js/donations.js:221-224 | with no form message nothing changes; otherwise exactly the first form message is removed and every other node stays, in order |
| Forms.FirstMessageAt | js/donations.js:221 | the position found is at most the number of nodes and, below it, holds a form message |
| Forms.FirstMessageAtFirst | js/donations.js:221 | no form message lies before the position `querySelector('.form-message')` finds |
| Forms.RemoveFirstMessageKeeps | js/donations.js:221-224 | the removal leaves one form message fewer when there was one, and the same other nodes in the same order (also js/contact.js lines 95-98 and 157-160) |
| Forms.FormActions.ShowFormMessage | js/donations.js:216-245 | the new message becomes the first child after the first old one is removed; from at most one message, exactly one remains; other children are kept |
| Widgets.NavMenu.Toggle | js/main.js:12-15 | the list's `active` and the body's `menu-open` flip together and stay equal |
| Widgets.NavMenu.DocumentClick | js/main.js:19-26 | a click outside the nav and the toggle closes an open menu; any other click leaves it |
| Widgets.NavMenu.CloseForNavigation | js/branches.js:274-278 | an open menu closes, with both classes removed together (also js/main.js lines 165-168) |
| Widgets.Dropdown.constructor | js/branches.js:28-38 | the click handler exists only when the page loaded below 992 pixels |
| Widgets.Dropdown.Click | js/main.js:36-42 | the click toggles `active` and cancels navigation exactly when the handler exists and the window is below 992 pixels (also js/branches.js lines 31-37) |
| Widgets.Dropdown.Resize | js/branches.js:41-45 | a resize to 992 pixels or wider clears `active`; a narrower one keeps it (also js/main.js lines 46-50) |
| Widgets.ButtonGroup.Activate | js/events.js:35-36 | afterwards the clicked button is the only active one |
| Widgets.ExclusiveAccordion.Click | js/contact.js:121-131 | the clicked item toggles and every other item closes, so at most one is open (also js/donations.js lines 114-124) |
| Widgets.Reveal.constructor | js/branches.js:328-330 | every element starts observed and not animated |
| Widgets.Reveal.Deliver | js/branches.js:316-321 | an intersecting entry for an observed element animates it and stops observing it; any other entry changes nothing; no element is both observed and animated (also js/contact.js lines 198-204) |
| MainPage.SlidesPerView | js/main.js:64-73 | one slide below 768 pixels, three from 992, two in between |
| MainPage.SlidesPerViewMonotone | js/main.js:64-73 | a wider window never shows fewer slides |
| MainPage.MaxIndex | js/main.js:86 | the last index is at least 0 and at least count minus slides per view, and is one of the two |
| MainPage.Slider.constructor | js/main.js:59-100 | a slider over at least one slide starts at index 0, laid out for the current window, with prev disabled |
| MainPage.Slider.UpdateSlider | js/main.js:76-97 | the layout follows the window, an index past the last one is clamped to it, and each button is disabled exactly at its end |
| MainPage.Slider.Prev | js/main.js:103-108 | an index above 0 moves back one and the layout is redone; at 0 nothing changes |
| MainPage.Slider.Next | js/main.js:110-116 | a click on the enabled button moves the index on only while slides remain beyond the view of the current window, clamped to the last index, then the layout is redone; otherwise nothing changes |
| MainPage.NextAdvancesByOne | js/main.js:110-116 | in an unchanged window, next advances exactly when the index is below the last index, and by exactly one |
| MainPage.Header.HandleScroll | js/main.js:130-148 | past 100 pixels the header is sticky, and hidden while scrolling down; otherwise neither; a page without a header stops at the first class update |
| MainPage.AnchorClick | js/main.js:153-179 | a bare "#" does nothing; any other link cancels navigation and closes an open menu when its target exists |
| MainPage.SubmitMarksMeaning | js/main.js:189-222 | a field with at most one message keeps at most one; the `error` class and a message are present exactly when the field fails |
| MainPage.MarksAfterSubmit | js/main.js:187-222 | a field that is not required keeps its marks; a required field has the `error` class exactly when it fails, and from at most one message keeps at most one, present exactly when it fails |
| MainPage.SubmitForm.Submit | js/main.js:185-239 | submission is cancelled exactly when a required field fails or the form is a newsletter form; a passing newsletter form is replaced by its thank-you |
| MainPage.SubmitForm.Input | js/main.js:242-251 | typing clears the field's `error` class and the message right after it |
| MainPage.InViewIffOverlap | js/main.js:268-271 | the in-view test holds exactly when the element's extent and the window's extent share a position |
| MainPage.ScrollAnimator.CheckIfInView | js/main.js:257-275 | every element in view gains `animated`, and none loses it |
| EventsPage.SectionId | js/events.js:40 | the section id is the button's `data-view` text followed by "-view" |
| EventsPage.ViewToggle.Click | js/events.js:31-45 | the clicked button becomes the only active one, and exactly the sections with id `<view>-view` become active |
| EventsPage.OneSectionActive | js/events.js:39-45 | with distinct ids, at most one section is active, and one is active exactly when the id exists |
| EventsPage.FlexCountZero | js/events.js:107-111 | no card is counted exactly when no card is displayed as flex |
| EventsPage.EventGrid.UpdateLoadMoreButton | js/events.js:106-138 | with no card visible, the button is hidden and one no-results message exists; otherwise the button shows and the message is gone |
| EventsPage.EventGrid.FilterClick | js/events.js:69-100 | each card is shown exactly when it passes the type and location filters; the button is hidden exactly when no card passes; without a load-more button the button and the no-results message are untouched |
| EventsPage.GalleryFilter.Click | js/events.js:148-163 | the clicked button becomes the only active one, and exactly the items its filter selects are displayed |
| EventsPage.UpperAscii | js/events.js:385 | a lower-case letter becomes the capital at the same place in the alphabet; any other character is unchanged; the result is never a lower-case letter |
| EventsPage.FormatType | js/events.js:384-385 | same length; a lower-case first letter becomes its capital, any other first character stays; the rest is unchanged |
| EventsPage.FormatTypeIdempotent | js/events.js:385 | formatting twice is formatting once |
| EventsPage.LoadMoreButton.Click | js/events.js:449-451 | an enabled button shows "Loading..." and starts a timer; a disabled one ignores the click (also js/events.js lines 464-466) |
| EventsPage.LoadMoreButton.TimerFires | js/events.js:453-457 | the button ends disabled, with the class and its final text (also js/events.js lines 468-472) |
| DonationsPage.FormatAmount | js/donations.js:29-41 | the amount is emptied exactly when it has no digit |
| DonationsPage.FormatAmountMeaning | js/donations.js:33-38 | the formatted amount carries the same number, without leading zeros, in comma groups of three |
| DonationsPage.FormatAmountIdempotent | js/donations.js:29-41 | formatting a formatted amount changes nothing |
| DonationsPage.TierAmountMeaning | js/donations.js:67-68 | a tier heading with digits gives what typing it would give, and the input handler keeps it; one without digits gives "NaN" |
| DonationsPage.AmountAcceptedIff | js/donations.js:183-184 | an amount passes exactly when it has a digit other than 0, and formatting keeps whether it passes |
| DonationsPage.NaNAmountRejected | js/donations.js:182-186 | the "NaN" left by a heading without digits is not blank and fails the amount check |
| DonationsPage.PaymentOptions.constructor | js/donations.js:99-102 | the change handler runs once for the checked option, and nothing changes without one |
| DonationsPage.PaymentOptions.OnChange | js/donations.js:87-95 | "paystack" shows the Paystack fields and hides the bank fields, "bank" the reverse, each only when the section exists; anything else changes nothing |
| DonationsPage.DonationValidIffNoNotes | js/donations.js:154-191 | the form passes exactly when validation leaves no note |
| DonationsPage.BlankFieldOnlyRequired | js/donations.js:171-188 | a blank field never gets the e-mail or amount note, only the required note when required |
| DonationsPage.DonationNotesPerField | js/donations.js:194-212 | when the amount field is not the e-mail input: at most one note per field, a note exactly on the marked fields, and none left after typing in a marked field |
| DonationsPage.ValidateForm | js/donations.js:154-191 | the notes are the required notes, then the e-mail note, then the amount note; the result is whether all checks passed; the failing fields are marked in addition to earlier marks |
| DonationsPage.CheckAmount | js/donations.js:181-188 | the amount check fails exactly on a present, non-blank amount without a non-zero value, and then notes and marks it |
| DonationsPage.Submit | js/donations.js:134-150 | a valid form shows the thank-you message in `.form-actions`; an invalid one leaves the actions alone |
| MembershipPage.GraduationYearsMeaning | js/membership.js:21-29 | the years listed are exactly 1979 to the current year, strictly falling, newest first and 1979 last; none when the current year is before 1979 |
| MembershipPage.PopulateGraduationYears | js/membership.js:17-30 | the options gain exactly those years in that order; without the select nothing changes |
| MembershipPage.FaqIcons.Click | js/membership.js:41-53 | only the clicked item toggles; its icon is minus when open and plus when closed; icons that matched stay matched |
| MembershipPage.IsValidEmailIff | js/membership.js:146-149 | `isValidEmail` accepts exactly the well-formed addresses |
| MembershipPage.IsValidPhoneIff | js/membership.js:156-160 | a phone passes exactly when, after one leading '+', at least ten characters remain, each a digit, whitespace, '-', '(' or ')' |
| MembershipPage.PhoneCountsCharacters | js/membership.js:157-158 | ten dashes pass with no digit at all, while nine digits fail |
| MembershipPage.MembershipValidIffNoNotes | js/membership.js:86-123 | the form passes exactly when validation leaves no note |
| MembershipPage.BlankFieldOnlyRequired | js/membership.js:108-120 | a blank e-mail or phone field gets only the required note, when required |
| MembershipPage.ValidateForm | js/membership.js:86-123 | old notes and marks are cleared; the notes are required, then `#email`, then `#phone`; exactly the failing fields are marked; the result is whether all passed |
| MembershipPage.CheckPhone | js/membership.js:116-120 | the phone check fails exactly on a present, non-blank `#phone` the regex rejects, and then notes and marks it |
| MembershipPage.FirstSubmit | js/membership.js:173 | the first `.form-submit`, or none |
| MembershipPage.PlacedMeaning | js/membership.js:179-183 | placing a message among message-free nodes keeps them in order and adds one message exactly when there is a `.form-submit` or a container, directly before the first `.form-submit` when there is one |
| MembershipPage.MessageArea.ShowFormMessage | js/membership.js:167-183 | every old message goes; the new one lands directly before the first `.form-submit`, else at the container's end, else nowhere; one message exactly when placed; other nodes kept |
| MembershipPage.Submit | js/membership.js:65-78 | a valid form removes every old message and places the success message before the first `.form-submit`, else at the container's end; an invalid one leaves the messages alone |
| ContactPage.ValidateEmailIff | js/contact.js:187-190 | `validateEmail` accepts exactly the well-formed addresses |
| ContactPage.ContactValidIffNoNotes | js/contact.js:41-68 | the form passes exactly when validation leaves no note |
| ContactPage.BlankFieldOnlyRequired | js/contact.js:58-65 | a blank e-mail field gets only the required note, when required |
| ContactPage.ContactNotesPerField | js/contact.js:71-87 | at most one note per field, a note exactly on the marked fields, and none left after typing in a marked field |
| ContactPage.ValidateForm | js/contact.js:41-68 | old notes are cleared; the notes are the required notes then the e-mail note; the failing fields are marked in addition to earlier marks; the result is whether all passed |
| ContactPage.Submit | js/contact.js:23-37 | a valid form shows the thank-you message at the front of `.form-actions`; an invalid one leaves it alone |
| ContactPage.NewsletterForm.Submit | js/contact.js:142-183 | no e-mail input: nothing; a valid address: one success message and the form reset; otherwise one error message and the value kept; always exactly one message, other nodes kept |
| BranchesPage.ShowsBranchUnique | js/branches.js:153-240 | there is one way to show a branch: header, events in order, achievements in order |
| BranchesPage.RenderBranch | js/branches.js:153-240 | the content is the name, location, six information items, each event in stored order, then each achievement in stored order |
| BranchesPage.BranchModal.DetailClick | js/branches.js:148-246 | a known branch fills and shows the modal and locks scrolling; an unknown name, "null" included, changes nothing |
| BranchesPage.BranchModal.CloseClick | js/branches.js:251-254 | the modal hides and scrolling is restored; content kept |
| BranchesPage.BranchModal.WindowClick | js/branches.js:257-262 | only a click on the backdrop hides the modal and restores scrolling |
| BranchesPage.SplitSecond | js/branches.js:284 | the second piece of a split is the text between the first separator and the next one or the end |
| BranchesPage.HashTargetMeaning | js/branches.js:281-285 | an href with '#' is reduced to '#' and the text between its first '#' and the next '#' or the end |
| BranchesPage.HashTargetFixed | js/branches.js:283-285 | '#' followed by text without '#' is kept as it is |
| BranchesPage.HashTargetIdempotent | js/branches.js:283-285 | the target holds no further '#', so reducing it again changes nothing |
| BranchesPage.BranchCards.Navigate | js/branches.js:270-299 | an open menu closes; when the target exists, it is highlighted and every other branch card loses the highlight |
| BranchesPage.BranchCards.HighlightExpires | js/branches.js:301-303 | later, the target loses the highlight |

## Left out

- The FullCalendar setup, its rendering and `updateSize`, the event table, and `showEventDetails` apart from the type capitalisation: third-party widget configuration and locale date formatting.
- SimpleLightbox and its fallback of setting `target="_blank"` on gallery links: an opaque library.
- Pixel and percentage arithmetic: slide widths, `translateX` offsets, `scrollTo` and `scrollIntoView` offsets, and the header's transform values. This is browser layout and floating point. The header's transform is kept only as hidden or shown.
- Timer delays: the 250 ms slider resize, the 10 ms calendar refresh, the one-second load-more delay, the 2 s highlight removal, the 3 s `form.reset()` after a valid donation, membership or contact form, and the 5 s removal of a membership success message. The load-more and highlight timers are separate later steps; the resets and the 5 s removal are not modelled.
- Injected CSS and HTML markup: styling only. Rendered content is kept as ordered items, not markup, so HTML in a branch record is not escaped or interpreted.
- js/executive.js: touch-hover classes and pixel scrolling only. The membership page's own anchor smooth scrolling (js/membership.js:194-208) only scrolls.
- UTF-16: strings are sequences of Unicode scalar values, so lone surrogates are not modelled. `toUpperCase` is modelled for ASCII letters only.
- `parseInt` above 2^53 is not modelled: the model parses exact integers, while the browser loses precision. `toLocaleString('en-NG')` is modelled as comma groups of three.
- MainPage.ScrollAnimator.CheckIfInView: works over the elements that carry `animate-on-scroll` in the markup. The `.stat-item` and `.spotlight-card` elements tagged at js/main.js:278-284 are tagged after the list at js/main.js:255 was taken, so they are not in it.
- MainPage.Header.HandleScroll: on a page without `.header` the handler throws at its first class update. This is modelled as no change.
- Forms.FormState.Input: the `input` listener is present exactly on fields that `showError` marked. Each field is assumed to have its own parent element, so the listener's `.error-message` lookup finds only that field's note. The membership page's `showError` adds no listener and does not use it.
- DonationsPage.ValidateForm: `#donationAmount` is looked up in the whole document. The model looks it up among the form's own fields.
- MembershipPage.MessageArea.ShowFormMessage: the form messages, the `.form-submit` rows and the container are one sequence of nodes in document order. Appending to `.form-container` is modelled as appending at the end of that sequence.
- MembershipPage.FaqIcons.Click: each FAQ item is assumed to have its toggle icon. Without one, the handler throws after toggling the item.
- BranchesPage.BranchCards.Navigate: the element `querySelector` returns is a parameter. A selector the browser rejects, such as a bare "#", throws. This leaves the same state as no match and is modelled as no match.
- BranchesPage.BranchModal.DetailClick: a `data-branch` naming a property inherited from `Object.prototype` throws before any change. This is the same outcome as an unknown name. The literal branch records are not modelled; the lookup works over any table.
- Widgets.Reveal: the observer's thresholds (0.1, 0.2) and the opacity and transform styles are not modelled; only the one-shot `animate` outcome is.
- The events page's `.load-more .btn` is assumed to be a `<button>`, so that setting `disabled` stops further clicks.
- EventsPage.EventGrid.UpdateLoadMoreButton: the visible cards are found with the selector `.event-card[style="display: flex;"]` (js/events.js:107), which matches only a card whose whole inline style is exactly that text. The model counts every card whose display is flex, so it assumes the filter's `display` assignment is the card's only inline style.
- EventsPage.EventGrid.UpdateLoadMoreButton: when no card is visible and no `.no-results` message exists, `eventsGrid.after(...)` (js/events.js:125-126) throws on a page without `.events-grid`. The model assumes the grid exists.
- MainPage.SubmitForm.Input: the listener is attached only to the form's `input` and `textarea` elements (js/main.js:242). A `select` gets none. The model lets input reach any field, so it does not tell a `select` apart.
- MainPage.Slider.Prev: a click reaches the handler only while the button is enabled, that is, above index 0. The model still accepts a click at index 0 and leaves everything unchanged there, as the handler's own guard does.

# Netflix-clone page script, modelled in Dafny

This project models the single client-side script of a marketing site. The script wires four independent behaviours when the page has loaded:

- the FAQ accordion;
- the language selector dropdown;
- the sign-in button and the two email-capture forms;
- the signup step wizard.

The DOM is replaced by plain state:

- FAQ entries become an `array<bool>` of `active` flags.
- The dropdown becomes a class with three fields: the panel's visibility, the trigger's text and the document's language.
- Step containers become an array of `(name, active)` records.
- Each button binding becomes a function that returns the `Effect` it leaves for the browser: a navigation, an alert, a thrown error, or nothing.

Modules, one per behaviour:

- `Browser` (`browser.dfy`): `Option`, `Effect`, and `String.prototype.includes` as `Includes`, proved equal to "there is an index where `sub` occurs".
- `Faq` (`faq.dfy`): `Click` is the click handler as an in-place loop over the flags. It is proved to produce `Clicked`, which is "close every other entry, then toggle the clicked one".
- `LanguageMenu` (`language.dfy`): the fixed language table, pure transition functions (`AfterTrigger`, `AfterRow`, `AfterDocument`, `AfterClick`), and the class `Menu`. `Menu`'s handlers are proved to follow those functions, and `Menu` keeps the panel's rows equal to the table.
- `Navigation` (`navigation.dfy`): the email check `Accepts`, the signup URL and its parameter read-back, the sign-in binding, and `CaptureClick`. `CaptureClick` is the one behaviour shared by the hero form and the FAQ-section form.
- `SignupWizard` (`wizard.dfy`): the button table, "first step matching a selector" (`FirstWhere`), the in-page move `Advance`, and the class `Wizard`. A wizard click either schedules the browse page or performs `Advance`.

Where the code and the prose description of the site differ, this model follows the code:

- The description says exactly one step is active and the wizard only moves forward. The code enforces neither. A wired button moves from the first active step to its table target, whichever step that is. `Advance` models this. "Exactly one step shown" is proved only as a preserved property (`AdvanceKeepsOneStepShown`).
- Each table value is the step shown next. `plan-continue-btn` shows `step-1`, and `step-4` is never shown in the page.

## Model

| member | source | states |
|---|---|---|
| Browser.Includes | script.js:119 | `includes` is true exactly when `sub` occurs at some index of `s` |
| Browser.IncludesCharacter | script.js:97 | searching for a one-character string is the same as that character being a member of the string |
| Faq.CloseOthers | script.js:8-12 | after the "close others" pass, each entry is open exactly when it was open before and is the clicked one |
| Faq.Clicked | script.js:8-15 | after a click on entry `i`: entry `i` holds the negation of its old flag, every other entry is closed, and at most one entry is open |
| Faq.Click | script.js:5-16 | the in-place handler leaves the flags equal to `Clicked` of the old flags |
| Faq.ClickedOpensOnlyClickedEntry | script.js:8-15 | the set of open entries after the click is `{i}` if `i` was closed, and empty if it was open |
| Faq.ClickedTwice | script.js:8-15 | two clicks on the same entry give it back its old state and leave all other entries closed |
| LanguageMenu.AfterTrigger | script.js:73 | a trigger click flips visibility and leaves the text and language alone |
| LanguageMenu.AfterRow | script.js:57-62 | clicking row `k` hides the panel, sets the trigger text to `Languages[k].name` and the language to `Languages[k].code` |
| LanguageMenu.AfterDocument | script.js:77-81 | the document handler keeps the panel visible only if it was visible and the target is the trigger or inside the panel; text and language unchanged |
| LanguageMenu.TriggerClickToggles | script.js:69-81 | a whole click on the trigger flips visibility, and the document handler does not undo it |
| LanguageMenu.TriggerContentClickHides | script.js:69-80 | a click on an element nested inside the trigger runs the trigger's handler, but the document's handler then hides the panel, so the panel ends hidden |
| LanguageMenu.AfterClick | script.js:57-81 | a whole click (element handler, then document handler) leaves the panel visible exactly when it was a hidden panel's trigger click or a click on a visible panel outside every row; a row click sets that row's name and code; other clicks keep text and language; without a trigger nothing changes |
| LanguageMenu.TriggerClickTwiceRestores | script.js:73 | two trigger clicks restore the state |
| LanguageMenu.RowClickSelects | script.js:57-62 | a whole click on row `k` yields hidden, `Languages[k].name`, `Languages[k].code`, whatever the state before |
| LanguageMenu.SelectionDeterminesRow | script.js:35-40 | the four codes are distinct, so the resulting language identifies the row clicked |
| LanguageMenu.OtherClicks | script.js:77-81 | an outside click hides the panel; a click on the panel outside every row changes nothing |
| LanguageMenu.UnwiredClickChangesNothing | script.js:21 | without a trigger no click changes anything |
| LanguageMenu.Menu.constructor | script.js:23-67 | the panel starts hidden, and its rows are exactly the four `(name, code)` pairs in order (none without a trigger) |
| LanguageMenu.Menu.TriggerClicked | script.js:69-74 | the trigger handler's new state is `AfterTrigger` of the old one; rows unchanged |
| LanguageMenu.Menu.RowClicked | script.js:57-62 | the row handler reads the row's own text and code and reaches `AfterRow` of the old state |
| LanguageMenu.Menu.DocumentClicked | script.js:77-81 | the document handler's new state is `AfterDocument` of the old one |
| LanguageMenu.Menu.Click | script.js:57-81 | the element's handler and then the document's reach `AfterClick` of the old state |
| Navigation.Accepts | script.js:97 | `email && email.includes('@')` holds exactly when the email contains `'@'` (the non-empty test is implied) |
| Navigation.SignupUrl | script.js:98 | the URL is `signup.html?email=` followed by the encoded email |
| Navigation.SignupUrlRoundTrip | script.js:98 | reading the parameter back from a signup URL gives the encoded email |
| Navigation.SignInClick | script.js:85-90 | the sign-in button navigates to `login.html`; when it is absent nothing happens |
| Navigation.CaptureOutcome | script.js:94-116 | a capture click navigates exactly when the email contains `'@'`, and then to the signup URL that carries the encoded email; otherwise it raises the alert and does not navigate |
| Navigation.NavigationImpliesAccepted | script.js:97-98 | every capture navigation comes from an input whose value contains `'@'` |
| Navigation.CaptureClick | script.js:95-102 | the handler of both forms: no handler without the button, a TypeError without the input, a navigation only to the signup URL of an input containing `'@'`, and the alert only for an input without `'@'` |
| Navigation.MissingButtonChangesNothing | script.js:94 | a form without its button has no handler, so a click has no effect |
| Navigation.MissingInputThrows | script.js:96 | with the button but no input field, the handler throws a TypeError and neither navigates nor alerts |
| Navigation.AcceptsExamples | script.js:97-98 | `"a@b"` passes, `""` and `"abc"` fail, and `x@y.com` goes to `signup.html?email=x%40y.com` given that encoding |
| SignupWizard.FirstWhere | script.js:142-143 | the query finds the first step in document order that matches, and finds none only when no step matches |
| SignupWizard.CurrentStep | script.js:142 | `.step.active` finds the first active step in document order, and none exactly when no step is active |
| SignupWizard.FindStep | script.js:143 | `.step-N` finds the first step of that name in document order, and none exactly when no step has it |
| SignupWizard.Advance | script.js:142-152 | an in-page move keeps every step's name and the number of steps |
| SignupWizard.AdvanceActiveSteps | script.js:142-152 | if both steps exist, the set of active steps loses the first active step and gains the target; otherwise the steps are unchanged |
| SignupWizard.AdvanceKeepsOneStepShown | script.js:145-149 | with exactly one step active, a move to an existing step leaves exactly the target active |
| SignupWizard.TableTargets | script.js:120-125 | in-page targets are `step-1`..`step-3`, only `start-membership-btn` leads to `step-4`, and `plan-continue-btn` leads to `step-1` |
| SignupWizard.AdvanceNeverShowsFinalStep | script.js:135-149 | a move to any other step never activates a hidden `step-4` |
| SignupWizard.StepOneToStepTwo | script.js:142-149 | from step 1, the registration button's move deactivates step 1 and activates step 2, leaving the other steps alone |
| SignupWizard.Wizard.constructor | script.js:119-130 | the wizard is wired only when the pathname includes `signup.html`, and nothing is scheduled yet |
| SignupWizard.Wizard.Click | script.js:128-156 | the final-step button leaves every step unchanged and appends `browse.html` to the scheduled navigations; any other wired button performs `Advance` to its target; an unwired click changes nothing |

## Left out

- Inline styling of the panel and the hover highlighting of rows (script.js:26-32, 45-55): they are cosmetic.
- Positioning the panel from `getBoundingClientRect` and the scroll offsets (script.js:70-72): this is floating-point pixel arithmetic supplied by the browser.
- The 1000 ms delay of `setTimeout` (script.js:137-139): the redirect is recorded as a scheduled navigation, not carried out.
- `window.scrollTo`, `alert` display and `preventDefault` (script.js:100, 113, 132, 151): these are browser side effects. The alert is kept only as the returned `Effect`.
- `encodeURIComponent` is a parameter `encode`. The percent-encoding of section 19.2.6.5 of ECMA-262 is a built-in library function and is not re-derived here.
- CSS selector matching, event bubbling and document order are abstracted:
  - "the first active step" and "the first step of a class" are `FirstWhere`;
  - where a click lands is a `Target` (the trigger, an element inside the trigger, a row, the panel, outside);
  - which elements exist are flags and id sets.
- The three `Menu` handler methods require `wired`: a handler exists only when the trigger exists. `Menu.Click` handles the unwired case.
- LanguageMenu.TriggerClickToggles: holds for a click on the button element itself. A click on an element nested inside the button is the separate target `TriggerContent`, which never opens the panel (`TriggerContentClickHides`). The model does not track whether the button still has nested elements: the first row selection replaces its children with plain text (script.js:58), after which such clicks no longer occur.
- Navigation.CaptureOutcome: `encodeURIComponent` throws a URIError on a string holding an unpaired surrogate. Dafny's `char` cannot hold one, so that input and that error lie outside the model.
- A thrown TypeError (`Thrown`) is the handler's only effect in the model; the message it writes to the browser console is not modelled.
- Navigation is a returned `Effect`. The model does not keep `window.location` as state, so leaving the page does not stop later handlers.

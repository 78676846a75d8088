# JAV download page: verified model of the page script

This project models the behaviour of `script.js`, the script of the JAV
download page, in Dafny and proves properties of the model. The script wires
up the page's interactive parts:

- **Field validation.** Trim the value, then apply four rules in order: required, email pattern, minimum name length, minimum message length. Show at most one inline error message per field.
- **Two form handlers.** The feedback form sends without validating. The course-request form validates every required field and sends only when all of them pass. Both put the submit button into a busy state and always restore it.
- **The mail helpers.** They compose a `mailto:` URI from a submission record with `encodeURIComponent`.
- **The tab switcher, the hamburger menu, the notification helper and the download buttons.**

Modules, one per concern:

| module | file | models |
|---|---|---|
| `JsText` | `js_text.dfy` | `String.prototype.trim` (the ECMAScript white-space and line-terminator set), `.length` in UTF-16 code units, `includes`, and helpers for finding and counting a character |
| `Email` | `email.dfy` | `isValidEmail`: the pattern `^[^\s@]+@[^\s@]+\.[^\s@]+$` read literally, proved equal to a direct check of the string's shape |
| `Validation` | `validation.dfy` | the rule chain of `validateField`: which message, if any, a control gets |
| `Dom` | `dom.dfy` | the page as a value: control values, `error` classes, each parent's children; `validateField`'s effect on them |
| `UriComponent` | `uri_component.dfy` | `encodeURIComponent` (UTF-8 bytes, upper-case `%XX` escapes) and a decoder proved to invert it |
| `Mailto` | `mailto.dfy` | the two mail templates, `courseCode \|\| 'N/A'`, the `mailto:` URI and what a mail client reads back from it |
| `Notices` | `notices.dfy` | `showNotification`'s type branch; the download button's Play Store branch |
| `Forms` | `forms.dfy` | the `Form` class: `validateField`, the `input` listener, the validation loop, `reset`, marker clearing, both submit handlers |
| `Tabs` | `tabs.dfy` | the `TabSet` class and its click handler |
| `Menu` | `menu.dfy` | the hamburger and navigation-link handlers, on values and as the `NavMenu` class |

The environment is passed in as parameters:

- The exception `window.open` may throw is the `openError` parameter.
- The ISO timestamp (`new Date().toISOString()`) is the `timestamp` parameter.
- Each submit handler returns the record it hands to its mail helper (`sent`). The helper opens `Mailto.FeedbackMailto(sent)` or `Mailto.CourseRequestMailto(sent)`.
- The helpers are `async` but never wait on anything, so each handler is modelled as one sequential method.

Two behaviours of the code are worth stating outright:

- **The feedback form is not validated.** The feedback handler (script.js:67-105) never calls `validateField`, so it composes and opens the mail whatever the fields hold, a five-character message included. `Forms.Form.SubmitFeedback` has no validation path. Only a later `blur` marks such a field: the `input` listener re-validates a field only when it already carries `error` (script.js:327).
- **Error messages per field.** `validateField` removes only the *first* `.error-message` under the field's parent (script.js:340-343). Two controls that share a parent therefore share one removal slot. `Dom.SharedParentTakesFirstMessage` shows one control removing the other's message. `Dom.ValidatedIdempotent` states idempotence under the condition the code needs: at most one message under that parent.

## Model

| member | source | states |
|---|---|---|
| JsText.TrimStartSpec | script.js:334 | the leading part `trim` drops is all white space, and what remains is empty or starts with a non-white-space character |
| JsText.TrimEndSpec | script.js:334 | the trailing part `trim` drops is all white space, and what remains is empty or ends with a non-white-space character |
| JsText.TrimIsWhitespaceBoundedInfix | script.js:334 | the input is the trimmed value with white-space runs before and after it |
| JsText.TrimIdempotent | script.js:334 | trimming a trimmed value changes nothing |
| JsText.TrimEmptyIffAllWhitespace | script.js:346 | `!value` after trimming holds exactly when the raw value is all white space |
| JsText.Utf16LengthBounds | script.js:352 | `.length` counts each astral character twice: it lies between the number of characters and twice that |
| Email.ValidEmailMatchesRegex | script.js:373-376 | every string the shape check accepts is matched by the pattern |
| Email.RegexMatchIsValidEmail | script.js:373-376 | every string the pattern matches passes the shape check |
| Email.IsValidEmailIffRegex | script.js:373-376 | `isValidEmail` holds exactly when the pattern matches: no white space, one `@` with text before it, a `.` strictly inside the domain |
| Email.EmailAcceptsShortest | script.js:373-376 | the minimal shape `x@y.z` is accepted |
| Email.EmailAcceptsExamples | script.js:373-376 | `jo@x.com` is accepted |
| Email.EmailRejectsMissingParts | script.js:373-376 | `a@b`, `foo.com`, `@b.c`, `a@.c` and `a@b.` are rejected |
| Email.EmailRejectsSpaceAndSecondAt | script.js:373-376 | `a b@c.d` and `a@b@c.d` are rejected |
| Validation.RequiredRuleFirst | script.js:346-348 | a required control is rejected with "This field is required" exactly when its value is all white space, before any other rule |
| Validation.EmailRule | script.js:349-351 | an email input whose value is not all white space is rejected with the email message exactly when its trimmed value fails the pattern, and passes otherwise |
| Validation.NameRule | script.js:352-354 | a text input named `name` with a non-blank value is rejected with the name message exactly when its trimmed value is shorter than 2 UTF-16 units, and passes otherwise |
| Validation.NameRuleOnlyForName | script.js:352 | the two-character minimum never applies to a text input with any other name |
| Validation.TextareaRule | script.js:355-357 | a textarea whose value is not all white space is rejected with the message-length text exactly when its trimmed value is shorter than 10 UTF-16 units, and passes otherwise |
| Validation.BlankOptionalPasses | script.js:345-358 | a control that is not required and whose value is all white space always passes |
| Validation.CheckIgnoresPadding | script.js:334 | the verdict depends on the trimmed value only |
| Validation.TwoLetterNamePasses | script.js:352-354 | `Jo` passes the name rule |
| Validation.PaddedOneLetterNameFails | script.js:334-354 | ` J ` fails the name rule, because the padding is trimmed away |
| Validation.AstralNamePasses | script.js:352-354 | one astral character is two UTF-16 units long, so it passes the name rule |
| Validation.ShortMessageFails | script.js:355-357 | a five-character message fails the textarea rule |
| Validation.EmailFieldExamples | script.js:349-351 | `jo@x.com` passes a required email input, and a blank value gets the required message rather than the email message |
| Dom.RemoveFirstErrorMessage | script.js:340-343 | removes one error message when there is one, and otherwise leaves the children unchanged; the other children are kept in order |
| Dom.RemoveFirstErrorMessageTakesFirst | script.js:340-343 | the message removed is the first one, preceded by no other error message, and every other child keeps its place |
| Dom.RedecorateErrorCount | script.js:338-370 | under a parent holding at most one message, validation leaves exactly one message, the verdict's and last, when the control fails, and none when it passes; the other children are kept in order |
| Dom.RedecorateIdempotent | script.js:338-370 | validating twice under a parent holding at most one message equals validating once |
| Dom.SharedParentTakesFirstMessage | script.js:340-343 | validating a second control under a parent removes the first control's message, not its own |
| Dom.OthersIdempotent | script.js:198 | after every error message is removed none is left, and removing again changes nothing |
| Dom.ValidatedAll | script.js:176-182 | validating a list of controls keeps every value and the shape of the state |
| Dom.ValidatedAllErrorClass | script.js:177-181 | after the loop a control carries `error` exactly when it was validated and failed; the others keep their class |
| Dom.ValidatedAllKeepsOthers | script.js:177-181 | the loop changes no child other than error messages |
| Dom.ValidatedAllUntouched | script.js:177-181 | a parent none of whose controls is validated keeps its children |
| Dom.ValidatedAllSingle | script.js:177-181 | a parent with exactly one validated control ends as that control's single validation leaves it |
| Dom.ValidatedAllAtMostOne | script.js:177-181 | a parent that starts with at most one error message still holds at most one after the loop |
| Dom.ValidatedIdempotent | script.js:333-371 | validating a control twice yields the same class and the same single message as validating it once |
| UriComponent.Utf8 | script.js:114 | a character is encoded in one to four bytes |
| UriComponent.Encode | script.js:114-121 | the result holds only unreserved characters and `%`, so none of the delimiters `&`, `=`, `?` or `#` |
| UriComponent.DecodeEncode | script.js:114-121 | `decodeURIComponent(encodeURIComponent(s)) === s` for every string |
| UriComponent.EncodeUnreservedIdentity | script.js:114 | a string of unreserved characters is left as it is |
| UriComponent.EncodeAppend | script.js:114-121 | encoding distributes over concatenation |
| UriComponent.EncodeSpaceExample | script.js:114 | `a b` becomes `a%20b` |
| UriComponent.EncodeAmpersandExample | script.js:114 | `&` becomes `%26` |
| UriComponent.EncodeNonAsciiExample | script.js:114 | `é` becomes `%C3%A9`, the escapes of its two UTF-8 bytes |
| Mailto.CodeOrFallback | script.js:219 | an absent or empty course code shows as `N/A`, and any other code as given |
| Mailto.ParseFieldsRoundTrip | script.js:123 | the two encoded fields split at `&body=` and decode to the original subject and body |
| Mailto.MailtoRoundTrip | script.js:123 | a mail client reading the URI gets the recipient and exactly the subject and body that were encoded |
| Mailto.FeedbackMailtoReads | script.js:109-126 | the feedback mail reads as the `JAV Feedback:` subject and the feedback template, addressed to the maintainer |
| Mailto.CourseRequestMailtoReads | script.js:212-232 | the course-request mail reads as the `New Course Request:` subject and the course template |
| Mailto.CourseCodeLine | script.js:214-220 | the body's course-code line reads `N/A` for an absent or empty code and shows any other code as given |
| Notices.ShowNotification | script.js:37-51 | the notice shows the message; `error`, `warning` and `info` each get their own background, and any other type, including the default `success`, gets none |
| Notices.DownloadClick | script.js:6-27 | a Play Store button shows the info notice "coming soon" and nothing else; any other button shows the `Starting download...` loader label and reports its `href` |
| Forms.CourseErrorText | script.js:202 | the error notice shows the exception's message when it mentions `required`, and the generic apology otherwise |
| Forms.RequiredErrorShownVerbatim | script.js:184-202 | the validation gate's message is shown word for word |
| Forms.IndexNamed | script.js:164-173 | `formData.get` reads the first control with the name, and `null` only when there is none |
| Forms.RequiredBelow | script.js:177 | `querySelectorAll('[required]')` yields exactly the required controls, each once, in document order |
| Forms.RequiredPassIff | script.js:176-186 | the loop's flag stays true exactly when every required control passes the rule chain |
| Forms.UnmarkedClean | script.js:196-198 | after clearing, no parent holds an error message and the other children are unchanged |
| Forms.UnmarkedAfterValidation | script.js:176-198 | clearing after validation leaves the same children as clearing before it |
| Forms.Form.ValidateField | script.js:333-371 | the new state is the single validation of the control |
| Forms.Form.Input | script.js:326-330 | the value is updated, and the control is validated again only if it carried `error` |
| Forms.Form.ValidateAll | script.js:176-182 | the state after the loop is `ValidatedAll`, and the flag is true exactly when every listed control passes |
| Forms.Form.Reset | script.js:195 | every control gets back its default value |
| Forms.Form.ClearErrorMarkers | script.js:197-198 | no control keeps the `error` class and every error message is removed |
| Forms.Form.SubmitFeedback | script.js:67-105 | sends the record of the current values without validating; on success thanks the user and resets the form, on a thrown open shows the apology and keeps the values; the button is always restored |
| Forms.Form.SubmitCourseRequest | script.js:152-208 | a record is sent only when every required control passes; otherwise "Please fill all required fields." is shown, the markers are those validation left, and the values are kept; on success the form is reset and cleared of markers; a thrown open shows the apology; the button is always restored |
| Tabs.PanelIndex | script.js:252 | `getElementById` finds the first panel with the target id, and `null` only when none has it |
| Tabs.TabSet.Click | script.js:243-253 | afterwards the clicked tab is the only active tab and the target panel is the only active panel; with no such panel none is active and the handler has thrown |
| Tabs.ClickLeavesOnePair | script.js:246-252 | exactly one tab and exactly one panel are active afterwards |
| Menu.Toggled | script.js:262-272 | both markers flip, and scrolling is locked exactly when the menu ends up open |
| Menu.ToggledKeepsCoupled | script.js:262-272 | a hamburger click keeps both markers and the scroll lock in step |
| Menu.ToggledTwice | script.js:262-272 | opening then closing, or closing then opening, restores both markers and the scroll lock |
| Menu.LinkClicked | script.js:275-282 | a link click while the menu is open closes both and unlocks scrolling; while it is closed it changes nothing |
| Menu.LinkClickedKeepsCoupled | script.js:275-282 | a link click keeps the state coupled and leaves the menu closed |
| Menu.RunKeepsCoupled | script.js:261-283 | any sequence of clicks keeps both markers and the scroll lock in step |
| Menu.MenuOpenIffOddToggles | script.js:261-283 | from page load the menu is open exactly when an odd number of hamburger clicks followed the last link click |
| Menu.NavMenu.Toggle | script.js:262-272 | the hamburger handler moves the page to `Toggled` of its state |
| Menu.NavMenu.NavLinkClick | script.js:275-282 | the link handler moves the page to `LinkClicked` of its state |

## Left out

- Event registration: the `DOMContentLoaded` wrapper and `addEventListener` calls are not modelled. Each handler is a method, and the elements the code looks up are given to the classes. The guards that install a handler only when its elements exist become the constructors' requirements.
- The `blur` listener (script.js:322-324): it only calls `validateField`, which `Forms.Form.ValidateField` models.
- Timers:
  - the download button's label restore and its "Download started!" notice (script.js:18-23);
  - the notice's fade and removal (script.js:55-60);
  - the download-status text (script.js:286-303).
  They are deferred DOM writes with no logic to prove. So the model does not state that a notice removes itself.
- The `setTimeout` race: a second click before the timer fires would restore a busy label. It is not modelled because timers are left out.
- `trackDownload`'s `console.log`, the `console.error` calls, the smooth scrolling (script.js:306-317) and the scroll-reveal `IntersectionObserver` (script.js:379-399): these are logging and visual effects.
- Style values: the gradient and inline style strings, and the loader's markup beyond the busy labels. `Notices.Treatment` names the three backgrounds instead.
- The submit button: each `Form` is given its `.submit-btn`. When a form has none, script.js:71 and script.js:156 throw a `TypeError` outside the `try`, and the model does not cover that case.
- `window.open`: a foreign call. It becomes the `openError` parameter, and the handlers end at the record handed to the mail helper.
- The commented-out EmailJS alternative (script.js:129-145): it is dead code.
- `new Date().toISOString()`: becomes the `timestamp` parameter.
- `FormData` details:
  - disabled and unnamed controls, check boxes and `select` elements are not distinguished;
  - `formData.get` returns the control's current value.
- `Forms.Form.Input`: the browser's own value update is its `v` parameter.
- Document structure:
  - Error messages are modelled as direct children of a control's parent. The `querySelector` calls search all descendants; nested markup is not modelled.
  - `error` classes on elements other than the controls are not modelled.
- `Tabs.TabSet.Click`: `getElementById` is modelled over the tab panels only. An element outside the panels that carries the target id, and a missing `data-tab` attribute, are not modelled.
- `UriComponent.Encode`: strings are sequences of Unicode scalar values, so the `URIError` that `encodeURIComponent` throws on a lone surrogate cannot arise.
- `Menu.ToggledTwice`: stated for pages whose two markers and scroll lock start in step, as they do on load (`Menu.MenuOpenIffOddToggles`). From any other starting state, a hamburger click recomputes the scroll lock rather than restoring it.

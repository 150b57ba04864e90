# Contact form, counters, notifications and portfolio filter of the MNL-AI site script

This project models the parts of `script-with-loader-fallback.js`, the site's single browser
script, that carry rules of their own, with the DOM, timers and the network replaced by
plain values:

- **Validation** (`validation.dfy`): the rule table for `name`, `email` and `message`; the
  per-field checks in the order required, pattern, minimum length, where the first failure
  decides the field's single message; the email regular expression as a string scan, proved
  equal to the regex's own reading; and `validateForm` as a loop proved equal to a pure
  verdict function.
- **Counters** (`counters.dfy`): the parse of a counter's text (all digits of the trimmed
  text, concatenated), the independent format flags and their fixed rendering precedence,
  the quartic ease-out computed exactly, the forced last frame, and the one latch shared by
  the whole group (`CounterGroup`).
- **Notifications** (`notifications.dfy`): the visible notifications as a sequence; `Show`
  removes every one before attaching the new one; removal is a no-op once a notification
  is detached (`NotificationCenter`).
- **Submission** (`submission.dfy`): the submit listener, the busy button, the
  classification of the reply, the success modal and form reset, the single fixed error
  notification, and the `finally` restore of the button (`ContactForm`).
- **Portfolio** (`portfolio.dfy`): the filter chips' item filter and the Quick View lookup
  by id.
- `jstext.dfy` holds JavaScript string semantics shared by the above: the whitespace set of
  `trim` and `\s`, `trim`, UTF-16 `length`, digit extraction, `parseInt` and `toString` on
  non-negative integers. `wrappers.dfy` holds `Option`.

The counter target is the number formed by *all* digits of the text concatenated
(`replace(/[^\d]/g, '')`), not by the first run of digits, so " 1,200+ " counts to 1200
(`AllDigitsConcatenated`). A reply whose body is `null` or not JSON, or whose `success` is
any falsy value, fails like a non-ok status. If the success modal is absent, `showSuccessModal` is never installed; a successful
reply then throws inside the handler. The catch shows the error notification and the form
is not reset (`ContactForm.Settle`, `modalInstalled`). The template literals at
script-with-loader-fallback.js:872-883 and :933 are written with escaped back-quotes, which
JavaScript does not accept there: the whole file is then a syntax error and, as written, none
of the script runs. The model describes the script as evidently intended, with those
literals written as ordinary template literals; only the filter and the lookup are modelled
from that part.

## Model

| member | source | states |
|---|---|---|
| `JsText.TrimStartSpec` | script-with-loader-fallback.js:458 | trimming the start keeps a suffix that does not start with whitespace and drops only whitespace |
| `JsText.TrimEndSpec` | script-with-loader-fallback.js:458 | trimming the end keeps a prefix that does not end with whitespace and drops only whitespace |
| `JsText.Trim` | script-with-loader-fallback.js:458 | the trimmed string is no longer than the input and neither starts nor ends with whitespace |
| `JsText.TrimEmptyIffBlank` | script-with-loader-fallback.js:458 | a value trims to the empty string exactly when every character is whitespace |
| `JsText.Utf16Length` | script-with-loader-fallback.js:470 | `length` counts UTF-16 code units: between one and two per character |
| `JsText.Utf16LengthBmp` | script-with-loader-fallback.js:470 | without astral characters, `length` is the character count |
| `JsText.Digits` | script-with-loader-fallback.js:327 | removing non-digits leaves only ASCII digits |
| `JsText.DigitsAppend` | script-with-loader-fallback.js:327 | the digits of a concatenation are the concatenated digits, so every digit of the text counts, in order |
| `JsText.DigitsOfTrimStart` | script-with-loader-fallback.js:326-327 | dropping leading whitespace loses no digit |
| `JsText.DigitsOfTrimEnd` | script-with-loader-fallback.js:326-327 | dropping trailing whitespace loses no digit |
| `JsText.DigitsOfTrim` | script-with-loader-fallback.js:326-327 | trimming before removing the non-digits loses no digit |
| `JsText.DecimalValue` | script-with-loader-fallback.js:327 | `parseInt` of a digit string is below ten to the power of its length |
| `JsText.NatToString` | script-with-loader-fallback.js:350 | `toString` of a non-negative integer is a non-empty digit string without a leading zero, except `0` itself |
| `JsText.DecimalRoundTrip` | script-with-loader-fallback.js:350 | `parseInt` of `n.toString()` is `n` |
| `Validation.MatchesEmail` | script-with-loader-fallback.js:415 | an accepted address has at least five characters and starts and ends with a pattern part character |
| `Validation.PatternTest` | script-with-loader-fallback.js:464 | a null value (tested as the string `null`) never matches |
| `Validation.EmailMatchesPattern` | script-with-loader-fallback.js:415 | the scan accepts a string iff it is `L@D.T` with non-empty parts free of whitespace and `@`, a `.` also allowed inside the parts |
| `Validation.EmailShape` | script-with-loader-fallback.js:415 | an accepted address has no whitespace and exactly one `@`, not at the start |
| `Validation.PlainAddressMatches` | script-with-loader-fallback.js:415 | `a@b.co` matches the email pattern |
| `Validation.CheckField` | script-with-loader-fallback.js:457-473 | a field either passes or fails with its rule's single message |
| `Validation.RequiredShortCircuits` | script-with-loader-fallback.js:457-467 | a required field that is null or blank fails with the rule message whatever its pattern and minimum length |
| `Validation.PatternBeforeMinLength` | script-with-loader-fallback.js:463-473 | a failed pattern decides the field whatever its minimum length |
| `Validation.CheckFieldPasses` | script-with-loader-fallback.js:457-473 | a present value passes iff it is non-blank when required, matches the pattern when one is set, and its trimmed UTF-16 length reaches the minimum when one is set |
| `Validation.ContactRulesMeaning` | script-with-loader-fallback.js:407-423 | name passes iff its trimmed length is at least 2, email iff it matches the pattern, message iff its trimmed length is at least 10; a null value fails each |
| `Validation.ContactRulesEvaluable` | script-with-loader-fallback.js:470 | with the table's rules, no snapshot reaches `trim` on a null value |
| `Validation.ErrorOf` | script-with-loader-fallback.js:451-481 | a rule contributes an error only for a field that is in the form, and the error carries that field and the rule's message |
| `Validation.Evaluate` | script-with-loader-fallback.js:446-498 | the verdict is valid exactly when it holds no error, and it holds no more errors than there are rules |
| `Validation.EvaluateValid` | script-with-loader-fallback.js:446-498 | the form is valid iff every rule whose field exists passes (absent fields are skipped), iff there is no error |
| `Validation.EvaluateErrorHasRule` | script-with-loader-fallback.js:475-481 | every error in the verdict was produced by some rule whose field is in the form and fails |
| `Validation.EvaluateHasRuleError` | script-with-loader-fallback.js:475-481 | every rule whose field is in the form and fails has its error in the verdict |
| `Validation.EvaluateErrors` | script-with-loader-fallback.js:475-481 | the errors are exactly the errors of the failing present fields |
| `Validation.ErrorsInRuleOrder` | script-with-loader-fallback.js:446-481 | read from the first rule to the last, each failing present rule contributes its one error in its place, so there are never more errors than rules |
| `Validation.ErrorsInRuleOrderAppend` | script-with-loader-fallback.js:446-481 | checking one more rule at the end appends exactly that rule's error, if any |
| `Validation.EvaluateInRuleOrder` | script-with-loader-fallback.js:446-498 | the accumulated error list equals the front-to-back reading: exactly one error per failing present rule, in rule order |
| `Validation.ValidateField` | script-with-loader-fallback.js:452-473 | the three steps on `fieldValid` and `errorMessage` clear `fieldValid` exactly when `CheckField` fails the value, and then hold the message `CheckField` gives |
| `Validation.ValidateForm` | script-with-loader-fallback.js:435-499 | the loop over the rules yields exactly the verdict `Evaluate` defines |
| `Validation.PaddedNameFails` | script-with-loader-fallback.js:470 | `" a "` fails the name rule: the minimum length is measured after trimming |
| `Validation.PaddedEmailFails` | script-with-loader-fallback.js:464 | an address with a leading space fails: the pattern sees the untrimmed value |
| `Validation.ThreeFieldsFail` | script-with-loader-fallback.js:446-496 | empty name, `bad` email and `hi` message give an invalid verdict with the three messages in rule order |
| `Counters.FlagsOf` | script-with-loader-fallback.js:331-334 | a text made only of digits raises no format flag |
| `Counters.StyleOf` | script-with-loader-fallback.js:352-362 | the frame style follows the precedence peso with kilo, peso, percent, plus, kilo, plain |
| `Counters.FrameValue` | script-with-loader-fallback.js:341-349 | a frame's value never exceeds the target |
| `Counters.FrameValueMonotone` | script-with-loader-fallback.js:342-349 | a later frame never shows a smaller value |
| `Counters.FrameValueEnds` | script-with-loader-fallback.js:343-347 | the value is 0 at the start and the target once the 2000 ms are over |
| `Counters.ParseCounter` | script-with-loader-fallback.js:326-334 | the text is skipped exactly when it keeps no digit; otherwise the target is the value of all the digits of the untrimmed text, and the original is no longer than the text |
| `Counters.Render` | script-with-loader-fallback.js:349-362 | a frame is at least as long as the printed value and at most two characters longer; that it keeps exactly the value's digits is `RenderDigits` |
| `Counters.FrameText` | script-with-loader-fallback.js:341-370 | every frame before the end parses back as a counter showing the eased value in the counter's style |
| `Counters.SkippedIffNoDigit` | script-with-loader-fallback.js:326-329 | an element is skipped exactly when its text has no digit |
| `Counters.RenderTrimmed` | script-with-loader-fallback.js:352-362 | a rendered frame has no surrounding whitespace |
| `Counters.RenderDigits` | script-with-loader-fallback.js:350-362 | the digits of a frame are those of the value it shows |
| `Counters.RenderStyle` | script-with-loader-fallback.js:331-362 | the flags of a frame select the style it was rendered with |
| `Counters.RenderRoundTrip` | script-with-loader-fallback.js:326-362 | every frame parses back to its own value and style |
| `Counters.LastFrameIsOriginal` | script-with-loader-fallback.js:366-370 | after the duration the text is the original trimmed text |
| `Counters.AllDigitsConcatenated` | script-with-loader-fallback.js:326-327 | `" 1,200+ "` animates to 1200 in the plus style |
| `Counters.PesoKiloEndsAsWritten` | script-with-loader-fallback.js:352-369 | `₱50K` is rendered `₱50k` in frames, yet ends as `₱50K` |
| `Counters.NinetyEightPercent` | script-with-loader-fallback.js:341-370 | `98%` counts up without decreasing, never above 98, and ends as `98%` |
| `Counters.KelvinSignIsKilo` | script-with-loader-fallback.js:334 | the Kelvin sign sets the kilo flag, since it lower-cases to `k` |
| `Counters.CounterGroup.constructor` | script-with-loader-fallback.js:315-319 | a new group has the latch clear and no animation running |
| `Counters.CounterGroup.AnimateCounters` | script-with-loader-fallback.js:321-375 | once the latch is set nothing changes; otherwise it is set, every element is parsed and each counter shows its first frame while the others are untouched |
| `Counters.CounterGroup.Tick` | script-with-loader-fallback.js:341-371 | a frame shows the eased value in the counter's style; at the end it shows the original text and no further frame is pending; an element without an animation is untouched |
| `Notifications.Detach` | script-with-loader-fallback.js:705 | removing a notification keeps exactly the other ones |
| `Notifications.DetachAbsent` | script-with-loader-fallback.js:761-766 | removing a detached notification changes nothing |
| `Notifications.DetachIdempotent` | script-with-loader-fallback.js:764-765 | removing twice is removing once |
| `Notifications.NotificationCenter.constructor` | script-with-loader-fallback.js:702-705 | the page is assumed to start with no notification element, and identities start at 0; this is the model's assumption about the initial markup, not behaviour of the cited lines, which clear whatever notifications exist |
| `Notifications.NotificationCenter.Show` | script-with-loader-fallback.js:702-752 | afterwards exactly one notification is visible, the new one, with the given message and severity |
| `Notifications.NotificationCenter.Dismiss` | script-with-loader-fallback.js:746-769 | the notification is gone afterwards, nothing else is removed, and a detached one leaves the surface unchanged |
| `Submission.Classify` | script-with-loader-fallback.js:529-554 | only an ok response whose JSON body is an object can succeed |
| `Submission.ClassifyDelivered` | script-with-loader-fallback.js:529-550 | a reply succeeds iff the status is ok and the JSON body's `success` member is truthy |
| `Submission.ClassifyCases` | script-with-loader-fallback.js:530-548 | a non-ok status fails whatever the body; `success: true` succeeds; `success: false` or no `success` fails |
| `Submission.ContactForm.constructor` | script-with-loader-fallback.js:400-404 | the cited lines look up the form and the success modal, whose presence is captured; the controls, the reset defaults (what `form.reset()` restores at :538) and the button markup (looked up at :502-503) are constructor inputs standing for the page's state; the enabled button and closed modal are the model's assumption about the page's initial markup |
| `Submission.ContactForm.BeginSubmit` | script-with-loader-fallback.js:502-519 | the original button markup is kept, the button shows the busy markup and is disabled, and the loop over the form's entries builds exactly `Payload`: each present entry under its name, and nothing else |
| `Submission.ContactForm.Settle` | script-with-loader-fallback.js:529-558 | success with a modal opens it and resets the form with no notification; any other path shows exactly the fixed error notification and leaves form and modal alone; the button always gets its original markup back and is enabled |
| `Submission.ContactForm.Submit` | script-with-loader-fallback.js:501-559 | on every path the button ends with the markup it had before and enabled, with the success or error effects above |
| `Submission.ContactForm.OnSubmit` | script-with-loader-fallback.js:425-433 | an invalid form sends nothing and changes nothing; a valid one is submitted with the effects of `Submit` |
| `Portfolio.Visible` | script-with-loader-fallback.js:868 | an item is shown iff the filter is `all` or its type equals the filter |
| `Portfolio.VisibleAppend` | script-with-loader-fallback.js:868 | filtering preserves the catalog's order |
| `Portfolio.VisibleAll` | script-with-loader-fallback.js:868 | `all` shows every item, in order |
| `Portfolio.FilterOf` | script-with-loader-fallback.js:864 | a chip without a filter gets the default, which shows every item |
| `Portfolio.VisibleIdempotent` | script-with-loader-fallback.js:868 | filtering a filtered list again changes nothing |
| `Portfolio.CatalogIdsDistinct` | script-with-loader-fallback.js:822-847 | the catalog has three items with pairwise different ids |
| `Portfolio.CatalogChatbots` | script-with-loader-fallback.js:864-868 | the `chatbot` filter shows exactly the one chatbot item |
| `Portfolio.CatalogDefault` | script-with-loader-fallback.js:864-868 | a chip without a filter (the default `all`) shows the whole catalog in order |
| `Portfolio.CatalogUnknownCategory` | script-with-loader-fallback.js:864-868 | a type no item has shows nothing |
| `Portfolio.FindById` | script-with-loader-fallback.js:910 | the result is the first item with that id, or none when no item has it |
| `Portfolio.CatalogLookup` | script-with-loader-fallback.js:910-911 | `autoflow-n8n` finds the third catalog item |
| `Portfolio.CatalogMissing` | script-with-loader-fallback.js:910-911 | an unknown id finds nothing |

## Left out

- DOM work: querying elements, CSS classes, inline styles, the `innerHTML` of the error
  messages, the busy spinner (modelled as one constant), the notification markup and the
  gallery cards; the error annotation's removal on the next input is not modelled.
- `fetch`, JSON parsing and `console.error`: the reply is an input value, and the logged
  cause (`Cause`) is computed but not shown anywhere.
- `gtag`: the analytics call is treated as doing nothing and not throwing.
- Timers and observers (`setTimeout`, `requestAnimationFrame`, `IntersectionObserver`): the
  callbacks they would run are the methods `AnimateCounters`, `Tick` and `Dismiss`, which a
  caller invokes in any order; the auto-hide's slide-out is presentation.
- `Counters.FrameValue`: computes `floor(target * (1 - (1 - p)^4))` exactly over the
  integers, where the source uses double-precision arithmetic whose rounding may differ by
  one; `Date.now` is an input `elapsed` that is never negative (a clock set backwards is
  not modelled); the first frame is taken at 0 ms.
- `Counters.ParseCounter`: targets are unbounded integers; `parseInt` loses precision above
  2^53 and `toString` switches to exponent notation from 10^21.
- Strings are sequences of Unicode scalar values: unpaired UTF-16 surrogates are not modelled.
- FormData with several entries under one name, and file inputs, are not modelled.
- `Portfolio`: the Quick View modal's fields, the link fallback `item.url || "#"`, the tools
  grid and the `/work` route are presentation or routing.
- The loading screen, theme, mobile menu, scroll effects, smooth scrolling, premium hover
  effects, keyboard helpers and the success modal's own close handlers are UI wiring
  without a rule of their own.

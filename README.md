# Bedasolar front end: input handling, in Dafny

This project models the part of the Bedasolar web front end that handles what
a user types or uploads before it reaches the back end, and proves properties
of that model:

- `frontend/src/utils/sanitize.js`:
  - HTML escaping (`escapeHtml`);
  - the e-mail and Australian phone checks (`isValidEmail`, `isValidPhone`);
  - the regular-expression clean-up of strings (`sanitizeString`);
  - the per-value clean-up of a form (`sanitizeFormData`);
  - the upload check (`validateFile`).
- `frontend/src/components/UserInfoForm.jsx`: the `validateUserInfo` schema of
  the contact form. It has four required fields, format checks on e-mail and
  phone, and landlord fields for tenants only.
- `frontend/src/hooks/useForm.js`: the form-state hook, modelled as a class
  `UseForm.Form`. Its fields are the values, errors, touched set and submitting
  flag, and its methods are the handlers.
- `frontend/src/components/ProgressBar.jsx`: the step computation (index,
  percentage, per-step indicators), the clamped fill width and the step
  counter.
- `frontend/src/components/UserProfile.jsx`: the first name and the initials
  shown in the user badge.

Modules:

| module | file | models |
|---|---|---|
| `Js` | `js.dfy` | JavaScript values, `trim`, `\s`, ASCII case mapping, `indexOf`/`lastIndexOf`, global single-character `replace` |
| `Scrub` | `scrub.dfy` | the regular expressions of `sanitizeString` as matchers, and global `replace` as a left-to-right scan |
| `Sanitize` | `sanitize.dfy` | `sanitize.js` |
| `UseForm` | `use_form.dfy` | `useForm.js` |
| `UserInfo` | `user_info.dfy` | `validateUserInfo` |
| `ProgressBar` | `progress_bar.dfy` | `ProgressBar.jsx` |
| `UserProfile` | `user_profile.dfy` | `UserProfile.jsx` |

Modelling choices:

- A JavaScript value is the datatype `Js.Value`. It distinguishes what
  `typeof` tells apart, and it keeps `NaN` separate from the other numbers.
  Numbers are `real`s.
- Each regular expression of `sanitizeString` becomes a function giving the
  length of its match at a position (0 for none). `replace` with the `g` flag
  removes the leftmost match, resumes after it, and repeats. The `i` flag
  compares ASCII letters without case.
- Where the source can throw a `TypeError`, the model returns it as a value:
  - `values.x?.trim()` on a value that is neither a string nor
    `null`/`undefined` gives `UseForm.Threw`;
  - a schema that throws inside `handleBlur` or `handleSubmit` is a returned
    flag or outcome.
- `0 / 0` in the progress percentage (an empty step list) is `None`.
- React state setters take effect when the handler runs. `handleSubmit` is
  split in two at its `await`:
  - `HandleSubmit` covers validation, the errors, the touched set and the
    start of submission;
  - `SubmitSettled` is the `finally` block.

## Model

| member | source | states |
|---|---|---|
| `Js.Trim` | frontend/src/utils/sanitize.js:27 | the result has no white space at either end, and it is empty exactly when the input is all white space |
| `Js.TrimIsInfix` | frontend/src/utils/sanitize.js:27 | `trim` keeps one contiguous infix of its input and removes only white space around it |
| `Js.IndexOf` | frontend/src/components/ProgressBar.jsx:48 | `indexOf` is -1 exactly when the element is absent; otherwise it is the position of the first occurrence |
| `Js.LastIndexOf` | frontend/src/utils/sanitize.js:120 | `lastIndexOf` is -1 exactly when the character is absent; otherwise no occurrence follows the one it returns |
| `Js.Get` | frontend/src/components/UserInfoForm.jsx:20 | reading a property: a missing key gives `undefined`, a present key its value |
| `Js.LowerString` | frontend/src/utils/sanitize.js:120 | `toLowerCase` keeps the length and lower-cases each character in place |
| `Js.UpperString` | frontend/src/components/UserProfile.jsx:16 | `toUpperCase` keeps the length and upper-cases each character in place |
| `Js.Includes` | frontend/src/utils/sanitize.js:115-121 | `includes` holds exactly when some position of the array holds the value |
| `Js.RemoveSpaces` | frontend/src/utils/sanitize.js:63 | `replace(/\s/g, '')`: the result is no longer than the input and has no white space; one character is dropped exactly when it is white space. With `Js.RemoveSpacesConcat` this fixes the result on every input |
| `Js.RemoveSpacesKeeps` | frontend/src/utils/sanitize.js:63 | a text without white space is left unchanged |
| `Js.RemoveSpacesConcat` | frontend/src/utils/sanitize.js:63 | removing white space distributes over concatenation |
| `Js.ReplaceChar` | frontend/src/utils/sanitize.js:39-43 | a global one-character replacement leaves a text without that character unchanged, and maps a one-character text to the replacement when it is that character and to itself otherwise. With `Js.ReplaceCharConcat` this fixes the result on every input |
| `Js.ReplaceCharConcat` | frontend/src/utils/sanitize.js:39-43 | a global one-character replacement distributes over concatenation |
| `Scrub.ScriptBlockAt` | frontend/src/utils/sanitize.js:14 | a match of the script-block pattern starts with `<script` and ends with `</script>`, in any letter case |
| `Scrub.EventHandlerAt` | frontend/src/utils/sanitize.js:17 | a match of the event-handler pattern contains `=` and ends with a quote |
| `Scrub.JsSchemeAt` | frontend/src/utils/sanitize.js:18 | a match of the scheme pattern contains `javascript:`, in any letter case |
| `Scrub.TagAt` | frontend/src/utils/sanitize.js:23 | a match of a tag pattern starts with `<` and ends with `>` |
| `Scrub.RemoveFrom` | frontend/src/utils/sanitize.js:24 | a global removal never lengthens the text, and it leaves the text whole if it removes nothing |
| `Scrub.RemoveAll` | frontend/src/utils/sanitize.js:14 | `s.replace(pattern, '')` with the `g` flag: never lengthens the text, and removes nothing unless it shortens it; `Scrub.RemoveFromKeepsIff` says when it changes nothing |
| `Scrub.RemoveEach` | frontend/src/utils/sanitize.js:14-24 | the passes applied in order, each reassigning the working string: never lengthens the text, and changes nothing unless it shortens it |
| `Scrub.RemoveFromKeepsIff` | frontend/src/utils/sanitize.js:14 | a global removal changes nothing exactly when the pattern matches at no position |
| `Scrub.StripDangerous` | frontend/src/utils/sanitize.js:14-25 | the three fixed replacements, then the loop over the dangerous tags, compute the passes applied in order |
| `Scrub.FixpointOfEach` | frontend/src/utils/sanitize.js:14-25 | when a round of passes changes nothing, no single pass changes anything |
| `Scrub.Scrubbed` | frontend/src/utils/sanitize.js:14-25 | repeating the passes reaches a text that one more round leaves unchanged, and that text is no longer than the input |
| `Scrub.ScrubbedHasNoTag` | frontend/src/utils/sanitize.js:21-25 | at that fixpoint, no dangerous tag matches anywhere |
| `Scrub.TagInInfix` | frontend/src/utils/sanitize.js:23 | a tag found inside an infix is also a tag of the whole text |
| `Scrub.InfixKeepsTagFree` | frontend/src/utils/sanitize.js:23 | an infix of a text without dangerous tags has none either |
| `Scrub.NoMatchWithout` | frontend/src/utils/sanitize.js:14-18 | text without `/`, `=` or `:` is left alone by the script-block, event-handler and scheme pass respectively |
| `Scrub.NoTagWithout` | frontend/src/utils/sanitize.js:23-24 | text lacking a letter of a tag name, in both cases, is left alone by that tag's pass |
| `Scrub.SinglePassLeavesScriptTag` | frontend/src/utils/sanitize.js:14-25 | one round of the passes turns `<scr<script>ipt>` into `<script>`, which the `script` tag pattern matches |
| `Sanitize.EscapeChain` | frontend/src/utils/sanitize.js:38-43 | the five global replacements as written; no contract of its own, its meaning is given by `Sanitize.EscapeChainIsPerChar` |
| `Sanitize.EscapeChars` | frontend/src/utils/sanitize.js:38-43 | escaped text contains none of `<`, `>`, `"`, `'`, and it is never shorter than the input |
| `Sanitize.EscapeChainIsPerChar` | frontend/src/utils/sanitize.js:38-43 | the chain of five global replacements, `&` first, escapes each character independently: no entity is escaped twice |
| `Sanitize.EscapeHtml` | frontend/src/utils/sanitize.js:35-44 | a non-string gives the empty string; a string gives its per-character escape, which has no markup character |
| `Sanitize.UnescapeEscape` | frontend/src/utils/sanitize.js:38-43 | decoding the five entities recovers the original text, so escaping loses nothing |
| `Sanitize.EscapeIdentityIff` | frontend/src/utils/sanitize.js:38-43 | escaping changes a string exactly when the string contains one of the five special characters |
| `Sanitize.IsValidEmail` | frontend/src/utils/sanitize.js:51-54 | the regular expression as "some `@` and a later `.` split the address into three non-empty runs without white space or `@`"; an accepted address has at least five characters, an `@` and a `.`. Its full meaning is given by `Sanitize.EmailShapeIff` |
| `Sanitize.EmailShapeIff` | frontend/src/utils/sanitize.js:51-54 | an address is accepted exactly when it has no white space, exactly one `@` with text before it, and a domain with a `.` that has text on both sides |
| `Sanitize.IsValidPhone` | frontend/src/utils/sanitize.js:61-64 | the pattern tested on the number with its white space removed; an accepted number is 10 or 12 characters once white space is removed. Its meaning is given by `Sanitize.SpaceIgnored`, `Sanitize.PrefixesAgree` `Sanitize.ValidPhoneLength`, `Sanitize.ValidPhoneShape` and `Sanitize.SubscriberAccepted`: the last two together say it accepts exactly `0` or `+61`, a digit from 2 to 9 and eight more digits, with any white space in between |
| `Sanitize.SubscriberAccepted` | frontend/src/utils/sanitize.js:61-64 | `0` or `+61` followed by a digit from 2 to 9 and eight more digits is accepted |
| `Sanitize.ValidPhoneShape` | frontend/src/utils/sanitize.js:61-64 | an accepted number, once white space is removed, is `0` or `+61` followed by a digit from 2 to 9 and eight more digits |
| `Sanitize.SpaceIgnored` | frontend/src/utils/sanitize.js:63 | inserting a white-space character anywhere does not change the phone verdict |
| `Sanitize.PrefixesAgree` | frontend/src/utils/sanitize.js:62 | the national prefix `0` and the international prefix `+61` are accepted with the same subscriber number |
| `Sanitize.ValidPhoneLength` | frontend/src/utils/sanitize.js:62-63 | once white space is removed, an accepted number is ten characters starting with `0` or twelve starting with `+` |
| `Sanitize.SanitizedAsWritten` | frontend/src/utils/sanitize.js:10-28 | the source's single round: a non-string gives the empty string, a string never gets longer, and the result has no white space at either end |
| `Sanitize.SanitizeStringAsWritten` | frontend/src/utils/sanitize.js:10-28 | the source's statements compute that single round followed by `trim` |
| `Sanitize.AsWrittenLeavesScriptTag` | frontend/src/utils/sanitize.js:14-27 | as written, `sanitizeString("<scr<script>ipt>")` returns `<script>`, a dangerous tag |
| `Sanitize.Sanitized` | frontend/src/utils/sanitize.js:10-28 | the corrected result: a non-string gives the empty string; it is no longer than the input, is trimmed, and contains no dangerous tag at any position |
| `Sanitize.SanitizeString` | frontend/src/utils/sanitize.js:10-28 | repeating the source's passes until a round changes nothing, then trimming, computes the corrected result |
| `Sanitize.TrimKeepsTagFree` | frontend/src/utils/sanitize.js:27 | the final `trim` cannot create a dangerous tag |
| `Sanitize.CleanValue` | frontend/src/utils/sanitize.js:75-83 | a string becomes what the source's single-round `sanitizeString` returns, `NaN` becomes 0, and any other number, boolean or value is copied |
| `Sanitize.SanitizeFormData` | frontend/src/utils/sanitize.js:71-87 | the result has the same keys as the input, and each value is cleaned as in `CleanValue`, strings by the source's single-round sanitiser |
| `Sanitize.FormDataLeavesScriptTag` | frontend/src/utils/sanitize.js:75-76 | a form value `<scr<script>ipt>` is stored as `<script>`: the form clean-up inherits the single-round defect |
| `Sanitize.Extension` | frontend/src/utils/sanitize.js:120 | the extension is a lower-cased suffix of the name; with no `.` it is the whole lower-cased name |
| `Sanitize.ExtensionFromLastDot` | frontend/src/utils/sanitize.js:120 | with a `.` in the name, the extension starts with `.` and contains no other `.` |
| `Sanitize.ExtensionOfSuffix` | frontend/src/utils/sanitize.js:120-121 | the extension of `stem.tail` is `.` followed by the lower-cased `tail`, so `report.PDF` passes the default `.pdf` check |
| `Sanitize.ValidateFile` | frontend/src/utils/sanitize.js:95-129 | no file gives exactly "No file selected". Otherwise the errors are exactly the size, type and extension errors whose checks fail, in that order, using the defaulted options, and the file is valid exactly when the size is within the limit, the type is allowed and the extension is allowed |
| `Sanitize.UpperPdfAccepted` | frontend/src/utils/sanitize.js:120-121 | a name ending in `.PDF` has the extension `.pdf` and passes the default extension check |
| `Sanitize.ErrorsInOrder` | frontend/src/utils/sanitize.js:109-123 | the three pushes report each failed check once, in source order, and nothing else |
| `UserInfo.Missing` | frontend/src/components/UserInfoForm.jsx:20 | `!v?.trim()` throws exactly on a value that is neither a string nor null/undefined, and it is false exactly for a non-blank string |
| `UserInfo.Message` | frontend/src/components/UserInfoForm.jsx:20-46 | the message one `if` of the schema records for a field; no contract of its own, its meaning is given by `UserInfo.NoMessageIffPasses`, `UserInfo.RequiredFieldFlagged` (the four always-checked fields), `UserInfo.ContactEmailMessage`, `UserInfo.ContactPhoneMessage` and `UserInfo.LandlordMessages` (the two landlord fields of a tenant) |
| `UserInfo.MissingIsTrimEmpty` | frontend/src/components/UserInfoForm.jsx:20 | on a string, the missing test is exactly "`trim` leaves nothing" |
| `UserInfo.FirstThrow` | frontend/src/components/UserInfoForm.jsx:20-46 | no field throws exactly when every checked field is a string or nullish; otherwise the result is a checked field that throws |
| `UserInfo.CollectReports` | frontend/src/components/UserInfoForm.jsx:16-50 | a field is reported exactly when it has a message, and with that message, and only checked fields are reported |
| `UserInfo.UserInfoErrors` | frontend/src/components/UserInfoForm.jsx:16-50 | the schema throws exactly when some checked field makes `trim` throw; otherwise it reports only schema keys |
| `UserInfo.CheckField` | frontend/src/components/UserInfoForm.jsx:20-35 | one `if` of the schema throws exactly when `trim` would throw; otherwise it records the field's message, if there is one |
| `UserInfo.AfterChecksAgree` | frontend/src/components/UserInfoForm.jsx:16-47 | running the checks one at a time agrees with the per-field rule after every prefix of the checks |
| `UserInfo.CheckNext` | frontend/src/components/UserInfoForm.jsx:20-46 | a check that throws decides the schema's result; one that does not extends the running errors object by one check |
| `UserInfo.ThrowDecides` | frontend/src/components/UserInfoForm.jsx:20-46 | when the checks before a field passed and that field's `trim` throws, the schema's result is that throw |
| `UserInfo.AfterAllChecks` | frontend/src/components/UserInfoForm.jsx:49 | the errors object after the last check is the schema's result |
| `UserInfo.ValidateUserInfo` | frontend/src/components/UserInfoForm.jsx:16-50 | the schema's statements compute the per-field rule, including which field's `TypeError` ends it |
| `UserInfo.Reported` | frontend/src/components/UserInfoForm.jsx:17-49 | a checked field is reported exactly when it has a message, and with that message |
| `UserInfo.OnlySchemaKeys` | frontend/src/components/UserInfoForm.jsx:16-50 | only the six schema keys can appear in the errors |
| `UserInfo.RequiredFieldFlagged` | frontend/src/components/UserInfoForm.jsx:20-31 | a required field that is missing or blank gets its "required" message |
| `UserInfo.ContactEmailMessage` | frontend/src/components/UserInfoForm.jsx:26-30 | the contact e-mail is reported exactly when it is blank or malformed, with "Email is required" or the format message respectively |
| `UserInfo.ContactPhoneMessage` | frontend/src/components/UserInfoForm.jsx:31-35 | the contact phone is reported exactly when it is blank or not an Australian number, with the matching message |
| `UserInfo.LandlordMessages` | frontend/src/components/UserInfoForm.jsx:38-47 | for a tenant, the landlord name is reported exactly when blank, with "Landlord name is required"; the landlord e-mail is reported exactly when blank or malformed, with the required or the format message |
| `UserInfo.NotReported` | frontend/src/components/UserInfoForm.jsx:38-47 | a field the schema does not check is never reported |
| `UserInfo.LandlordOnlyForTenant` | frontend/src/components/UserInfoForm.jsx:38 | landlord fields are reported only when the user type is `tenant` |
| `UserInfo.NoMessageIffPasses` | frontend/src/components/UserInfoForm.jsx:20-46 | a field that does not throw has no message exactly when it is a non-blank string with a valid format |
| `UserInfo.NoErrorsIffComplete` | frontend/src/components/UserInfoForm.jsx:16-50 | the schema returns `{}` exactly when every checked field is filled and well formed |
| `UserInfo.OneFieldFlagsTheOthers` | frontend/src/hooks/useForm.js:31 | validating a one-field object, as `handleBlur` does, reports every other required field as required |
| `UseForm.MessageOr` | frontend/src/hooks/useForm.js:32 | the one-field message is the schema's message for the field when it is non-empty, and the empty string otherwise |
| `UseForm.Form.constructor` | frontend/src/hooks/useForm.js:9-13 | the hook starts with the initial values, no errors, nothing touched and not submitting |
| `UseForm.Form.Validate` | frontend/src/hooks/useForm.js:37-40 | with no schema there are no errors; otherwise the schema decides |
| `UseForm.Form.IsValid` | frontend/src/hooks/useForm.js:43-46 | the form is valid exactly when validation returns an empty object; it is `None`, standing for the schema's throw, when validation throws, and always valid with no schema |
| `UseForm.Form.HandleChange` | frontend/src/hooks/useForm.js:16-23 | stores the value; a shown error for that field is blanked, and everything else stays |
| `UseForm.Form.HandleBlur` | frontend/src/hooks/useForm.js:26-34 | marks the field touched. Once the field is already touched, by an earlier blur or by a submit, and with a schema, it sets that field's error from the one-field validation or reports the throw; values and the submitting flag are kept |
| `UseForm.Form.HandleSubmit` | frontend/src/hooks/useForm.js:49-55 | a throwing schema changes nothing. Otherwise the errors become the validation result and every key of the values is touched. `onSubmit` is called with the values, and submitting starts, exactly when the form is valid |
| `UseForm.Form.SubmitSettled` | frontend/src/hooks/useForm.js:60-62 | when `onSubmit` settles, the form stops submitting and nothing else changes |
| `UseForm.Form.Reset` | frontend/src/hooks/useForm.js:67-72 | back to the initial values, no errors, nothing touched and not submitting |
| `ProgressBar.Label` | frontend/src/components/ProgressBar.jsx:53 | a configured step shows its label; any other step shows its own name |
| `ProgressBar.Percentage` | frontend/src/components/ProgressBar.jsx:49 | the percentage is `NaN` exactly when there are no steps |
| `ProgressBar.StepData` | frontend/src/components/ProgressBar.jsx:50-56 | one indicator per step, in order, with its index and label, completed before the current index and current at it |
| `ProgressBar.ComputeProgress` | frontend/src/components/ProgressBar.jsx:47-63 | the index is -1 exactly when the current step is absent, otherwise its first position; one indicator per step, labelled |
| `ProgressBar.NeverCompletedAndCurrent` | frontend/src/components/ProgressBar.jsx:54-55 | no indicator is both completed and current |
| `ProgressBar.ExactlyOneCurrent` | frontend/src/components/ProgressBar.jsx:48-55 | with the current step present, exactly one indicator is current: its first occurrence |
| `ProgressBar.NothingMarkedWhenAbsent` | frontend/src/components/ProgressBar.jsx:48-55 | with the current step absent, nothing is completed or current |
| `ProgressBar.CompletedBeforeCurrent` | frontend/src/components/ProgressBar.jsx:54-55 | completed indicators form a prefix, and are exactly those before the current one |
| `ProgressBar.PercentageBounds` | frontend/src/components/ProgressBar.jsx:49 | with steps, the percentage lies in [0, 100]. It is 0 when the step is absent and 100 exactly at the last step |
| `ProgressBar.NoStepsNoPercentage` | frontend/src/components/ProgressBar.jsx:48-49 | with no steps, the index is -1 and the percentage is `NaN` |
| `ProgressBar.Clamp` | frontend/src/components/ProgressBar.jsx:71 | the clamped width lies in [0, 100] and leaves values in range unchanged; `NaN` stays `NaN` |
| `ProgressBar.FillWidth` | frontend/src/components/ProgressBar.jsx:71 | the rendered width lies in [0, 100], and it is `NaN` exactly when there are no steps |
| `ProgressBar.ClampIsIdentity` | frontend/src/components/ProgressBar.jsx:71 | with steps, the clamp never changes the computed percentage |
| `ProgressBar.StepCounter` | frontend/src/components/ProgressBar.jsx:73-75 | the counter runs from 1 to the number of steps; its value is the 1-based position of the first occurrence of the current step (`indexOf` + 1), or 0 when the step is absent |
| `ProgressBar.CounterFullIffBarFull` | frontend/src/components/ProgressBar.jsx:71-75 | the counter is at its maximum exactly when the bar is full |
| `UserProfile.Split` | frontend/src/components/UserProfile.jsx:13 | `split(' ')` always gives at least one piece |
| `UserProfile.JoinSplit` | frontend/src/components/UserProfile.jsx:13 | joining the pieces with single spaces gives the text back |
| `UserProfile.SplitJoin` | frontend/src/components/UserProfile.jsx:13 | splitting space-free pieces joined with single spaces gives the pieces back |
| `UserProfile.FirstPiece` | frontend/src/components/UserProfile.jsx:8 | the first piece is the space-free prefix that ends at the first space or at the end of the text |
| `UserProfile.FirstName` | frontend/src/components/UserProfile.jsx:8 | the first name has no space. It is the whole name when the name has no space; otherwise the name is the first name, a space, and the rest |
| `UserProfile.Heads` | frontend/src/components/UserProfile.jsx:14-15 | at most one character per piece |
| `UserProfile.GetInitials` | frontend/src/components/UserProfile.jsx:11-18 | at most two characters |
| `UserProfile.HeadsAreWordStarts` | frontend/src/components/UserProfile.jsx:13-15 | the heads of the pieces are exactly the characters that start a word |
| `UserProfile.InitialsAreWordStarts` | frontend/src/components/UserProfile.jsx:11-18 | the initials are the first two word-start characters, upper-cased |
| `UserProfile.WordStartsConcat` | frontend/src/components/UserProfile.jsx:13-15 | word starts of a concatenation are those of each part, the second part starting a word when the first ends with a space |
| `UserProfile.RepeatedSpaceIgnored` | frontend/src/components/UserProfile.jsx:11-18 | a doubled space between words does not change the initials |
| `UserProfile.LeadingSpaceIgnored` | frontend/src/components/UserProfile.jsx:11-18 | a leading space does not change the initials |
| `UserProfile.NoWordNoInitials` | frontend/src/components/UserProfile.jsx:11-18 | an empty or all-space name has no initials |

## Left out

- White space, case and characters:
  - Characters are Dafny `char`s, not UTF-16 code units.
  - Case mapping (`toLowerCase`, `toUpperCase`, the `i` flag) covers ASCII
    letters only; the Unicode case tables are not modelled.
  - White space is the ECMAScript set of `trim` and `\s`, as listed in
    `Js.IsSpace`.
- Numbers are `real`s, not IEEE doubles: rounding and infinities are not
  modelled. `NaN` is the separate value `Js.NaN`.
- `Sanitize.IsValidEmail`, `Sanitize.IsValidPhone`: these take a string.
  - `isValidEmail` turns any other argument into text first (`"undefined"`,
    `"null"`, ...); that conversion is not modelled.
  - `isValidPhone` throws on a non-string; this is not modelled either.
  - The only callers shown, in `validateUserInfo`, pass strings.
- `Sanitize.ValidateFile`: error messages are the datatype `FileError`, which
  carries the values the source prints. The text of the messages is not
  produced. This includes the megabyte division and the `join(', ')` of the
  allowed lists.
- `Sanitize.SanitizeFormData`: the source visits `Object.entries` in insertion
  order; the model visits keys in an unspecified order. The result does not
  depend on the order, because each key is written once.
- Other object behaviour: every object lookup is a lookup in a map from
  string keys. This covers `values.x` and `values[name]` (`Js.Get`),
  `errors[name]` and `fieldErrors[name]` in `UseForm.Form`, and
  `STEP_CONFIG[step]` in `ProgressBar.Label`. Prototype keys (a field named
  `constructor` or `toString`, say), getters, symbol keys and arrays in the
  form data are not modelled, and nested objects are opaque `Obj` values
  that are copied as they are.
- `UseForm.Form`:
  - React runs state updaters in batches on a later render. The model applies
    each handler's updates at once, to the state it reads.
  - The `useCallback` closures that read stale `errors`, `touched` or `values`
    are not modelled.
  - The raw `setValues` and `setErrors` the hook returns are not modelled.
  - The `console.error` in `handleSubmit`, and the rejection or resolution of
    `onSubmit` itself, are not modelled. `SubmitSettled` stands for the
    `finally` block.
- `ProgressBar`:
  - The class names, `title`, `aria-label` texts and `key` of
    `StepIndicator` and of the bar are rendering only and are left out.
  - `aria-label` on the bar repeats `StepCounter`'s numbers.
- `UserProfile`:
  - `user.name` is taken to be a string; a missing name would throw.
  - The dropdown state, the click and blur handlers, the `setTimeout` and
    `logout` are UI and network code.
- The rest of the front end and the back end are not part of this model.

## Findings

| source | as written | input that shows it | evidently intended | confidence | as-written member | corrected member |
|---|---|---|---|---|---|---|
| frontend/src/utils/sanitize.js:21-25 | each dangerous-tag pattern is applied once, so removing an inner tag can join the surrounding text into a new tag | `sanitizeString("<scr<script>ipt>")` returns `<script>` | no dangerous tag survives `sanitizeString` (the comment at line 20 says these tags are removed) | high that the single pass leaves the tag; not executed | `Sanitize.AsWrittenLeavesScriptTag` | `Sanitize.Sanitized` |

The corrected `Sanitize.SanitizeString` repeats the source's passes until a
round changes nothing, then trims. `Sanitize.Sanitized` proves that its
result contains no dangerous tag at any position.
`Sanitize.SanitizeStringAsWritten` keeps the source's single round, and so
does `Sanitize.SanitizeFormData`, which calls it for every string value as
the source does. `Sanitize.FormDataLeavesScriptTag` shows that the defect
reaches the form data. Calling `Sanitize.SanitizeString` in
`Sanitize.CleanValue` instead would carry the fix to the form data.

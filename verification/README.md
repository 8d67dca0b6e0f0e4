# Lead form validation and phone masks, in Dafny

This project models the two pieces of logic in the lease-request front end
that are pure functions:

- the **lead form validation schema** of `composables/useFormRequestValidation.ts`.
  The schema covers a form with an organisation name (`title`), an `address`,
  a `phone`, a place type (`field`), an area range (`rangeField {min,max}`) and
  a lease date range (`rangeDate {min,max}`). The model also covers the
  combined message shown under each range pair.
- the **phone mask resolver** of `utils/setPhoneMask.ts`. It maps a country
  calling code to an input-mask template.

Modules, one concept each:

| file | module | what it holds |
|---|---|---|
| `wrappers.dfy` | `Wrappers` | `Option`, for values the user has not set |
| `js_text.dfy` | `JsText` | JavaScript `split`, `reverse`, `join` and `trim`, with the split/join round trips |
| `phone_pattern.dfy` | `PhonePattern` | the phone regular expression as a character predicate, plus a recognizer that is proved to agree with it |
| `phone_mask.dfy` | `PhoneMask` | the mask table, its shape (characters and `#` slots), and filling a mask with digits |
| `masked_phone.dfy` | `MaskedPhone` | which masks can produce a number that the phone pattern accepts |
| `lease_dates.dfy` | `LeaseDates` | the `DD.MM.YYYY` to `YYYY-MM-DD` rewriting, the abstract `new Date`, and the `is-later` test |
| `lead_form.dfy` | `LeadForm` | the form record, the rule table, `Validate`, the messages and the combined range message |

`Validate(valid, lead)` returns a `map<FieldPath, set<RuleId>>`. It has one
entry for each field path that has at least one violated rule, and that
entry holds exactly the violated rules. All rules are checked and all
violations are collected.

The rules checked are those yup keeps after building each field's chain.
The model lists each chain's calls (`Chain`) and applies yup's rule for
exclusive tests (`Build`): a new exclusive test removes every earlier test
of the same name. `.min`, `.max` and `.positive` are exclusive, and
`.positive()` is `moreThan(0)`, registered under the name `min`. So on the
maximum area it replaces the `.min(yup.ref('min'))` call of line 25.
`ValidateAsDeclared` checks every declared rule instead, including that one
(see "## Findings").

The date-string check `isValidDateString` is imported by the source, but its
body is not part of this model. It is therefore a parameter,
`valid: string -> bool`. Where a lemma needs the string's shape, it states
`IsDotted(s)` (`DD.MM.YYYY`) as a requirement.

Every function is pure, so calling `Validate` twice on the same record gives
the same result.

Three behaviours of the code that a reader may not expect:

- The address uses the organisation-name message, as written at line 9.
- An area pair with min > max and a positive maximum is reported on the
  minimum only. `.max(ref('max'))` fires on the minimum; the maximum's
  `.min(ref('min'))` was replaced by `.positive()` and never runs.
- A number that is not numeric is reported through `typeError`. This model
  leaves that case out (see below).

## Model

| member | source | states |
|---|---|---|
| `JsText.Split` | composables/useFormRequestValidation.ts:42-43 | `split('.')` gives one more piece than there are separators; no piece contains the separator, and every character of a piece comes from the input |
| `JsText.JoinSplit` | composables/useFormRequestValidation.ts:42-43 | joining the pieces of a split with the same separator restores the string |
| `JsText.SplitJoin` | composables/useFormRequestValidation.ts:42-43 | splitting a join of separator-free pieces returns those pieces |
| `JsText.Join` | composables/useFormRequestValidation.ts:42-43 | `join('-')`; `JoinSplit` and `SplitJoin` show it is the inverse of `split` |
| `JsText.Reverse` | composables/useFormRequestValidation.ts:42-43 | `reverse()` keeps the length and puts element i at position n-1-i; `ReverseReverse` shows it is its own inverse |
| `JsText.Trim` | composables/useFormRequestValidation.ts:71-72 | `trim()` leaves no whitespace at either end, never lengthens the string, and gives "" exactly for all-whitespace input |
| `JsText.TrimPadded` | composables/useFormRequestValidation.ts:71-72 | trimming whitespace + core + whitespace returns the core, when the core has no whitespace at either end |
| `PhonePattern.MatchesPhone` | composables/useFormRequestValidation.ts:12 | the phone regular expression: `+`, one to three digits, then ` (DDD) DDD-DD-DD`; `RecognizePhone` scans for it and `PhoneLength` and `NoOtherCodeLength` pin down its shape |
| `PhonePattern.MatchTemplate` | composables/useFormRequestValidation.ts:12 | the character-by-character loop accepts exactly the strings that fit a template (`#` = one ASCII digit) |
| `PhonePattern.RecognizePhone` | composables/useFormRequestValidation.ts:12 | a regex-style scan (a `+`, a run of one to three code digits, then ` (DDD) DDD-DD-DD`) accepts exactly what `MatchesPhone` accepts |
| `PhonePattern.NoOtherCodeLength` | composables/useFormRequestValidation.ts:12 | once the run of code digits is measured, no other code length can match |
| `PhonePattern.PhoneLength` | composables/useFormRequestValidation.ts:12 | every accepted phone has length 17 + d, where d is its number of code digits (1 to 3), so 18 to 20 characters |
| `PhonePattern.SampleNumberMatches` | composables/useFormRequestValidation.ts:12 | a typical number, "+7 (999) 123-45-67", is accepted |
| `PhonePattern.MissingSpaceRejected` | composables/useFormRequestValidation.ts:12 | "+7(999) 123-45-67", with no space after the code, is rejected |
| `PhoneMask.MaskFor` | utils/setPhoneMask.ts:1-20 | total on all integers; the result is the default `(###) ###-##-##` exactly when the code is not one of the ten listed codes |
| `PhoneMask.MaskShape` | utils/setPhoneMask.ts:6-18 | every mask uses only `#`, `-`, `(`, `)` and space; codes 374, 375 and 998 get 9 slots and every other code gets 10 |
| `PhoneMask.MaskTable` | utils/setPhoneMask.ts:3-18 | the table entry by entry: 1/62/91, 374, 375/998, 992/994/995/996, and the default for 7, 0 and -1 |
| `PhoneMask.MaskLengths` | utils/setPhoneMask.ts:6-18 | every result is one of the five templates, and only the default one is 15 characters long |
| `PhoneMask.Fill` | utils/setPhoneMask.ts:6-18 | filling a mask's slots with digits keeps the mask's length and yields a string that fits the mask |
| `PhoneMask.SlotDigits` | utils/setPhoneMask.ts:6-18 | reading the characters under a mask's slots gives one character per slot |
| `PhoneMask.FillRoundTrip` | utils/setPhoneMask.ts:6-18 | the k-th digit lands in the k-th slot: reading the slots of a filled mask back gives the digits in order |
| `PhoneMask.FillKeepsLiterals` | utils/setPhoneMask.ts:6-18 | every position of a filled mask that is not a slot keeps the mask's character |
| `MaskedPhone.MatchNeedsFifteenCharMask` | composables/useFormRequestValidation.ts:12 | `+code mask-filled` can match the pattern only if the mask has 15 characters |
| `MaskedPhone.DefaultMaskMatches` | composables/useFormRequestValidation.ts:12 | the default mask filled with digits, behind `+` and one to three code digits and a space, always matches |
| `MaskedPhone.OnlyDefaultMaskMatches` | utils/setPhoneMask.ts:17-18 | among all masks, a number typed through the mask matches the form's phone pattern exactly when the mask is the default |
| `LeaseDates.BeforeIsStrictTotalOrder` | composables/useFormRequestValidation.ts:44 | the (year, month, day) order used for `maxDate > minDate` is irreflexive, transitive, asymmetric and total |
| `LeaseDates.Normalize` | composables/useFormRequestValidation.ts:42-43 | `split('.').reverse().join('-')`; `NormalizeRoundTrip` shows it is undone by the reverse rewriting, and `NormalizeDotted` that it turns `DD.MM.YYYY` into `YYYY-MM-DD` |
| `LeaseDates.ParseIso` | composables/useFormRequestValidation.ts:42-44 | `new Date` on the rewritten text gives a date only for `YYYY-MM-DD` text, with month 1-12 and day 1-31 |
| `LeaseDates.NormalizeRoundTrip` | composables/useFormRequestValidation.ts:42-43 | applying the reverse split/join (`-` to `.`) after `split('.').reverse().join('-')` restores any text without a dash |
| `LeaseDates.NormalizeDotted` | composables/useFormRequestValidation.ts:42-43 | `DD.MM.YYYY` is rewritten to `YYYY-MM-DD` |
| `LeaseDates.ParseNormalized` | composables/useFormRequestValidation.ts:42-44 | parsing the rewritten text gives the same date as reading `DD.MM.YYYY` field by field |
| `LeaseDates.LaterTest` | composables/useFormRequestValidation.ts:39-47 | the `is-later` test; `LaterOnDottedDates`, `SameDateRejected` and `LaterSkippedUnlessBothValid` state when it passes |
| `LeaseDates.LaterOnDottedDates` | composables/useFormRequestValidation.ts:39-47 | for two valid `DD.MM.YYYY` strings, `is-later` passes exactly when the end date is strictly after the start date |
| `LeaseDates.SameDateRejected` | composables/useFormRequestValidation.ts:44 | equal valid dates fail `is-later` |
| `LeaseDates.LaterSkippedUnlessBothValid` | composables/useFormRequestValidation.ts:41-46 | `is-later` passes when either string is unset or invalid |
| `LeaseDates.EndBeforeStartRejected` | composables/useFormRequestValidation.ts:39-47 | a lease from 1 January of one year to 1 January of an earlier year fails `is-later` |
| `LeaseDates.NewYear2024To2023Rejected` | composables/useFormRequestValidation.ts:39-47 | 01.01.2024 to 01.01.2023 fails `is-later` |
| `LeadForm.Violates` | composables/useFormRequestValidation.ts:8-47 | the condition under which each declared rule fails; `AreaRules`, `DeclaredAreaRules`, `DateRules`, `PhoneRules` and `OrganisationRules` state it per field in terms of the form's values |
| `LeadForm.Chain` | composables/useFormRequestValidation.ts:8-48 | the calls of each field's chain in source order, with yup's test name and whether the test is exclusive; `RulesOfBuiltSchema` and `BuildWithoutReplacement` relate it to the rule tables |
| `LeadForm.Surviving` | composables/useFormRequestValidation.ts:22-26 | the earlier tests kept when a test is added: exactly those not registered under the name of a new exclusive test |
| `LeadForm.Build` | composables/useFormRequestValidation.ts:22-26 | adding a chain's calls one by one keeps only tests of the chain, and the last call always survives; `BuildWithoutReplacement` and `MaxChainBuild` give its result |
| `LeadForm.DeclaredRules` | composables/useFormRequestValidation.ts:8-48 | every rule the chains declare, tabulated; `RulesOfBuiltSchema` proves it equals the rules of `Chain` |
| `LeadForm.RulesOf` | composables/useFormRequestValidation.ts:22-26 | the rules yup keeps per field; `RulesOfBuiltSchema` shows it equals what the chains build, and the maximum area has only `required` and `positive` |
| `LeadForm.RulesOfBuiltSchema` | composables/useFormRequestValidation.ts:8-48 | the declared rules are the rules of each chain's calls; the kept rules are those that survive the exclusive replacements; only the maximum area loses a rule, `min(ref('min'))` |
| `LeadForm.MaxChainBuild` | composables/useFormRequestValidation.ts:22-26 | on the maximum area, adding `.positive()` drops `.min(ref('min'))` and leaves `required` and `positive` |
| `LeadForm.BuildWithoutReplacement` | composables/useFormRequestValidation.ts:8-48 | a chain in which no exclusive test follows a test of its own name keeps every call |
| `LeadForm.Validate` | composables/useFormRequestValidation.ts:7-50 | an entry per field with at least one violated kept rule, and each entry holds exactly that field's violated kept rules; `min(ref('min'))` on the maximum area is never reported |
| `LeadForm.ValidateAsDeclared` | composables/useFormRequestValidation.ts:7-50 | the same, with every declared rule checked |
| `LeadForm.DroppedRuleChangesNoVerdict` | composables/useFormRequestValidation.ts:22-26 | the built and the declared schema accept the same forms, and their reports differ only in `min(ref('min'))` on the maximum area |
| `LeadForm.Message` | composables/useFormRequestValidation.ts:8-48 | every schema message is non-empty with no whitespace at either end |
| `LeadForm.CombinedError` | composables/useFormRequestValidation.ts:71-72 | the combined range message never starts or ends with whitespace |
| `LeadForm.CombinedErrorCases` | composables/useFormRequestValidation.ts:71-72 | for plain messages the result is "" when neither field errs, the single message when one errs, and `a + " " + b` when both err |
| `LeadForm.AcceptedIff` | composables/useFormRequestValidation.ts:7-50 | validation reports nothing exactly when the form is acceptable. Acceptable means: a non-empty name and address, a matching phone, a place type, 0 <= min <= max with max > 0, and two valid dates with the end strictly later |
| `LeadForm.EmptyIffNoViolation` | composables/useFormRequestValidation.ts:7-50 | for any rule table, the error map is empty exactly when no rule of the table is violated |
| `LeadForm.AcceptableIffNoViolation` | composables/useFormRequestValidation.ts:7-50 | the field-by-field acceptability condition is equivalent to violating none of the kept rules, and to violating none of the declared rules |
| `LeadForm.OrganisationRules` | composables/useFormRequestValidation.ts:8-9 | `title` and `address` are each rejected exactly when unset or empty, only by `required`, and both carry the same message |
| `LeadForm.UnsetReportsOnlyRequired` | composables/useFormRequestValidation.ts:7-50 | an unset field is reported by `required` and by no other rule |
| `LeadForm.PhoneRules` | composables/useFormRequestValidation.ts:10-13 | a non-empty phone passes exactly when it matches the pattern; an accepted phone has 18 to 20 characters; an empty phone fails both `required` and the pattern |
| `LeadForm.AreaRules` | composables/useFormRequestValidation.ts:15-28 | with both areas set: min errs iff min < 0 or min > max; max errs iff max <= 0, and then only through `positive`; min > max marks the minimum; max = 0 is always rejected |
| `LeadForm.DeclaredAreaRules` | composables/useFormRequestValidation.ts:22-26 | under every declared rule, max would err iff max < min or max <= 0, and min > max would mark both fields |
| `LeadForm.AreaExamples` | composables/useFormRequestValidation.ts:19-26 | 50..30 is reported on the minimum alone (`{NotAboveMax}`), while the declared schema would also report the maximum; -5..10 is reported only as a negative minimum |
| `LeadForm.DateRules` | composables/useFormRequestValidation.ts:29-49 | with both dates set, `is-valid-date` fires on each date exactly when that date is invalid. `is-later` fires only when both dates are valid; for `DD.MM.YYYY` dates it fires exactly when the end is not strictly after the start. Equal valid dates are rejected |

## Findings

| source | as written | input that shows it | evidently intended | confidence | as-written member | corrected member |
|---|---|---|---|---|---|---|
| composables/useFormRequestValidation.ts:25-26 | `.positive()` is yup's `moreThan(0)`, an exclusive test named `min`, so it replaces the `.min(yup.ref('min'))` test of line 25; a maximum below the minimum is never reported on the maximum field, and its message is never shown | `rangeField = { min: 50, max: 30 }`: the maximum is not reported | the maximum is also reported, with "Максимальная площадь должна быть больше или равна минимальной" | not executed; the replacement follows from yup's rule for exclusive tests | `LeadForm.AreaExamples` | `LeadForm.DeclaredAreaRules` |

`Validate` models the schema as yup builds it, because that is what the form
does. `ValidateAsDeclared` is the corrected definition. `DroppedRuleChangesNoVerdict`
shows the two accept the same forms: a form with min > max is still rejected
through the minimum. The correction changes only which field shows the error.

## Left out

- The Vue and vee-validate runtime is not modelled: `useForm`, `useField`, `ref`, `computed`, `handleSubmit`, the initial `{ min: '', max: '' }` values and the returned bindings (lines 52-69 and 74-97). It is framework state plumbing.
- The model does not say which single message vee-validate shows for a field. `CombinedError` takes each field's current message as an arbitrary optional string.
- `typeError` (lines 21, 27, 34 and 48) and yup's casting of non-numeric input such as `''` to a number are left out. The areas are `real` values or unset.
- `isValidDateString` (utils/isValidDateString) is not part of this model. It is the parameter `valid`. The model calls it only on strings that are set: an unset date fails `required` alone, and `is-later` treats an unset date as not valid.
- How a `yup.ref` resolves when the other value is unset is library behaviour. The two cross-field area rules are checked only when both areas are set.
- JavaScript `Date` parsing is abstracted. Only the date-only ISO form `YYYY-MM-DD`, with month 1-12 and day 1-31, gives a date; anything else is an invalid date, and an invalid date makes `>` false. Other date forms the engine accepts, day overflow (30 February read as 1 March), and time zones are not modelled.
- IEEE doubles and NaN are not modelled: the areas are only compared, so they are `real`.
- `MaskFor` takes an integer. With a non-integer number or NaN, the JavaScript `switch` falls to the default; the model does not cover that input.
- `LeadForm.Build` models only what these chains need from yup's `test()`: an exclusive test removes earlier tests of its name. yup also removes an earlier test with the same test function, and makes a later non-exclusive test of an exclusive name exclusive. Neither case arises in this schema.
- `PhoneMask.Fill`: how the masked input component applies a mask is not part of this model. `Fill` is only the reading of `#` as one digit slot.
- `LeadForm.DateRules`: the exact `is-later` outcome is stated only for valid strings of the shape `DD.MM.YYYY`. For other valid strings it is given by `LaterTest`, through the abstract date parser.
- Build, SSR, i18n and lint configuration, the UI component type declarations and the locale strings have no behaviour and are left out.

# noravel-validation rule engine in Dafny

This project models the rule engine of the noravel-validation library, a
declarative validator in the style of Laravel's. An attribute's rules are
built fluently (`rule().string().required()`). The validator runs every
attribute's rules over a data object and collects, per attribute, the
messages the failing rules report. From that run it answers `passes`,
`fails`, `valid`, `invalid`, `validated` and `validate`.

The model follows the TypeScript source in three layers. Each is a Dafny
module of pure functions over immutable datatypes.

- **Rules** (`rules.dfy`, with `validateattribute.dfy` and `customrule.dfy`):
  - each built-in rule of `src/Rules` is a `Check`;
  - a registered rule is a `Builtin(check, message)` or a callback-style
    `Custom(handler)`;
  - `Fails` is the test each rule's `validate` applies;
  - `Message` is its `getMessage`, including the `:attribute` placeholder
    substitution of the base class and Max's own override handling;
  - `Validate` is the list of messages a rule passes to `fail`.
- **Builder** (`registration.dfy`): `RuleRegistration` keeps its rules
  in an insertion-ordered map (`Assoc`, an association list), plus the
  field type that `min` and `max` capture when they are called.
- **Validator** (`validator.dfy`, with `messages.dfy`): a `Validator`
  record holds:
  - the rules per attribute, in insertion order;
  - the data;
  - the cached message map (`None` before the first run);
  - the last validated data.

  Every public method is a function from a validator to the updated
  validator and its answer.

JavaScript semantics the rules depend on are modelled concretely:

- `jstext.dfy`: `String.prototype.trim` over the ECMAScript white space
  set; `replace` with a string pattern, including `$` substitution patterns;
  string length in UTF-16 code units; integer-to-string conversion.
- `jsnumber.dfy`: `Number(string)` by the StringNumericLiteral grammar;
  `parseFloat` as "some prefix is a decimal literal"; relational `<` and `>`
  after `ToNumber`.
- `email.dfy`: the fixed email pattern.
- `values.dfy`: JavaScript values (`Null | Undefined | Str | Num | Bool |
  Arr | Obj`) and `String(value)`.

`scenarios.dfy` restates each test of the repository's suite over the
model (`test/basic.test.js`, `test/custom.test.js`, `test/email.test.js`
and `test/type.test.js`), together with the general lemmas those
instances come from.

Custom handlers are functions `(attribute, value) -> seq<string>`: the
messages they pass to `fail`, in order. A regular expression is its `test`
predicate, uninterpreted.

## Model

| member | source | states |
|---|---|---|
| Rules.SetMessage | src/Rules/ValidationRule.ts:10-14 | setting an override keeps the rule's check and stores exactly the given message; `undefined` clears it |
| Rules.DisplayName | src/Rules/ValidationRule.ts:23 | the shown name has the attribute's length and differs from it only where an `_` became a space; an attribute without `_` is shown as it is |
| Rules.FormatMessage | src/Rules/ValidationRule.ts:22-24 | the base class formats the override, or the default when there is none; a message without `:` comes back unchanged |
| Rules.PlaceholderAbsent | src/Rules/ValidationRule.ts:23 | a message without `:` holds no `:attribute`, so replacing it changes nothing |
| Rules.DefaultMessage | src/Rules/RequiredRule.ts:5-7 | every default message starts with `The `, and the Required, Array, In and Email defaults put the `:attribute` placeholder right after it |
| Rules.SizeSuffix | src/Rules/MinRule.ts:15-28 | the wording Min and Max append to their default by field type; what it produces is stated by `Rules.MinMessages` and `Rules.MaxMessages` |
| Rules.MinMessages | src/Rules/MinRule.ts:12-31 | Min reports "The <attribute> field must be at least <bound>" followed by " items." under the array type, " characters." under the string type and "." under the number type |
| Rules.MaxMessages | src/Rules/MaxRule.ts:18-39 | Max reports "The <attribute> field must not have more than <bound>" followed by " items.", " characters." or "." by field type, for every attribute |
| Rules.Message | src/Rules/MaxRule.ts:18-39 | a non-empty override without `:` is the message as given; the empty override is the message `''` for every rule but Max, which falls back on its default |
| Rules.DisplayNameFirstUnderscore | src/Rules/ValidationRule.ts:22-24 | only the first `_` of an attribute is shown as a space: `p_q` with `_` not in `p` shows as `p q`, later underscores stay |
| Rules.DisplayNamePlain | src/Rules/ValidationRule.ts:22-24 | an attribute without `_` is shown unchanged |
| Rules.DisplayNameNoDollar | src/Rules/ValidationRule.ts:23 | the shown name contains no `$` when the attribute has none, so a later `replace` inserts it literally |
| Rules.PlaceholderFilled | src/Rules/ValidationRule.ts:22-24 | the override, or the default when there is none, has its first `:attribute` replaced by the shown name; the text around it is kept |
| Rules.PlaceholderDefaults | src/Rules/RequiredRule.ts:5-7 | the default messages of Required, Array, In and Email show the attribute with its first underscore as a space, e.g. "The first name field is required." |
| Rules.InterpolatedDefault | src/Rules/StringRule.ts:4-6 | String, Numeric, Regex, Min and Max report their defaults exactly as built, with the raw attribute (underscores kept), when the attribute has no `:` |
| Rules.OverrideMessage | src/Rules/ValidationRule.ts:22-24 | every rule but Max uses an override whenever one is set, the empty string included, with its placeholder filled by the shown name |
| Rules.MaxOverrideMessage | src/Rules/MaxRule.ts:18-19 | Max fills its override's placeholder with the raw attribute, and treats the empty override as no override |
| Rules.UnderscoreShownDifferently | src/Rules/MaxRule.ts:19 | the same override reads `first name …` under Min and `first_name …` under Max |
| Rules.RequiredFails | src/Rules/RequiredRule.ts:9-21 | Required fails exactly on null, undefined, strings of white space only and the empty array |
| Rules.NumericFails | src/Rules/NumericRule.ts:8-12 | a number always passes; a string, or an array through its string form, passes exactly when it is a numeric literal between white space; null, undefined, booleans and objects fail |
| Rules.EmailFails | src/Rules/EmailRule.ts:8-12 | Email fails exactly on non-strings and on strings that are not addresses by the conditions of `IsEmailAddress` |
| Rules.Fails | src/Rules/StringRule.ts:8-12 | the rule tests as their `validate` methods do: Required rejects null, undefined, blank strings and the empty array; String rejects non-strings; Array rejects non-arrays; Numeric rejects a string exactly when it is not a numeric string; Email rejects what is not an address |
| Rules.Size | src/Rules/MinRule.ts:36 | the measured `length` of an array is its element count, and of a string lies between its character count and twice that (UTF-16 code units) |
| Rules.MinFails | src/Rules/MinRule.ts:33-47 | under the number type a number fails below the bound, null compares as 0 and undefined never fails; under the other types an array fails when it has fewer elements than the bound, and values other than strings and arrays are not measured |
| Rules.MaxFails | src/Rules/MaxRule.ts:41-53 | under the number type a number fails above the bound, null compares as 0 and undefined never fails; under the other types an array fails when it has more elements than the bound, and values other than strings and arrays are not measured |
| Rules.InFails | src/Rules/InRule.ts:12-28 | an allowed list that is not an array or is empty never fails; a member of the first element's kind passes; a non-member fails when the first element is a string or a number |
| Rules.RegexFails | src/Rules/RegexRule.ts:12-18 | a string is tested as it is, and null as the string `"null"` |
| Rules.Validate | src/Rules/CustomRule.ts:1-7 | a built-in rule calls `fail` at most once, exactly when its test fails, with its own message; a callback rule passes on exactly what its handler reports |
| Rules.DigitsPassNumeric | src/Rules/NumericRule.ts:9 | every non-empty string of decimal digits passes Numeric |
| Rules.NumericRejectsNull | src/Rules/NumericRule.ts:9 | null fails Numeric |
| Rules.EmailTestValues | test/email.test.js:4-31 | `test@example.com` passes Email and `not an email` fails it |
| Rules.NumberBoundsReadStrings | src/Rules/MinRule.ts:40-43 | under the number type, Min and Max compare the string form of an integer by the integer it spells |
| Rules.NumberBoundsOnMissing | src/Rules/MaxRule.ts:48-51 | under the number type, null compares as 0 and undefined never fails a bound |
| Rules.SizeWindow | src/Rules/MinRule.ts:34-39 | under the string and array types, a value passes Min(lo) and Max(hi) exactly when it is not a string or an array, or its length is within `[lo, hi]` (bounds inclusive) |
| Rules.SizeIgnoresOtherKinds | src/Rules/MaxRule.ts:42-47 | under the string and array types a number is never measured, while under the number type the empty string compares as 0 |
| Rules.InComparesByType | src/Rules/InRule.ts:12-28 | the first allowed element's type decides: `[1]` rejects `"1"`, `["1"]` rejects `1`, and an empty or non-array list accepts everything |
| Rules.InAcceptsMembers | src/Rules/InRule.ts:17-27 | every allowed element of the first element's kind passes In |
| Rules.InAdmitsExactlyMembers | src/Rules/InRule.ts:17-27 | a list starting with a string admits exactly the strings in it, and a list starting with a number exactly the numbers in it; every other value fails |
| Rules.RegexTestsStringForm | src/Rules/RegexRule.ts:12-18 | the pattern is tested against `String(value)`: null as `"null"`, an array as its comma-joined elements |
| Rules.RequiredAcceptsFalsyValues | src/Rules/RequiredRule.ts:9-21 | 0, false and the empty object pass Required |
| Rules.RequiredBlankStrings | src/Rules/RequiredRule.ts:12-15 | a string fails Required exactly when it is white space throughout; one visible character makes it pass |
| JsText.Trim | src/Rules/RequiredRule.ts:13 | the trimmed string is empty exactly when the input is all white space, and otherwise starts and ends with a non-white-space character |
| JsText.TrimIsInfix | src/Rules/RequiredRule.ts:13 | the trimmed string sits in the input between an all-white-space prefix and an all-white-space suffix, so with the `Trim` contract it is the input with exactly its leading and trailing white space cut |
| JsText.ReplaceFirst | src/Rules/ValidationRule.ts:23 | `replace` with a string pattern changes only the first occurrence and leaves a string without the pattern as it is |
| JsText.GetSubstitution | src/Rules/ValidationRule.ts:23 | the replacement text of `replace`, with `$$`, `$&`, `` $` `` and `$'` expanded; its meaning for the names the rules insert is stated by `JsText.SubstitutionLiteral` |
| JsText.SubstitutionLiteral | src/Rules/ValidationRule.ts:23 | a replacement without `$` is inserted exactly as given |
| JsText.IntToDecimal | src/Rules/MinRule.ts:15-28 | `${this.value}` of an integer bound starts with `-` exactly when it is negative, continues with decimal digits without a leading zero, and holds no `:` or `$`; `JsNumber.DecimalRoundTrip` states that it reads back as the integer |
| JsText.Utf16Length | src/Rules/MinRule.ts:36 | a string's `length` counts UTF-16 code units: between one and two per character, exactly one each when every character lies in the Basic Multilingual Plane and two each when none does |
| JsText.Utf16Concat | src/Rules/MinRule.ts:36 | the code-unit count of a concatenation is the sum of the counts |
| JsText.Utf16Char | src/Rules/MinRule.ts:36 | one character counts one code unit inside the Basic Multilingual Plane and two (a surrogate pair) above U+FFFF |
| JsNumber.StringToNumber | src/Rules/NumericRule.ts:9 | `Number(s)` is NaN exactly when the trimmed string is non-empty and not a StrNumericLiteral |
| JsNumber.ToNumber | src/Rules/MinRule.ts:41 | the relational comparison converts a number to itself, `null` to 0 and `undefined` to NaN |
| JsNumber.LessThan | src/Rules/MinRule.ts:41 | `<` is false when the number is NaN and when it equals the bound |
| JsNumber.GreaterThan | src/Rules/MaxRule.ts:49 | `>` is false when the number is NaN, and never holds together with `<` |
| JsNumber.IsNumericString | src/Rules/NumericRule.ts:9 | a numeric string is not blank and `Number` does not read it as NaN |
| JsNumber.NumericStringCharacterisation | src/Rules/NumericRule.ts:9 | `!isNaN(s) && !isNaN(parseFloat(s))` holds exactly when the string, trimmed, is a non-empty numeric literal (decimal with optional sign, fraction and exponent, `Infinity`, or `0b`/`0o`/`0x`); a blank string fails although `Number('')` is 0 |
| JsNumber.DigitsRoundTrip | src/Rules/NumericRule.ts:9 | a digit string and its negation are numeric and convert to the number they spell |
| JsNumber.DecimalRoundTrip | src/Rules/MinRule.ts:41 | `Number(String(n)) == n` for every integer `n` |
| JsNumber.ParseFloatFailsOn | src/Rules/NumericRule.ts:9 | `parseFloat` is NaN for a string that starts with none of a digit, a sign, `.` or `I` |
| JsNumber.ParseFloatSucceeds | src/Rules/NumericRule.ts:9 | `!isNaN(parseFloat(s))`: some prefix after leading white space is a decimal literal; stated by `JsNumber.NumericStringCharacterisation` together with `isNaN(s)`, and by `JsNumber.ParseFloatFailsOn` for strings that start with no digit, sign, `.` or `I` |
| EmailPattern.PatternIsAddress | src/Rules/EmailRule.ts:9 | the anchored pattern matches exactly the strings with one `@`, a non-empty local part over `[A-Za-z0-9._%+-]`, and a domain over `[A-Za-z0-9.-]` whose last `.` has text before it and at least two ASCII letters after it |
| EmailPattern.PatternMatches | src/Rules/EmailRule.ts:9 | `value.match(pattern)` is not null; `EmailPattern.PatternIsAddress` proves it equal to the address conditions, both directions |
| Values.Lookup | src/Validator.ts:65 | `this.data[attribute]` is the stored value, or `undefined` for an absent attribute |
| Values.ToStr | src/Rules/RegexRule.ts:13 | `String(value)` of a string is the string itself, of the empty array `''`, and of a one-string array that string |
| Values.Join | src/Rules/RegexRule.ts:13 | `String(array)` joins the elements' string forms with `,`, null and undefined as `''`; stated by `Rules.RegexTestsStringForm` (`[1, null, "b"]` gives `"1,,b"`) and the array cases of `Values.ToStr` |
| Assoc.Put | src/RuleRegistration.ts:35 | assigning an object key stores the value, keeps every other key's value, keeps the key order when the key exists, and appends the key otherwise |
| Assoc.PutKeepsDistinct | src/RuleRegistration.ts:50 | assigning a key keeps the keys distinct |
| Assoc.Remove | src/RuleRegistration.ts:109-111 | `delete` removes the key and keeps every other key and value, the remaining keys in their order |
| Assoc.Diff | src/Validator.ts:129 | the difference holds exactly the elements of the first list not in the second, as a subsequence of the first list |
| Assoc.DiffConcat | src/Validator.ts:129 | the difference of a concatenation is the concatenation of the differences, so the first list's order is kept |
| Assoc.DiffSingle | src/Validator.ts:129 | a single element survives the difference exactly when it is not in the second list |
| MessageMap.PushMessage | src/Validator.ts:184-194 | pushing appends the message to the attribute's list, creating the list at the end of the map if absent; other attributes are untouched |
| MessageMap.PushAll | src/Validator.ts:65-67 | a handler's reports are appended to the attribute's list in the order it reports them |
| MessageMap.Collect | src/Validator.ts:52-75 | attributes that report nothing leave the message map as it was: when no report holds a message, the run returns the starting map |
| MessageMap.CollectAppends | src/Validator.ts:52-75 | with distinct attributes, pushing every attribute's reports in turn yields exactly the attributes that reported, in order, each with its reports |
| MessageMap.CollectNonEmpty | src/Validator.ts:77 | a run from the empty map leaves it empty exactly when no attribute reported |
| ValidateAttribute.Nullable | src/ValidateAttribute.ts:9-11 | `nullable` accepts every value |
| ValidateAttribute.Required | src/ValidateAttribute.ts:20-30 | `required` rejects exactly null, undefined, blank strings and the empty array, so it is the negation of RequiredRule's test and of the validator's nullable emptiness test |
| FactoryRule.New | src/CustomRule.ts:4-6 | a new custom rule holds its callback, does not fail and has the empty message |
| FactoryRule.Fails | src/CustomRule.ts:16-18 | `fails()` is whether a message is held; its meaning is carried by the `FactoryRule.New`, `FactoryRule.SetMessage` and `FactoryRule.Validate` contracts: false when new, true after `setMessage`, and after `validate` exactly when the callback reported |
| FactoryRule.GetMessage | src/CustomRule.ts:20-22 | `getMessage()` is `''` for a rule that does not fail and the held message for one that does |
| FactoryRule.SetMessage | src/CustomRule.ts:24-28 | after `setMessage` the rule fails with exactly that message |
| FactoryRule.Report | src/CustomRule.ts:11 | after the callback's `fail` calls, the message is the last one reported, or unchanged when there was none |
| FactoryRule.Validate | src/CustomRule.ts:8-14 | after `validate`, the rule fails exactly when its callback reported something |
| FactoryRule.ValidateReportsLast | src/CustomRule.ts:20-22 | after `validate`, `getMessage` is the callback's last report or `''`, whatever message an earlier run left |
| FactoryRule.ValidateIdempotent | src/CustomRule.ts:8-14 | validating twice with the same input is validating once |
| RuleRegistration.New | src/RuleRegistration.ts:19-22 | a new registration has no rules, the string type, and the name it was given (`''` when none) |
| RuleRegistration.GetName | src/RuleRegistration.ts:191-193 | `getName()` is `''` when no name was given |
| RuleRegistration.Add | src/RuleRegistration.ts:35 | storing a rule under its key replaces an earlier rule in place, or appends it; nothing else changes |
| RuleRegistration.Array | src/RuleRegistration.ts:29-38 | `array()` sets the array type and stores an ArrayRule with the given message under `array` |
| RuleRegistration.Email | src/RuleRegistration.ts:46-53 | `email()` stores an EmailRule under `email` and keeps the type |
| RuleRegistration.In | src/RuleRegistration.ts:62-69 | `in()` stores an InRule over the values under `in` and keeps the type |
| RuleRegistration.Max | src/RuleRegistration.ts:78-85 | `max()` stores a MaxRule fixed to the current type under `max` |
| RuleRegistration.Min | src/RuleRegistration.ts:94-101 | `min()` stores a MinRule fixed to the current type under `min` |
| RuleRegistration.Nullable | src/RuleRegistration.ts:108-116 | `nullable()` deletes `required`, stores the silent rule under `nullable`, and keeps every other rule; the remaining rules keep their order, and `nullable` keeps its place or goes last when new |
| RuleRegistration.Numeric | src/RuleRegistration.ts:118-127 | `numeric()` sets the number type and stores a NumericRule under `numeric` |
| RuleRegistration.Regex | src/RuleRegistration.ts:136-143 | `regex()` stores a RegexRule with the pattern's test under `regex` and keeps the type |
| RuleRegistration.Required | src/RuleRegistration.ts:151-158 | `required()` stores a RequiredRule under `required` and keeps the type |
| RuleRegistration.String | src/RuleRegistration.ts:166-175 | `string()` sets the string type and stores a StringRule under `string` |
| RuleRegistration.SetName | src/RuleRegistration.ts:201-205 | `setName` changes the name `getName` returns and nothing else |
| RuleRegistration.FormatMessage | src/RuleRegistration.ts:213-215 | a message without `:` is returned unchanged, whatever the name |
| RuleRegistration.FormatMessageFillsName | src/RuleRegistration.ts:213-215 | the first `:attribute` becomes the name, and disappears when there is no name |
| RuleRegistration.FormatMessagePlain | src/RuleRegistration.ts:213-215 | a message without `:` is returned unchanged |
| RuleRegistration.ChainWf | src/RuleRegistration.ts:29-175 | every chain of builder calls keeps the rule keys distinct and among the ten rule names, with a built-in rule under every key but `nullable` |
| RuleRegistration.Serialize | src/RuleRegistration.ts:182-184 | `serialize()` returns the registration's own rules; for a well-formed registration they have distinct keys, at most one rule per rule name |
| RuleRegistration.MinCapturesType | src/RuleRegistration.ts:94-101 | `numeric().min(n)` compares numbers, while a type call after `min(n)` does not retype it |
| RuleRegistration.MaxCapturesType | src/RuleRegistration.ts:78-85 | `array().max(n).string()` still measures arrays |
| RuleRegistration.NullableAndRequired | src/RuleRegistration.ts:108-116 | `nullable()` removes an earlier `required()`, and a later `required()` is stored after every other rule |
| RuleRegistration.RepeatedCallKeepsOrder | src/RuleRegistration.ts:155 | calling `required()` again keeps the key order and stores the new message |
| Validation.New | src/Validator.ts:13-16 | a new validator has no data, no run and no validated data, and satisfies the invariant |
| Validation.IsNullIfMarkedAsNullable | src/Validator.ts:97-105 | the nullable skip applies exactly when `nullable` is registered and `ValidateAttribute.required` rejects the value |
| Validation.RunRules | src/Validator.ts:57-69 | the rule loop does not stop at a failure: every failing built-in rule's message is reported |
| Validation.RunRulesSingle | src/Validator.ts:57-69 | one rule reports exactly what its `validate` passes to `fail` |
| Validation.RunRulesConcat | src/Validator.ts:57-69 | running the rules of `a + b` reports `a`'s messages followed by `b`'s, so messages come out in rule order |
| Validation.EntryMessages | src/Validator.ts:53-74 | a registration reports nothing when it holds `nullable` and the value is one `required` rejects, and otherwise runs its rules; a callback rule reports what it fails with; a stateful custom rule reports nothing |
| Validation.RunRulesReports | src/Validator.ts:57-69 | a registration's rules report at most one message each, and nothing exactly when no built-in test fails |
| Validation.RegistrationReportsAtMostOnePerRule | src/Validator.ts:55-69 | an attribute built by the builder reports at most one message per stored rule, hence per rule name |
| Validation.NullableGate | src/Validator.ts:57-60 | after `nullable()`, a blank value skips every rule and any other value runs them all |
| Validation.Reports | src/Validator.ts:52-75 | every attribute is visited in rule order with the messages its entry reports |
| Validation.Passes | src/Validator.ts:49-78 | `passes()` replaces only the cached messages, is true exactly when no entry reported and exactly when the cached map is empty, and caches exactly the reporting attributes in rule order, keeping the invariant |
| Validation.PassesRecordsReports | src/Validator.ts:52-77 | after a run, every rule attribute maps to exactly the messages its entry reported, or is absent when it reported none |
| Validation.FirstMessageOfFirstFailure | src/Validator.ts:219-225 | after a failed run, `getMessage()` is the first message of the first attribute in rule order that reported |
| Validation.Fails | src/Validator.ts:112-114 | `fails()` runs like `passes()` and answers its negation |
| Validation.Ensure | src/Validator.ts:121-124 | the rules run only when no run is cached; a cached run is reused as it is |
| Validation.Valid | src/Validator.ts:121-130 | `valid()` is exactly the rule attributes without messages, in rule order |
| Validation.Invalid | src/Validator.ts:137-143 | `invalid()` is the message keys, all of them rule attributes |
| Validation.ValidInvalidPartition | src/Validator.ts:121-143 | `valid()` and `invalid()` partition the rule attributes |
| Validation.Only | src/Validator.ts:172 | the restriction keeps exactly the data entries under the given keys, with their values |
| Validation.GetValidatedData | src/Validator.ts:171-175 | the validated data is the data under the rule attributes without messages, and is stored |
| Validation.Validated | src/Validator.ts:36-42 | `validated()` runs the rules only if no run is cached, then returns the validated data |
| Validation.PassingRunValidatesRuleData | src/Validator.ts:36-42 | when no entry reports, `validated()` returns the data under every rule attribute |
| Validation.ValidateAll | src/Validator.ts:23-29 | `validate()` fails exactly when a fresh run fails, with `getMessage()`, and otherwise returns the validated data of that run |
| Validation.SetData | src/Validator.ts:151-155 | `setData` replaces only the data, and `getData()` then returns it |
| Validation.GetData | src/Validator.ts:162-164 | `getData()` returns the data last given to `setData` (stated by the `Validation.SetData` contract `GetData(r) == data`) |
| Validation.SetDataKeepsVerdict | src/Validator.ts:151-155 | after `setData`, `valid()` and `invalid()` still answer for the cached run, and `validated()` restricts the new data to the cached valid attributes |
| Validation.GetMessage | src/Validator.ts:219-225 | `getMessage()` is `""` before a run and after a run with no messages; under the invariant it is the first message of the first cached attribute |
| Validation.PassingRunHasNoMessage | src/Validator.ts:49-78 | after a passing run `getMessage()` is `""` |
| Validation.GetMessages | src/Validator.ts:201-212 | `getMessages()` and `errors()` return the cached map, or the empty map before any run; under the invariant its keys are distinct rule attributes, each with a non-empty list |
| Validation.ErrorsAfterRun | src/Validator.ts:49-78 | after `passes()`, `getMessages()` is exactly the attributes that reported, in rule order, each with its messages |
| Validation.PushMessageTo | src/Validator.ts:184-194 | pushing on the validator appends to the attribute's list, creating the map if needed, and changes nothing else |
| Scenarios.OneRuleReports | src/Validator.ts:57-68 | an attribute with one built-in rule reports that rule's default message exactly when its test fails |
| Scenarios.RequiredFieldReports | src/Rules/RequiredRule.ts:9-21 | `rule().required()` reports the required message exactly on a blank value |
| Scenarios.RequiredMessageSpaced | src/Rules/RequiredRule.ts:5-7 | the required message of `p_q` reads "The p q field is required." |
| Scenarios.ValidatedCachesReports | src/Validator.ts:36-42 | `validated()` on a validator that has not run caches exactly the reporting attributes in rule order |
| Scenarios.BothRequiredReport | src/Validator.ts:52-75 | two required attributes, one null and one missing, both report, in rule order |
| Scenarios.MissingNamesAreRequired | test/basic.test.js:4-21 | with `first_name` null and `last_name` missing, the messages are "The first name field is required." and "The last name field is required." |
| Scenarios.GivenNamesAreValidated | test/basic.test.js:23-41 | with both names given as non-blank values, `validated()` returns the data |
| Scenarios.SingleAttribute | src/Validator.ts:23-29 | with one attribute, `validate()` throws its entry's first message, or returns its data when it reports nothing |
| Scenarios.NumericRejectsWords | src/Rules/NumericRule.ts:8-12 | a string that does not start like a number makes `validate()` throw "The <attribute> field must be a number." |
| Scenarios.NumericRejectsMyAge | test/type.test.js:34-42 | `age: 'my age'` throws "The age field must be a number." |
| Scenarios.NumericAcceptsDigits | src/Rules/NumericRule.ts:8-12 | a string of digits makes `validate()` return the data unchanged |
| Scenarios.NumericAccepts123 | test/type.test.js:24-32 | `age: '123'` does not throw |
| Scenarios.NumericAcceptsNumber | src/Rules/NumericRule.ts:8-12 | `numeric()` over a number reports nothing, so `getMessage()` is `''` after `validated()` |
| Scenarios.NumericAcceptsNumber123 | test/type.test.js:17-22 | `age: 123` under `numeric()` leaves `getMessage()` as `''` |
| Scenarios.ArrayRejectsNumber | test/type.test.js:57-65 | a number under `array()` throws "The <attribute> must be an array.", without the word "field" the test expects |
| Scenarios.EmailReports | src/Rules/EmailRule.ts:8-12 | `email()` returns the data for an address and throws the email message otherwise |
| Scenarios.EmailSuite | test/email.test.js:4-31 | `not an email` throws "The email field must be a valid email address." and `test@example.com` is returned |
| Scenarios.TwoRulesReport | src/Validator.ts:57-68 | two built-in rules report their failing defaults in registration order, with no short-circuit |
| Scenarios.TypeThenRequiredOnNull | src/Validator.ts:57-68 | a type rule followed by `required()` reports both messages on null, the type rule's first |
| Scenarios.StringRequiredOnNull | test/type.test.js:4-13 | `string().required()` on null reports the string message, then the required one |
| Scenarios.NumericRequiredOnNull | test/type.test.js:44-53 | `numeric().required()` on null reports the numeric message, then the required one |
| Scenarios.ArrayThenRequiredOnMissing | src/Validator.ts:57-68 | `array()` then `required()` over a missing attribute reports the array message, then the required one |
| Scenarios.ArrayRequiredOnMissing | src/Rules/ArrayRule.ts:4-10 | `array().required()` over data without the attribute caches "The <shown name> must be an array." then "The <shown name> field is required." |
| Scenarios.ArrayRequiredOnEmptyData | test/type.test.js:67-76 | `name: rule().array().required()` over `{}` gives `errors()` with `name` mapped to "The name must be an array." then "The name field is required."; the test expects "…field must be an array." for the first |
| Scenarios.CallbackReportThrows | test/custom.test.js:24-45 | a rule object with a callback-style `validate` makes `validate()` throw its first report |
| Scenarios.StatefulRuleNeverThrows | test/custom.test.js:3-22 | a rule made by the stateful factory never makes `validate()` throw: the attribute's data is returned whatever its callback reports |

## Behaviour notes

The model follows the code where the code and its tests or documentation
disagree:

- `ArrayRule`'s default message is "The :attribute must be an array."
  (src/Rules/ArrayRule.ts:5). test/type.test.js:64 and :74 expect "…field
  must be an array.". `Scenarios.ArrayRejectsNumber` states the source's
  wording.
- A stateful custom rule (src/CustomRule.ts) has `validate(attribute,
  value)`. It ignores the `fail` callback the validator passes
  (src/Validator.ts:71-73), so its reports never reach the validator's
  messages. test/custom.test.js:3-22 expects `validate()` to throw.
  `Scenarios.StatefulRuleNeverThrows` states what the code does.
- The validator never calls `setName` on a registration. So
  `RuleRegistration.FormatMessage` is not part of a run.
- `setData` does not clear the cached messages. `valid()`, `invalid()` and
  `validated()` keep using the previous run until `passes()`, `fails()` or
  `validate()` runs again (`Validation.SetDataKeepsVerdict`).
- Max handles its override itself (src/Rules/MaxRule.ts:19). An empty
  override counts as none, and the placeholder gets the raw attribute.
  Every other rule uses the base class.
- The String, Numeric, Regex, Min and Max defaults interpolate the raw
  attribute, so their messages keep underscores. Required, Array, In and
  Email show the first underscore as a space.
- src/index.ts:13-16 takes `make(data, callback)`, while the tests call
  `make(callback, data)`. The scenarios build the validator directly:
  `New(rules)` followed by `SetData(data)`.

## Left out

- Attribute and rule key order: JavaScript enumerates integer-like keys
  first, in numeric order. The model keeps plain insertion order.
- `_col(xs).diff(ys)` and `_obj.only(data, keys)` come from
  `@noravel/supporter`, which is not part of this model:
  - `Assoc.Diff` is taken to be the order-preserving list
    difference;
  - `Validation.Only` is taken to be the key restriction, with keys absent
    from the data left out. Data is a `map`, since `only`'s output order is
    unknown.
- The regular-expression engine is left out. So is `lastIndex` state
  under the `g`/`y` flags. A pattern is an uninterpreted `string -> bool`.
- Numbers are integers, and numeric literals denote exact reals.
  Floating-point rounding, `-0` and exponent notation for large numbers
  in `String(n)` are not modelled.
- `String(value)` of an object is `[object Object]`. User-defined
  `toString`/`valueOf`, prototype keys and getters are not modelled.
- Keys named after `Object.prototype` members (`constructor`,
  `toString`, `valueOf`, `__proto__`, ...) are not modelled. The model
  treats every key as an own property. In JavaScript, `this.data[attribute]`
  on such an attribute finds the inherited member rather than `undefined`.
  `pushMessage` on such an attribute would call `push` on the inherited
  function and throw a `TypeError`. `Values.Lookup` and
  `MessageMap.PushMessage` therefore differ from JavaScript for these
  attribute names.
- `isValidationRule` (src/Validator.ts:86-88) is taken to hold for every
  entry and rule. Every rule class has a `validate` method, and so do the
  callback-style rule objects the model admits.
- A stateful custom rule's own message side effect during a validator run
  is not kept: the validator never reads it.
- `Validation.GetMessage`: for a cached attribute with an empty list,
  JavaScript would return `undefined`; the model returns `""`. A run never
  caches an empty list (`Validation.GetMessages`).
- Rules.Size: for a string the contract gives only the range between its
  character count and twice that. The exact count is `JsText.Utf16Length`,
  which `JsText.Utf16Concat` and `JsText.Utf16Char` pin down.
- The `else` branch of `MinRule.validate` (src/Rules/MinRule.ts:44-46) is
  left out: it is unreachable with the three field types.
- The message lemmas assume no `:` or `$` in the attribute. Those
  characters would be read as another placeholder or as a `replace`
  substitution pattern; `JsText.ReplaceFirst` models the general case.
- `ValidationException`, the legacy builder src/ValidationRule.ts,
  src/Contracts and the `ValidationFactory` glue of src/index.ts are not
  part of this model. Their behaviour is the exception carrying
  `getMessage()` (the `Failure` of `Validation.ValidateAll`), type
  declarations (`FieldType`), and construction.
- `errors()` is the alias of `getMessages()` (`Validation.GetMessages`).
  `getData()` is `Validation.GetData`.

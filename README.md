# Form wizard validator — a Dafny model

The backend of a multi-step form wizard serves a declarative form schema and checks submitted form data against it. A schema is a sequence of steps, and each step is a sequence of fields `{prop, label, validation?}`. The validator walks every field, reads `formData[prop]` and writes at most one human-readable message per prop into an `errors` record. The HTTP reply is 400 with the record when it is non-empty and 200 otherwise. A second, small endpoint looks up the schools of a city by `cityId`.

This project models three pieces of that backend:

- **The authoritative submit validator** (`backend/controllers/submitController.ts`), module `SubmitController`:
  - `validateField` is a method that writes into a shared `ErrorRecord` object;
  - `validateFormData` is a method with the source's two nested loops;
  - the status decision of `submitForm` is a method returning a reply value.
  
  Each method is proved against specification functions: `FieldVerdict` gives the message one field ends with, and `FormErrors` gives the record after the whole schema. Lemmas state each rule, and prove that the record is empty exactly when every field meets an independent conformance predicate (`Conforms`).
- **The older inline revision** of `/submit` and `/schools` (`backend/routes.ts`), module `Routes`. It has:
  - different messages;
  - a single `if/else if` chain on `type`;
  - a `boolean`/`validValues` rule;
  - a TypeError. Reading `value.length` on a missing or null value of a non-required string field with a non-zero `minLength` throws, and that ends the request. The model makes this an explicit outcome (`Throw`, `TypeErrorThrown`).
- **`getSchools`** (`backend/controllers/schoolController.ts`), module `SchoolController`. It is a pure dispatch from `cityId` to one of two reference lists, or to the 400 reply for a missing id.

Shared modules:

- `FormTypes` holds the schema and value datatypes, plus the JavaScript operations the validators apply to a value:
  - `RegexTest` (`emailRegex.test`);
  - `ToNumber` and `LooseLess` (`<` against a number);
  - `LengthOf` (`value.length`);
  - `Includes`.
- `EmailPattern` models the regular expression `^[^\s@]+@[^\s@]+\.[^\s@]+$` as a predicate over the ways a string can split. It is proved equal to a characterisation: exactly one `@`, no whitespace, a non-empty part before the `@`, and a `.` inside the domain that is neither its first nor its last character.
- `JsText` holds:
  - the `\s` character class;
  - `trim`;
  - the decimal rendering of an integer in template literals;
  - the integer part of ToNumber on strings.
  
  A lemma proves that rendering an integer and reading it back gives the same integer.

Inputs are parameters:

- The schema is a parameter, because the source imports `form.json` at module level.
- The two school lists are parameters, because the source imports JSON files.
- Submitted values are `Absent | Null | Str | Num | Bool`. `Absent` is `undefined`, a key the body lacks. Numbers are integers.

Behaviour worth knowing:

- In `validateField`, a later check overwrites an earlier message for the same prop. So a failing `minLength` or `min` replaces the type message, and the last failing rule's message is the one kept.
- The authoritative validator has no `boolean`/`validValues` rule; only the older revision has one.
- `null` counts as a present value: `value !== undefined`. So `null` goes through the type checks, and fails `string`, `number` and `email`.
- The `school` field is not given the required check, so an empty string passes.
- `\s` is JavaScript's Unicode whitespace class, not ASCII only.

## Model

| member | source | states |
|---|---|---|
| `JsText.NumberRoundTrip` | backend/controllers/submitController.ts:43-48 | the decimal text a message shows for a bound reads back, through JavaScript's string-to-number conversion, as that same bound |
| `EmailPattern.MatchesIffShape` | backend/controllers/submitController.ts:35-36 | a string matches `^[^\s@]+@[^\s@]+\.[^\s@]+$` iff it has exactly one `@`, no whitespace, a non-empty local part and a domain with an inner `.` |
| `SubmitController.ValidateField` | backend/controllers/submitController.ts:11-51 | the record after the call is the old record with this field's verdict written under its prop; every other key keeps its old value and presence |
| `SubmitController.ValidateFormData` | backend/controllers/submitController.ts:53-67 | returns a fresh record equal to validating every field of every step, in order, starting from an empty record |
| `SubmitController.SubmitForm` | backend/controllers/submitController.ts:69-81 | status is 400 with exactly the error record iff that record is non-empty, otherwise 200 with "Form validated successfully."; 200 iff every field of the schema conforms |
| `SubmitController.SchoolExemption` | backend/controllers/submitController.ts:15-20 | for prop `school`, a string or number records nothing and anything else (absent included) records "`label` must be either a string or a number.", whatever the field's rules |
| `SubmitController.RequiredShortCircuit` | backend/controllers/submitController.ts:23-26 | a required non-school field whose value is undefined, null or `''` ends with exactly "`label` is required." |
| `SubmitController.AbsentOptionalPasses` | backend/controllers/submitController.ts:29 | an undefined value of a non-required field other than `school` records nothing |
| `SubmitController.TypeMismatch` | backend/controllers/submitController.ts:30-33 | for a non-school field whose value is present and not a blank required one: type `string` with a non-string gives "`label` must be a string.", type `number` with a non-number gives "`label` must be a number.", unless a bound message overwrites it |
| `SubmitController.EmailRule` | backend/controllers/submitController.ts:34-38 | for a non-school field of type `email` whose value is present and not a blank required one: nothing is recorded iff the value is a string of address shape, and otherwise "`label` is not a valid email address.", unless a minLength or min message overwrites it |
| `SubmitController.BoundsOverwrite` | backend/controllers/submitController.ts:42-49 | for a non-school field whose value is not a blank required one: a string shorter than a non-zero minLength ends with "… must be at least N characters long." and a number below a non-zero min with "… must be at least N.", replacing any type message |
| `SubmitController.VerdictNoneIffConforms` | backend/controllers/submitController.ts:11-51 | a field records nothing iff it conforms: not a blank required field, and a present value of the declared type meeting minLength and min (school: string or number) |
| `SubmitController.ErrorKeys` | backend/controllers/submitController.ts:56-61 | a prop is a key of the record iff some field with that prop records a message |
| `SubmitController.ErrorKeysAreProps` | backend/controllers/submitController.ts:53-66 | every key of the returned record is the prop of some schema field; no other entries appear |
| `SubmitController.NoErrorsIffAllConform` | backend/controllers/submitController.ts:53-67 | the record is empty iff every field of every step conforms |
| `SubmitController.ErrorIsVerdict` | backend/controllers/submitController.ts:56-60 | with unique props, each field's prop maps to exactly that field's own message, and is absent when it has none |
| `SubmitController.ScenarioMissingEmail` | backend/controllers/submitController.ts:23-26 | a required email field with no data gives `{email: "Email is required."}` |
| `SubmitController.ScenarioMalformedEmail` | backend/controllers/submitController.ts:34-38 | `"not-an-email"` gives `{email: "Email is not a valid email address."}` |
| `SubmitController.ScenarioValidEmail` | backend/controllers/submitController.ts:34-38 | `"a@b.com"` gives an empty record |
| `SubmitController.ScenarioUnderAge` | backend/controllers/submitController.ts:47-49 | age 12 against min 18 gives `{age: "Age must be at least 18."}` |
| `Routes.CheckField` | backend/routes.ts:64-93 | the per-field callback throws exactly when the field's verdict is a TypeError, otherwise leaves the record unchanged or writes only the field's own message |
| `Routes.Submit` | backend/routes.ts:56-102 | the handler's reply is the reply for validating every field of every step in order, a TypeError ending the loop |
| `Routes.SubmitReplyMeaning` | backend/routes.ts:97-101 | a TypeError iff some field throws; 400 carries a non-empty record whose keys are schema props; 200 "Form submitted successfully" iff every field passes |
| `Routes.RequiredShortCircuit` | backend/routes.ts:69-72 | a required field whose value is undefined, null or `''` gets exactly "`label` is required" and no later rule |
| `Routes.ThrowsExactly` | backend/routes.ts:75-78 | a TypeError occurs exactly for an undefined or null value of a non-required `string` field with a non-zero minLength |
| `Routes.StringRule` | backend/routes.ts:75-78 | for a `string` field whose value is a string and not a blank required one: it is flagged iff minLength is non-zero and the string is shorter, with "… must be at least N characters" |
| `Routes.NumberRule` | backend/routes.ts:79-82 | for a `number` field whose value is not a blank required one: it is flagged iff min is non-zero and JavaScript's `value < min` holds, with "… must be greater than or equal to N"; an undefined value passes |
| `Routes.EmailRule` | backend/routes.ts:83-87 | a value that is not a blank required one (that gets "`label` is required") passes iff it is a string of address shape, else "`label` must be a valid email", an absent optional value included |
| `Routes.BooleanRule` | backend/routes.ts:88-92 | for a `boolean` field whose value is not a blank required one: with validValues present, a value not among them gets "`label` must be accepted"; without validValues nothing is recorded |
| `Routes.CrashAbsorbs` | backend/routes.ts:63-94 | once a field has thrown, the fields after it do not change the outcome |
| `Routes.CrashIff` | backend/routes.ts:63-94 | the loop ends in a TypeError iff some field's check throws |
| `Routes.RouteErrorKeys` | backend/routes.ts:63-94 | when the loop completes, a prop has an entry iff some field with that prop is flagged |
| `Routes.PassIff` | backend/routes.ts:63-94 | the loop completes with an empty record iff every field passes |
| `Routes.PassIffRoutePasses` | backend/routes.ts:69-92 | the chain of checks lets a field through iff it meets every rule at once: not blank if required; for `string` with a non-zero minLength, undefined and null fail, a string needs at least that length, and numbers and booleans, having no length, pass; not below a non-zero min for `number`; an address for `email`; one of validValues for `boolean` |
| `Routes.SuccessIffAllPass` | backend/routes.ts:63-101 | the handler answers 200 "Form submitted successfully" iff every field of every step meets every rule |
| `Routes.SchoolsRoute` | backend/routes.ts:34-48 | a missing or empty cityId gives 400 `cityId is required`; `'1'` and `'2'` give 200 with the first and second list unmodified, any other id 200 with `[]` |
| `Routes.SchoolsRouteAgrees` | backend/routes.ts:34-48 | the inline `/schools` handler replies exactly as the schools controller does, for every id and list |
| `SchoolController.GetSchools` | backend/controllers/schoolController.ts:5-18 | a missing or empty cityId gives 400 `{error: 'cityId is required'}` and no list; otherwise 200 with one of the two lists unmodified, or the empty list |
| `SchoolController.DispatchById` | backend/controllers/schoolController.ts:12-15 | id `'1'` gives the first list, `'2'` the second, any other non-empty id the empty list |
| `SchoolController.GetSchoolsFiltersByCity` | backend/controllers/schoolController.ts:12-17 | when each list holds only its own city's schools, the reply for any non-empty id is that city's schools filtered out of the combined catalogue |
| `SchoolController.ScenarioMissingAndUnknown` | backend/controllers/schoolController.ts:8-15 | no cityId gives 400 `{error: "cityId is required"}`; id `"99"` gives 200 with `[]` |

## Left out

- `getFormStructureData` and `getFormStructure` (backend/controllers/submitController.ts:83-97) read and parse `form.json` from disk. That is file I/O, so the schema is a parameter instead.
- The `console.log` of the received data (backend/controllers/submitController.ts:73) is diagnostics only.
- Express setup and route wiring (backend/server.ts, backend/src/routes.ts) are left out. So are the `/cities` and `/form` routes, which only send static JSON.
- The frontend (React components, react-hook-form rules, localStorage, toasts and fetch wrappers) is user-interface plumbing outside the validator.
- The "unexpected field" check is left out. At backend/controllers/submitController.ts:63-64 the source has only an empty comment, so no such entries are ever produced.
- Routes.Submit: it models the TypeError as an outcome. The status and body that Express's default error handler then sends belong to the framework and are not modelled.
- Numbers are integers. Floating-point values, NaN and Infinity as submitted values or bounds are not modelled. Bounds are taken to have a magnitude below 10^21, the range in which `${n}` prints plain decimal digits; larger numbers would render in exponent form.
- JavaScript's string-to-number conversion, used by `value < min` in the older revision, is modelled for integers only:
  - an optional sign followed by decimal digits gives its value;
  - whitespace-only text gives 0;
  - any string with a fraction, an exponent, a hex/octal/binary prefix or `Infinity` is treated as NaN.
- String length counts Dafny characters, which are Unicode scalar values. JavaScript counts UTF-16 code units, so the two differ for characters outside the Basic Multilingual Plane.
- Submitted values that are objects or arrays are not modelled. A missing or non-object request body is not modelled either.
- JavaScript object semantics are not modelled:
  - reading `formData[prop]` for a prop inherited from `Object.prototype`, such as `toString`;
  - writing `errors['__proto__']`.
  
  The model treats the data and the record as plain maps.
- A `cityId` given as a repeated query parameter, which makes Express pass an array, is not modelled. The parameter is either missing or a string.
- The older revision's per-field callback writes into the handler's local `errors` record. `Routes.CheckField` returns the updated record instead. No other code holds that record, so nothing is lost.
- Idempotence of validation is not stated as a lemma: every specification in the model is a function, so two calls with the same inputs give the same result by construction.

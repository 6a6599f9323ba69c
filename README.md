# CandidateForm, modelled in Dafny

This project models the logic of the React component `CandidateForm`
(`client/src/components/CandidateForm.js`). The component collects a
candidate's name, email, date of birth, a residential address, an optional
permanent address and a list of uploaded documents. Before it posts them as
a multipart body, it validates them into an error map keyed by field name.

Modules, one file each:

- `Text` (`text.dfy`): JavaScript's `trim` and the whitespace set it
  removes. It also renders an array index in decimal, as the template
  literals `document${index}…` do.
- `FormTypes` (`types.dfy`): the state values (documents, addresses, the
  candidate's fields). Error keys are a datatype, and `Name()` renders each
  key to the string the component uses. `NameInjective` proves that no two
  keys share a string. Messages are a datatype whose `Text()` is the
  component's wording.
- `AgeCheck` (`age.dfy`): `validateDateOfBirth` on (year, month, day)
  triples with an invalid-date case. It also holds the falsy test the
  validator applies to the result.
- `DocumentList` (`documents.dfy`): `validateFile`, the effect of
  `handleFileChange` on the list and the error map, and the `filter` that
  `handleRemoveDocument` applies.
- `Validation` (`validation.dfy`): `validateForm`.
  - `Errors` is the map it must produce, declaratively.
  - `BuildErrors` is the validator as written: the field rules one after
    the other, then the `forEach` over the documents. It is proved to
    produce `Errors`.
  - The lemmas state each rule in terms of the fields.
- `Submission` (`payload.dfy`): the `FormData` body `handleSubmit` posts.
  - `Payload` is the part list as a function.
  - `AssemblePayload` is the appending loop, proved equal to it.
  - The lemmas cover layout, order and what `get` reads back.
- `CandidateFormModel` (`form.dfy`): the component itself. It is a class
  whose fields are the state variables. It has one method per handler and
  one per input's `onChange`.

Each handler is one atomic state update. The current date and the parsed
date of birth (`new Date()`, `new Date(dob)`) are parameters of
`ValidateForm` and `HandleSubmit`. `today` is a `Date`, and `birth` is
`Invalid` or `Parsed(date)`. The two methods require `ParsedFrom`: the
field is a date input (line 200), so its value is the empty string or a
full date, and a blank field parses to an Invalid Date. The validator sees
the date only through the boolean outcome of the age test. The class passes
the test as written (`AgeCheck.DateOfBirthRejected`).

## Model

| member | source | states |
|---|---|---|
| Text.TrimEmptyIffBlank | client/src/components/CandidateForm.js:65-71 | `!s.trim()` holds, meaning the trimmed string is empty, exactly when every character of `s` is ECMAScript whitespace; `Blank` is used for the validator's tests |
| Text.Trim | client/src/components/CandidateForm.js:65-71 | `s.trim()` is no longer than `s`, and when not empty neither starts nor ends with whitespace |
| Text.TrimIsInfix | client/src/components/CandidateForm.js:65-71 | `trim` returns a contiguous piece of its input, and everything cut off before and after it is whitespace |
| Text.DecimalRoundTrip | client/src/components/CandidateForm.js:36 | reading back the decimal rendering of an index gives the index |
| Text.DecimalInjective | client/src/components/CandidateForm.js:36 | two different indexes never render to the same digits |
| FormTypes.NameInjective | client/src/components/CandidateForm.js:65-79 | two error keys with the same property name (`firstName`, `document3FileType`, …) are the same key, so a datatype key loses nothing against the string-keyed object |
| AgeCheck.ValidateDateOfBirth | client/src/components/CandidateForm.js:85-94 | NaN exactly for an invalid date; otherwise the number n with the n-th birthday reached by today and the (n+1)-th not reached |
| AgeCheck.AgeUnique | client/src/components/CandidateForm.js:85-94 | the birthday characterisation determines the age uniquely |
| AgeCheck.AgeOnBirthday | client/src/components/CandidateForm.js:88-93 | on the n-th birthday the age is n |
| AgeCheck.AgeDayBeforeBirthday | client/src/components/CandidateForm.js:88-93 | on the calendar day before the n-th birthday (the previous month's last day on the 1st, 31 December of the year before on 1 January) the age is n - 1 |
| AgeCheck.DateOfBirthRejected | client/src/components/CandidateForm.js:69 | `!validateDateOfBirth(dob)` holds for every invalid date and for no date whose first birthday has come |
| AgeCheck.DateOfBirthRejectedIff | client/src/components/CandidateForm.js:69 | the test as written rejects exactly an invalid date or a today before the first birthday |
| AgeCheck.UnderageNotRejected | client/src/components/CandidateForm.js:69 | a ten-year-old and a birth date in the future both pass the test as written |
| AgeCheck.IntendedRejectsExactlyMinors | client/src/components/CandidateForm.js:69 | the test the message describes (age below 18) rejects exactly an invalid date or one whose 18th birthday has not come |
| AgeCheck.WrittenTestWeaker | client/src/components/CandidateForm.js:69 | every date the written test rejects is rejected by the intended one |
| DocumentList.ValidateFile | client/src/components/CandidateForm.js:24-27 | an accepted file is present and has a non-empty type; every PDF is accepted |
| DocumentList.SelectFile | client/src/components/CandidateForm.js:29-51 | no file: nothing changes; rejected type: the list is unchanged and `document{i}` gets the invalid-type message; accepted: slot i becomes {name, type, file} and `document{i}` becomes the empty message; length, other slots and other keys are unchanged |
| DocumentList.FileTypeGate | client/src/components/CandidateForm.js:24-27 | a text/plain file is refused and flagged; a PDF is accepted and fills the slot |
| DocumentList.WithoutIndex | client/src/components/CandidateForm.js:58 | the filtered list is no longer than the list and holds only entries of it |
| DocumentList.WithoutIndexSlices | client/src/components/CandidateForm.js:57-60 | the filter drops exactly the entry at the index and keeps the rest in order; an index outside the list leaves it unchanged |
| DocumentList.WithoutIndexLength | client/src/components/CandidateForm.js:57-60 | the length drops by one exactly when the index is a position of the list |
| DocumentList.WithoutIndexAt | client/src/components/CandidateForm.js:57-60 | entry j of the new list is old entry j before the index and old entry j+1 from it on |
| Validation.Errors | client/src/components/CandidateForm.js:62-81 | the map `validateForm` stores holds exactly the keys whose rule fires, each with that rule's message (the age message for the date key whenever the age test fails) |
| Validation.NameAndEmailRules | client/src/components/CandidateForm.js:63-67 | from the fresh map, the first-name, last-name and email keys are set exactly when the trimmed field is empty, with their messages, and no other key is set |
| Validation.DateOfBirthAndResidenceRules | client/src/components/CandidateForm.js:68-70 | the date key is set when the field is blank or the age test fails, with the age message whenever the test fails; the residential key is set when its street is blank; the earlier keys are kept |
| Validation.PermanentAndCountRules | client/src/components/CandidateForm.js:71-74 | the permanent key is set exactly when the addresses differ and its street is blank; the documents key exactly when there are fewer than two entries; the earlier keys are kept |
| Validation.FieldErrors | client/src/components/CandidateForm.js:63-74 | after the field rules every field key agrees with its rule and no per-document key is set |
| Validation.DocumentEntryRules | client/src/components/CandidateForm.js:75-79 | one round of the loop extends the per-document rules from the entries before `index` to `index`, without touching field keys |
| Validation.BuildErrors | client/src/components/CandidateForm.js:62-81 | the map the validator builds is `Errors`: every key whose rule fires, with its message, and nothing else |
| Validation.RulesAppliedIsErrors | client/src/components/CandidateForm.js:62-81 | a map that agrees with every field rule and every per-document rule is the validator's map |
| Validation.ErrorsEmptyIff | client/src/components/CandidateForm.js:80-82 | the map is empty, so `validateForm` returns true, exactly when every rule passes |
| Validation.FewerThanTwoDocuments | client/src/components/CandidateForm.js:74 | with fewer than two entries the documents key is set and the form never validates |
| Validation.StreetRules | client/src/components/CandidateForm.js:70-71 | the residential key is set iff its street is blank; the permanent key iff the addresses differ and its street is blank |
| Validation.DocumentRules | client/src/components/CandidateForm.js:75-79 | entry k gets `document{k}FileName`, `document{k}FileType` or `document{k}File` exactly when that part is missing, whatever the list length; `document{k}` is never set |
| Validation.DateOfBirthRule | client/src/components/CandidateForm.js:68-69 | lines 68-69 for any outcome of the age test: the date key is set iff the field is blank or the test fails, and a failing test leaves the age message in place of the required one |
| Validation.BlankDateGetsAgeMessage | client/src/components/CandidateForm.js:68-69 | with the date parsed from the field, the required message of line 68 never survives: the key is set exactly for an invalid date or a candidate under one, always with the age message, and a blank field always gets it |
| Validation.OnlyBlankedFieldReported | client/src/components/CandidateForm.js:65-71 | blanking one required text field (first name, last name, email, date of birth, residential or permanent street) of a valid form makes its key the only error, whatever the age test then says of a blanked date |
| Validation.AsWrittenDateOfBirthRule | client/src/components/CandidateForm.js:68-69 | with the written test the date key is set only for a blank field, an invalid date or a candidate under one year old |
| Validation.CorrectedDateOfBirthRule | client/src/components/CandidateForm.js:68-69 | with the intended test the date key is set exactly for a blank field, an invalid date or a candidate under 18, and then carries the age message |
| Submission.Payload | client/src/components/CandidateForm.js:105-127 | the body is the seven fixed parts first, then two more when the addresses differ, then one per entry holding a file |
| Submission.DocumentPartsAppend | client/src/components/CandidateForm.js:122-127 | the parts of two lists appended one after the other are the parts of the joined list |
| Submission.DocumentPartsShape | client/src/components/CandidateForm.js:122-127 | the loop adds one `documents` file part per entry that holds a file, and nothing else |
| Submission.DocumentPartsAt | client/src/components/CandidateForm.js:122-127 | the file of entry k comes right after the files of the entries before it, so files keep list order |
| Submission.PayloadNames | client/src/components/CandidateForm.js:105-127 | the part names are the seven fixed ones in order, then both permanent names exactly when the addresses differ, then one `documents` per file |
| Submission.PayloadGetPerson | client/src/components/CandidateForm.js:106-109 | `get` returns each of first name, last name, email and date of birth |
| Submission.PayloadGetResidence | client/src/components/CandidateForm.js:110-114 | `get` returns the flag as "true"/"false" and both residential lines |
| Submission.PayloadGetPermanent | client/src/components/CandidateForm.js:116-120 | the permanent lines can be read back exactly when the addresses differ, and then hold the permanent address |
| Submission.AssemblePayload | client/src/components/CandidateForm.js:104-127 | the appends, including the loop over the documents, produce `Payload` |
| CandidateFormModel.CandidateForm.constructor | client/src/components/CandidateForm.js:7-21 | initial state: empty fields, same address, one empty document entry, no errors |
| CandidateFormModel.CandidateForm.HandleFileChange | client/src/components/CandidateForm.js:29-51 | the list and error map become what `SelectFile` gives for the old ones; the length is kept |
| CandidateFormModel.CandidateForm.HandleAddDocument | client/src/components/CandidateForm.js:53-55 | the list becomes the old list plus one empty entry at the end |
| CandidateFormModel.CandidateForm.HandleRemoveDocument | client/src/components/CandidateForm.js:57-60 | the list becomes the old one without the entry at the index, and is never left empty given the guard at line 332 |
| CandidateFormModel.CandidateForm.ValidateForm | client/src/components/CandidateForm.js:62-83 | the error map is replaced by `Errors` of the current fields, whatever it held before; the result is true iff that map is empty iff every rule passes; the date key, when set, carries the age message |
| CandidateFormModel.CandidateForm.HandleSubmit | client/src/components/CandidateForm.js:96-127 | validates; nothing is sent when keys are set, otherwise exactly `Payload` of the current fields |
| CandidateFormModel.CandidateForm.SetFirstName | client/src/components/CandidateForm.js:163 | the first name becomes the input value |
| CandidateFormModel.CandidateForm.SetLastName | client/src/components/CandidateForm.js:177 | the last name becomes the input value |
| CandidateFormModel.CandidateForm.SetEmail | client/src/components/CandidateForm.js:191 | the email becomes the input value |
| CandidateFormModel.CandidateForm.SetDateOfBirth | client/src/components/CandidateForm.js:205 | the date-of-birth text becomes the input value |
| CandidateFormModel.CandidateForm.SetResidentialStreet1 | client/src/components/CandidateForm.js:222 | the residential address is copied with line 1 replaced |
| CandidateFormModel.CandidateForm.SetResidentialStreet2 | client/src/components/CandidateForm.js:236 | the residential address is copied with line 2 replaced |
| CandidateFormModel.CandidateForm.ToggleSameAsResidential | client/src/components/CandidateForm.js:247 | the flag flips |
| CandidateFormModel.CandidateForm.SetPermanentStreet1 | client/src/components/CandidateForm.js:264 | the permanent address is copied with line 1 replaced |
| CandidateFormModel.CandidateForm.SetPermanentStreet2 | client/src/components/CandidateForm.js:278 | the permanent address is copied with line 2 replaced |
| CandidateFormModel.InitialFormRejected | client/src/components/CandidateForm.js:7-21 | the form as first shown never validates: documents, first name, residential street and `document0File` are flagged, the permanent street is not, and the empty date gets the age message |
| CandidateFormModel.CompleteFormAccepted | client/src/components/CandidateForm.js:62-82 | a form with all fields filled, two named PDFs and a passing age test sets no key |
| CandidateFormModel.CompleteFormValidates | client/src/components/CandidateForm.js:62-94 | that form for a 26-year-old validates |
| CandidateFormModel.UnderageFormValidates | client/src/components/CandidateForm.js:69 | that form for a ten-year-old validates as written but is flagged under the intended test |
| CandidateFormModel.CompleteFormBody | client/src/components/CandidateForm.js:105-127 | that form is posted as nine parts ending with the two files in list order |

## Left out

- Rendering (the JSX), styling and the icons. The only logic kept from the markup is:
  - the `onChange` setters;
  - the guard that offers remove only while the list holds more than one entry, which becomes `HandleRemoveDocument`'s precondition.
- The `axios.post` call, the response check, `history.push` and the console logging. `HandleSubmit` ends by returning the body it would post.
- `async`/`await` and React's batching of `useState` updates: each handler is one atomic update. So two submits in flight and a handler seeing stale state are not modelled.
- Parsing of `new Date(dob)` and `new Date()`, and time zones. The parsed birth date, or `Invalid`, and today's date are parameters.
- File contents and the browser's MIME detection: a file is a name, a type and an identity.
- CandidateFormModel.CandidateForm.HandleFileChange: requires `index < |documents|`. The markup only calls it with an index of the rendered list. An out-of-range write, which in JavaScript would grow the array with holes, is not modelled.
- CandidateFormModel.CandidateForm.ValidateForm and HandleSubmit: require `ParsedFrom(dateOfBirth, birth)`. The date input only yields the empty string or a full date, and `new Date('')` is an Invalid Date. How other text would parse is not modelled.
- CandidateFormModel.CandidateForm.HandleSubmit: `console.log` of the stale error map on failure is not modelled.
- The whitespace set of `trim` is ECMAScript's WhiteSpace and LineTerminator code points as listed in the ECMAScript specification. Unicode's category Zs is taken as of the version that lists U+1680, U+2000-U+200A, U+202F, U+205F and U+3000.

## Findings

| source | as written | input that shows it | evidently intended | confidence | as-written member | corrected member |
|---|---|---|---|---|---|---|
| client/src/components/CandidateForm.js:69 | the date is flagged only when `validateDateOfBirth` returns a falsy number, i.e. NaN or 0 | born 2016-01-01, today 2026-10-19: the age is 10, the test passes and a complete form validates; a birth date in the future passes too | the message says "You must be at least 18 years old": flag an invalid date or an age below 18 | not executed | AgeCheck.UnderageNotRejected | Validation.CorrectedDateOfBirthRule |

The class keeps the written test, because it models the component as
written. The validator takes the test's outcome as a parameter, and
`CorrectedDateOfBirthRule` proves the intended behaviour with
`DateOfBirthRejectedIntended`. `CandidateFormModel.UnderageFormValidates`
shows the same form under both tests.

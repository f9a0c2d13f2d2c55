# User service core, in Dafny

This project models the core of a small Express service that keeps a list
of user records in memory, mirrors it to a JSON file, and exposes create,
list, read, update and delete handlers (`backend/index.js`). It models two
pieces:

- **The request-body validator `validateUser`** (module `Validation`). It has
  five independent checks that always run in the same order: firstName,
  lastName, email, age, country. Each failing check pushes one fixed French
  message. The model covers:
  - JavaScript truthiness and `typeof`;
  - `String.prototype.trim` over the exact set of characters that JavaScript
    treats as whitespace;
  - the e-mail regular expression `^[^\s@]+@[^\s@]+\.[^\s@]+$`.

  `Validation.ValidateUser` is a method that pushes messages step by step, as
  the source does. It is proved equal to the specification function
  `Validation.Errors`, which is defined from what each check means.
- **The collection and its handlers** (modules `UserStore` and `Api`). The
  source changes the collection in these ways:
  - append on create;
  - `find` on read;
  - `map` with replacement on update;
  - `filter` on delete.

  Each of these is a pure sequence function with lemmas about it. The
  handlers are methods of the class `Api.Store`, which holds the collection
  in the field `users`. A ghost field `saved` stands for the file contents,
  and `Store.Valid()` says the file matches the collection after every
  handler.

Files:
- `wrappers.dfy`: `Option`.
- `validation.dfy`: the validator.
- `users.dfy`: the records and the sequence operations.
- `api.dfy`: the handlers.

`Date.now().toString()` gives two creations in the same millisecond the same
id. A later read of that id then returns the older record
(`UserStore.FindAfterAppend`).

## Model

| member | source | states |
|---|---|---|
| Validation.Truthy | backend/index.js:35 | JavaScript truthiness of a field, as in the `!user.x` tests of lines 35, 40, 45 and 55: an absent field, `""`, `0`, `false` and `null` are falsy |
| Validation.IsWhitespace | backend/index.js:45 | the characters `\s` matches, which are also the ones `trim()` strips at line 35: WhiteSpace and LineTerminator by code point |
| Validation.NameFieldRejected | backend/index.js:35 | the check as written at lines 35, 40 and 55: falsy, not a string, or `trim().length < 1` |
| Validation.MatchesEmailPattern | backend/index.js:45 | the regular expression `^[^\s@]+@[^\s@]+\.[^\s@]+$`: three non-empty `[^\s@]` runs split by an `@` and a later `.` |
| Validation.EmailFieldRejected | backend/index.js:45 | the e-mail check as written: falsy, not a string, or not matching the regular expression |
| Validation.AgeFieldRejected | backend/index.js:50 | the age check as written: the age is present and is either not a number or below 0 |
| Validation.Message | backend/index.js:36-56 | the five messages the checks push, character for character |
| Validation.MessageInjective | backend/index.js:36-56 | the five messages are pairwise different, so an error list tells exactly which checks failed |
| Validation.TrimStart | backend/index.js:35 | the result is a suffix of the input; everything dropped is whitespace; the result does not start with whitespace |
| Validation.TrimEnd | backend/index.js:35 | the result is a prefix of the input; everything dropped is whitespace; the result does not end with whitespace |
| Validation.Trim | backend/index.js:35 | `trim()` returns a slice with only whitespace around it and no whitespace at either end; it is empty exactly when the input is blank |
| Validation.NameFieldRejectedIff | backend/index.js:35 | the firstName/lastName/country check (lines 35, 40, 55) rejects a value exactly when it is not a present string with a non-whitespace character |
| Validation.EmailPatternIff | backend/index.js:45 | the regular expression matches exactly the strings that have no whitespace, exactly one `@` (not first), and a `.` after the `@` that is neither first nor last in the domain |
| Validation.MatchedEmailIsWellFormed | backend/index.js:45 | a string the regular expression matches is well formed in that character-level sense |
| Validation.WellFormedEmailMatches | backend/index.js:45 | a well-formed string splits into the three runs the regular expression asks for |
| Validation.SegmentBetween | backend/index.js:45 | a non-empty stretch with no whitespace that avoids the one `@` is a run `[^\s@]+` accepts |
| Validation.EmailFieldRejectedIff | backend/index.js:45 | the e-mail check rejects a value exactly when it is not a present, well-formed e-mail string |
| Validation.CollectFailed | backend/index.js:32-58 | collecting the failing checks gives at most five entries, and gives none exactly when no flag is set |
| Validation.CollectedMembers | backend/index.js:32-58 | a check is collected exactly when it failed |
| Validation.CollectedOrdered | backend/index.js:32-58 | the collected checks come in the order the checks run, each at most once |
| Validation.FailedChecks | backend/index.js:31-59 | the checks a body fails: each failing check once, in check order; empty exactly for a valid body |
| Validation.Errors | backend/index.js:31-59 | the error list has at most 5 entries; it is empty exactly when all five checks pass; it holds a check's message exactly when that check fails; entry i is the message of the i-th failed check |
| Validation.ValidateUser | backend/index.js:31-59 | the list built by the five conditional pushes, using the checks as written, is the specified error list |
| Validation.ErrorsFromFlags | backend/index.js:35-55 | the checks as written (truthiness, `typeof`, `trim`, the regular expression, `age < 0`) flag exactly the checks that fail by their meaning (`Passes`) |
| Validation.MessagesOfCollected | backend/index.js:32-58 | pushing the messages of the failing checks one by one gives the messages of the collected checks |
| Validation.ErrorsIgnoreId | backend/index.js:111 | merging the path id into the body before validating does not change the error list |
| Validation.SampleBodyIsValid | backend/index.js:31-59 | the body Ana / Li / a@b.com / FR, with no age, has no errors |
| Validation.BlankFirstNameRejected | backend/index.js:35-36 | an all-whitespace first name is rejected, and its message is the first error |
| Validation.AgeAloneDecides | backend/index.js:50-52 | when every other check passes, the error list is exactly the age message if the age is present and not a number at least 0 (`null` included), and empty otherwise (age 0 included) |
| UserStore.NewUser | backend/index.js:79-87 | the created record carries the given id and the body's fields unchanged; an absent age stays absent; the record is a validated record (`IsStoredRecord`) |
| UserStore.Find | backend/index.js:101 | `find` returns nothing exactly when no record has the id; otherwise it returns a record with that id, and no earlier record has it |
| UserStore.Replace | backend/index.js:117 | the `map` keeps length and order; every record with the id becomes the replacement; every other record is kept |
| UserStore.Remove | backend/index.js:125 | the `filter` leaves no record with the id, and keeps exactly the records with other ids |
| UserStore.FindAfterAppend | backend/index.js:88 | after an append, a lookup still finds an earlier record with the id; otherwise it finds the new record when its id matches |
| UserStore.AppendKeepsIdsUnique | backend/index.js:81-88 | appending a record whose id is not in use keeps ids unique |
| UserStore.ReplaceAbsent | backend/index.js:117 | an update of an id no record has leaves the collection unchanged |
| UserStore.ReplaceKeepsIds | backend/index.js:117 | an update changes no record's id, so unique ids stay unique and the set of ids present is the same |
| UserStore.FindAfterReplace | backend/index.js:117 | after an update of a present id, reading that id returns the new record |
| UserStore.ReplaceIdempotent | backend/index.js:117 | doing the same update twice gives the same result as doing it once |
| UserStore.RemoveAbsent | backend/index.js:125 | deleting an id no record has leaves the collection unchanged |
| UserStore.RemoveAppend | backend/index.js:125 | the `filter` keeps the relative order of what remains |
| UserStore.RemoveIdempotent | backend/index.js:125 | deleting twice gives the same result as deleting once |
| UserStore.FindAfterRemove | backend/index.js:125 | deleting one id does not change what reading any other id returns |
| UserStore.RemoveKeepsIdsUnique | backend/index.js:125 | a delete keeps unique ids unique |
| UserStore.RemoveCount | backend/index.js:125 | with unique ids, a delete removes exactly one record if the id is present and none otherwise |
| UserStore.IsStoredRecord | backend/index.js:79-87 | what a record built from a validated body satisfies: non-blank names and country, a well-formed e-mail, no age or an age of at least 0 |
| UserStore.AppendKeepsStored | backend/index.js:88 | appending a validated record keeps every record of the collection validated |
| UserStore.ReplaceKeepsStored | backend/index.js:117 | an update with a validated record keeps every record validated |
| UserStore.RemoveKeepsStored | backend/index.js:125 | a delete keeps every remaining record validated |
| Api.Store.Valid | backend/index.js:25-27 | the file holds the collection as it stands; every handler that changes the collection writes it back (lines 89, 118, 126) |
| Api.Store.Load | backend/index.js:17-22 | at start-up the collection is the file's contents, or empty when there is no file, and the file matches it |
| Api.Store.Post | backend/index.js:74-91 | an invalid body is answered with its error list and changes nothing; a valid body appends exactly the new record at the end, answers with it, and the file follows; ids stay unique when the new id is not in use; if every record was validated, every record still is |
| Api.Store.List | backend/index.js:94-96 | the answer is the whole collection, in order |
| Api.Store.Get | backend/index.js:99-107 | 404 with `Utilisateur non trouvé` exactly when no record has the id; otherwise the first record with that id |
| Api.Store.Put | backend/index.js:109-120 | the body is validated with the id merged in; an invalid body is answered with its error list and changes nothing; a valid body replaces every record with the id, echoes the body, keeps ids unique and every record validated, and the file follows |
| Api.Store.Delete | backend/index.js:123-128 | the collection becomes the filtered one, the file follows, ids stay unique, every remaining record stays validated, and the answer is the same whether or not anything was removed |

## Left out

- HTTP plumbing is not modelled. This covers the Express, cors and body-parser setup, routing, and `app.listen` (backend/index.js:1-11, 130-132). Answers are the `Api.Response` value, with the status given in a comment.
- File I/O and JSON serialisation are not modelled (backend/index.js:17-27, 89, 118, 126). `Api.Store.Load` takes the parsed file contents as a parameter. The ghost field `saved` records what was last written. A file that does not parse, and records in the file that do not have the shape of a created record, are outside the model.
- Api.Store.Post: the id comes from the clock (`Date.now().toString()`, backend/index.js:81), so the model takes it as the parameter `freshId`. Uniqueness after a create is promised only when `freshId` is not already in use, because the code does not ensure that.
- JSON numbers are modelled as exact `real` values. The model does not capture floating-point rounding, and JSON has no NaN or infinity.
- A body is modelled only through the six fields the service reads. Other fields a client sends are not represented. The update handler echoes the body back, and in the model only those six fields are echoed.
- `userFields` (backend/index.js:61-68) is never read, so it is not modelled.
- A request with no JSON body is modelled as a body with every field absent (body-parser supplies `{}`).
- Strings are sequences of Unicode scalar values, while JavaScript strings are sequences of UTF-16 code units. A JSON string holding a lone surrogate (`"\uD800"`) therefore has no model. On every string the model can represent, `trim().length < 1` and the regular expression give the same outcome as on its code units, because every whitespace character is a single code unit.
- The 204 answer of a delete carries no body, so the text the handler passes to `send` (`Api.DeletedMessage`) never reaches the client. The model keeps the text in `Api.Response.Deleted`.

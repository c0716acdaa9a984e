# Submission store and history — a Dafny model

This project models the backend core of a small form-and-history web
application. A client submits a date with a first and a last name. The server
checks that neither name contains whitespace and appends the submission to a
SQLite table. It then answers with a few echo items of the submission. A
history request returns the ten newest submissions. Each one carries the
number of strictly earlier-dated submissions by the same person in the whole
table.

Modules, one per concern:

- `Types` (`types.dfy`): the records exchanged (`Submission`, `SubmissionResponse`,
  `HistoryEntry`, the field-error map, and an `Option` standing for `null`).
- `Collation` (`collation.dfy`): `LexLess`, the order SQLite's default BINARY
  collation gives TEXT values, with its order laws.
- `History` (`history.dfy`): the history SELECT as functions over the table:
  the self-join count (`PriorCount`), the projection (`EntryOf`, `Entries`),
  the three-key ORDER BY (`Precedes`, `Sort`) and the LIMIT 10
  (`SubmissionHistory`), with the lemmas about them.
- `Store` (`store.dfy`): the class `Database`, whose table is a `seq<Row>`
  field plus the AUTOINCREMENT counter, and its `SaveSubmission` method.
- `Validation` (`validation.dfy`): `ValidateSubmission` and the messages.
- `Utils` (`utils.dfy`): the echo reply `CreateSampleResponseData`, with the
  random draw of its length made a parameter.
- `Server` (`server.dfy`): the `POST /submit` and `GET /history` handlers as
  methods over an explicitly passed store. Each returns a status and a body.
- `HistoryExamples` (`history_examples.dfy`): the query on the tables of
  the repository's database tests.

What the source leaves to foreign code becomes a parameter. `Submit` takes
`storageOk`, which says whether the INSERT succeeds. `GetHistory` takes
`queryOk`, which says whether the SELECT succeeds. `Submit` also takes
`itemCount`, the drawn reply length. A failed INSERT leaves the table
unchanged, because a single SQLite statement is atomic.

The server tests re-implement the two handlers inline with the message
"Database error" (backend/server.test.ts:77, 87). The model follows
backend/server.ts instead. The submit failure body carries "Something went
wrong. Please try again." (backend/server.ts:54). The history failure body is
`{error: "Unable to load submission history. Please try again later."}`
(backend/server.ts:67). The order of TEXT values is binary: `"John"` and
`"john"` are different people, and dates are compared as strings, not as
calendar dates. An empty name passes validation.

## Model

| member | source | states |
|---|---|---|
| `Collation.LexLess` | backend/database.ts:87-89 | models the `<` of SQLite's BINARY collation on TEXT: code point by code point, a proper prefix first |
| `Collation.LexLessMeaning` | backend/database.ts:87 | the recursive order equals the textbook one: a proper prefix, or a smaller character at the first difference |
| `Collation.ProperPrefixIsLexLess` | backend/database.ts:87 | a proper prefix sorts first, as in memcmp-then-length comparison |
| `Collation.LexLessIrreflexive` | backend/database.ts:87 | no date is strictly below itself, so equal dates never join |
| `Collation.LexLessAsymmetric` | backend/database.ts:87 | two dates are never each below the other |
| `Collation.LexLessTransitive` | backend/database.ts:89 | the collation order is transitive |
| `Collation.LexLessTotal` | backend/database.ts:89 | any two distinct strings are ordered one way or the other |
| `Collation.LexLessCommonPrefix` | backend/database.ts:87 | a shared prefix does not decide the order |
| `History.IsPrior` | backend/database.ts:84-87 | models the ON clause of the self-join: same first name, same last name and a strictly smaller date under the binary order |
| `History.PriorCount` | backend/database.ts:82-87 | models `COUNT(previous.id)` of the LEFT JOIN: the rows of the whole table with the same first and last name and a smaller date |
| `History.EntryOf` | backend/database.ts:78-88 | models one output row of the GROUP BY current.id: the current row's date and names with its count |
| `History.Entries` | backend/database.ts:88-103 | models the grouped join before ORDER BY and LIMIT, one entry per stored row, mapped to `{date, first_name, last_name, count}` |
| `History.Precedes` | backend/database.ts:89 | models the ORDER BY: date descending, then first name ascending, then last name ascending; the count is not a key |
| `History.HistorySize` | backend/database.ts:90 | models `LIMIT 10`: the number of rows answered for a table of n rows is n below ten and ten otherwise |
| `History.PrecedesIrreflexive` | backend/database.ts:89 | no entry sorts strictly before itself |
| `History.PrecedesTransitive` | backend/database.ts:89 | the three-key ORDER BY is transitive |
| `History.PrecedesTotal` | backend/database.ts:89 | two entries either share date and names or one sorts strictly first |
| `History.Insert` | backend/database.ts:89 | inserting into a sorted list keeps it sorted and adds exactly the one entry |
| `History.Sort` | backend/database.ts:89 | the result is sorted by date descending, then first name and last name ascending, and is a permutation of the input |
| `History.SubmissionHistory` | backend/database.ts:72-108 | the answer has min(10, table size) entries, so none for an empty table, and is in ORDER BY order |
| `History.PriorCountIsJoinSize` | backend/database.ts:82-87 | each count is the number of rows of the whole table with the same first and last name and a strictly smaller date |
| `History.PriorCountAppend` | backend/database.ts:82-87 | counting over two parts of the table adds up |
| `History.PriorCountRemove` | backend/database.ts:82-87 | taking one row out of the table removes exactly its own join from the count |
| `History.PriorCountReorder` | backend/database.ts:82-87 | the count does not depend on the insertion order of the rows |
| `History.PriorCountAtMost` | backend/database.ts:82-87 | a count never exceeds the table size |
| `History.PriorCountBelowTableSize` | backend/database.ts:84-87 | a stored row never joins itself, so its count is below the table size |
| `History.PriorCountZero` | backend/database.ts:84-87 | a count is 0 exactly when no row of that person has a smaller date, as for the earliest submission |
| `History.HistoryFromRows` | backend/database.ts:88-103 | the emitted entries are projections of distinct stored rows (multiset inclusion), counted over the whole table |
| `History.SortedRemainder` | backend/database.ts:89-90 | what a sorted list keeps beyond its first n elements sorts at or after each of them |
| `History.HistoryOmitted` | backend/database.ts:89-90 | every stored row cut by the LIMIT sorts at or after every emitted entry |
| `History.SmallTableListedInFull` | backend/database.ts:88-90 | a table of at most ten rows has every one of its entries listed: the answer is a reordering of all of them |
| `History.SortedUnique` | backend/database.ts:89 | two sorted permutations are equal when the sort key determines the entry |
| `History.EntriesKeyDetermined` | backend/database.ts:84-88 | rows with equal date, first and last name get equal counts |
| `History.HistoryUnique` | backend/database.ts:88-90 | every order SQL may choose among tied rows yields the same ten entries |
| `History.SingleRowHistory` | backend/database.ts:77-104 | a table of one row answers that row with count 0 |
| `Store.Database.constructor` | backend/database.ts:21-46 | opening the file keeps the rows it already holds (`CREATE TABLE IF NOT EXISTS`) and continues the AUTOINCREMENT counter; a new file starts empty |
| `Store.Database.SaveSubmission` | backend/database.ts:50-70 | appends exactly one row at the end holding the record's date and names unchanged, with an id above every existing id; earlier rows are untouched; no content check |
| `Validation.IsWs` | backend/validation.ts:8 | models the characters ECMAScript's `\s` matches: the white space and line terminator code points, including U+FEFF |
| `Validation.HasWhitespace` | backend/validation.ts:8 | models `hasWhitespace`: some character of the name is matched by `\s` |
| `Validation.ValidateSubmission` | backend/validation.ts:10-21 | `null` exactly when neither name has a whitespace character; otherwise a non-empty map whose keys are among first_name and last_name, each present exactly when that name has whitespace, each with its single message |
| `Validation.ValidationIgnoresDate` | backend/validation.ts:10-21 | the date is never inspected |
| `Validation.EmptyNamesValid` | backend/validation.ts:13-19 | empty names pass |
| `Validation.WhitespaceInBothNames` | backend/validation.ts:13-19 | any whitespace character in both names gives both keys, each with its own message |
| `Validation.TabInFirstName` | backend/validation.ts:8 | a tab is rejected like a space, and only the first-name key appears |
| `Utils.ItemCount` | backend/utils.ts:12 | the drawn item count lies in [2, 5] |
| `Utils.ItemCountCovers` | backend/utils.ts:12 | every count from 2 to 5 can be drawn |
| `Utils.FullName` | backend/utils.ts:13 | models the template literal: first name, one space, last name |
| `Utils.CreateSampleResponseData` | backend/utils.ts:11-19 | the reply has the drawn length, and every element carries the input date and first name, a space, last name |
| `Utils.SampleElementsIdentical` | backend/utils.ts:15-18 | all elements of the reply are equal |
| `Utils.FirstSpace` | backend/utils.ts:13 | the position of the first space, with no space before it |
| `Utils.SplitFullName` | backend/utils.ts:13 | for a whitespace-free first name, cutting the full name at its first space gives back both names |
| `Utils.SampleNamesRecoverInput` | backend/utils.ts:13-17 | for a submission the validator accepts, each reply element's name splits back into the submitted names |
| `Server.Submit` | backend/server.ts:21-57 | a validation error gives 400 with the validator's map and leaves the store, rows and AUTOINCREMENT counter, untouched; an accepted submission with a working store appends exactly one row equal to the request and gives 200 with the echo reply; a storage failure gives 500 with the general message and leaves the store untouched; 200 exactly when success is true; a store whose names are whitespace-free stays so |
| `Server.GeneralError` | backend/server.ts:54 | models the 500 error map: the single key `general` with the one message "Something went wrong. Please try again." |
| `Server.GetHistory` | backend/server.ts:60-70 | success gives 200 with the store's history as is, at most 10 entries, [] for an empty store; failure gives 500 with a bare error string; the store is only read |
| `Server.RejectedSubmissionScenario` | backend/server.ts:29-35 | on a fresh store a refused submission yields 400 with exactly the offending fields and their messages, and history stays [] |
| `Server.AcceptedSubmissionScenario` | backend/server.ts:38-48 | on a fresh store an accepted submission yields 200 with the echo reply, and history lists it alone with count 0 |
| `HistoryExamples.LoneSubmitter` | backend/database.ts:84-87 | a person with one submission counts 0 |
| `HistoryExamples.NewestFirstSorted` | backend/database.ts:89 | three entries with decreasing dates are sorted |
| `HistoryExamples.ThreePeopleNewestFirst` | backend/database.ts:89 | three people stored out of date order come back newest first |
| `HistoryExamples.OrderExample` | backend/database.test.ts:49-66 | the rows of the ordering test come back dated 2025-01-03, 2025-01-02, 2025-01-01 |
| `HistoryExamples.CountsExample` | backend/database.test.ts:68-94 | the history answer of the counting test has five entries and lists John Smith with counts 2, 1, 0 and Jane Doe with 1, 0 |

## Left out

- The SQLite connection, the database file path, the `ready` promise and the
  schema creation (backend/database.ts:21-48) are foreign and asynchronous. The
  table is a `seq<Row>` field. The rows a reopened file already holds and its
  AUTOINCREMENT counter are the constructor's parameters. Whether a statement
  succeeds is a parameter.
- `submitted_at` is never read by the query and is not modelled.
- The processing delay `simulateProcessingDelay` (backend/utils.ts:4-8) is a
  timer and is not modelled. The handler's order of validation, write and
  reply is kept.
- The `Math.random()` draw of the reply length is the `itemCount` parameter.
  `ItemCount` shows that the source's formula gives exactly the range [2, 5]
  for a draw in [0, 1). Uniformity is not modelled.
- Express setup, middleware, static serving, the SPA fallback and `listen`
  (backend/server.ts:1-18, 72-81) are I/O.
- Request bodies are typed records of three strings. The model does not
  cover missing, null or non-string fields. A missing, null or empty name is
  falsy and skips the whitespace check (backend/validation.ts:13, 17); a
  missing or null one then fails the NOT NULL insert, and the reply is 500.
  The date is never validated, whatever its type.
- Names are sequences of Unicode scalar values. A JSON string holding a lone
  UTF-16 surrogate is stored by the SQLite binding with U+FFFD in its place,
  so for such a request `Server.Submit`'s `Stores` clause does not describe
  the stored row.
- Concurrent requests and their interleaving are not modelled. Every
  operation runs to completion on its own.
- Server.Submit: JSON key order inside the error map is not modelled, because
  a Dafny map has no key order.
- History.SubmissionHistory: among rows with equal date and names, SQLite may
  return either order, and the model fixes one. `History.HistoryUnique`
  shows that every such order gives the same entries.
- The React front end, its hooks, the URL helpers and the `fetch` client are
  rendering and network code. They are not part of this model.

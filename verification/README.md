# HTTP capture endpoint — Dafny model

`backend.js` is a Node.js HTTP server that accepts any request and records it
twice. First it writes a JSON snapshot file under a day folder named after the
local date. Then it inserts a row into an SQLite `requests` table, and, when the
parsed JSON body carries a `mesaj` array, one row per element into an
`addresses` table linked to that request. The client gets 200 when every write
succeeded and 500 with the error message otherwise.

This project models the decision logic of that pipeline and proves properties
of it:

- `getFormattedDateTime`: the `year-MM-DD` day folder and the
  `year-MM-DD_HH-MM-SS-mmm.json` file name, over an explicit clock reading
  (module `Naming`). It relies on `String(n)`, `padStart`, `includes` and
  `split` (module `Text`).
- The request snapshot (`requestData`): the query taken from
  `url.split('?')[1]`, the guard of the JSON parse, and the `Invalid JSON`
  marker (module `Capture`). JSON values, truthiness and property reads are in
  module `JsonValues`.
- `saveAddresses` (module `Addresses`):
  - the `item.x || null` column mapping;
  - the `TypeError` a `null` element throws inside the promise executor;
  - the `NOT NULL` constraint on `address`;
  - the `completed`/`hasError` counter that settles the promise. Insert
    callbacks are delivered one at a time, in queue order.
- `saveRequestToFile`, `saveRequestToDatabase` and the handler's `try`/`catch`
  (module `Persistence`). They are modelled as steps over an abstract store:
  - day folders, snapshot files, both tables and their `AUTOINCREMENT`
    counters;
  - each step records the writes it made;
  - the failures of `mkdirSync`, `writeFileSync` and each insert are inputs.

`JSON.parse` and `JSON.stringify` are function parameters. So are the ISO
timestamp and the local-time clock reading. The handler calls `new Date()`
twice: once for `timestamp` (UTC, `toISOString`) and once inside
`getFormattedDateTime` (local time). The two readings are therefore separate
inputs, and nothing ties the file name to the `timestamp` field.

### Where the code goes beyond the plain description of the service

The model follows the code in each of these cases:

- The query is only the text between the first `?` and the next `?`, not
  everything after the first `?` (`Capture.QueryIsFirstSegment`).
- `body_parsed` is `NULL` not only when nothing was parsed but also when the
  body parsed to a falsy value: `null`, `false`, `0` or `""`
  (`Persistence.FalsyBodyStoredAsNull`).
- An element whose `address` is missing or falsy is not stored with a `NULL`
  address. The `NOT NULL` column rejects the insert, so the whole request
  answers 500 (`Addresses.InsertError`).
- A `null` element makes `item.address` throw while `forEach` is queueing the
  inserts. That rejects the promise, but the inserts queued before it still
  run and may leave rows (`Addresses.NullElementRejects`,
  `Addresses.QueuedSuccessesAreWritten`).
- Nothing is rolled back. The file stays after a database failure, the parent
  row stays after an address failure, and address rows written before or after
  a failing one stay too.

## Model

| member | source | states |
|---|---|---|
| Text.NatToString | backend.js:59-65 | `String(n)` of a non-negative number is a canonical decimal numeral: digits only, no leading zero, and its value is `n` |
| Text.IntToStringRoundTrip | backend.js:59 | the year's rendering, minus sign included, reads back to the same integer |
| Text.ParsedIntIsRendering | backend.js:59 | every string the year reader accepts is the rendering of the integer it returns |
| Text.PadStart | backend.js:60-65 | `padStart` yields the larger of `width` and the length of `s` characters; `s` is kept whole as the suffix and only the fill character goes in front, so a value wider than the field is never truncated |
| Text.PaddedRoundTrip | backend.js:60-65 | a zero-padded field whose value fits the width reads back to that value |
| Text.FixedIsPadded | backend.js:60-65 | every digit string of the field's width is the zero-padded rendering of its value |
| Text.RenderingWidth | backend.js:60-65 | numbers below 10, 100 and 1000 render in at most 1, 2 and 3 digits, so the fixed widths are never exceeded by valid readings |
| Text.IncludesChar | backend.js:190 | `includes` of a one-character string holds exactly when the character occurs in the string |
| Text.Split | backend.js:190 | `split` on one character gives at least one part; no part contains the separator; joining the parts with it restores the string |
| Text.SplitJoin | backend.js:190 | splitting the join of separator-free parts gives those parts back, so `split` and join are inverse |
| Text.FirstIndex | backend.js:190 | the index found holds the character, and the character does not occur before it |
| JsonValues.Lookup | backend.js:116 | a member read yields a value exactly when some member has the key, and then it is the value of the last such member, because later duplicates win in `JSON.parse` |
| JsonValues.GetFindsLastMember | backend.js:116 | a property read yields a value exactly when the value is an object with a member of that key, and then it is the value of the last such member; on anything but an object it yields `undefined` |
| Naming.FormattedDateTime | backend.js:57-70 | the day folder is a prefix of the file name, and what follows it is `_HH-MM-SS-mmm.json` rendered from the time fields |
| Naming.RenderLength | backend.js:60-70 | a rendering whose values fit their fields has exactly the template's length |
| Naming.RenderParse | backend.js:60-70 | reading a rendered template gives back the values it was rendered from |
| Naming.ParseRender | backend.js:60-70 | every string the template reader accepts is the rendering of the values it returns |
| Naming.DayWidth | backend.js:60-68 | for a valid reading the month and day fit two digits each, so the `-MM-DD` part is 6 characters |
| Naming.TimeWidth | backend.js:60-69 | for a valid reading the time fields fit their widths, so the `_HH-MM-SS-mmm.json` part is 18 characters |
| Naming.Assemble | backend.js:57-70 | a decoded reading is valid and its year, date fields and time fields are exactly the parts it was assembled from |
| Naming.FileNameRoundTrip | backend.js:57-70 | the file name of a valid reading decodes back to that reading: the naming loses no information |
| Naming.ParsedNameIsFileName | backend.js:57-70 | every name the decoder accepts is the file name of the valid reading it returns, so names and readings correspond one to one |
| Naming.FileNamesCollideOnlyAtSameInstant | backend.js:69 | two valid readings give the same file name if and only if they are equal to the millisecond |
| Naming.SameFolderIffSameDay | backend.js:68 | two valid readings share a day folder if and only if they have the same year, month and day |
| Capture.HeadersObject | backend.js:102 | the header object has one member per header, in order, each name bound to its value |
| Capture.ContentTypeIsFirstHeader | backend.js:195 | `content-type` is present exactly when some header has that name, and its value is that of the first such header; later duplicates are discarded |
| Capture.ContentTypeFirstWins | backend.js:195 | with two `content-type` headers, `text/plain` then `application/json`, the first is read and the body is not parsed |
| Capture.QueryOf | backend.js:190 | `includes('?')` fails, and the query is `null`, exactly when the URL has no `?`; when present the query never contains a `?` |
| Capture.QueryIsFirstSegment | backend.js:190 | the query is the text between the first `?` and the next `?`, or the end of the URL |
| Capture.QueryIsWholeTailIffOneMark | backend.js:190 | the query is everything after the first `?` if and only if no second `?` follows |
| Capture.CaptureRequest | backend.js:184-201 | the snapshot copies the timestamp, method, URL, headers, raw body and remote address unchanged. `bodyParsed` is set exactly when a parse was attempted and succeeded, holding the parse result. `bodyParseError` is set to `Invalid JSON` exactly when a parse was attempted and failed |
| Capture.ParsedAndErrorExclusive | backend.js:195-201 | a snapshot never carries both a parse result and the parse-error marker |
| Capture.NoParseWithoutJsonBody | backend.js:189-195 | an empty body, a missing content type or one not containing `application/json` gives neither a result nor a marker, and the body is kept verbatim |
| Capture.ContentTypeMatching | backend.js:195 | the media-type test is a case-sensitive substring match: `application/json; charset=utf-8` matches, `Application/JSON` does not |
| Addresses.RowOfColumns | backend.js:148-153 | each of address, type, name and value is stored as the element's property value when that property is present and truthy, and as `NULL` when it is missing or falsy; the row carries the parent id |
| Addresses.QueuedCount | backend.js:147-153 | `forEach` queues exactly the elements before the first `null`; a `null` element stops it |
| Addresses.InsertError | backend.js:148-155 | an insert's callback gets no error exactly when there is no storage fault and the address is non-`NULL`; a `NULL` address alone gives the `NOT NULL` error |
| Addresses.FirstError | backend.js:155-157 | no error arrives exactly when every callback is error-free; otherwise the error reported is the earliest one in delivery order |
| Addresses.DrainState | backend.js:139-166 | after any prefix of the callbacks: `completed` counts all but the first error's; `hasError` says whether an error arrived; `reject` was called once with the first error, if any; `resolve` was called once, and only when all callbacks came in error-free |
| Addresses.SettlesAtMostOnce | backend.js:154-166 | `resolve` and `reject` are each called at most once and never both; after an error the batch is rejected with the first error |
| Addresses.Written | backend.js:148-168 | the rows left in the table are queued rows whose insert got no error, and every such row is left |
| Addresses.SuccessIndices | backend.js:154-160 | lists, in increasing order and each once, exactly the positions whose callback got no error |
| Addresses.WrittenAtSuccessIndices | backend.js:148-168 | the k-th row left in the table is the row queued at the k-th error-free position, so the rows are kept in queue order with no row repeated or dropped |
| Addresses.QueuedRows | backend.js:147-153 | one insert is queued per element before the first `null`, with that element's columns |
| Addresses.QueuedErrors | backend.js:154 | the error each queued insert's callback receives is that insert's own outcome |
| Addresses.SaveAddresses | backend.js:132-171 | the promise always settles. An empty array resolves at once with no insert. The queued inserts are exactly the leading non-`null` elements. Every written row carries the parent id and a non-`NULL` address |
| Addresses.BatchPromise | backend.js:142-166 | a non-empty batch rejects with the earliest error (the `TypeError` first when a `null` element threw) and otherwise resolves once every element's callback has come in |
| Addresses.QueuedErrorIffFailure | backend.js:148-158 | a queued insert's callback receives no error exactly when the element is non-`null`, has a truthy address and meets no storage fault |
| Addresses.ResolvedIffAllInsertsSucceed | backend.js:139-166 | the batch resolves if and only if every element's insert succeeds |
| Addresses.ResolvedWritesEveryElement | backend.js:147-169 | when every element's insert succeeds the batch resolves, having written one row per element, in array order, each the element's column mapping |
| Addresses.AllSucceedWritesQueue | backend.js:147-169 | when every element's insert succeeds, every element is queued and every queued row is written |
| Addresses.ResolvedBatchWritesQueue | backend.js:147-169 | a non-empty batch whose inserts all succeed queued every element and every queued row was written |
| Addresses.NullElementRejects | backend.js:147-150 | a `null` anywhere in the array rejects the batch with the property-read `TypeError`, whatever the earlier inserts do |
| Addresses.QueuedSuccessesAreWritten | backend.js:147-168 | a queued insert that succeeds leaves its row even when the batch rejects: nothing stops or undoes the batch |
| Persistence.SaveRequestToFile | backend.js:74-88 | the file step fails exactly when the missing day folder cannot be created or the write fails. On success the day folder exists and the snapshot is stored under its names, replacing a file of the same name, and the snapshot's write is the last one recorded. On failure no file changes. No folder is removed, and the only folder it can add is the day folder. It records only folder and file writes |
| Persistence.MesajItemsIffArray | backend.js:116 | address rows are attempted exactly when the parsed body is an object whose `mesaj` property is an array, and then for that array's elements |
| Persistence.AddressRecords | backend.js:39-48 | the stored address rows take consecutive ids after the table's counter, one per written row, in order |
| Persistence.AddressEffects | backend.js:135-136 | one address write is recorded per stored row, with its id and parent id |
| Persistence.ApplyBatch | backend.js:117-119 | a settled batch adds one stored row per written row and advances the address counter by that number; the `requests` table and its counter are untouched; the step's error is the batch promise's rejection error, and there is none when the promise resolved |
| Persistence.WrittenRowsLinked | backend.js:148-153 | every row the batch writes has a non-`NULL` address and names the parent id it was given |
| Persistence.InsertAddresses | backend.js:117-119 | running the batch leaves the `requests` table and its counter untouched and only adds address rows, advancing the address counter by the number added |
| Persistence.InsertAddressesErrorIff | backend.js:117-119 | the batch step fails if and only if some element's insert fails |
| Persistence.BatchAppends | backend.js:148-153 | the rows a batch adds come after the existing ones, link to the parent and take consecutive ids above the counter |
| Persistence.BatchEffects | backend.js:135-136 | every write a batch records is an address write naming the parent |
| Persistence.InsertAddressesAppends | backend.js:147-153 | the batch only appends: earlier address rows are kept, the counter advances by the number added, each new row links to the parent and takes the next id |
| Persistence.InsertAddressesSuccessRows | backend.js:117-119 | a batch whose inserts all succeed reports no error and adds exactly one row per element, in array order, with consecutive ids |
| Persistence.SaveRequestToDatabase | backend.js:91-129 | a failed parent insert changes nothing, records nothing and reports its error. Otherwise the parent row is appended under the next id, with the snapshot's fields. Without a `mesaj` array no address row is added. Address rows are only added, and the address counter advances by the number added |
| Persistence.DatabaseErrorIffInsertFails | backend.js:107-122 | the database step fails if and only if the parent insert fails or, with a `mesaj` array, some address insert fails |
| Persistence.DatabaseAppends | backend.js:112-119 | the database step only appends address rows, linked to the new parent and with fresh increasing ids |
| Persistence.DatabaseBatchParentFirst | backend.js:112-119 | with a parent inserted and a `mesaj` array, the parent's write is recorded first and every later write is an address write naming it |
| Persistence.DatabaseStoresElements | backend.js:147-153 | when the parent and every address insert succeed, the rows added are one per `mesaj` element, in array order, each linked to the new parent and holding the element's four truthy properties, `NULL` for the others |
| Persistence.DatabaseEffects | backend.js:107-122 | the database step records nothing exactly when the parent insert fails; otherwise the parent's write comes first and every later write is an address write naming the new parent |
| Persistence.DatabaseSuccessRows | backend.js:112-121 | when the parent insert and every address insert succeed, the database step reports no error and there is one address row per `mesaj` element, in array order, and none without a `mesaj` array |
| Persistence.SavedBody | backend.js:210-214 | the 200 body is an object of three members |
| Persistence.SavedBodyFields | backend.js:210-214 | reading the 200 body gives `success: true`, the success message and the snapshot's timestamp, and no `error` |
| Persistence.FailedBody | backend.js:218-222 | the 500 body is an object of three members |
| Persistence.FailedBodyFields | backend.js:218-222 | reading the 500 body gives `success: false`, the failure message and the error's message, and no `timestamp` |
| Persistence.Persist | backend.js:204-223 | the status is 200 or 500; a 200 carries the success body with the snapshot's timestamp, a 500 the failure body with some error message |
| Persistence.Handle | backend.js:182-224 | the request is answered 200 or 500, and after a 200 the snapshot file under the clock's file name holds the captured request |
| Persistence.ResponseReportsOutcome | backend.js:209-222 | the body's `success` is true exactly for a 200; a 200 carries the timestamp and no `error`, a 500 an `error` and no `timestamp` |
| Persistence.SuccessIffEveryWriteSucceeds | backend.js:204-223 | the answer is 200 if and only if the file is written, the parent row is inserted and every address insert succeeds |
| Persistence.FileFailureWritesNoRecord | backend.js:204-206 | a failed file step answers 500 with the file-system error; no file or row is written, at most the day folder is created |
| Persistence.SnapshotSurvivesDatabaseFailure | backend.js:205-206 | once the file is written it stays whatever the database does |
| Persistence.ParentFailureKeepsFileOnly | backend.js:107-110 | a failed parent insert answers 500 with its error, leaves both tables unchanged and keeps the snapshot file |
| Persistence.DatabaseBatchFailure | backend.js:112-119 | a failed address batch fails the database step with the error the batch promise rejected with, and the parent row stays appended |
| Persistence.BatchFailureKeepsParent | backend.js:112-119 | a failed address batch answers 500 with the batch's rejection error in the failure body and rolls nothing back: the parent row and the snapshot file stay |
| Persistence.NullElementAnswersTypeError | backend.js:147-150 | once the file and the parent row are written, a `null` element of `mesaj` makes the request answer 500 with the property-read `TypeError` |
| Persistence.SuccessLeavesAllArtifacts | backend.js:204-214 | when every write succeeds the answer is 200, the snapshot file holds the request, the parent row holds its fields under the next id, and there is one address row per `mesaj` element, in order |
| Persistence.StoredRowsFollowElements | backend.js:147-153 | when every write succeeds, the address rows the request leaves are one per `mesaj` element, in array order, each linked to the request's id and holding that element's column values |
| Persistence.NoMesajNoAddressRows | backend.js:116-122 | without a `mesaj` array no address row is written |
| Persistence.MalformedJsonStillSaved | backend.js:195-214 | an unparsable JSON body still answers 200 when storage works: the raw body is stored, `body_parsed` is `NULL` and the file carries the marker |
| Persistence.FalsyBodyStoredAsNull | backend.js:104 | a JSON body that parses to a falsy value answers 200 when storage works; `body_parsed` is `NULL` in the request row while the snapshot file keeps the parsed value |
| Persistence.FileThenDatabaseInOrder | backend.js:205-206 | file-system writes ending with the snapshot, followed by a parent-first run of database writes, are in order |
| Persistence.WritesInOrder | backend.js:204-206 | the file is written before the parent row, and the parent row before any address row that refers to it |
| Persistence.FileOnlyAdds | backend.js:79-86 | the file step never removes a folder or a file and only the file under the snapshot's own names can change |
| Persistence.DatabaseOnlyAppends | backend.js:91-129 | the database step only appends: at most one request row, address rows after the existing ones, and counters that never go down |
| Persistence.PersistOnlyAppends | backend.js:204-223 | handling a request never removes a folder, file, request row or address row and never changes an existing row; the only file it can change is one already stored under the same names, which the snapshot replaces; at most one request row is added and the id counters never go down |
| Persistence.FilePreservesWellFormed | backend.js:79-86 | the file step keeps every file inside an existing day folder |
| Persistence.AppendPreservesWellFormed | backend.js:25-47 | appending a parent row under the next id, and address rows under consecutive fresh ids linked to it, keeps ids increasing and every address linked to an existing request |
| Persistence.DatabaseAppendsParentAndChildren | backend.js:107-119 | a database step whose parent insert succeeds appends the parent under the next id and its address rows under fresh consecutive ids linked to it |
| Persistence.DatabasePreservesWellFormed | backend.js:91-129 | the database step keeps the store well formed |
| Persistence.PersistPreservesWellFormed | backend.js:204-223 | handling a request keeps the store well formed: ids fresh and increasing, every address row linked to an existing request, every file in an existing folder |

## Left out

- Real I/O: the `http` server, `fs`, `path`, `sqlite3` and `console`. The store is an abstract record, and the failures of `mkdirSync`, `writeFileSync` and each insert are supplied as inputs.
- `new Date()`, `toISOString` and local-time conversion. The clock reading and the ISO timestamp are inputs; a reading is valid when month 1-12, day 1-31, hours 0-23, minutes and seconds 0-59 and milliseconds 0-999 (calendar validity of the day is not checked).
- `JSON.parse` and `JSON.stringify`. They are function parameters, so the file's pretty-printed text and the exact column strings are not modelled.
- Numbers are exact reals, not IEEE-754 doubles.
- Schema and index creation (backend.js:23-54), the log-directory bootstrap (backend.js:7-10), opening the database (backend.js:13-20), server start, the port-in-use handler and SIGINT shutdown (backend.js:228-259). These set the environment up and decide no outcome of a request.
- Concurrency. One request is handled at a time, and the callbacks of one batch arrive one at a time in queue order. So file-name collisions between concurrent requests and interleavings of their inserts are not modelled; `Naming.FileNamesCollideOnlyAtSameInstant` states when names can collide.
- Statement lifecycle: `prepare`/`finalize`, including the `finalize` that the error paths never call. It has no effect on stored data or the answer.
- Body assembly from chunks (`chunk.toString()` per chunk). The body is the already-decoded string.
- Node's header normalisation other than for `content-type`: lower-casing, joining duplicates of other headers, and the array value of `set-cookie`. Headers are given as lower-cased name/value pairs. For `content-type`, Node keeps the first header and discards later duplicates (it does not join them); `Capture.ContentType` models that.
- A failed `writeFileSync` is modelled as writing nothing; a partially written file is not modelled.
- Foreign keys are declared but SQLite does not enforce them unless enabled; the model does not rely on enforcement, and `Persistence.PersistPreservesWellFormed` shows every address row links to an existing request anyway.
- How SQLite stores non-string column values (a number or an object bound to a `TEXT` column) is not modelled; address columns keep the JSON value.
- Addresses.InsertError: when an insert meets both a storage failure and a `NULL` address, the model reports the storage failure; which of the two SQLite would report is not modelled, and only the error text differs.
- Persistence.Persist: an exception from `JSON.stringify` (a circular value cannot arise from parsed JSON) and the exact wording of system error messages are not modelled; the error message is whatever the failing step reports (for the address batch, the promise's rejection error, as `Persistence.BatchFailureKeepsParent` states).

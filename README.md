# User records and attendance report, modelled in Dafny

This project models the record logic of the user controller of a small HTTP
backend (`controllers/userController.js`). The backend keeps three trees in a
hosted tree store: `users/{code}`, `penddingUsers/{code}` (registrations not
yet approved) and `attendance/{userCode}/{eventId}`. Its handlers list, read,
create, update (one record or a bulk array) and delete user records. One more
handler builds an attendance report that joins the users tree with the
attendance tree.

The model has four modules:

- `Records` (`records.dfy`): a record is a map from field name to string value.
  `Truthy` is the JavaScript test `!!rec.field`. `Merge` is the store's
  partial update.
- `Report` (`report.dfy`): the report builder `getUsersAttendance`, as pure
  functions. It projects each user to a fixed set of fields and filters by
  `level`. It joins attendance on the user's `code` field, not on the
  storage key. A user without `code` is joined on the key `"undefined"`,
  which is what `attendance[undefined]` reads. Each user's attendance is
  sorted newest first, by insertion sort.
- `BulkUpdate` (`bulk_update.dfy`): `Apply`, a fold over the items that
  defines the bulk mode of `updateUser`. The lemmas beside it state the
  counts, the order, and which records change and how.
- `UserStore` (`user_store.dfy`): class `Store` with the three trees as map
  fields. Each handler is a method that returns a `Response` (status code and
  payload). A mutating method may change only the tree its `modifies` clause
  names. The report method reads the store's trees through listings of them
  (`Records.Lists`). A tree the store does not hold is read as the empty map, because the
  store never keeps an empty node; `Store.Valid()` states that.

Inputs the handlers take from outside the model:

- The order in which `Object.keys` lists a tree. The report takes the users
  tree as a sequence of (key, record) pairs. It takes each attendance subtree
  as a sequence of (event key, record) pairs.
- Timestamps. These are integers instead of date strings parsed by `new Date`.

Single mode does not strip `code`: line 216 merges the whole request body,
so a `code` in the body is written into the record. Bulk mode strips it at
line 189. `Store.UpdateOne` models this, and `CodeRewriteScenario` shows
both modes.

## Model

| member | source | states |
|---|---|---|
| `Records.Merge` | controllers/userController.js:216 | a partial update keeps every stored field it does not mention and takes every field it supplies; the keys are the union |
| `Records.ListsCount` | controllers/userController.js:72 | a listing of a node, as `Object.keys` iteration yields it, has exactly one pair per child |
| `Report.Project` | controllers/userController.js:73-86 | a report user holds exactly the projected fields (code, fullName, level, church, birthdate, gender, address, phoneNumber) the record has, with their values |
| `Report.Kept` | controllers/userController.js:89-91 | the level filter never adds users: it keeps at most as many as the snapshot has (which ones and in what order: the three lemmas below) |
| `Report.KeptSelected` | controllers/userController.js:89-91 | a user survives the filter iff it is in the snapshot and the filter is off or its `level` equals the requested level exactly |
| `Report.KeptAppend` | controllers/userController.js:89-91 | filtering distributes over concatenation, so kept users stay in snapshot order |
| `Report.KeptAll` | controllers/userController.js:89 | with no level, the empty level or `'all'`, every user is kept |
| `Report.JoinKey` | controllers/userController.js:97 | a user is joined on its `code` field, and a user without one on the key `"undefined"` |
| `Report.Entry` | controllers/userController.js:100-106 | a report entry is `{id: event key, dateTime, status, studentId}` of one attendance node |
| `Report.EntriesCopy` | controllers/userController.js:99-107 | a subtree becomes one entry per node, at the same position, with the node's key as `id`; nothing is added or dropped |
| `Report.Insert` | controllers/userController.js:110 | inserting into a newest-first list keeps it newest first and adds exactly that entry |
| `Report.SortNewestFirst` | controllers/userController.js:110 | the sorted attendance is non-increasing in `dateTime` and a permutation of its input |
| `Report.Row` | controllers/userController.js:94-118 | a row has the storage key as id and the projected user; its attendance is newest first and a permutation of the entries under `attendance[code]`, or under `attendance["undefined"]` for a user without `code`, and empty when that subtree or the whole attendance tree is absent |
| `Report.BuildReport` | controllers/userController.js:66-121 | absent users tree gives `[]`; otherwise one row per kept user, in order, with id = storage key, the projected fields, and attendance joined on `code`, sorted newest first and a permutation of that user's subtree |
| `Report.LevelAllIsNoFilter` | controllers/userController.js:89 | `level=all` and the empty level give the same report as no level |
| `Report.LevelFilterSound` | controllers/userController.js:89-90 | with a real level, every row's `level` equals it exactly |
| `Report.LevelFilterComplete` | controllers/userController.js:89-90 | with a real level, every snapshot user whose `level` equals it has a row |
| `Report.ReportAppend` | controllers/userController.js:73-118 | the report of a concatenated snapshot is the concatenation of the reports: rows keep input order |
| `Report.ReportSingleton` | controllers/userController.js:73-118 | a one-user snapshot gives that user's row iff the filter selects it, else nothing |
| `Report.RowListsSubtree` | controllers/userController.js:97-107 | when the snapshot lists the stored subtree, each entry is `{id: event key, dateTime, status, studentId}` of a stored event, and every stored event appears exactly once: the row has as many entries as the subtree has events |
| `Report.NewestFirstUnique` | controllers/userController.js:110 | two newest-first arrangements of the same entries with distinct timestamps are equal, so only ties leave the order open |
| `Report.SortDetermined` | controllers/userController.js:110 | with distinct timestamps, the sorted attendance is the one newest-first arrangement of the entries |
| `Report.SortExample` | controllers/userController.js:110 | records stamped T1, T3, T2 with T1 < T2 < T3 come out T3, T2, T1 |
| `BulkUpdate.UpdateData` | controllers/userController.js:189 | the update an item writes is the item without its `code` field |
| `BulkUpdate.ApplyItem` | controllers/userController.js:175-196 | a falsy code fails with "Missing user code", an unknown code with "User not found", and neither changes anything; otherwise only that record changes, it gets every other item field merged in, and the success entry carries the merged record |
| `BulkUpdate.Next` | controllers/userController.js:173-200 | one iteration leaves the users tree as `ApplyItem` does and appends exactly one entry: to `successful` iff the item names an existing user, else its failure to `failed` |
| `BulkUpdate.Apply` | controllers/userController.js:167-205 | the bulk loop adds and removes no user and reports every item exactly once: successful plus failed equals the item count |
| `BulkUpdate.FailedAreNonTargets` | controllers/userController.js:175-187 | the failed list is exactly the items naming no existing user, in input order, each with its reason |
| `BulkUpdate.SuccessfulAreTargets` | controllers/userController.js:189-196 | the codes in the successful list are exactly those of the items naming an existing user, in input order |
| `BulkUpdate.FinalRecord` | controllers/userController.js:173-200 | each user ends as its old record with all updates naming it merged in input order; later items see earlier ones, and users no item names are unchanged |
| `BulkUpdate.CodeFieldUntouched` | controllers/userController.js:189-190 | bulk mode never adds, drops or changes a stored `code` field |
| `BulkUpdate.LastSuccessIsFinal` | controllers/userController.js:190-196 | the last success entry for a user carries its final record, and there is one iff some item updated that user |
| `UserStore.Store.GetAllUsers` | controllers/userController.js:5-20 | 404 "No users found" iff the users tree is absent, else 200 with the whole tree; nothing changes |
| `UserStore.Store.GetPendingUsers` | controllers/userController.js:21-36 | 404 iff the pending tree is absent, else 200 with the whole pending tree; nothing changes |
| `UserStore.Store.GetUserByCode` | controllers/userController.js:39-55 | 404 iff `users[code]` is absent, else 200 with that record; nothing changes |
| `UserStore.Store.CreateUser` | controllers/userController.js:133-158 | 400 on a falsy code or fullName and 409 when the pending tree has the code, both without change; else `pending[code]` becomes exactly the body and the answer is 201 with it; users and attendance never change |
| `UserStore.Store.DeleteUser` | controllers/userController.js:231-251 | 404 without change when `users[code]` is absent; else only that key leaves `users`, and pending and attendance (including `attendance[code]`) stay |
| `UserStore.Store.UpdateUser` | controllers/userController.js:161-228 | an array body runs bulk mode (path code ignored) and answers 200 with both lists; an object body runs single mode |
| `UserStore.Store.UpdateOne` | controllers/userController.js:208-223 | 404 without change when `users[code]` is absent; else every body field, `code` included, is merged into that record under the same key, and the answer is 200 with the merged record |
| `UserStore.Store.GetUsersAttendance` | controllers/userController.js:57-130 | always 200, with the report built from listings of the store's users and attendance trees (`[]` without users); every row is a stored user the filter selects, with its projected fields and one entry per event stored under its code; every selected stored user has a row; with no filter there is one row per stored user; nothing changes |
| `UserStore.RowsAreStoredUsers` | controllers/userController.js:72-118 | over listings of the store's trees, every row's id is a stored user the filter selects, the row's user is that record projected, and its attendance has as many entries as events stored under its code |
| `UserStore.StoredUsersHaveRows` | controllers/userController.js:72-91 | over a listing of the users tree, every stored user the filter selects has a row |
| `UserStore.Store.UpdateBulk` | controllers/userController.js:167-205 | the loop computes exactly `Apply` on the old users tree: the new tree and both result lists |

## Left out

- Process bootstrap in `index.js` is not part of this model: the environment-variable check, Express middleware, route wiring and `app.listen`. These are I/O.
- `sendNotification` (controllers/userController.js:254-274) is not modelled. It is a single call into the push-messaging service with a constant topic.
- Store failures are not modelled. Every `catch` branch that answers 500 is left out, and so are bulk mode's per-item `catch` entries. The model has no failing store.
- Concurrency is not modelled. The handlers are asynchronous, the two report reads (lines 66-67) are not one snapshot, and concurrent requests can race. The model is sequential.
- Client semantics of the tree store are not modelled: `null` deleting a child on `update`, paths whose code contains `/`, and values that are not strings. Fields are string-valued. `update` is a map override.
- Date parsing and the `NaN` comparator cases at line 110 are not modelled. `dateTime` is an integer.
- `Object.keys` order is not derived. It is an input to the report: `Store.GetUsersAttendance` takes listings of the users tree and of each attendance subtree, in whatever order the store enumerates them.
- Report.SortNewestFirst: does not fix the order of entries with equal `dateTime`. The source does not rely on it.
- Attendance records carry exactly `dateTime`, `status` and `studentId`. Missing or extra fields of an attendance node are not modelled.
- The response texts for bulk mode and the report are not modelled. The model keeps the bulk result lists and leaves out the message string built from their lengths. The report is the list of rows that is sent with status 200.
- Request bodies that are neither an object nor an array are not modelled, and neither are array items that are not objects.
- Logging (`console.log`, `console.error`) is left out.

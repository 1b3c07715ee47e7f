# Call capture, sync and dashboards of the MEP call-tracking app

A model in Dafny of the sequential logic of a field-staff call tracker that has three parts:

- **Mobile app.** An Android app watches the phone state. When a call ends, it writes the call into a local Room table `call_logs` and later uploads it.
- **Backend.** A Spring backend keeps the uploaded calls, the users, an in-memory heartbeat map, the sync-interval setting and a registry of excluded numbers.
- **Web dashboard.** A Next.js dashboard lists the day's contacts and finds returning customers.

The model covers these components:

- **Phone-state receiver** (`CallCapture`):
  - the RINGING / OFFHOOK / IDLE state machine over the receiver's three static fields, as a class updated in place and as the step function it follows;
  - the persist step with its early exits and its check-then-insert, as written and with the corrected sync;
  - the call-type mapping;
  - the upload-then-mark step.
- **Local call-log table** (`LocalCallLog`):
  - every query of the data-access object over a sequence of rows with a row-id counter;
  - the insert, update and delete statements as methods of a table class.
- **Backend call-log repository** (`RemoteCallLogs`):
  - the duplicate purge keeping each group's `MIN(id)`;
  - the existence query;
  - the ordered finders.
- **Phone-number normalisation** (`PhoneNumbers`): the backend's and the dashboard's copies, which differ in what they take as white space.
- **Excluded-contact controller** (`ExcludedContacts`):
  - add, batch add, remove, check and list;
  - all of them compare numbers after normalisation.
- **User table** (`Users`) and the controllers and start-up code that use it:
  - staff (`Staff`);
  - heartbeat and liveness (`Heartbeat`);
  - seeding the admin, the field-staff user and the default interval (`DataInit`).
- **Sync-interval setting** (`Settings`): its default and its validation.
- **Call-logs page** (`CallLogsPage`, with `WebLogs` for what both pages share):
  - the August 2025 cutoff;
  - the locally kept set of excluded numbers;
  - the filter, newest-first sort and first-per-number pipeline;
  - the per-number history;
  - the day counters;
  - `formatDuration`.
- **Returning-customers page** (`ReturningCustomers`):
  - exclusion by normalised number;
  - grouping by normalised number;
  - the whole-day gap test and the earliest qualifying return call;
  - the shown number and name;
  - the ordering by gap.

Shared helpers:

- `Seqs`: the order-preserving filter, stable insertion sorts, distinctness;
- `Text`: the white-space classes of the Java regex engine, JavaScript and Kotlin, `trim`, numerals, the JVM's decimal-digit class and `toIntOrNull`, and string length in UTF-16 code units;
- `Wrappers`: `Option` and `Result`.

Modelling conventions:

- Timestamps are integers: milliseconds in the backend and the web client, and whole seconds in the local table.
- UUIDs are integers.
- Clocks, tokens, the system call log, the network outcome and password hashing are parameters or oracles.
- Where the source changes state (the receiver fields, the local table, the repositories, the heartbeat map, the config table), the model is a class with `modifies` clauses. Its methods are proved against the functions the lemmas speak about.
- The loops of the web pages are methods with invariants:
  - early-return `isExcluded`;
  - the `contactGroups` `forEach`;
  - the return-call loop with `break`;
  - the `seenNumbers` loop.
- The excluded-contact batch keeps its `added`/`skipped` counters in a loop.

## Model

| member | source | states |
|---|---|---|
| CallCapture.TruncDiv | mep-mobile/app/src/main/java/com/mepapp/mobile/receiver/PhoneStateReceiver.kt:80 | Kotlin's `Long` division: floor division for a non-negative dividend, and the negated quotient of the negation otherwise (rounding toward zero). |
| CallCapture.Step | mep-mobile/app/src/main/java/com/mepapp/mobile/receiver/PhoneStateReceiver.kt:47-99 | RINGING stores the extra's number and the event time and clears the active flag; OFFHOOK starts the timer only when no call is active and never saves; IDLE starts a save exactly when a call is active or a number is tracked, with the elapsed whole seconds, then resets all three fields; after any IDLE the flag is false and no number is tracked; any other state changes nothing. |
| CallCapture.SavesAtMostIdles | mep-mobile/app/src/main/java/com/mepapp/mobile/receiver/PhoneStateReceiver.kt:71-94 | Over any sequence of broadcasts there are never more saves than IDLE broadcasts. |
| CallCapture.AnsweredCall | mep-mobile/app/src/main/java/com/mepapp/mobile/receiver/PhoneStateReceiver.kt:47-90 | RINGING, OFFHOOK, IDLE saves once, with the ringing number, the answer time as start and the truncated seconds from answer to hang-up, and leaves the fields reset. |
| CallCapture.UnansweredCall | mep-mobile/app/src/main/java/com/mepapp/mobile/receiver/PhoneStateReceiver.kt:47-90 | A call that rings with a number and stops saves once, timed from the ring, and leaves the fields reset. |
| CallCapture.UnansweredWithheldCall | mep-mobile/app/src/main/java/com/mepapp/mobile/receiver/PhoneStateReceiver.kt:78-93 | A call that rings without a number and stops saves nothing: neither the active flag nor a number is set. |
| CallCapture.OutgoingCall | mep-mobile/app/src/main/java/com/mepapp/mobile/receiver/PhoneStateReceiver.kt:59-90 | From the reset receiver, OFFHOOK then IDLE saves once with no number, timed from the OFFHOOK. |
| CallCapture.IdleTwice | mep-mobile/app/src/main/java/com/mepapp/mobile/receiver/PhoneStateReceiver.kt:78-93 | A second IDLE in a row neither saves nor changes the fields. |
| CallCapture.CallStateTracker.constructor | mep-mobile/app/src/main/java/com/mepapp/mobile/receiver/PhoneStateReceiver.kt:28-32 | The static fields start at start time 0, no number and no active call. |
| CallCapture.CallStateTracker.OnReceive | mep-mobile/app/src/main/java/com/mepapp/mobile/receiver/PhoneStateReceiver.kt:34-107 | Updates the three fields in place and returns the save it starts, both as `Step` prescribes for the old fields. |
| CallCapture.CallTypeName | mep-mobile/app/src/main/java/com/mepapp/mobile/receiver/PhoneStateReceiver.kt:201-206 | The mapping is total: codes 1, 2 and 3 and only they are named INCOMING, OUTGOING and MISSED; every other code is UNKNOWN. |
| CallCapture.LatestCallSince | mep-mobile/app/src/main/java/com/mepapp/mobile/receiver/PhoneStateReceiver.kt:178-191 | The `DATE > since ORDER BY DATE DESC LIMIT 1` query: nothing exactly when every row is at or before `since`, else a row after `since` that no later row beats. |
| CallCapture.CallDetailsFromLog | mep-mobile/app/src/main/java/com/mepapp/mobile/receiver/PhoneStateReceiver.kt:166-219 | Nothing exactly when no call was logged in the minute before the query; otherwise the details of the newest call logged in that minute (no row of the minute is later), with a missing number read as "Unknown" and the type code named. |
| CallCapture.NewEntity | mep-mobile/app/src/main/java/com/mepapp/mobile/receiver/PhoneStateReceiver.kt:138-147 | The entity is unsynced, carries the call-log id as `phoneCallId` and the call log's duration (not the locally timed one), and has the default id 0. |
| CallCapture.StoreCall | mep-mobile/app/src/main/java/com/mepapp/mobile/receiver/PhoneStateReceiver.kt:109-153 | The persist step up to the insert: the same four early outcomes, each in both directions and each leaving the table unchanged; otherwise the call is appended once, unsynced, under the next row id. |
| CallCapture.SaveCallToDatabase | mep-mobile/app/src/main/java/com/mepapp/mobile/receiver/PhoneStateReceiver.kt:109-164 | As written. Exactly one outcome per case, each stated in both directions: no non-blank token, no staff id, no call details, or a call id already stored, each leaving the table unchanged; otherwise the entity is appended once under the next row id, and it stays unsynced whatever the upload does, because the sync marks id 0. |
| CallCapture.SaveCallToDatabaseCorrected | mep-mobile/app/src/main/java/com/mepapp/mobile/receiver/PhoneStateReceiver.kt:109-164 | With the corrected sync: the same outcomes, and a stored call is appended under the next row id and is synced exactly when the upload succeeded. |
| CallCapture.SyncToServerAsWritten | mep-mobile/app/src/main/java/com/mepapp/mobile/receiver/PhoneStateReceiver.kt:221-250 | After a successful upload the rows are those of `markAsSynced` on the id of the entity handed in; otherwise unchanged. |
| CallCapture.AsWrittenSyncLeavesStoredCallUnsynced | mep-mobile/app/src/main/java/com/mepapp/mobile/receiver/PhoneStateReceiver.kt:243 | The handed-in entity has id 0 while the stored row got the next row id, so marking id 0 changes nothing and the stored call stays in the unsynced listing. |
| CallCapture.SyncToServer | mep-mobile/app/src/main/java/com/mepapp/mobile/receiver/PhoneStateReceiver.kt:221-250 | The corrected sync marks the row id that the insert returned after a successful upload, and changes nothing otherwise. |
| CallCapture.CorrectedSyncMarksStoredCall | mep-mobile/app/src/main/java/com/mepapp/mobile/receiver/PhoneStateReceiver.kt:243 | Marking the returned row id syncs the stored call and leaves every earlier row as it was. |
| LocalCallLog.Insert | mep-mobile/app/src/main/java/com/mepapp/mobile/database/CallLogDao.kt:10-11 | Insert-or-ignore: an explicit key already taken leaves the table unchanged and yields -1; otherwise the row is appended under its key, or under the next row id when the key is 0; keys stay unique, non-zero and within the counter. |
| LocalCallLog.InsertIdempotent | mep-mobile/app/src/main/java/com/mepapp/mobile/database/CallLogDao.kt:10-11 | Inserting the same row with an explicit key twice is ignored the second time. |
| LocalCallLog.InsertAll | mep-mobile/app/src/main/java/com/mepapp/mobile/database/CallLogDao.kt:13-14 | Inserting a list keeps every old row in place and adds at most one row per element, keeping the table well formed. |
| LocalCallLog.UnsyncedCallLogs | mep-mobile/app/src/main/java/com/mepapp/mobile/database/CallLogDao.kt:16-17 | Exactly the rows with `isSynced = 0`, each as often as stored, in non-decreasing timestamp order. |
| LocalCallLog.CallLogExists | mep-mobile/app/src/main/java/com/mepapp/mobile/database/CallLogDao.kt:22-23 | The count is at most the table size, and positive exactly when some row has that call id. |
| LocalCallLog.CallLogExistsCounts | mep-mobile/app/src/main/java/com/mepapp/mobile/database/CallLogDao.kt:22-23 | The count equals the size of the `WHERE phoneCallId = ?` selection. |
| LocalCallLog.RecentCallLogs | mep-mobile/app/src/main/java/com/mepapp/mobile/database/CallLogDao.kt:25-26 | `min(size, 100)` rows taken from the table, newest first. |
| LocalCallLog.RecentCallLogsAreNewest | mep-mobile/app/src/main/java/com/mepapp/mobile/database/CallLogDao.kt:25-26 | No row left out of the recent listing is newer than a listed row. |
| LocalCallLog.AllCallLogs | mep-mobile/app/src/main/java/com/mepapp/mobile/database/CallLogDao.kt:28-29 | A permutation of the table, newest first. |
| LocalCallLog.MarkSynced | mep-mobile/app/src/main/java/com/mepapp/mobile/database/CallLogDao.kt:19-20 | Row by row: a row becomes synced exactly when it was synced or its id is listed, and nothing else of any row changes. |
| LocalCallLog.MarkSyncedIdempotent | mep-mobile/app/src/main/java/com/mepapp/mobile/database/CallLogDao.kt:19-20 | Marking the same ids twice equals marking them once. |
| LocalCallLog.MarkSyncedAbsent | mep-mobile/app/src/main/java/com/mepapp/mobile/database/CallLogDao.kt:19-20 | Marking ids that no row carries changes nothing. |
| LocalCallLog.MarkSyncedLeavesOthersUnsynced | mep-mobile/app/src/main/java/com/mepapp/mobile/database/CallLogDao.kt:16-20 | After marking, the rows still waiting for upload are the previously unsynced rows whose id was not listed, in order. |
| LocalCallLog.DeleteOldSynced | mep-mobile/app/src/main/java/com/mepapp/mobile/database/CallLogDao.kt:31-32 | A row survives exactly when it is unsynced or not older than the cutoff. |
| LocalCallLog.PurgeKeepsUnsynced | mep-mobile/app/src/main/java/com/mepapp/mobile/database/CallLogDao.kt:16-32 | The purge never changes the unsynced listing. |
| LocalCallLog.CallLogTable.constructor | mep-mobile/app/src/main/java/com/mepapp/mobile/database/CallLogDao.kt:8-9 | The table starts empty and well formed. |
| LocalCallLog.CallLogTable.InsertCallLog | mep-mobile/app/src/main/java/com/mepapp/mobile/database/CallLogDao.kt:10-11 | Changes the table and returns the row id as `Insert` prescribes, keeping it well formed. |
| LocalCallLog.CallLogTable.InsertAllCallLogs | mep-mobile/app/src/main/java/com/mepapp/mobile/database/CallLogDao.kt:13-14 | Changes the table as `InsertAll`, by a loop of single inserts. |
| LocalCallLog.CallLogTable.MarkAsSynced | mep-mobile/app/src/main/java/com/mepapp/mobile/database/CallLogDao.kt:19-20 | Changes the rows as `MarkSynced` on the listed ids, and nothing else. |
| LocalCallLog.CallLogTable.DeleteOldSyncedLogs | mep-mobile/app/src/main/java/com/mepapp/mobile/database/CallLogDao.kt:31-32 | Changes the rows as `DeleteOldSynced`, and nothing else. |
| RemoteCallLogs.Survivors | mep-backend/src/main/kotlin/com/mepapp/backend/repository/CallLogRepository.kt:18-27 | A row is kept exactly when its id is the `MIN(id)` of its (phone number, timestamp, staff) group; never more rows than before. |
| RemoteCallLogs.SurvivorsHaveDistinctKeys | mep-backend/src/main/kotlin/com/mepapp/backend/repository/CallLogRepository.kt:18-27 | With ids a primary key, no two surviving rows share a (phone number, timestamp, staff) key. |
| RemoteCallLogs.EachGroupKeepsItsMinimum | mep-backend/src/main/kotlin/com/mepapp/backend/repository/CallLogRepository.kt:21-25 | Every group keeps a row, and the kept row has the smallest id of its group. |
| RemoteCallLogs.UniqueKeyRowSurvives | mep-backend/src/main/kotlin/com/mepapp/backend/repository/CallLogRepository.kt:21-27 | A row whose key no other row shares is untouched. |
| RemoteCallLogs.SurvivorsIdempotent | mep-backend/src/main/kotlin/com/mepapp/backend/repository/CallLogRepository.kt:18-27 | Deleting duplicates from the survivors removes nothing. |
| RemoteCallLogs.MinById | mep-backend/src/main/kotlin/com/mepapp/backend/repository/CallLogRepository.kt:23 | The `MIN(id)` of a non-empty group is a member of it with no larger id in it. |
| RemoteCallLogs.ExistsByPhoneCallIdAndStaffId | mep-backend/src/main/kotlin/com/mepapp/backend/repository/CallLogRepository.kt:16 | True exactly when some row has both that call id and that staff id. |
| RemoteCallLogs.FindByStaffId | mep-backend/src/main/kotlin/com/mepapp/backend/repository/CallLogRepository.kt:14 | Exactly that staff member's rows, each as often as stored, newest first. |
| RemoteCallLogs.FindByJobId | mep-backend/src/main/kotlin/com/mepapp/backend/repository/CallLogRepository.kt:13 | Exactly the rows of that job, each as often as stored, newest first. |
| RemoteCallLogs.FindAll | mep-backend/src/main/kotlin/com/mepapp/backend/repository/CallLogRepository.kt:15 | A permutation of the table, newest first. |
| RemoteCallLogs.CallLogStore.constructor | mep-backend/src/main/kotlin/com/mepapp/backend/repository/CallLogRepository.kt:12 | A store over rows whose ids are a primary key. |
| RemoteCallLogs.CallLogStore.DeleteDuplicates | mep-backend/src/main/kotlin/com/mepapp/backend/repository/CallLogRepository.kt:18-27 | The rows become the survivors, and the returned count is the number of rows removed. |
| RemoteCallLogs.DeleteDuplicatesTwice | mep-backend/src/main/kotlin/com/mepapp/backend/repository/CallLogRepository.kt:18-27 | A second delete right after the first deletes 0 rows. |
| PhoneNumbers.CleanShape | mep-backend/src/main/kotlin/com/mepapp/backend/controller/ExcludedContactController.kt:105 | Removing white space and `-` never lengthens the number and keeps exactly its other characters. |
| PhoneNumbers.Clean | mep-backend/src/main/kotlin/com/mepapp/backend/controller/ExcludedContactController.kt:105 | The white-space and `-` removal; `CleanShape` states what it keeps. |
| PhoneNumbers.StripShape | mep-backend/src/main/kotlin/com/mepapp/backend/controller/ExcludedContactController.kt:106-110 | The country-code rule leaves a suffix of its input. |
| PhoneNumbers.StripCountsCodeUnits | mep-backend/src/main/kotlin/com/mepapp/backend/controller/ExcludedContactController.kt:108 | A "91" number of ten characters that is eleven UTF-16 code units long (it ends in an emoji) loses its "91". |
| PhoneNumbers.StripCountryCode | mep-backend/src/main/kotlin/com/mepapp/backend/controller/ExcludedContactController.kt:106-110 | The country-code rule; `StripShape`, `StripCountsCodeUnits` and `StripVariant` state what it strips. |
| PhoneNumbers.NormalizePhoneShape | mep-backend/src/main/kotlin/com/mepapp/backend/controller/ExcludedContactController.kt:104-112 | The backend result holds neither Java-regex white space nor `-` and is no longer than the input; a cleaned "+91..." loses its first three characters, and a cleaned "91..." of at most 10 UTF-16 code units is kept whole. |
| PhoneNumbers.NormalizePhone | mep-backend/src/main/kotlin/com/mepapp/backend/controller/ExcludedContactController.kt:104-112 | The backend's `normalizePhone`; `NormalizePhoneShape` and `IndianVariantsAgree` state its results. |
| PhoneNumbers.WebNormalizePhoneShape | mep-web/src/app/returning-customers/page.tsx:9-18 | The dashboard result holds neither JavaScript white space nor `-` and is no longer than the input. |
| PhoneNumbers.WebNormalizePhone | mep-web/src/app/returning-customers/page.tsx:9-18 | The dashboard's `normalizePhone`; `WebNormalizePhoneShape`, `WebAgreesWithBackend` and `WebAndBackendDifferOnNoBreakSpace` state its results. |
| PhoneNumbers.WebAgreesWithBackend | mep-web/src/app/returning-customers/page.tsx:9-18 | On every input, the empty string included, whose white space Java's `\s` also matches, the dashboard and the backend normalise alike. |
| PhoneNumbers.WebAndBackendDifferOnNoBreakSpace | mep-web/src/app/returning-customers/page.tsx:11 | The two are not the same function: a lone no-break space is removed by the dashboard and kept by the backend. |
| PhoneNumbers.IndianVariantsAgree | mep-backend/src/main/kotlin/com/mepapp/backend/controller/ExcludedContactController.kt:104-112 | A ten-digit number written alone, after "+91", "+91 ", "+91-" or "91" normalises to the ten digits, on the backend and on the dashboard. |
| ExcludedContacts.HasMatch | mep-backend/src/main/kotlin/com/mepapp/backend/controller/ExcludedContactController.kt:54-56 | `any`: true exactly when some stored number normalises to the given one. |
| ExcludedContacts.FindMatch | mep-backend/src/main/kotlin/com/mepapp/backend/controller/ExcludedContactController.kt:32-34 | `find`: nothing exactly when there is no match, else a stored entry that normalises to the given number. |
| ExcludedContacts.FindMatchIsFirst | mep-backend/src/main/kotlin/com/mepapp/backend/controller/ExcludedContactController.kt:32-34 | The entry found is the first of the matching entries in table order. |
| ExcludedContacts.IsExcluded | mep-backend/src/main/kotlin/com/mepapp/backend/controller/ExcludedContactController.kt:94-101 | True exactly when some stored number normalises like the queried one. |
| ExcludedContacts.Phones | mep-backend/src/main/kotlin/com/mepapp/backend/controller/ExcludedContactController.kt:21-24 | The stored numbers, as stored, one per entry, in table order. |
| ExcludedContacts.Add | mep-backend/src/main/kotlin/com/mepapp/backend/controller/ExcludedContactController.kt:27-44 | With a match, nothing is saved and the first matching entry is returned; otherwise the raw number is appended under a fresh id; either way the result is stored and normalises like the request. |
| ExcludedContacts.AddKeepsInvariants | mep-backend/src/main/kotlin/com/mepapp/backend/controller/ExcludedContactController.kt:32-43 | `addExcluded` keeps ids and stored numbers unique and the next id fresh, and keeps stored numbers pairwise distinct after normalisation. |
| ExcludedContacts.AddIdempotent | mep-backend/src/main/kotlin/com/mepapp/backend/controller/ExcludedContactController.kt:32-37 | Adding a number a second time, with any name and time, changes nothing and returns the first entry. |
| ExcludedContacts.Remove | mep-backend/src/main/kotlin/com/mepapp/backend/controller/ExcludedContactController.kt:74-91 | Not found exactly when nothing matches, and then the table is unchanged; on success exactly the matching entries are gone, every other entry stays, the number is no longer excluded and the answer echoes it. |
| ExcludedContacts.RemoveKeepsWellFormed | mep-backend/src/main/kotlin/com/mepapp/backend/controller/ExcludedContactController.kt:80-88 | Deleting keeps ids and stored numbers unique and the next id fresh. |
| ExcludedContacts.RemoveUndoesAdd | mep-backend/src/main/kotlin/com/mepapp/backend/controller/ExcludedContactController.kt:27-91 | Removing a number that `addExcluded` has just added restores the table and answers deleted. |
| ExcludedContacts.SaveIfNewIsAdd | mep-backend/src/main/kotlin/com/mepapp/backend/controller/ExcludedContactController.kt:52-62 | Each number of the batch is handled as `addExcluded` handles a request without a name. |
| ExcludedContacts.AddBatch | mep-backend/src/main/kotlin/com/mepapp/backend/controller/ExcludedContactController.kt:52-63 | A batch keeps every old entry in place and adds at most one entry per number. |
| ExcludedContacts.AddBatchKeepsInvariants | mep-backend/src/main/kotlin/com/mepapp/backend/controller/ExcludedContactController.kt:52-63 | A batch keeps ids and numbers unique and stored numbers pairwise distinct after normalisation. |
| ExcludedContacts.AddBatchExcludesAll | mep-backend/src/main/kotlin/com/mepapp/backend/controller/ExcludedContactController.kt:52-63 | After a batch every number of it is excluded. |
| ExcludedContacts.AddBatchEntriesFresh | mep-backend/src/main/kotlin/com/mepapp/backend/controller/ExcludedContactController.kt:52-63 | Each entry a batch adds normalises unlike every entry before it, so a number repeated within the batch is added at most once. |
| ExcludedContacts.ExcludedContactStore.constructor | mep-backend/src/main/kotlin/com/mepapp/backend/controller/ExcludedContactController.kt:12 | The registry starts empty and well formed. |
| ExcludedContacts.ExcludedContactStore.AddExcluded | mep-backend/src/main/kotlin/com/mepapp/backend/controller/ExcludedContactController.kt:27-44 | Changes the table and returns the entry as `Add` prescribes, keeping it well formed. |
| ExcludedContacts.ExcludedContactStore.AddExcludedBatch | mep-backend/src/main/kotlin/com/mepapp/backend/controller/ExcludedContactController.kt:47-71 | Changes the table as `AddBatch`; the answer is "success", `added + skipped` is the batch size, and `total` is the old size plus `added`. |
| ExcludedContacts.ExcludedContactStore.RemoveExcluded | mep-backend/src/main/kotlin/com/mepapp/backend/controller/ExcludedContactController.kt:74-91 | Changes the table and answers as `Remove` prescribes; the next id is untouched. |
| Users.FindByPhone | mep-backend/src/main/kotlin/com/mepapp/backend/repository/UserRepository.kt:9 | Nothing exactly when no user has the phone; otherwise a stored user with it. |
| Users.FindByPhoneUnique | mep-backend/src/main/kotlin/com/mepapp/backend/repository/UserRepository.kt:9 | With phones unique, every user holding the phone is the one found. |
| Users.FindByRole | mep-backend/src/main/kotlin/com/mepapp/backend/repository/UserRepository.kt:10 | Exactly the users of that role, each as often as stored. |
| Users.SaveNew | mep-backend/src/main/kotlin/com/mepapp/backend/controller/StaffController.kt:37 | A new user is appended under the next id, which advances. |
| Users.SaveNewKeepsWellFormed | mep-backend/src/main/kotlin/com/mepapp/backend/controller/StaffController.kt:27-37 | Saving a user whose phone nobody has keeps ids and phones unique and the next id fresh. |
| Users.WithoutId | mep-backend/src/main/kotlin/com/mepapp/backend/controller/StaffController.kt:43 | `deleteById`: exactly the users with another id remain. |
| Users.DeleteByIdKeepsWellFormed | mep-backend/src/main/kotlin/com/mepapp/backend/controller/StaffController.kt:43 | Deleting by id keeps the table well formed and removes at most one user. |
| Users.DeleteRemovesAtMostOne | mep-backend/src/main/kotlin/com/mepapp/backend/controller/StaffController.kt:43 | With ids unique, deleting by id removes at most one user. |
| Users.UserRepository.constructor | mep-backend/src/main/kotlin/com/mepapp/backend/repository/UserRepository.kt:8 | The user table starts empty and well formed. |
| Users.UserRepository.Save | mep-backend/src/main/kotlin/com/mepapp/backend/controller/StaffController.kt:37 | Changes the table and returns the saved user as `SaveNew` prescribes, keeping it well formed. |
| Users.UserRepository.DeleteById | mep-backend/src/main/kotlin/com/mepapp/backend/controller/StaffController.kt:43 | The users become `WithoutId` of the old ones; the next id stays. |
| Staff.AllStaff | mep-backend/src/main/kotlin/com/mepapp/backend/controller/StaffController.kt:18-23 | Exactly the STAFF users, as responses without password hash and with role "STAFF". |
| Staff.CreateStaffOutcome | mep-backend/src/main/kotlin/com/mepapp/backend/controller/StaffController.kt:26-39 | Fails exactly when some user has the phone, with the table unchanged and the duplicate-phone message; otherwise appends one STAFF user with the request's name, phone and encoded password under the next id and returns it. |
| Staff.Create | mep-backend/src/main/kotlin/com/mepapp/backend/controller/StaffController.kt:26-39 | `createStaff`; `CreateStaffOutcome` and the other `CreateStaff` lemmas state it. |
| Staff.CreateStaffIsListed | mep-backend/src/main/kotlin/com/mepapp/backend/controller/StaffController.kt:26-39 | A created staff member is listed by `getAllStaff`, and nobody else is added to the list. |
| Staff.CreateStaffKeepsWellFormed | mep-backend/src/main/kotlin/com/mepapp/backend/controller/StaffController.kt:26-39 | Creating keeps ids and phones unique. |
| Staff.CreateStaffTwiceFails | mep-backend/src/main/kotlin/com/mepapp/backend/controller/StaffController.kt:27-29 | The same phone cannot be registered twice; the second attempt changes nothing. |
| Staff.DeleteStaffUnlists | mep-backend/src/main/kotlin/com/mepapp/backend/controller/StaffController.kt:41-44 | After deleting an id, the staff list is the old one without that id. |
| Staff.StaffController.constructor | mep-backend/src/main/kotlin/com/mepapp/backend/controller/StaffController.kt:14-17 | The controller works on the given repository. |
| Staff.StaffController.CreateStaff | mep-backend/src/main/kotlin/com/mepapp/backend/controller/StaffController.kt:25-39 | Changes the user table and answers as `createStaff` does, keeping the table well formed. |
| Staff.StaffController.DeleteStaff | mep-backend/src/main/kotlin/com/mepapp/backend/controller/StaffController.kt:41-44 | Removes exactly the users with that id; the next id stays. |
| Heartbeat.SendHeartbeatEffect | mep-backend/src/main/kotlin/com/mepapp/backend/controller/HeartbeatController.kt:32-50 | The answer is always "ok" with the current time; without a resolved user the map is unchanged, with one only that user's id entry is set to now and every other entry stays. |
| Heartbeat.SenderIsTokenUser | mep-backend/src/main/kotlin/com/mepapp/backend/controller/HeartbeatController.kt:38-40 | A sender is a stored user whose phone the trimmed bearer token carries; there is none exactly when the token does not resolve or names no stored phone. |
| Heartbeat.Sender | mep-backend/src/main/kotlin/com/mepapp/backend/controller/HeartbeatController.kt:38-40 | The user the bearer token names; `SenderIsTokenUser` states who that is. |
| Heartbeat.Send | mep-backend/src/main/kotlin/com/mepapp/backend/controller/HeartbeatController.kt:32-50 | `sendHeartbeat`; `SendHeartbeatEffect` and `HeartbeatThenLive` state its effect. |
| Heartbeat.IdKeysDistinct | mep-backend/src/main/kotlin/com/mepapp/backend/controller/HeartbeatController.kt:43 | Users with different ids never share a heartbeat entry. |
| Heartbeat.GetStatus | mep-backend/src/main/kotlin/com/mepapp/backend/controller/HeartbeatController.kt:52-74 | A permutation of the per-user statuses, ordered by last heartbeat non-increasing with a missing one counted as 0. |
| Heartbeat.InGetStatus | mep-backend/src/main/kotlin/com/mepapp/backend/controller/HeartbeatController.kt:60-71 | Sorting neither adds nor drops an entry. |
| Heartbeat.GetStatusLength | mep-backend/src/main/kotlin/com/mepapp/backend/controller/HeartbeatController.kt:58-71 | There is exactly one entry per STAFF user. |
| Heartbeat.StaffHasStatus | mep-backend/src/main/kotlin/com/mepapp/backend/controller/HeartbeatController.kt:58-70 | Every STAFF user has an entry with that user's id and name. |
| Heartbeat.StatusIsStaff | mep-backend/src/main/kotlin/com/mepapp/backend/controller/HeartbeatController.kt:58-70 | Every entry is that of a STAFF user, with that user's id and name. |
| Heartbeat.GetStatusLiveness | mep-backend/src/main/kotlin/com/mepapp/backend/controller/HeartbeatController.kt:55-63 | Every entry reports its id's stored heartbeat, and is live exactly when there is one strictly later than two minutes before now. |
| Heartbeat.StatusOf | mep-backend/src/main/kotlin/com/mepapp/backend/controller/HeartbeatController.kt:60-70 | One user's status entry; `GetStatusLiveness` states its liveness and last heartbeat. |
| Heartbeat.HeartbeatThenLive | mep-backend/src/main/kotlin/com/mepapp/backend/controller/HeartbeatController.kt:43-63 | A staff member who has just sent a heartbeat shows as live, with that heartbeat, for the next 120000 ms. |
| Heartbeat.HeartbeatMonitor.constructor | mep-backend/src/main/kotlin/com/mepapp/backend/controller/HeartbeatController.kt:26-30 | The in-memory map starts empty. |
| Heartbeat.HeartbeatMonitor.SendHeartbeat | mep-backend/src/main/kotlin/com/mepapp/backend/controller/HeartbeatController.kt:32-50 | Updates the map in place and answers as `sendHeartbeat` does. |
| Settings.UpdateRejects | mep-backend/src/main/kotlin/com/mepapp/backend/controller/SystemConfigController.kt:21-24 | An update fails with "Value is required" exactly when the value is missing, with "Value must be a number" exactly when it is not a 32-bit integer numeral (in decimal digits of any script of the Basic Multilingual Plane, as the JVM reads them), and a failure leaves the table unchanged. |
| Settings.UpdateRoundTrip | mep-backend/src/main/kotlin/com/mepapp/backend/controller/SystemConfigController.kt:26-30 | After a success the interval reads back as the new value, which the update returned; the key then exists and no other key changes. |
| Settings.UpdateAcceptsNumbers | mep-backend/src/main/kotlin/com/mepapp/backend/controller/SystemConfigController.kt:24 | Every 32-bit integer written as a numeral is accepted. |
| Settings.SyncInterval | mep-backend/src/main/kotlin/com/mepapp/backend/controller/SystemConfigController.kt:12-16 | `getSyncInterval`; `UpdateRoundTrip` and `UpdateKeepsValid` state what it reads. |
| Settings.Update | mep-backend/src/main/kotlin/com/mepapp/backend/controller/SystemConfigController.kt:18-31 | `updateSyncInterval`; `UpdateRejects`, `UpdateRoundTrip`, `UpdateAcceptsNumbers` and `UpdateIdempotent` state it. |
| Settings.UpdateKeepsValid | mep-backend/src/main/kotlin/com/mepapp/backend/controller/SystemConfigController.kt:12-31 | When the stored interval is a number, it stays one, so the interval read is always a number. |
| Settings.UpdateIdempotent | mep-backend/src/main/kotlin/com/mepapp/backend/controller/SystemConfigController.kt:18-31 | Repeating an update changes nothing further. |
| Settings.ConfigStore.constructor | mep-backend/src/main/kotlin/com/mepapp/backend/controller/SystemConfigController.kt:10 | The store holds the given table. |
| Settings.ConfigStore.FindByKey | mep-backend/src/main/kotlin/com/mepapp/backend/controller/SystemConfigController.kt:14 | The stored value of the key, or nothing when absent. |
| Settings.ConfigStore.Save | mep-backend/src/main/kotlin/com/mepapp/backend/controller/SystemConfigController.kt:28 | Sets the one key to the value. |
| Settings.ConfigStore.GetSyncInterval | mep-backend/src/main/kotlin/com/mepapp/backend/controller/SystemConfigController.kt:12-16 | The stored interval, or "15" when the key is absent. |
| Settings.ConfigStore.UpdateSyncInterval | mep-backend/src/main/kotlin/com/mepapp/backend/controller/SystemConfigController.kt:18-31 | Changes the table and answers as `updateSyncInterval` does. |
| DataInit.SeedUserEffect | mep-backend/src/main/kotlin/com/mepapp/backend/util/DataInitializer.kt:21-30 | After one seeding step a user holds the phone; an existing holder leaves the table as it was; otherwise exactly the new user is appended; nobody is lost. |
| DataInit.SeedUser | mep-backend/src/main/kotlin/com/mepapp/backend/util/DataInitializer.kt:21-30 | One seeding step; `SeedUserEffect` and `SeedUserIn` state it. |
| DataInit.SeedUsersEffect | mep-backend/src/main/kotlin/com/mepapp/backend/util/DataInitializer.kt:21-42 | After `run` both seeded phones have a user, no existing user is lost, at most two are added, and an existing admin-phone holder is not replaced. |
| DataInit.SeedUsers | mep-backend/src/main/kotlin/com/mepapp/backend/util/DataInitializer.kt:21-42 | Seeding both users; `SeedUsersEffect`, `SeedUsersKeepsWellFormed` and `SeedIdempotent` state it. |
| DataInit.SeedUsersKeepsWellFormed | mep-backend/src/main/kotlin/com/mepapp/backend/util/DataInitializer.kt:21-42 | Seeding keeps ids and phones unique. |
| DataInit.SeedConfigEffect | mep-backend/src/main/kotlin/com/mepapp/backend/util/DataInitializer.kt:45-48 | The interval exists afterwards, is "15" when it was absent, and an existing value is never overwritten. |
| DataInit.SeedConfig | mep-backend/src/main/kotlin/com/mepapp/backend/util/DataInitializer.kt:45-48 | Seeding the default interval; `SeedConfigEffect` and `SeedIdempotent` state it. |
| DataInit.SeedIdempotent | mep-backend/src/main/kotlin/com/mepapp/backend/util/DataInitializer.kt:19-49 | A second `run`, whatever password hashes it computes, changes neither table. |
| DataInit.SeedUserIn | mep-backend/src/main/kotlin/com/mepapp/backend/util/DataInitializer.kt:21-30 | One `if (findByPhone(phone) == null) save(user)` step, in place. |
| DataInit.Run | mep-backend/src/main/kotlin/com/mepapp/backend/util/DataInitializer.kt:19-49 | Changes both repositories as seeding prescribes, keeping the user table well formed. |
| WebLogs.AfterCutoff | mep-web/src/app/call-logs/page.tsx:62-73 | Exactly the fetched logs from the August 2025 cutoff on, each as often as fetched. |
| WebLogs.AfterCutoffKeepsOrder | mep-web/src/app/call-logs/page.tsx:70-73 | The cutoff filter keeps the fetched order: it filters the parts of a concatenation separately and keeps a single log exactly when it is not older than the cutoff. |
| WebLogs.FormatDuration | mep-web/src/app/call-logs/page.tsx:159-165 | `formatDuration`; `FormatDurationRoundTrip` states its two forms and its read-back, `FormatDurationInjective` that distinct durations render differently. |
| WebLogs.FormatDurationRoundTrip | mep-web/src/app/call-logs/page.tsx:159-165 | A rendered duration reads back as its seconds: below 60 as `<secs>s`, otherwise as `<m>m <s>s` with `m * 60 + s` the duration and `s < 60`. |
| WebLogs.FormatDurationInjective | mep-web/src/app/returning-customers/page.tsx:174-180 | Different durations are rendered differently. |
| CallLogsPage.ExcludedEdits | mep-web/src/app/call-logs/page.tsx:49-59 | Adding puts in the trimmed number, which has no surrounding white space, and removing deletes the exact string; each leaves every other member unchanged. |
| CallLogsPage.AddExcludedContact | mep-web/src/app/call-logs/page.tsx:49-53 | `addExcludedContact`; `ExcludedEdits` and `RemoveUndoesAdd` state its effect. |
| CallLogsPage.RemoveExcludedContact | mep-web/src/app/call-logs/page.tsx:55-59 | `removeExcludedContact`; `ExcludedEdits` and `RemoveUndoesAdd` state its effect. |
| CallLogsPage.RemoveUndoesAdd | mep-web/src/app/call-logs/page.tsx:49-59 | Removing a just-added number, already trimmed and not excluded before, restores the set. |
| CallLogsPage.Selected | mep-web/src/app/call-logs/page.tsx:116-136 | A log is kept exactly when it is a raw log whose number is not excluded (exact string), on the target day if any, and of the selected staff member if any. |
| CallLogsPage.FirstPerNumber | mep-web/src/app/call-logs/page.tsx:140-148 | The `seenNumbers` loop keeps logs of the input only, and every number of the input. |
| CallLogsPage.FirstPerNumberDistinct | mep-web/src/app/call-logs/page.tsx:140-148 | No two kept logs share a number. |
| CallLogsPage.FirstPerNumberNewest | mep-web/src/app/call-logs/page.tsx:138-148 | In a newest-first input the kept log of a number is its newest. |
| CallLogsPage.DisplayIsNewestPerNumber | mep-web/src/app/call-logs/page.tsx:138-148 | The display has distinct numbers, exactly the numbers of the filtered logs, and for each its newest filtered log. |
| CallLogsPage.DisplayLogs | mep-web/src/app/call-logs/page.tsx:106-151 | What `processLogs` displays; `DisplayIsNewestPerNumber`, `DisplayRespectsFilters` and `ProcessLogs` state it. |
| CallLogsPage.DisplayRespectsFilters | mep-web/src/app/call-logs/page.tsx:116-136 | Displayed logs are raw logs with a number not excluded, of the selected staff member, and on the selected day in the today, yesterday and custom modes. |
| CallLogsPage.ProcessLogs | mep-web/src/app/call-logs/page.tsx:106-151 | The sort, then the `forEach` with its `seenNumbers` set, computes the display the filters prescribe. |
| CallLogsPage.ContactLogs | mep-web/src/app/call-logs/page.tsx:153-157 | Exactly the raw logs of that number, each as often as stored, newest first. |
| CallLogsPage.DistinctNumbersCount | mep-web/src/app/call-logs/page.tsx:354-361 | Logs with distinct numbers have as many numbers as logs. |
| CallLogsPage.ContactsOnDayMatchesDisplay | mep-web/src/app/call-logs/page.tsx:351-389 | The Today and Yesterday cards count as many numbers as the list shows in that mode for all staff. |
| CallLogsPage.ContactsOnDay | mep-web/src/app/call-logs/page.tsx:351-389 | The Today and Yesterday card counts; `ContactsOnDayMatchesDisplay` relates them to the display. |
| CallLogsPage.DisplayCount | mep-web/src/app/call-logs/page.tsx:351-394 | In every day mode, the card for that day counts the rows of the list for all staff. |
| ReturningCustomers.DaysMonotonic | mep-web/src/app/returning-customers/page.tsx:114 | The whole-day gap grows with the millisecond gap. |
| ReturningCustomers.Excluded | mep-web/src/app/returning-customers/page.tsx:21-29 | True exactly when some excluded entry normalises like the number. |
| ReturningCustomers.IsExcluded | mep-web/src/app/returning-customers/page.tsx:21-29 | The loop with its early return answers as `Excluded`. |
| ReturningCustomers.Analysed | mep-web/src/app/returning-customers/page.tsx:84-89 | A log is analysed exactly when it is fetched, not before the cutoff, and not excluded. |
| ReturningCustomers.GroupOfMember | mep-web/src/app/returning-customers/page.tsx:92-98 | A group holds exactly the analysed logs whose number normalises to its key. |
| ReturningCustomers.GroupKeys | mep-web/src/app/returning-customers/page.tsx:92-98 | The group keys are exactly the normalised numbers of the logs. |
| ReturningCustomers.GroupKeysDistinct | mep-web/src/app/returning-customers/page.tsx:92-98 | No key occurs twice. |
| ReturningCustomers.GroupByNumber | mep-web/src/app/returning-customers/page.tsx:92-98 | The `forEach` builds a map whose keys, in insertion order, are the group keys and whose entries are the groups. |
| ReturningCustomers.ReturnCallFromFinds | mep-web/src/app/returning-customers/page.tsx:118-126 | When the last call qualifies, the search stops at the first call from the start index whose gap reaches `minDays`. |
| ReturningCustomers.ReturnCallFrom | mep-web/src/app/returning-customers/page.tsx:117-126 | The return-call loop from index `i`; `ReturnCallFromFinds` and `ReturnCallEarliest` state what it finds. |
| ReturningCustomers.FindPlus91 | mep-web/src/app/returning-customers/page.tsx:136 | A `+91` number of the logs when there is one, and nothing exactly when there is none. |
| ReturningCustomers.FirstContactName | mep-web/src/app/returning-customers/page.tsx:138 | A non-empty contact name of the logs when there is one, and nothing exactly when every name is empty. |
| ReturningCustomers.AssessGroup | mep-web/src/app/returning-customers/page.tsx:103-150 | The callback, with its in-place sort, its return-call loop and `break`, yields the customer `Assess` prescribes. |
| ReturningCustomers.Assess | mep-web/src/app/returning-customers/page.tsx:103-150 | The verdict on one group; `AssessWhen`, `AssessDates`, `AssessHistory` and `AssessPhone` state it, `AssessGroup` ties the callback to it. |
| ReturningCustomers.AssessSorted | mep-web/src/app/returning-customers/page.tsx:109-150 | The verdict on a group already sorted oldest first; the `Assess` lemmas state it. |
| ReturningCustomers.CustomerOf | mep-web/src/app/returning-customers/page.tsx:128-149 | The record pushed for a returning group; `AssessHistory`, `AssessPhone` and `AssessDates` state its fields. |
| ReturningCustomers.AssessWhen | mep-web/src/app/returning-customers/page.tsx:104-116 | A group is a returning customer exactly when it has two calls or more and two of them are `minDays` whole days apart. |
| ReturningCustomers.AssessHistory | mep-web/src/app/returning-customers/page.tsx:104-146 | A customer has at least two calls, `totalCalls` equals the group size and the history length, and the history is the group newest first. |
| ReturningCustomers.ReturnCallEarliest | mep-web/src/app/returning-customers/page.tsx:118-126 | The return call found is a call of the group that is `minDays` from the first and is no later than any call that is. |
| ReturningCustomers.AssessDates | mep-web/src/app/returning-customers/page.tsx:109-145 | The first call is the group's oldest; the return call is the earliest call at least `minDays` whole days later; `daysBetween` is their gap, at least `minDays` and at most the gap to the newest call. |
| ReturningCustomers.AssessPhone | mep-web/src/app/returning-customers/page.tsx:135-136 | The shown number normalises to the group's key, is a `+91` number when the group has one, and otherwise is the number of an oldest call. |
| ReturningCustomers.CollectMember | mep-web/src/app/returning-customers/page.tsx:101-151 | A customer is pushed exactly when some key's group yields it. |
| ReturningCustomers.CollectDistinct | mep-web/src/app/returning-customers/page.tsx:101-151 | Distinct keys, each yielding a customer with that key, push customers with distinct keys. |
| ReturningCustomers.CustomersFromKeys | mep-web/src/app/returning-customers/page.tsx:103-150 | Every pushed customer is that of one of the keys. |
| ReturningCustomers.Customers | mep-web/src/app/returning-customers/page.tsx:101-151 | The customers pushed over the groups; `CustomersFromKeys`, `KeysYieldCustomers` and `CustomersDistinct` state them. |
| ReturningCustomers.KeysYieldCustomers | mep-web/src/app/returning-customers/page.tsx:103-150 | Every key whose group is a returning customer has that customer pushed. |
| ReturningCustomers.CustomersDistinct | mep-web/src/app/returning-customers/page.tsx:103-150 | The pushed customers have distinct normalised numbers. |
| ReturningCustomers.CollectCustomers | mep-web/src/app/returning-customers/page.tsx:101-151 | The loop over the map pushes the customers of the keys in key order. |
| ReturningCustomers.FetchAndAnalyze | mep-web/src/app/returning-customers/page.tsx:84-154 | The analysis body computes the sorted list of the customers of the analysed groups. |
| ReturningCustomers.InAnalysis | mep-web/src/app/returning-customers/page.tsx:154 | Sorting the list neither adds nor drops a customer. |
| ReturningCustomers.GroupCustomer | mep-web/src/app/returning-customers/page.tsx:92-150 | A group's customer carries its key and only calls with that key. |
| ReturningCustomers.ReportedCustomer | mep-web/src/app/returning-customers/page.tsx:84-154 | Every reported customer is that of one key, and its history holds only fetched calls that are not before the cutoff, not excluded and of that customer's number. |
| ReturningCustomers.AnalysisList | mep-web/src/app/returning-customers/page.tsx:92-154 | Each normalised number is reported at most once, the list is ordered by `daysBetween` non-increasing, and every returning group is reported. |
| ReturningCustomers.Analysis | mep-web/src/app/returning-customers/page.tsx:84-154 | The analysis result; `AnalysisList`, `InAnalysis` and `ReportedCustomer` state it. |
| Text.RemovePrefix | mep-backend/src/main/kotlin/com/mepapp/backend/controller/HeartbeatController.kt:38 | Kotlin's `removePrefix`: with the prefix, the rest after it; without it, the text unchanged. |
| Text.TrimStart | mep-web/src/app/call-logs/page.tsx:51 | Only characters of the white-space class are removed, all from the front, and the result does not start with one. |
| Text.TrimEnd | mep-web/src/app/call-logs/page.tsx:51 | Only characters of the white-space class are removed, all from the back, and the result does not end with one. |
| Text.Trim | mep-web/src/app/call-logs/page.tsx:51 | `trim` for a runtime's white space: no longer than the text, and neither end of the result is white space. |
| Text.ToIntOrNull | mep-backend/src/main/kotlin/com/mepapp/backend/controller/SystemConfigController.kt:24 | `toIntOrNull` on the JVM: a result is a 32-bit integer read from a non-empty numeral of decimal digits of any script in the Basic Multilingual Plane, with at most a leading sign. |
| Text.JvmDigit | mep-backend/src/main/kotlin/com/mepapp/backend/controller/SystemConfigController.kt:24 | `Character.digit(c, 10)`: a digit has a value below 10, its offset from the zero of a Unicode decimal-digit block of the Basic Multilingual Plane; an ASCII digit has its usual value; no character outside that plane is a digit. |
| Text.JvmDigitReadsBlock | mep-backend/src/main/kotlin/com/mepapp/backend/controller/SystemConfigController.kt:24 | Every character of such a block is a digit, valued by its offset from the block's zero. |
| Text.AsciiDigitsAreJvmDigits | mep-backend/src/main/kotlin/com/mepapp/backend/controller/SystemConfigController.kt:24 | An ASCII numeral has the same value under the JVM digit class. |
| Text.ToIntOrNullReadsOtherScripts | mep-backend/src/main/kotlin/com/mepapp/backend/controller/SystemConfigController.kt:24 | Arabic-Indic "١٥" and fullwidth "１５" parse as 15 and a signed Devanagari numeral as its negation; a digit outside the Basic Multilingual Plane does not parse. |
| Text.Utf16Length | mep-backend/src/main/kotlin/com/mepapp/backend/controller/ExcludedContactController.kt:108 | Kotlin's and JavaScript's `length`: between the number of characters and twice it, and equal to it exactly when every character lies in the Basic Multilingual Plane. |
| Text.ToIntOrNullRoundTrip | mep-backend/src/main/kotlin/com/mepapp/backend/controller/SystemConfigController.kt:24 | Every 32-bit integer parses back from its numeral, and no other integer's numeral parses. |

## Left out

- Logging, the wake lock, the call overlay and its permission check are not modelled; they have no effect on the data.
- The coroutine that runs the persist step, and the `ConcurrentHashMap` of heartbeats, are not modelled concurrently; every operation is one sequential step.
- The session token, the `getMe` staff id, the system call-log content provider, the upload outcome and the clocks are parameters.
  - `SaveCallToDatabase` and `SaveCallToDatabaseCorrected` take them as given.
  - A thrown `getMe` is a missing staff id.
  - A thrown query is a missing call-details record.
- JWT parsing is the oracle `usernameOf`, with a thrown parse read as no user. BCrypt is the oracle `encode`.
- `SimpleDateFormat` text is not modelled.
  - The local table orders by the ISO-8601 start time. The model uses whole seconds and their integer order, which that fixed-width text shares.
  - The device time zone is not modelled.
- `deleteOldSyncedLogs` receives its cutoff as a string, which SQLite compares with the stored text. The model compares integers.
- Entity files that are not part of this model:
  - the mobile `CallLogEntity` and the backend `CallLog` and `User` entities;
  - their fields are taken from how the core code builds and queries them;
  - the mobile row's default id of 0 with a generated key is an assumption.
- UUIDs are integers. `MIN(id)` is the integer minimum, standing for the database's order on UUIDs.
- Transactions, role checks (`@PreAuthorize`), HTTP status codes other than the not-found of `removeExcluded`, and the `!!` assertions on ids are not modelled.
  - Exceptions the controllers throw are `Err` results.
- `println` in the initializer is not modelled.
- React state, effects, rendering and the five-second refresh are not modelled. So are `localStorage` loading and JSON, the staff-list fetch and `toLocaleDateString`.
  - Dates parsed by `new Date(...)` are integer timestamps.
  - The local midnight of a timestamp is the parameter `dayOf`.
  - Today and the custom date are parameters, as local day numbers.
  - The local-midnight cutoff is `Cutoff(tzOffsetMs)`.
- `parseInt` of a non-numeric or negative duration (NaN) is not modelled: `FormatDuration` takes a natural number of seconds.
- The dashboards' in-place sorts are modelled as values. The values are the stable insertion sorts of `Seqs`, and ECMAScript requires `Array.prototype.sort` to be stable. Kotlin's `sortedByDescending` is stable too.
- ReturningCustomers.AssessDates: requires `minDays >= 1`. The page only offers 2, 3, 5, 7, 14 and 30 days (`mep-web/src/app/returning-customers/page.tsx:215-220`). With `minDays <= 0` the first call itself would qualify, and the loop, which starts at index 1, skips it.
- ReturningCustomers.ReturnCallEarliest: requires `minDays >= 1`, for the same reason.
- Users.UserRepository.Save: requires the phone to be unused. Every caller in the core checks `findByPhone` just before saving. A save of a duplicate phone is not modelled.
- PhoneNumbers.WebAgreesWithBackend: states agreement only on inputs whose white space Java's `\s` also matches. JavaScript's `\s` is larger (for example U+00A0, U+2028, U+FEFF), and `WebAndBackendDifferOnNoBreakSpace` shows the two differ there.
- Text.Trim: states that both ends of the result are non-space and that it is no longer than the input. The removal of exactly the spaces at either end is stated by `TrimStart` and `TrimEnd`, which `Trim` composes.
- Text.JvmDigit: the digit blocks are those of Unicode 15.0, which Java 21 implements. Which Java release the backend runs on is not part of this model, and releases before Java 9 (Unicode 6.2) lack a few of these blocks.
- The excluded-contact set of the call-logs page matches numbers exactly, while the returning-customers page matches them after normalisation. Both are modelled as written.

## Findings

| source | as written | input that shows it | evidently intended | confidence | as-written member | corrected member |
|---|---|---|---|---|---|---|
| mep-mobile/app/src/main/java/com/mepapp/mobile/receiver/PhoneStateReceiver.kt:243 | `syncToServer` marks `callEntity.id`. That is the id of the entity built before the insert, the default 0, while Room stored the row under a generated id. So a successful upload leaves the stored row unsynced, and a later sync uploads it again. | A first call, on an empty well-formed table, uploaded successfully. It is stored with id 1, but `markAsSynced([0])` marks no row. | Mark the row id that `insertCallLog` returns, so the uploaded call is synced. | medium (the entity's default id is not part of this model), not executed | CallCapture.AsWrittenSyncLeavesStoredCallUnsynced | CallCapture.CorrectedSyncMarksStoredCall |

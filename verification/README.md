# RELIA cloud scheduler, modelled in Dafny

The RELIA scheduler hands radio experiments to lab devices. The backend submits a task
with a receiver and a transmitter GRC file and a priority. The task waits in a
first-in first-out bucket for that priority. A receiver device long-polls for work, takes
the oldest task of the most urgent non-empty bucket and binds its base to it. The
transmitter of the same base then joins that task. Each side reports completion, and the
task is completed once both have. A task whose user stops polling is reclaimed. A device
that holds a task for too long is freed. Errors are logged per user and listed five at a
time. All state lives in a Redis-like key-value store.

The model covers these parts of the repository:

- the request handlers of `reliascheduler/views/scheduler.py`;
- the device and backend authentication of `reliascheduler/auth.py`;
- the key namespace of `reliascheduler/keys.py`;
- the maintenance commands of `reliascheduler/__init__.py` (`tasks clean` and
  `device-credentials add`, `push` and `check`).

Every handler is a pure function from a store to a response and a new store. A handler
that raises returns `Raise(store)`, which keeps the writes issued before the exception, as
Redis does.

| file | module | contents |
|---|---|---|
| common.dfy | Common | `Option`, `Result`, `Min`, `Max` |
| strings.dfy | Strings | `str(int)`, `int(str)`, `split`, `join`, and their round trips |
| keys.dfy | Keys | key builders, status names, hash field names, and the disjointness of the key spaces |
| storage.dfy | Storage | the abstract store: task set, task hashes, buckets, priority index, assignment slots, error records, credentials, heartbeats |
| auth.dfy | Auth | device and backend checks; the salted SHA-512 record format |
| priority.dfy | Priority | priority normalisation, identifier allocation, long-poll wait budget |
| lifecycle.dfy | Lifecycle | the completion state machine and the inactivity reclaim |
| queue.dfy | Queue | LPUSH/RPOP FIFO, sorted priority index, the dequeue sweep, the receiver long poll |
| user_routes.dfy | UserRoutes | read, create and delete a task |
| device_routes.dfy | DeviceRoutes | report, status, receiver and transmitter assignment, error report |
| errorlog.dfy | ErrorLog | the per-user error listing |
| cli.dfy | Cli | the maintenance commands |

Several things the original takes from its environment are parameters here:

- Clock readings are integers. The long-poll loops take one clock reading per iteration
  (`ticks`), ending past their deadline. That reading serves the iteration's deadline test
  and every inactivity check in it.
- SHA-512 is any function onto lower-case hexadecimal text.
- `secrets.token_urlsafe` is a sequence of offered identifiers.
- `random.sample` is a salt of six distinct ASCII letters.
- `yaml.safe_load` is a boolean per file.
- Interactive input is a sequence of lines.

In three places the code behaves differently from what its names suggest, and the model
follows the code:

- A receiver report completes a task from receiver-assigned and from
  receiver-still-processing, and does nothing on transmitter-still-processing.
  `Lifecycle.CompletedIffBothSidesReported` shows that, from fully-assigned, completion
  still happens exactly when both sides have reported.
- Device authentication looks up the whole `relia-device` header. It does not check a
  `:r`/`:t` role suffix.
- Deletion checks neither the author nor the current status.

The handlers also follow the code where the code is evidently wrong (see "## Findings"):

- `UserRoutes.CreateTask` fails on a priority `int()` rejects.
- `ErrorLog.UserGetErrors` returns the selection as written.
- `Cli.AddDeviceCredentials` uses the written exit test.
- `Lifecycle.StopIfInactive` raises when no inactivity limit is configured, as the shipped
  configuration leaves it.

The corrected definitions sit beside them, each with its intended property proved:
`Priority.IntendedPriority`, `ErrorLog.SelectLatest` and `Cli.StrictAddDeviceCredentials`.
For the missing limit, `Queue.ProbeWithLimitReturns` proves that a configured limit keeps
the receiver sweep from raising.

## Model

| member | source | states |
|---|---|---|
| Keys.BaseKey | reliascheduler/keys.py:18-20 | an unset or empty BASE_KEY falls back to "base", a set one is used as given; the base key is never empty |
| Keys.TaskIdentifierExtendsTasks | reliascheduler/keys.py:56-62 | a task key is the task-set key, a ':' and the identifier (the same for error keys) |
| Keys.PriorityQueueIsTaskIdentifier | reliascheduler/keys.py:60-70 | every bucket key lies under the task-key prefix, so the `tasks clean` pattern deletes buckets as well |
| Keys.PriorityQueueInjective | reliascheduler/keys.py:68-70 | two priorities share a bucket key exactly when they are equal |
| Keys.BucketKeyNotTaskKey | reliascheduler/keys.py:60-70 | the hash key of a ':'-free task identifier is never a bucket key |
| Keys.ErrorKeysAreNotTaskKeys | reliascheduler/keys.py:10-62 | error-set and error-record keys never equal the task-set or a task key |
| Keys.LastCheckNameRoundTrip | reliascheduler/views/scheduler.py:379-380 | the name the device listing reads back from the last-check key of `base:role` is `base:role` itself, whatever the base key |
| Keys.AssignmentKeyNotLastCheckKey | reliascheduler/keys.py:84-89 | an assignment-slot key never equals a last-check key, so cleaning slots keeps heartbeats |
| Keys.DeviceBase | reliascheduler/views/scheduler.py:292 | the base is the prefix of the device identifier up to its first ':', or the whole identifier when it has none |
| Keys.ParseStatus | reliascheduler/keys.py:46-54 | a stored string is recognised as a status only when it is that status's name |
| Keys.StatusNamesDistinct | reliascheduler/keys.py:46-54 | the eight status strings are pairwise distinct and each is recognised as itself |
| Strings.ParseIntOfIntToString | reliascheduler/views/scheduler.py:280 | the priority written with `str()` at task creation reads back unchanged through `int()` at deletion |
| Storage.RecordError | reliascheduler/views/scheduler.py:29-35 | an error record holds the identifier, author, message and time; the error set gains the identifier only where the handler issues the SADD; no other record changes |
| Auth.CheckDevice | reliascheduler/auth.py:8-26 | authenticated exactly when both headers are non-empty, the record exists, splits into two at '$' and the salted digest matches; a record that does not split in two raises; a success returns the device header |
| Auth.CheckBackend | reliascheduler/auth.py:28-38 | accepted exactly when the secret is non-empty and equals the configured token; nothing is accepted without a token |
| Auth.EncodeSplits | reliascheduler/auth.py:23 | a record written as salt, '$', digest splits back into that salt and that digest |
| Auth.EncodedRecordAuthenticates | reliascheduler/auth.py:19-25 | for a record the credential tool wrote, a password authenticates exactly when its salted digest equals the stored one |
| Priority.NormalisePriority | reliascheduler/views/scheduler.py:134-143 | absent, null, 0 and "" give 10; in-range numbers are kept and out-of-range ones give 10; text `int()` rejects fails (the log line reads the unassigned variable) |
| Priority.IntendedPriority | reliascheduler/views/scheduler.py:134-143 | the intended result: within 0..max or the default 10, in range whenever max ≥ 10, equal to any in-range request, and 10 for anything unparsable |
| Priority.IntendedPriorityAgrees | reliascheduler/views/scheduler.py:134-143 | wherever the code as written yields a priority, the intended one is equal to it; where the code raises, the intended one is the default |
| Priority.TextPriorityRaisesAsWritten | reliascheduler/views/scheduler.py:137-139 | a priority of "high" makes the code as written fail, where the default was meant |
| Priority.WaitBudget | reliascheduler/views/scheduler.py:435-440 | the wait budget always lies within 1..25; a missing, empty or unparsable argument gives 25; otherwise the parsed value clamped to 1..25 |
| Priority.AllocateId | reliascheduler/views/scheduler.py:147-149 | the identifier is the first offered one not yet in the task set, every earlier offer was taken, and it fails only when every offer is taken |
| Priority.AllocatedIdsAreDistinct | reliascheduler/views/scheduler.py:147-149 | two allocations in a row never give out the same identifier |
| Lifecycle.Complete | reliascheduler/views/scheduler.py:330-354 | a report moves the status along the completion table, or leaves it and answers "error"; a receiver report always clears the base's slot; only the status field and that slot change |
| Lifecycle.BothReportOrdersComplete | reliascheduler/views/scheduler.py:330-349 | from fully-assigned, receiver-then-transmitter and transmitter-then-receiver both end completed |
| Lifecycle.RepeatedReportNeverCompletes | reliascheduler/views/scheduler.py:330-349 | from fully-assigned, two reports from the same side never complete the task |
| Lifecycle.CompletedIffBothSidesReported | reliascheduler/views/scheduler.py:330-349 | from fully-assigned, any sequence of reports ends completed exactly when it contains a receiver report and a transmitter report |
| Lifecycle.Reclaim | reliascheduler/views/scheduler.py:369-370 | the two reports on behalf of a base complete any in-progress task, keep any other status and clear the base's slot |
| Lifecycle.StopIfInactive | reliascheduler/views/scheduler.py:356-372 | raises exactly when a poll stamp is present and either does not parse or the limit is unset; reclaims exactly when the stamp is older than the limit; otherwise the store is unchanged |
| Lifecycle.FreshStampNotStale | reliascheduler/views/scheduler.py:356-372 | a task polled within the limit is left alone by the inactivity check |
| Queue.DrainAfterPush | reliascheduler/views/scheduler.py:453 | an entry LPUSHed onto a bucket comes out of repeated RPOPs after everything already in it |
| Queue.BucketIsFifo | reliascheduler/views/scheduler.py:453 | a bucket is first-in first-out: entries pushed in order are popped in that order, after those already waiting |
| Queue.Insert | reliascheduler/views/scheduler.py:245 | ZADD adds the priority to the index once, keeps it sorted, and is a no-op for a priority already present |
| Queue.RemoveFirst | reliascheduler/views/scheduler.py:280 | LREM with count 1 removes exactly the first occurrence and keeps the rest in order |
| Queue.Rpop | reliascheduler/views/scheduler.py:453 | RPOP returns the oldest entry of the bucket (nothing when empty) and drops only it |
| Queue.FirstServable | reliascheduler/views/scheduler.py:452-457 | the reference for one sweep: the first bucket in index order whose oldest task is not stale |
| Queue.Probe | reliascheduler/views/scheduler.py:453-456 | one pop and inactivity check hands out the oldest entry exactly when the bucket is non-empty and that task is not stale |
| Queue.ProbeWithoutLimitLosesTask | reliascheduler/views/scheduler.py:453-454 | with no inactivity limit configured, a probe of a bucket whose oldest task has a poll stamp raises after the pop, and the task is gone from its bucket |
| Queue.ProbeWithLimitReturns | reliascheduler/views/scheduler.py:453-454 | with the limit configured and every poll stamp parsing, a probe never raises |
| Queue.Sweep | reliascheduler/views/scheduler.py:452-457 | a sweep serves the oldest task of the first servable bucket; every bucket up to and including that one has lost its oldest entry (stale ones are dropped), the rest are untouched |
| Queue.SweepShrinks | reliascheduler/views/scheduler.py:452-457 | after a sweep every bucket is a prefix of what it was |
| Queue.PollReceiver | reliascheduler/views/scheduler.py:448-460 | a served task was queued in a bucket of the index and is served at a reading within the deadline; buckets only shrink; a deadline already past serves nothing |
| Queue.UnqueuedNeverServed | reliascheduler/views/scheduler.py:448-457 | a task in no bucket is never handed out by the long poll |
| UserRoutes.MarkAsPoll | reliascheduler/views/scheduler.py:100-104 | an existing task gets its poll stamp set to now; a missing one is left alone; nothing else changes |
| UserRoutes.GetTask | reliascheduler/views/scheduler.py:24-67 | a task without an author is reported missing and logged with author "No author"; otherwise its six fields are reported and it is stamped as polled |
| UserRoutes.ReadKeepsTaskAlive | reliascheduler/views/scheduler.py:356-372 | right after a user reads a task, the inactivity check leaves it alone until the limit has elapsed |
| UserRoutes.CheckFile | reliascheduler/views/scheduler.py:162-204 | one side of `grc_files` passes exactly when it is present with a filename, content and, for type "grc", YAML content; only a missing filename adds the id to the error set |
| UserRoutes.CheckFiles | reliascheduler/views/scheduler.py:151-204 | the request passes exactly when both sides pass; the receiver side is checked first |
| UserRoutes.Enqueue | reliascheduler/views/scheduler.py:243-245 | the id goes to the head of its bucket, the priority joins the sorted index, other buckets stay |
| UserRoutes.NewTaskStored | reliascheduler/views/scheduler.py:220-241 | the hash written for a new task reads back queued, with the submitted files, priority, author and session, both sides unassigned, error message "null" and stamped now |
| UserRoutes.AddTask | reliascheduler/views/scheduler.py:220-245 | the new hash is queued, unassigned, stamped now, with the author and session given, both files' names, contents and types, and the error message "null"; the id heads its bucket; other tasks are unchanged |
| UserRoutes.Admit | reliascheduler/views/scheduler.py:151-256 | created exactly when the files pass and both carry a type, and the task then holds the submitted receiver and transmitter files; a rejection answers the first failing check's message and logs it under the user |
| UserRoutes.CreateTask | reliascheduler/views/scheduler.py:106-256 | a bad secret changes nothing; a priority `int()` rejects raises before any write; otherwise a fresh id is consumed even on rejection; creation happens exactly when the files pass; the task is queued at the normalised priority and holds the submitted files |
| UserRoutes.CreatedTaskServedAfterEarlierOnes | reliascheduler/views/scheduler.py:243-244 | a created task leaves its bucket after every task already waiting there |
| UserRoutes.FreeReceiver | reliascheduler/views/scheduler.py:277-279 | a receiver other than "null" has its base's slot read "null"; every other slot, and every slot when the receiver is "null", reads as before; nothing else changes |
| UserRoutes.Unqueue | reliascheduler/views/scheduler.py:280-281 | one occurrence of the id leaves its bucket and the id leaves the task set |
| UserRoutes.Release | reliascheduler/views/scheduler.py:277-281 | raises exactly when the receiver field is missing or the priority does not parse; otherwise frees the slot and unqueues |
| UserRoutes.ReleaseIsIdempotent | reliascheduler/views/scheduler.py:277-281 | releasing a task queued at most once a second time changes nothing |
| UserRoutes.DeleteExisting | reliascheduler/views/scheduler.py:274-281 | the status becomes deleted before anything else; the queued-status branch never runs; then release |
| UserRoutes.DeleteTask | reliascheduler/views/scheduler.py:258-283 | actions other than "delete" do nothing; an unknown id is logged with author "unknown"; otherwise the task is marked deleted and released; the index is untouched |
| UserRoutes.DeletedTaskNeverServed | reliascheduler/views/scheduler.py:274-281 | once a task queued at most once is deleted, no receiver long poll hands it out |
| UserRoutes.DeleteIsIdempotent | reliascheduler/views/scheduler.py:258-283 | deleting the same task again changes nothing and is acknowledged |
| DeviceRoutes.DeviceComplete | reliascheduler/views/scheduler.py:286-294 | unauthenticated devices change nothing; an authenticated report moves the task per the completion table and a receiver report clears its base's slot |
| DeviceRoutes.DeviceTaskStatus | reliascheduler/views/scheduler.py:296-327 | an unknown task is logged with author "None"; otherwise the inactivity check runs first and the status it leaves is reported |
| DeviceRoutes.CheckInUse | reliascheduler/views/scheduler.py:416-434 | an occupied base whose task started less than the running limit ago is in use; an older one is completed, freed and logged as timed out |
| DeviceRoutes.ReclaimFreesDevice | reliascheduler/views/scheduler.py:418-434 | after a reclaim the base is free: checking again finds nothing in use |
| DeviceRoutes.BindReceiver | reliascheduler/views/scheduler.py:467-479 | the task becomes receiver-assigned to the device and base with a processing start, and the base's slot names it |
| DeviceRoutes.RequestReceiver | reliascheduler/views/scheduler.py:404-485 | unauthenticated devices change nothing; a busy base is in use; an assigned task was queued and is now receiver-assigned to the device, its base's slot names it; the heartbeat is written |
| DeviceRoutes.ServeReceiver | reliascheduler/views/scheduler.py:448-479 | on a free base, a task the long poll serves was queued and is now receiver-assigned to the device and base, started at a reading within the deadline; the index, credentials and heartbeats are untouched |
| DeviceRoutes.PollTransmitter | reliascheduler/views/scheduler.py:515-527 | the transmitter takes the task in its base's slot only when that task is receiver-assigned and not stale |
| DeviceRoutes.BindTransmitter | reliascheduler/views/scheduler.py:533-543 | the task becomes fully-assigned with the transmitter and a processing start; the slot is untouched |
| DeviceRoutes.RequestTransmitter | reliascheduler/views/scheduler.py:487-546 | an assigned task is the base's slot task, now fully-assigned to the device; the queues are untouched |
| DeviceRoutes.ReportError | reliascheduler/views/scheduler.py:548-559 | an authenticated report stores message and time on the task; a missing time still leaves the message written |
| DeviceRoutes.TransmitterJoinsReceiverTask | reliascheduler/views/scheduler.py:515-524 | once a receiver holds a task, its base's transmitter, asking in time, joins that very task and makes it fully-assigned |
| DeviceRoutes.TransmitterTakesHeldTask | reliascheduler/views/scheduler.py:515-543 | a transmitter asking in time takes the receiver-assigned task its base's slot names, when that task's user polled within the limit, and makes it fully-assigned |
| DeviceRoutes.BusyBaseTurnedAway | reliascheduler/views/scheduler.py:418-424 | a base whose task started less than the running limit ago is answered "in use" and only its heartbeat changes |
| DeviceRoutes.NoSecondReceiverTask | reliascheduler/views/scheduler.py:418-424 | after a receiver is given a task, another receiver request of that base within the running limit is turned away |
| ErrorLog.Contributing | reliascheduler/views/scheduler.py:79-88 | the positions, in increasing order, of exactly the listed members whose author is the user and whose message is not "null" |
| ErrorLog.Collect | reliascheduler/views/scheduler.py:79-88 | each loop yields one entry per contributing member, in SMEMBERS order, and nothing else |
| ErrorLog.ContributorIsCollected | reliascheduler/views/scheduler.py:79-88 | every contributing member's entry is collected |
| ErrorLog.ParseTimes | reliascheduler/views/scheduler.py:90 | the times parse exactly when every entry has one that parses, each to its own value |
| ErrorLog.ArgSort | reliascheduler/views/scheduler.py:90 | the argsort is a permutation of the indices, ordered by time |
| ErrorLog.SelectAsWritten | reliascheduler/views/scheduler.py:90-97 | the selection as written returns min(n, 5) entries |
| ErrorLog.Rank | reliascheduler/views/scheduler.py:90 | the rank of an error is the position the argsort gives it |
| ErrorLog.RankCountsOlder | reliascheduler/views/scheduler.py:90 | with distinct times, an error's rank is the number of strictly older errors |
| ErrorLog.ArgSortInverts | reliascheduler/views/scheduler.py:90-91 | the argsort of a permutation is its inverse, so the argsort of the argsort lists the ranks |
| ErrorLog.SelectAsWrittenReadsRanks | reliascheduler/views/scheduler.py:90-97 | for every input, the k-th error returned as written is the one at the index given by the rank of error n - min(n, 5) + k |
| ErrorLog.AsWrittenMissesLatest | reliascheduler/views/scheduler.py:90-91 | with the newest error first and the others in time order, the selection as written returns the five first entries, the oldest among them, and leaves out a newer one |
| ErrorLog.SelectLatest | reliascheduler/views/scheduler.py:90-97 | the corrected selection returns min(n, 5) distinct entries in time order, and no entry left out is later than one returned |
| ErrorLog.UserGetErrors | reliascheduler/views/scheduler.py:69-98 | a bad secret answers unauthorized; a time that does not parse raises; otherwise the ids and messages of the errors the selection as written picks from the user's collected errors; the store is only read |
| ErrorLog.ReportedErrorIsCollected | reliascheduler/views/scheduler.py:548-559 | after a device stores an error on a task of the user's, with a message other than "null", the task loop of the listing collects that task with the reported message and time |
| Cli.FirstAccepted | reliascheduler/__init__.py:80-89 | the prompt loop stops at the first accepted input, or runs out of input having accepted none |
| Cli.StrictNarrowsAsWritten | reliascheduler/__init__.py:87-89 | the test the retry message describes accepts only entries the written test accepts, and both agree on well-sized entries |
| Cli.AsWrittenAcceptsEmptyPassword | reliascheduler/__init__.py:87-88 | the written test accepts identifier "abc" with an empty password, which the strict test rejects; the server never authenticates an empty password, whatever record is stored |
| Cli.StoreEntry | reliascheduler/__init__.py:91-107 | the entry is stored as salt$digest under its identifier; other records stay; "updating" means the identifier was already there; the store's credentials become the file |
| Cli.AddDeviceCredentials | reliascheduler/__init__.py:69-107 | the first entry with matching passwords and an identifier of at least 3 or a password of at least 8 characters is stored; the input running out stores nothing |
| Cli.StrictAddDeviceCredentials | reliascheduler/__init__.py:69-107 | the corrected command stores the first entry meeting both minimum lengths, so no stored password is shorter than 8 characters |
| Cli.AddStoresEmptyPasswordAsWritten | reliascheduler/__init__.py:80-100 | given identifier "abc" with an empty password, the command as written stores a record the empty password never authenticates against, and the corrected one stores nothing |
| Cli.AddedDeviceAuthenticates | reliascheduler/__init__.py:92-100 | after `add`, the device authenticates with the server exactly when its identifier is not empty and the password is non-empty with the stored salted digest |
| Cli.PushCredentials | reliascheduler/__init__.py:109-125 | with no file the store is unchanged; otherwise the credentials hash becomes exactly the file's contents, and the count is reported |
| Cli.PushIsIdempotent | reliascheduler/__init__.py:119-124 | pushing the same file twice equals pushing it once |
| Cli.FirstKnown | reliascheduler/__init__.py:145-150 | the identifier prompt stops at the first identifier whose part before ':' is in the file, or runs out of input with none known |
| Cli.CheckCommand | reliascheduler/__init__.py:134-159 | no file is the only way to get the missing-file answer; the device checked is the base of the first identifier whose base is in the file, and no identifier matching means the input ran out; that device's record is malformed exactly when it does not split into salt and digest; with a well-formed record the input runs out exactly when no attempt matches, and otherwise verification names the first attempt that matches |
| Cli.CheckAgreesWithServer | reliascheduler/__init__.py:152-156 | for a record the `add` command wrote under an identifier without ':', `check` and the server's device authentication accept the same non-empty passwords |
| Cli.CheckAcceptsEmptyPassword | reliascheduler/__init__.py:152-156 | for a record holding the empty password, `check` verifies the empty attempt, which the server refuses |
| Cli.CheckMissesSuffixedDevice | reliascheduler/__init__.py:146-147 | `check` looks up the part before ':', so a record under "ab:r", which the server authenticates under the whole header, is never found by `check` |
| Cli.TasksClean | reliascheduler/__init__.py:46-62 | tasks, task hashes, buckets, the index and the slots are emptied; error records, credentials and heartbeats stay |
| Cli.CleanedStoreServesNothing | reliascheduler/__init__.py:46-62 | after a clean no task has a status, no base holds a task, and the receiver long poll serves nothing |

## Left out

- HTTP, Flask and JSON serialisation. Responses are datatypes holding the fields the handlers return. A request body that is not JSON (`request_data` is None) is not modelled.
- Redis pipelines and concurrent requests. Each handler runs alone against one store. The races the code tolerates are out of scope: two receivers popping the same bucket, a delete racing a pop.
- Real time and `time.sleep`. Time is an integer parameter, and ISO and float timestamps are integers rendered in decimal. `strptime` and `fromisoformat` become `int()` parsing. A long-poll loop takes its clock readings as a finite sequence whose last reading is past the deadline.
- `int()` is modelled on an optional minus sign followed by decimal digits. Python also accepts surrounding whitespace, a '+' sign, underscores, floats and booleans; those are not modelled. For the priority, the falsy JSON values `false`, `[]` and `{}` are all `Priority.Absent`, because `x or 10` turns each into 10 just as it does a missing key.
- SHA-512, `secrets.token_urlsafe`, `random.sample` and `yaml.safe_load` are parameters, as the introduction lists.
- The camera lookup in `user_get_task` (a YAML metadata file) is left out; the device field it reads is reported.
- The session-devices SADD after an assignment is left out. It writes a key outside the scheduler's namespace, which nothing in the core reads.
- The heartbeat's 24-hour expiry is left out. The heartbeat is written and never expires.
- `_available_devices_last_check` and `available_devices` are modelled only as far as the name they recover from a key (`Keys.LastCheckNameRoundTrip`). They are read-only reporting.
- `sessionId` and `userId` are strings. A JSON null in them, which the store would reject at HSET, is not modelled.
- The `strip()` on CLI input and the file write are left out. The file is a map before and after.
- ErrorLog.ArgSort: ties are kept in index order (a stable sort). numpy's default argsort does not promise that.
- ErrorLog.SelectAsWritten: its own contract states only the length. What it selects is stated for every input by `ErrorLog.SelectAsWrittenReadsRanks`, and shown concretely by `ErrorLog.AsWrittenMissesLatest`.
- Queue.PollReceiver, DeviceRoutes.PollTransmitter: one clock reading per iteration serves the deadline test and every inactivity check of that iteration. The source reads the clock again inside each `_stop_task_if_inactive` call, so its checks can see slightly later times than its deadline test.
- Queue.PollReceiver: does not name which clock reading serves the task. Which task one sweep serves is stated by `Queue.Sweep`.
- UserRoutes.CreateTask: requires that some offered identifier is fresh. The source retries `token_urlsafe` until one is.
- DeviceRoutes.RequestReceiver: requires the priority index to be sorted and free of duplicates (`Storage.Valid`); so do Queue.PollReceiver and the lemmas built on them. Redis's sorted set guarantees this, and every operation of the model preserves it.
- Cli.CheckAgreesWithServer: promises agreement only for an identifier without ':' and a non-empty password. Outside that range the two disagree. `check` verifies an empty password the server refuses (`Cli.CheckAcceptsEmptyPassword`). `check` also strips a role suffix the server keeps, so a record stored under "ab:r" is never found by `check` (`Cli.CheckMissesSuffixedDevice`). Which of the two lookups is intended is not evident, so this is not listed as a finding.
- ErrorLog.UserGetErrors: requires the two SMEMBERS orders to list their sets exactly once each, as SMEMBERS does.

## Findings

| source | as written | input that shows it | evidently intended | confidence | as-written member | corrected member |
|---|---|---|---|---|---|---|
| reliascheduler/views/scheduler.py:90-91 | the indices are sorted by their entry in the argsort (the argsort of the argsort) and the last five taken | six errors with times 5, 0, 1, 2, 3, 4: indices 0-4 are returned, including the oldest (index 1), and index 5 (time 4) is left out | the last five entries of the argsort itself, the five latest errors | high, not executed | ErrorLog.AsWrittenMissesLatest | ErrorLog.SelectLatest |
| reliascheduler/views/scheduler.py:137-139 | the except branch's log message reads `priority`, which `int()` never assigned, so the request raises | a priority of "high" (or a list) | fall back to the default priority 10, as line 139 does | high, not executed | Priority.TextPriorityRaisesAsWritten | Priority.IntendedPriority |
| reliascheduler/views/scheduler.py:368 | the inactivity check reads `MAX_TIME_WITHOUT_POLLING`, which config.py:3-13 never defines, so it raises KeyError for every task with a poll stamp, after the RPOP at line 453 | a receiver request while a task with a poll stamp is queued | a configured limit, so a popped task is handed out or reclaimed | medium, not executed | Queue.ProbeWithoutLimitLosesTask | Queue.ProbeWithLimitReturns |
| reliascheduler/__init__.py:87 | the prompt accepts an identifier of at least 3 characters OR a password of at least 8 | identifier "abc" with an empty password | both minima, as the retry message states | medium, not executed | Cli.AddStoresEmptyPasswordAsWritten | Cli.StrictAddDeviceCredentials |

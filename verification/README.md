# mes2bw device reconciliation, modelled in Dafny

mes2bw keeps a ledger of device serial numbers (`device_status`: serial,
modification flag, modification time, creation time). On a schedule it logs
in to the remote management service and fetches the serials that are online
under the states "normal", "protection" and "fault". It then sends a one-off
switch command to every online serial that is in the ledger and marks the
ledger row of each device whose command was accepted. A status page lists
the ledger in two searchable groups, pending and modified. A Java variant
(`ServerRedirector`) runs the same pass against a serial file instead of the
ledger.

The model has one module per source file, plus three helper modules:

- `DeviceLedger` (`ledger.dfy`) covers `src/database/db.js`. The table is a
  `map` from serial to row, held in the class `Ledger`. Its methods import
  the seed file (split, trim, drop blanks, then `INSERT OR IGNORE` per
  serial), mark a row modified and run the two `SELECT` queries. The import
  and mark methods are proved against specification functions (`Imported`,
  `Mark`), and lemmas state what those functions promise. The full listing
  is proved against the predicate `IsListing`. The query for unmodified
  serials states its result directly.
- `MesApi` (`api.dfy`) covers `src/server/api.js`. The class `Client` holds
  the token and the bearer header that `login` installs. The merge of the
  three state listings (`flatMap` into a `Set`, or `[]` when anything
  throws) and the command-reply check are functions.
- `Controller` (`controller.dfy`) covers `processDevices` in
  `src/server/controller.js`. It is a method over a `Client`, a `Ledger` and
  the service's answers. It returns the calls it makes, in order, and
  states the ledger after the pass.
- `ServerRedirector` (`redirector.dfy`) covers `ServerRedirector.java`. This
  includes the response mapping of `sendRequest`, the token of `login`, the
  two-shape extraction loop of `getSystemsForState` and the concatenation of
  `getSystems`. It also has `readSnList` as a `readLine` loop, `retainAll`
  as in-place compaction of an array, and the send loop that stops at the
  first rejected command.
- `StatusPage` (`status_page.dfy`) covers the two computed filters of
  `src/public/script.js`.
- `Text`, `Seqs` and `Wrappers` hold the string functions (JavaScript and
  Java `trim`, `split`, `toLowerCase`, `includes`), the sequence functions
  (`filter`, the intersection filter, first-occurrence deduplication) and
  `Option`.

Outside inputs are parameters. The service's answers are values of the
datatypes `Reply`/`Transport`, given per state and per serial. The seed and
serial files are their text, or `None` when they cannot be read. Each ledger
write takes the current time as `now`.

The code behaves as follows where a reader might expect otherwise:

- The pass intersects the online serials with all ledger serials, as listed
  by `getAllDevices`, not only the unmodified ones. So an already-modified
  device that is online is sent the command again on every pass
  (`Controller.PassEffect`).
- `markModified` on a serial with no row changes nothing and reports no
  error (`DeviceLedger.MarkMissingIsNoop`). There is no NotFound result.
- `markModified` on a modified row overwrites `modify_time`
  (`DeviceLedger.MarkOverwritesTime`). The first time is not kept.
- In the JavaScript client, one failed state query makes the whole online
  list empty (`MesApi.MergeOnlineSpec`). Failures are not isolated per state.
  The Java variant does isolate them (`ServerRedirector.AllSystemsIsolatesFailures`).
- The Java pass stops at the first rejected command
  (`ServerRedirector.SentUntilFailureSpec`). The JavaScript pass goes on to
  the next candidate (`Controller.SendAndMarkCalls`).
- `login` in the JavaScript client succeeds only when the code is 200 and
  the body's `data` exists. Reading `AccessToken` of a missing `data` throws,
  and the catch returns false.
- The pass returns no summary counts.

## Model

| member | source | states |
|---|---|---|
| Text.Split | src/database/db.js:38 | `split('\n')` yields at least one piece, no piece contains the separator, and joining the pieces with the separator gives back the text |
| Text.SplitJoin | src/database/db.js:38 | splitting pieces joined by the separator gives back those pieces, when none of them contains it |
| Text.SplitNoSep | src/database/db.js:38 | a text without the separator splits into itself alone |
| Text.SplitPrefix | src/database/db.js:38 | splitting `p + sep + t` gives `p` followed by the pieces of `t`, when `p` has no separator |
| Text.TrimEnds | src/database/db.js:38 | a non-empty trimmed string starts and ends with a non-space character |
| Text.TrimSlice | src/database/db.js:38 | the trimmed string is the contiguous piece of the input that starts after the leading spaces |
| Text.TrimCutsOnlySpace | src/database/db.js:38 | everything trimming removes, on either side, is white space |
| Text.TrimIdempotent | src/database/db.js:38 | trimming a trimmed string changes nothing |
| Text.JsTrim | src/database/db.js:38 | JavaScript `trim` never lengthens the string, and a non-empty result starts and ends with a character that is not JavaScript white space |
| Text.JavaTrim | ServerRedirector.java:204 | Java `trim` never lengthens the string, and a non-empty result starts and ends with a character above U+0020 |
| Text.Lower | src/public/script.js:14 | `toLowerCase` keeps the length, leaves no uppercase letter, keeps every character that is not an uppercase letter, and turns each uppercase letter into the lowercase letter at the same alphabet position |
| Text.LowerIdempotent | src/public/script.js:14 | lowercasing a lowercased string changes nothing |
| Text.Includes | src/public/script.js:14 | a string can only include a search text no longer than itself |
| Text.IncludesAt | src/public/script.js:12-14 | `includes` holds exactly when the search text occurs at some index |
| Text.IncludesEmpty | src/public/script.js:14 | every string includes the empty string |
| Seqs.Filter | src/public/script.js:11-15 | `filter` keeps exactly the elements satisfying the predicate and never lengthens the sequence |
| Seqs.FilterSubseq | src/public/script.js:11-15 | `filter` keeps the order of the input, as a subsequence |
| Seqs.FilterAll | src/public/script.js:12-14 | a predicate true of every element keeps the whole sequence |
| Seqs.FilterPartition | src/public/script.js:11-21 | filtering by a predicate and by its negation splits the sequence in two, with lengths adding up |
| Seqs.KeepIn | src/server/controller.js:23 | `filter(x => keep.includes(x))` keeps exactly the elements that are in `keep` |
| Seqs.KeepInSubseq | ServerRedirector.java:40-41 | the intersection filter keeps the order of the input, as a subsequence |
| Seqs.KeepInCounts | ServerRedirector.java:41 | `retainAll` keeps every copy of a serial that is in the file and no copy of any other: duplicates of the online list survive as often as they occur |
| Seqs.KeepInNoDups | src/server/controller.js:23 | the intersection filter of a duplicate-free list is duplicate-free |
| Seqs.Dedup | src/server/api.js:52-62 | `Array.from(new Set(s))` has no duplicates and the same elements as `s` |
| Seqs.DedupFirstOccurrenceOrder | src/server/api.js:52-62 | the deduplicated elements come in the order of their first occurrence in `s` |
| DeviceLedger.ParseSeed | src/database/db.js:38 | no seed entry is blank |
| DeviceLedger.ParseSeedSpec | src/database/db.js:38 | every seed entry is non-empty and trimmed; a string is an entry exactly when it is the non-empty trim of a line; entries keep line order |
| DeviceLedger.ParseSeedOfLines | src/database/db.js:38 | a file of `\n`-separated lines seeds exactly the trimmed non-blank lines, in order |
| DeviceLedger.InsertOrIgnore | src/database/db.js:41-44 | one insert adds the serial's key, keeps every existing row as it was (an existing serial is ignored), and gives a new serial a fresh row dated `now` |
| DeviceLedger.Imported | src/database/db.js:41-44 | after the inserts, the serials are the old ones plus the listed ones; old rows are unchanged; each new row has flag 0, no modification time and creation time `now` |
| DeviceLedger.ImportIdempotent | src/database/db.js:22 | importing the same list again, at any later time, leaves the table as it was |
| DeviceLedger.ImportKeepsRows | src/database/db.js:22-25 | importing keeps every row well-formed, clears no flag and adds only rows with flag 0 |
| DeviceLedger.Ledger.constructor | src/database/db.js:20-26 | a newly created table is empty and well-formed |
| DeviceLedger.Ledger.ImportInitialData | src/database/db.js:34-51 | an unreadable seed file leaves the table unchanged; otherwise the table becomes the import of the parsed entries |
| DeviceLedger.Ledger.InsertEach | src/database/db.js:41-45 | running `INSERT OR IGNORE` for each serial in turn yields `Imported` of the list and keeps the table well-formed |
| DeviceLedger.Mark | src/database/db.js:56 | the update adds and removes no row |
| DeviceLedger.MarkTouchesOnlyItsRow | src/database/db.js:55-58 | the update sets flag 1 and time `now` on the serial's row, keeps its creation time, changes no other row and adds none |
| DeviceLedger.MarkMissingIsNoop | src/database/db.js:56-58 | updating a serial with no row leaves the table unchanged |
| DeviceLedger.MarkKeepsFlags | src/database/db.js:56 | the update keeps the table well-formed and never clears a flag |
| DeviceLedger.MarkOverwritesTime | src/database/db.js:56 | a second mark overwrites the modification time with its own time |
| DeviceLedger.Ledger.MarkModified | src/database/db.js:53-61 | `markModified` leaves the table as `Mark` of the old table and keeps it well-formed |
| DeviceLedger.Ledger.AllDevices | src/database/db.js:63-71 | the listing has every row exactly once, with its stored fields, ordered by `created_at` descending |
| DeviceLedger.Ledger.UnmodifiedDevices | src/database/db.js:73-81 | the result lists each serial once, and a serial is in it exactly when its row has flag 0 |
| MesApi.LoginAccepted | src/server/api.js:22-31 | login succeeds only on a reply with code 200 whose `data` exists; any such reply succeeds; a thrown request fails |
| MesApi.Client.constructor | src/server/api.js:11-13 | a new client holds no token and no bearer header |
| MesApi.Client.Login | src/server/api.js:15-32 | the result is `LoginAccepted`; on success the token is stored with header `Bearer <token>`; on failure token and header are unchanged |
| MesApi.Flatten | src/server/api.js:53-59 | a serial is in the `flatMap` exactly when some reply contributes it |
| MesApi.MergeOnline | src/server/api.js:52-67 | the merged list has no duplicates and holds only serials some listing contributes |
| MesApi.OnlineSystems | src/server/api.js:34-68 | `getOnlineSystems` never returns a serial twice |
| MesApi.MergeOnlineSpec | src/server/api.js:52-67 | the online list has no duplicates; one broken reply empties it; otherwise a serial is in it exactly when some listing holds it, and a falsy listing adds nothing |
| MesApi.MergeOnlineOrder | src/server/api.js:52-62 | online serials come in first-occurrence order over the normal, protection and fault listings |
| MesApi.OnlineSystemsAsksThreeStates | src/server/api.js:37-50 | the online list depends only on the answers for the three states |
| Controller.Candidates | src/server/controller.js:23 | a serial is a candidate exactly when it is online and in the ledger |
| Controller.CandidatesOfListing | src/server/controller.js:19-23 | filtering the online serials against the serials of the full listing is filtering against the table |
| Controller.CandidatesOrder | src/server/controller.js:23 | candidates keep the order of the online list, each once when the online list has no duplicates |
| Controller.SendAndMark | src/server/controller.js:27-33 | the loop makes at least one call and at most two calls per candidate |
| Controller.StepCalls | src/server/controller.js:28-31 | one loop turn sends once for its serial, and marks that serial exactly when the send was accepted |
| Controller.SendAndMarkCalls | src/server/controller.js:27-33 | every candidate is sent once, in order, with no stop at a rejection; exactly the accepted candidates are marked, in order |
| Controller.MarkFollowsAcceptedSend | src/server/controller.js:28-31 | each mark comes right after the accepted send for the same serial |
| Controller.CallsOfSendsAndMarks | src/server/controller.js:27-33 | a serial is sent, or marked, in a list of calls exactly when it is among that list's sends, or marks |
| Controller.RejectedCommand | src/server/controller.js:28-31 | a candidate whose command throws or returns a code other than 200 is sent but not marked, its row is left as it was, and every candidate is still sent |
| Controller.MarkAccepted | src/server/controller.js:27-33 | marking the accepted candidates adds and removes no row |
| Controller.MarkAcceptedEffect | src/server/controller.js:27-33 | after the loop, the rows of accepted candidates have flag 1 and time `now`; every other row is unchanged; no row is added |
| Controller.PassEffect | src/server/controller.js:19-33 | after a pass, a row is modified now exactly when its serial was online and accepted, even if it was modified before; every other row is unchanged |
| Controller.SendEach | src/server/controller.js:27-33 | the loop makes the calls `SendAndMark` of the candidates and leaves the table as `MarkAccepted` |
| Controller.ProcessDevices | src/server/controller.js:6-34 | a failed login makes no further call and leaves the ledger, token and header unchanged; a successful one stores the token with header `Bearer <token>`, then the pass queries online systems, lists the ledger, and sends and marks the candidates |
| ServerRedirector.SendRequest | ServerRedirector.java:170-196 | a status of 400 or more gives `{code: status, error}`; an exception or unparsable body gives `{code: 500, error}`; otherwise the body as parsed |
| ServerRedirector.FailureIsVisible | ServerRedirector.java:171-195 | a failed exchange is never read as success: login gets no token, the state gives no serials, the command is not accepted |
| ServerRedirector.LoginToken | ServerRedirector.java:61-64 | a token exists exactly when the code is 200 and `data` is an object with a string `AccessToken` |
| ServerRedirector.ElementsOf | ServerRedirector.java:107-125 | the array read is `data.data` when `data` is an object holding an array, `data` when it is an array, and empty otherwise |
| ServerRedirector.SysSns | ServerRedirector.java:113-121 | reading `sys_sn` succeeds exactly when every element has one, and yields them in order |
| ServerRedirector.StateSystems | ServerRedirector.java:97-133 | the result is empty on `error`, on a code other than 200 and on a failed element read; otherwise it is the serials of the array, in order |
| ServerRedirector.TwoShapesAgree | ServerRedirector.java:107-122 | both shapes of `data` give the same serials for the same array |
| ServerRedirector.CollectSysSns | ServerRedirector.java:113-115 | the `for` loop collects each element's `sys_sn` in order, or fails at an element without one |
| ServerRedirector.GetSystemsForState | ServerRedirector.java:86-134 | the method returns `StateSystems` of the mapped response |
| ServerRedirector.AllSystemsIsolatesFailures | ServerRedirector.java:78-83 | a failed state removes only its own serials; the per-state lists are concatenated with duplicates kept |
| ServerRedirector.AllSystems | ServerRedirector.java:67-84 | a serial is in the combined list exactly when one of the three states lists it |
| ServerRedirector.GetSystems | ServerRedirector.java:67-84 | the result is the normal, protection and fault lists concatenated in that order |
| ServerRedirector.LineEnd | ServerRedirector.java:203 | a line runs up to the first `\n` or `\r`, or to the end of the text |
| ServerRedirector.ReadLine | ServerRedirector.java:203 | `readLine` gives nothing exactly at the end of the text, and otherwise always moves forward |
| ServerRedirector.SnList | ServerRedirector.java:199-208 | one trimmed entry per line read, in file order, blank lines kept as empty strings |
| ServerRedirector.LinesRoundTrip | ServerRedirector.java:203 | for text without `\r`, the lines read, each followed by `\n`, give back the text, with a final `\n` added if it was missing |
| ServerRedirector.LinesOfTerminated | ServerRedirector.java:199-207 | a file whose lines all end with `\n`, with `\r\n` or with `\r` is read back as exactly those lines (`\r\n` is one terminator, and the last terminator adds no empty line), so `readSnList` yields the trimmed lines |
| ServerRedirector.LinesHaveNoTerminator | ServerRedirector.java:203 | no line read contains `\n` or `\r` |
| ServerRedirector.ReadSnList | ServerRedirector.java:199-208 | the `while` loop over `readLine` returns `SnList` of the file's text |
| ServerRedirector.RetainAll | ServerRedirector.java:41 | in-place `retainAll` leaves the kept elements, in their order, at the front of the array and returns their count |
| ServerRedirector.RetainedCopy | ServerRedirector.java:40-41 | the copied and retained list is the online list with every serial missing from the file removed |
| ServerRedirector.SentUntilFailure | ServerRedirector.java:43-46 | the serials sent are a prefix of the list, non-empty when the list is |
| ServerRedirector.SystemsToUpdate | ServerRedirector.java:36-41 | a serial is to be updated exactly when it is online and in the serial file |
| ServerRedirector.RejectedCommandEndsPass | ServerRedirector.java:145-150 | the first serial whose command fails, or whose reply carries `error` or a code other than 200, is the last one sent, and the pass does not complete |
| ServerRedirector.SentUntilFailureSpec | ServerRedirector.java:43-46 | all sends are accepted except possibly the last; all serials are sent when every command is accepted, and otherwise exactly those up to the first rejection |
| ServerRedirector.SendAll | ServerRedirector.java:43-49 | the loop sends up to and including the first rejected serial, and completes exactly when every command is accepted |
| ServerRedirector.ExecuteMainLogic | ServerRedirector.java:34-53 | without a token or a readable serial file nothing is sent; otherwise the sends stop at the first rejection, and the pass completes exactly when all are accepted |
| StatusPage.FilteredPending | src/public/script.js:10-16 | the pending list is no longer than the device list and holds only listed devices with a falsy flag |
| StatusPage.FilteredModified | src/public/script.js:19-25 | the modified list is no longer than the device list and holds only listed devices with a truthy flag |
| StatusPage.FilteredPendingSpec | src/public/script.js:10-16 | the pending list is exactly the devices with a falsy flag whose lowercased serial contains the lowercased search text, in device order |
| StatusPage.FilteredModifiedSpec | src/public/script.js:19-25 | the modified list is exactly the devices with a truthy flag whose lowercased serial contains the lowercased search text, in device order |
| StatusPage.EmptySearchKeepsGroup | src/public/script.js:12-14 | an empty search text keeps the whole group |
| StatusPage.EmptySearchPartitions | src/public/script.js:10-25 | with both searches empty, each device is in exactly one list, and the two lengths add up to the device count |

## Left out

- The HTTP transport is left out: axios, `HttpURLConnection`, the request bodies and the reading of the response streams. Each exchange is its outcome, as a `Reply` or `Transport` value.
- ServerRedirector.SendRequest: a status of 400 or more always gives `{code: status, error}`. The case where reading the error stream itself throws, giving code 500, is not distinguished.
- The SQLite engine is replaced by a map. `CURRENT_TIMESTAMP` is the `now` argument, and a whole pass uses one `now`.
- Failed SQL statements are not modelled: every statement succeeds. So a rejected `markModified` or `getAllDevices` that would end a pass with an exception does not happen here.
- `createTable` is modelled only as the constructor of an empty ledger. `CREATE TABLE IF NOT EXISTS` on an existing database is not modelled.
- Scheduling is left out because it is timer and thread behaviour: `node-cron` every 15 minutes, the Java executor every 4 hours, the immediate first run and the 2-second sleep between commands. The `node-cron` job (src/server/controller.js:47) has no guard against a pass that starts while the previous one is still running. The Java executor has one thread and a fixed rate, so its passes never overlap.
- `Promise.all` and `CompletableFuture` run the three state queries in parallel. They are modelled in the fixed state order, which gives the same merged result.
- The page size of 1000 per state query is left out. A state with more devices than one page holds is not truncated in the model.
- `src/server/index.js` (Express routes and their JSON 500 response) is not part of this model. From script.js, the Vue mounting, `loadDevices`/`fetch` and `formatTime` are left out as I/O and locale formatting.
- Logging, the credentials and the URLs are left out.
- Text.Lower: only `A`–`Z` are lowercased. JavaScript's `toLowerCase` also maps other Unicode letters.
- MesApi.Flatten: every item of a listing is taken to carry a string `sys_sn`. An item without one, which would add `undefined` to the set, and a null item, which throws, are not modelled.
- ServerRedirector.LoginToken: `code` is the value `getInt` returns, or `None` when it throws. The coercion of numeric strings by `getInt` is not modelled separately.
- DeviceLedger.Ledger.ImportInitialData: the inserts (`stmt.run` and `stmt.finalize`, src/database/db.js:43-45) are not awaited, so `importInitialData` resolves while they are only queued. The ensures describe the table once every insert has run. A caller that exits right away, as the direct-run path at src/database/db.js:87-89 does, may lose seed rows, and the model does not capture that. Each insert also takes its own `CURRENT_TIMESTAMP` as `created_at`, while the model dates every seeded row with one `now`.
- Controller.ProcessDevices: the service's reply to a command is fixed per serial for the whole pass.
- ServerRedirector.ExecuteMainLogic: the same holds here, so a serial listed twice gets the same answer both times.
- MesApi.Client.Login: the bearer header is a field of the client rather than a default header of the shared axios instance.

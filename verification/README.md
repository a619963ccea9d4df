# any2api: a verified model of its core

any2api is a gateway in front of several AI providers. This project models, in Dafny, the parts of it
whose correctness spans several operations or whole runs, and proves what those parts promise:

- **Runtime log paging** (`LogReader`, `LogSessions`): pages are read backwards, window by window, over segments
  that a writer keeps growing and retention removes. Pages are connected by textual cursors.
- **Self-update and startup recovery** (`UpdateRecovery`): three directory entries, every file-system
  call fallible, and a machine that may stop between any two of them.
- **Raw JSON forwarding** (`JsonText`, `JsonUtf8`, `RawJson`, `RawPayload`, `Splicing`, `FieldScan`,
  `ModelRewrite`): a byte-level JSON scanner, where in a text UTF-8 is checked, the index over a request body,
  the encoder that forwards it, the structured encoder, and the rewriting of the model name in responses.
- **Payload storage and multipart** (`PayloadBuffers`, `Multipart`): the bounded buffer under every
  encoder, and multipart re-encoding read back by the rules of section 5.1.1 of RFC 2046.
- **Header projection** (`HeaderPolicy`): an allow-list in priority order with two budgets.
- **Accounts and costs** (`Accounts`, `Quota`): versioned accounts with the transport keys derived from
  them, and the quota arithmetic.
- **Concurrent protocols** (`UpdateTask`, `Permits`): admission of update tasks and semaphore-bounded
  work, as state machines over all interleavings.
- **Request edge** (`LogCursors`, `ClientAddress`): the opaque cursor of log listings, and the client
  address behind trusted proxies.

`Basics` and `Decimal` hold ordering, sorting, splitting and numerals. Text is a sequence of bytes.
Where the source updates an object or runs a loop, the model is a class or a method proved against a
function of its inputs; the laws are then proved of that function.

`dafny verify dfyconfig.toml` checks everything.

## What the proofs found

- A log record is returned if and only if it is shorter than the read window, or starts its file and
  fills the window exactly (`LogReader.NothingLostIff`). Longer records are skipped silently; whether a
  record is lost does not depend on where windows happen to fall.
- A crash while the update marker is being written can leave it torn, next to the untouched old executable. No
  later start or update removes it, and every update is refused while it exists
  (`UpdateRecovery.TornMarkerStays`). From every other state undisturbed starts lead back to a clean directory
  (`UpdateRecovery.Converge`).
- The comment on `top_fields` promises all `None` for input that is not a valid object. The code keeps what it
  matched before the error, and the model follows the code. It looks only at complete members, which are the
  fields of the object cut off behind the last of them (`FieldScan.CompletedIsPrefixObject`), stops at a name or
  a wanted value that is not UTF-8, and skips other values unread. So the promise holds if and only if the text
  is a UTF-8 object, or no complete member has a wanted name, or the first that does holds a value that is not
  UTF-8 or stands behind a name that is not (`FieldScan.NothingFoundIff`). It fails for a text broken behind a
  wanted member (`FieldScan.ScanOfBrokenObject`) and for one with a value that is not UTF-8
  (`FieldScan.ScanOfMalformedText`).
- Responses are checked for their JSON structure, but values that are skipped are not checked for UTF-8
  (`crates/protocol/src/json_codec.rs:389`). In such an object the public model name is shown afterwards if and
  only if it was before or the scan reaches the last `model` (`ModelRewrite.ShownIff`); a `model` that is not
  UTF-8 itself stays (`ModelRewrite.UnreadableModelStays`). In UTF-8 objects it is always shown
  (`ModelRewrite.ModelRestored`).
- A paging session returns nothing but what was there when it began, and misses of that only records of segments
  that were removed while it lasted (`LogSessions.SessionUnderRetention`).
- The raw encoder leaves a body without a model as it is, the structured encoder adds one. They agree on
  meaning if and only if the body has a model (`RawPayload.EncodersAgree`). Request decoding refuses a body
  without one (`crates/protocol/src/json_codec.rs:42-48`), so they agree on every admitted request.
- After a raw field was rewritten, the index matches a fresh parse if and only if the rewriter wrote a JSON
  value in UTF-8 (`RawPayload.RawJsonPayload.RewriteRawField`).
- Multipart bodies survive re-encoding if and only if none of them contains the new delimiter
  (`Multipart.EncodedReadsBack`).
- A higher cached count never raises a cost if and only if the cached rate is not above the input rate
  (`Quota.CacheNeverCostsIff`). Card validation requires that.

## Model

| member | source | states |
|---|---|---|
| LogReader.ReadLine | app/any2api/src/logging/reader.rs:113-122 | The last line before an offset, found without looking below the window, is the true line of the file, and yields a record exactly when it is complete and parses |
| LogReader.ScanWindow | app/any2api/src/logging/reader.rs:112-130 | Items collected so far plus everything below the offset reached are conserved; a full page stops strictly below where it began |
| LogReader.ScanSegment | app/any2api/src/logging/reader.rs:95-137 | The same conservation over all windows of a segment, including windows without a line start; bytes read stay below the budget plus one window |
| LogReader.ReadPage | app/any2api/src/logging/reader.rs:42-141 | Page items followed by what is behind the next cursor are exactly what was behind the query's cursor, over the segments still there when opened; the next cursor parses, points into a segment and lies strictly further back; an unreadable cursor is refused, and otherwise a page fails only when the directory cannot be listed or a segment it has to read cannot be read; a page ends early only when full or out of scan budget |
| LogReader.ReadAll | app/any2api/src/logging/reader.rs:42-141 | Following cursors terminates and returns every record that fits exactly once, newest first |
| LogReader.DistanceDrops | app/any2api/src/logging/reader.rs:143-145 | Every next cursor is strictly closer to the end of the history |
| LogReader.WindowWithoutStart | app/any2api/src/logging/reader.rs:131-132 | Jumping over a window in which no line starts loses no record that fits |
| LogReader.RecordsAreComplete | app/any2api/src/logging/reader.rs:95-132 | Within a segment the records read equal all complete parseable lines if and only if each of those fits the window |
| LogReader.NothingLostIff | app/any2api/src/logging/reader.rs:18-19 | Over all segments: nothing is lost if and only if every complete record fits the window |
| LogReader.RecordOfWindowLengthIsLost | app/any2api/src/logging/reader.rs:95-132 | A concrete record of window length that paging never returns |
| LogReader.OrderedIsDescending | app/any2api/src/logging/reader.rs:51-79 | Segments are put in strictly descending order of start time and name |
| LogReader.CursorRoundTrip | app/any2api/src/logging/reader.rs:143-158 | A written cursor parses back to itself, whatever colons the file name holds |
| LogSessions.AppendKeepsKey | app/any2api/src/logging/reader.rs:51-77 | Appending to a segment keeps its ordering key when its first line is complete and carries a timestamp |
| LogSessions.RecordsSuffix | app/any2api/src/logging/reader.rs:95-132 | What lies behind an offset of a segment is the end of what lies behind every later offset, also when the offset is no line start |
| LogSessions.GrowthKeepsRemaining | app/any2api/src/logging/reader.rs:51-79 | After appends to a newest segment whose first line is settled, new segments and any removals, what is behind an existing cursor is what was behind it, of the segments still there |
| LogSessions.SessionUnderRetention | app/any2api/src/logging/reader.rs:42-141 | However the writer and retention change the log between and during pages, a session returns a subsequence of what was there when it began, and everything of it in segments that were not removed |
| LogSessions.SessionReturnsTheFirstListing | app/any2api/src/logging/reader.rs:42-141 | When nothing is removed, a session returns exactly what was there when it began, however the writer grows the log |
| UpdateRecovery.Directory.constructor | crates/updater/src/recovery.rs:36-61 | A directory without pending update is safe and durable |
| UpdateRecovery.Directory.SyncParent | crates/updater/src/recovery.rs:63-72 | After success no older directory state can come back |
| UpdateRecovery.Directory.WritePendingState | crates/updater/src/recovery.rs:185-213 | Creates a marker only where there was none, on failure changes nothing but the marker; a half-written marker is among the states a crash can leave |
| UpdateRecovery.Directory.CommitCandidate | crates/updater/src/recovery.rs:157-183 | Success leaves the candidate installed, the old binary kept and the marker naming the candidate, durably; on failure the executable is still the old one, or the new one with the old kept; an existing marker is never overwritten; every intermediate state is safe |
| UpdateRecovery.Directory.CleanupUncommitted | crates/updater/src/recovery.rs:247-251 | Removes the kept copy and the marker in that order, never touching the executable |
| UpdateRecovery.Directory.RestorePrevious | crates/updater/src/recovery.rs:259-270 | Success restores the old binary, removes copy and marker, durably, also when both names link to one file; failure leaves one of three safe states |
| UpdateRecovery.Directory.CleanupConfirmed | crates/updater/src/recovery.rs:253-257 | Success leaves no trace of the update, durably; a confirmed executable is kept |
| UpdateRecovery.StartupRecovery.ConfirmStartup | crates/updater/src/recovery.rs:129-134 | Confirmation keeps the executable and, without faults, leaves a clean durable directory |
| UpdateRecovery.StartupRecovery.Rollback | crates/updater/src/recovery.rs:136-143 | A confirmed start is never rolled back; success is a durable rollback to the replaced binary |
| UpdateRecovery.Discover | crates/updater/src/recovery.rs:88-117 | Finds a recovery exactly when marker and kept copy exist, drops a marker without copy, fails on a torn marker without touching it |
| UpdateRecovery.RecoverPendingUpdate | crates/updater/src/recovery.rs:146-155 | Restarts only after a durable rollback; without faults it always leaves a clean directory |
| UpdateRecovery.RecoverEarlyFailure | app/any2api/src/bootstrap/process.rs:202-224 | Before the lock is held, only a restart made by an update may roll back |
| UpdateRecovery.RecoverLockedFailure | app/any2api/src/bootstrap/process.rs:226-258 | Under the lock an unconfirmed recovery rolls back; a confirmed or absent one changes nothing |
| UpdateRecovery.Run | app/any2api/src/bootstrap/process.rs:20-126 | One start: a restart happens only after a durable rollback of a pending update, only a serving program of the marked version confirms, a torn marker is left as it is, and an undisturbed start leaves no pending update and, unless it restarts, the same executable |
| UpdateRecovery.Settle | app/any2api/src/bootstrap/process.rs:20-126 | From any state with an intact marker, one or more undisturbed starts leave a clean directory with at most one restart, on the replaced binary exactly if there was one |
| UpdateRecovery.Episode | app/any2api/src/bootstrap/process.rs:245-308 | One start or update, cut short anywhere: all states a crash can leave are safe, and a rollback restart is counted once, for the update it undid |
| UpdateRecovery.AnyHistory | app/any2api/src/bootstrap/process.rs:245-308 | Over any sequence of starts and updates, with failed calls and crashes at any moment, every state a crash can leave is safe (complete binary, unconfirmed update undoable); no update is rolled back twice; over any stretch the rollback restarts number at most the updates begun in it, plus one if one was pending before; a torn marker outlasts it |
| UpdateRecovery.Converge | app/any2api/src/bootstrap/process.rs:20-126 | After any such history undisturbed starts converge: clean directory, at most one restart and then on the replaced binary; only a torn marker stays, with the old binary in place |
| UpdateRecovery.TornMarkerStays | crates/updater/src/recovery.rs:185-213 | A crash during marker creation leaves a torn marker that no history removes |
| JsonText.ValueMoved | crates/protocol/src/raw_json.rs:180-237 | A scanned value scans the same way wherever its bytes stand, if no number continues behind it |
| JsonText.ValueCutOut | crates/protocol/src/raw_json.rs:220-235 | The bytes of a scanned value are a value on their own |
| JsonText.ValuePutIn | crates/protocol/src/raw_json.rs:134-163 | A value put between other bytes is scanned to its end |
| JsonText.UnescapeEscape | crates/protocol/src/raw_json.rs:355-364 | Reading an escaped string gives the string back, for every byte string |
| JsonText.QuoteIsValue | crates/protocol/src/raw_json.rs:411-423 | A written string is a JSON value that denotes what was written |
| RawJson.FieldsAreValues | crates/protocol/src/raw_json.rs:180-237 | Every indexed range holds a JSON value |
| RawJson.IndexIsLastWins | crates/protocol/src/raw_json.rs:36-50 | The sorted, deduplicated index is strictly ascending, finds the last occurrence of every name, and is shorter exactly when a name is repeated |
| RawJson.FieldRange | crates/protocol/src/raw_json.rs:165-170 | Binary search returns what a search for the last occurrence returns |
| RawJson.SpotsHold | crates/protocol/src/raw_json.rs:134-163 | In a written object every key, colon and value stands at the noted offsets |
| RawJson.BuiltFieldsIff | crates/protocol/src/raw_json.rs:134-163 | Parsing a written object gives exactly the noted fields if and only if everything written as a value is one |
| JsonUtf8.UnescapeUtf8 | crates/protocol/src/raw_json.rs:180-237 | The text between the quotes is UTF-8 if and only if what it denotes is, whatever is escaped |
| JsonUtf8.ObjectUtf8 | crates/protocol/src/raw_json.rs:180-237 | An object is UTF-8 if and only if each of its names and raw values is: checking member by member checks the whole |
| JsonUtf8.BuiltUtf8 | crates/protocol/src/raw_json.rs:134-163 | A written object is UTF-8 if and only if all names and values written are |
| RawPayload.Parse | crates/protocol/src/raw_json.rs:25-51 | Checking UTF-8 one member at a time, accepts exactly the UTF-8 bodies that are one object, tells other JSON from broken JSON, and builds a consistent index |
| RawPayload.RawJsonPayload.constructor | crates/protocol/src/raw_json.rs:34-50 | The index is that of a fresh parse, with the duplicate flag |
| RawPayload.RawJsonPayload.GetField | crates/protocol/src/raw_json.rs:53-55 | The raw value of the last field of that name |
| RawPayload.WriteForwarded | crates/protocol/src/raw_json.rs:77-96 | The loop writes the object with the model replaced and a disallowed `stream` dropped |
| RawPayload.RawJsonPayload.Encode | crates/protocol/src/raw_json.rs:64-97 | Output has unique keys, the upstream model, no disallowed `stream` and every other field's bytes; the wire bytes are reused unchanged when nothing has to change; fails exactly on a model that is not a string; UTF-8 out for a UTF-8 upstream name |
| RawPayload.ForwardedChanged | crates/protocol/src/raw_json.rs:77-96 | A rebuilt body forwards what the original says, duplicates collapsed to the last |
| RawPayload.RebuildRawField | crates/protocol/src/raw_json.rs:134-163 | Rewrites one field and notes where all fields land; passes on the rewriter's error |
| RawPayload.RawJsonPayload.RewriteRawField | crates/protocol/src/raw_json.rs:99-116 | Only the named field changes, failure changes nothing, and the payload stays consistent if and only if a JSON value in UTF-8 was written |
| RawPayload.EncodeStructured | crates/protocol/src/json_codec/request_encoding.rs:9-65 | The structured encoder writes the changed entries and adds a missing model |
| RawPayload.StructuredBody | crates/protocol/src/json_codec/request_encoding.rs:42-65 | Every field of the structured output: upstream model, dropped `stream`, reprinted others |
| RawPayload.EncodersAgree | crates/protocol/src/json_codec/request_encoding.rs:9-65 | Raw and structured output mean the same for every lawful reading of values, except that only the structured one adds a missing model |
| RawPayload.PlainReadingIsLawful | crates/protocol/src/json_codec/request_encoding.rs:42-65 | The laws assumed of a reading of values can be met |
| PayloadBuffers.PayloadBuffer.constructor | crates/payload-buffer/src/buffer.rs:24-30 | Empty buffer with its limit |
| PayloadBuffers.PayloadBuffer.WithCapacityHint | crates/payload-buffer/src/buffer.rs:34-47 | A hint within the limit is honoured, a larger one ignored |
| PayloadBuffers.PayloadBuffer.ExtendFromSlice | crates/payload-buffer/src/buffer.rs:49-64 | Appends all or nothing; too large exactly when the limit would be passed; memory can be refused only when storage must grow |
| PayloadBuffers.PayloadBuffer.EnsureCapacity | crates/payload-buffer/src/buffer.rs:100-127 | Migration from heap to mapping keeps the content; all migrations together copy at most twice the content |
| PayloadBuffers.PayloadBuffer.Freeze | crates/payload-buffer/src/buffer.rs:85-97 | Returns the content; an empty buffer keeps nothing allocated |
| PayloadBuffers.AppendAll | crates/payload-buffer/src/buffer.rs:49-64 | Any run of appends holds exactly the accepted chunks in order |
| Splicing.SpliceRanges | crates/protocol/src/raw_json.rs:374-409 | Writes the spliced text into a buffer of exactly its size; too long exactly when that size does not fit |
| Splicing.SplicedLength | crates/protocol/src/raw_json.rs:381-390 | The size computed up front is exact |
| Splicing.SplicedKeeps | crates/protocol/src/raw_json.rs:374-409 | Every byte outside the ranges is kept, at the shifted position |
| Splicing.ChangedMembers | crates/protocol/src/raw_json.rs:374-409 | Replacing one member's value by another value moves later members and changes nothing else in the parse |
| FieldScan.TopFields | crates/protocol/src/raw_json.rs:267-351 | The one loop over the text fills, for every wanted name, the slot that the complete members allow: the last match before the scan stops at a name or wanted value that is not UTF-8 |
| FieldScan.TopFieldOfObject | crates/protocol/src/raw_json.rs:267-351 | On a UTF-8 object the scan finds the last occurrence of every wanted name, whatever else is wanted |
| FieldScan.NothingFoundIff | crates/protocol/src/raw_json.rs:267-297 | The scan finds nothing in a text that is no UTF-8 object if and only if no complete member has a wanted name, or the first that does is not UTF-8 or stands behind a name that is not |
| FieldScan.CompletedIsPrefixObject | crates/protocol/src/raw_json.rs:267-331 | The complete members of a text are exactly the fields of the object cut off behind the last of them |
| FieldScan.ScanOfBrokenObject | crates/protocol/src/raw_json.rs:267-297 | A text that is not an object in which the scan still finds a field |
| FieldScan.ScanOfMalformedText | crates/protocol/src/raw_json.rs:299-351 | A text that is not UTF-8 in which the scan still finds a field |
| ModelRewrite.RewriteBodyModel | crates/protocol/src/json_codec.rs:436-450 | Returns the rewritten body; without a model the scan finds, or with the right one, the body itself |
| ModelRewrite.ShownIff | crates/protocol/src/json_codec.rs:436-450 | In any well-formed object at most the value of one model member changes; the public name is shown afterwards if and only if it was before or the scan reaches the last model |
| ModelRewrite.ModelRestored | crates/protocol/src/json_codec.rs:436-450 | In a UTF-8 object the value of the last model member and nothing else changes, earlier repeated ones included; the result is a UTF-8 object, its model denotes the public name, all other fields keep their bytes, and rewriting again changes nothing |
| ModelRewrite.UnreadableModelStays | crates/protocol/src/json_codec.rs:436-450 | A model whose value is not UTF-8 is left as it is, whatever the public name |
| ModelRewrite.ModelRestoredInPrefix | crates/protocol/src/json_codec.rs:436-450 | In any text that begins with a complete member the effect is that on the object cut off behind the last complete one; the rest stays |
| Multipart.EncodedCapacity | crates/protocol/src/openai_images/multipart.rs:224-249 | The size computed with checked additions is the exact encoded size, refused only when it does not fit |
| Multipart.Encode | crates/protocol/src/openai_images/multipart.rs:106-156 | Writes the parts with the model replaced; each error for its own reason |
| Multipart.DelimiterFound | crates/protocol/src/openai_images/multipart.rs:133-150 | The written delimiter is the first one found exactly when the body does not contain it |
| Multipart.EncodedReadsBack | crates/protocol/src/openai_images/multipart.rs:106-156 | Parsing the encoded body returns all headers and bodies, the model replaced, if and only if no body contains the delimiter |
| Multipart.KeptHeaders | crates/protocol/src/openai_images/multipart.rs:255-294 | Exactly the headers that are not forbidden are kept, the disposition always |
| Multipart.SafeHeaders | crates/protocol/src/openai_images/multipart.rs:255-272 | The copying loop keeps those headers and refuses a part without disposition |
| Multipart.ReadParts | crates/protocol/src/openai_images/multipart.rs:18-102 | Accepts exactly the bodies whose fields have a name and a disposition, with one visible model and at most one boolean `stream`, and keeps every part in order without forbidden headers |
| HeaderPolicy.AppendName | crates/provider/src/header_policy.rs:98-127 | Appending the values of one name is the greedy choice from them |
| HeaderPolicy.ProjectSelected | crates/provider/src/header_policy.rs:29-69 | The projection is the greedy choice from selected names, then prefix matches |
| HeaderPolicy.GreedyKeepsBudgets | crates/provider/src/header_policy.rs:98-127 | At most 64 values and 32 KiB of names and values |
| HeaderPolicy.OmittedForAReason | crates/provider/src/header_policy.rs:105-124 | Whatever was left out is oversized or still does not fit next to the final choice |
| HeaderPolicy.GreedySubsequence | crates/provider/src/header_policy.rs:98-127 | The choice is a subsequence of the offer |
| HeaderPolicy.ProjectionPerName | crates/provider/src/header_policy.rs:29-69 | Per name, source values in source order; forbidden, nominated and unselected names get none |
| HeaderPolicy.PrefixNames | crates/provider/src/header_policy.rs:71-96 | Prefix matches are distinct and are exactly the unknown names of the source with a listed prefix |
| HeaderPolicy.PrefixPriority | crates/provider/src/header_policy.rs:71-96 | Prefix matches come in the declared order of their first matching prefix, then in lexical order |
| HeaderPolicy.ArrivalOrderIsIrrelevant | crates/provider/src/header_policy.rs:71-96 | The projection does not depend on the order in which names arrived |
| HeaderPolicy.RequestHeaderRules | crates/provider/src/request_header_policy.rs:33-53 | Every valid name once, the first mention deciding its owner |
| HeaderPolicy.ProjectRequest | crates/provider/src/request_header_policy.rs:55-86 | Projects with the permitted exact names and prefixes, all exact names being known |
| HeaderPolicy.DeniedNamesStayHome | crates/provider/src/request_header_policy.rs:55-101 | A denied exact name is not let back in by an allowed prefix |
| Accounts.ValidatedModels | crates/domain/src/oauth_account/account.rs:363-377 | Accepted lists are a strictly ascending permutation; a list with a repeated name is refused |
| Accounts.CommandFollows | crates/domain/src/oauth_account/account.rs:132-221 | One accepted command keeps identity, never lowers a counter, and raises the right counter for each change |
| Accounts.CountersVouch | crates/domain/src/oauth_account/account.rs:132-221 | Over any stretch of a run an unchanged counter means that its part of the account was the same at every moment of it, and an unchanged generation that it was never re-enabled |
| Accounts.RetiresIsAnOrder | crates/transport/src/isolation.rs:95-106 | Retirement is a strict partial order within one credential |
| Accounts.KeysFormAChain | crates/transport/src/isolation.rs:35-47 | Along a run a later transport key retires an earlier one exactly when the versions differ, and is never retired by it; if it does not, route and login are the same |
| Quota.UsageTotal.Merge | crates/domain/src/telemetry/token_usage.rs:54-67 | Present fields of the update replace, absent ones keep |
| Quota.MergeKeepsLast | crates/domain/src/telemetry/token_usage.rs:54-67 | Merging any reports keeps, per field, the last value present |
| Quota.EstimateIsExact | crates/domain/src/telemetry/quota_cost.rs:135-160 | The checked arithmetic never overflows: the estimate is the exact cost rounded to the nearest nano, absent exactly for missing counts or beyond the signed 64-bit range |
| Quota.CostRises | crates/domain/src/telemetry/quota_cost.rs:135-160 | More input or output never costs less, exactly and rounded |
| Quota.EstimateRises | crates/domain/src/telemetry/quota_cost.rs:135-160 | The estimate of a request that uses less is present whenever the larger one is, and not higher |
| Quota.CacheNeverCostsIff | crates/domain/src/settings/codex_rate_card.rs:183-194 | More cached tokens never cost more if and only if the cached rate is at most the input rate |
| Quota.CardPrices | crates/domain/src/settings/codex_rate_card.rs:51-104 | On a validated card, at either tier, caching more of a request keeps it priced and never dearer; a request with a rate and counts is unpriced exactly beyond the cap |
| UpdateTask.UpdateTaskState.Begin | crates/updater/src/state.rs:28-42 | Admits unless active, remembering what to restore |
| UpdateTask.UpdateTaskState.Rollback | crates/updater/src/state.rs:44-49 | Restores only while still checking |
| UpdateTask.UpdateTaskState.Downloaded | crates/updater/src/state.rs:63-76 | Progress of the current target only, bounded and never going back |
| UpdateTask.UpdateTaskState.Perform | crates/updater/src/state.rs:28-95 | The locked object carries out every step of the protocol: its status is the status of the protocol |
| UpdateTask.StepKeepsInv | crates/updater/src/github_release_updater.rs:97-175 | Every step of client, task, commit or shutdown keeps the invariant between status, calls, tasks and the restart signal |
| UpdateTask.AtMostOneTask | crates/updater/src/github_release_updater.rs:164-175 | In every interleaving at most one task runs, with no other call between admission and answer |
| UpdateTask.RefusalRestores | app/any2api/src/self_update/mod.rs:31-47 | A start refused by shutdown restores the status it found, whatever happened in between |
| UpdateTask.RefusedNeverRuns | app/any2api/src/self_update/mod.rs:31-47 | The task of a call that is refused at some point of a run does not run at any point of it |
| UpdateTask.MemoryIsFaithful | crates/updater/src/state.rs:28-49 | What a waiting call will restore is the status before its admission |
| UpdateTask.RunsAdvance | app/any2api/src/self_update/mod.rs:103-117 | A shown restart stays; restart requests are accepted with ascending kinds, each at most once; the update restart is signalled only when it is shown, the manual one only where supported |
| UpdateTask.ProgressGrows | crates/updater/src/state.rs:55-76 | While a download lasts its progress only grows, within the total |
| Permits.RunKeepsPermits | crates/server/src/zstd_decode.rs:42-61 | Under every schedule of waits, timeouts, cancellations and completions no permit is lost or made up |
| Permits.WorkIsBounded | app/any2api/src/bootstrap/listener.rs:61-74 | Work in progress never exceeds the limit |
| Permits.StagesGoOnward | crates/server/src/zstd_decode.rs:42-61 | A caller's stage only moves forward |
| Permits.NoLateStartsNoEarlyReturns | crates/server/src/zstd_decode.rs:42-61 | A caller that gave up never works; work that has begun keeps its permit until it is finished, watched or not |
| LogCursors.Base64RoundTrip | crates/server/src/log_cursor.rs:96-107 | Strict unpadded base64url decoding inverts encoding |
| LogCursors.CursorRoundTrip | crates/server/src/log_cursor.rs:32-55 | A cursor decodes in its own scope to itself exactly when its text has at most 1024 bytes |
| LogCursors.ValidCursorsFit | crates/server/src/log_cursor.rs:8-9 | The limit never bites for fingerprints of at most 295 bytes |
| LogCursors.ScopesAreIsolated | crates/server/src/log_cursor.rs:23-55 | Any text is a cursor of at most one scope, also when fingerprints contain dots |
| ClientAddress.ForwardedClientIp | crates/server/src/client_address.rs:130-163 | Computes the walk over the parsed chain, or fails on any unreadable line or address |
| ClientAddress.RightmostUntrusted | crates/server/src/client_address.rs:155-162 | The client is the rightmost untrusted hop, or the leftmost when all are trusted |
| ClientAddress.SpoofedHopsAreIgnored | crates/server/src/client_address.rs:155-162 | Hops claimed to the left of an untrusted client do not change the result |
| ClientAddress.LinesJoin | crates/server/src/client_address.rs:135-154 | Splitting the list over several header lines means the same as one joined line, as section 5.3 of RFC 9110 demands |
| ClientAddress.ForwardedIsSecure | crates/server/src/client_address.rs:165-189 | Secure exactly when there are entries and all say https, insecure exactly when all say http or there are none, otherwise an error |
| ClientAddress.Resolve | crates/server/src/client_address.rs:15-34 | An untrusted peer is the client and its headers are ignored; otherwise both headers decide and either can fail |

## Left out

- LogReader.ReadPage: the managed-name check, the parsing of timestamps and entries, and which segments are gone or unreadable are parameters; a segment is unreadable for a whole page or not at all.
- LogSessions.SessionUnderRetention: which segments retention removes is left open, any set is allowed; the writer appends to the newest segment only after its first line is settled, and listing happens at one moment.
- UpdateRecovery.AnyHistory: one process at a time works on the directory; the instance lock that ensures this appears only as an event.
- UpdateRecovery.Directory.SyncParent: directory changes reach the disk in the order in which they were made.
- RawPayload.RawJsonPayload.Encode: the output buffer never runs out of memory.
- ModelRewrite.RewriteBodyModel: whether the buffer gets its memory is left open; the result is specified whenever it does.
- Multipart.EncodedReadsBack: the reader is the grammar of section 5.1.1 of RFC 2046 without preamble and transport padding, not the library the server uses; headers are as the HTTP layer hands them over and the boundary holds no carriage return, as those the code makes.
- Multipart.ReadParts: size limits while streaming.
- Accounts.CommandFollows: label, e-mail and model-name checks are parameters; creation and restoring from storage.
- Accounts.KeysFormAChain: ephemeral and shared keys are values of the same type, their allocation is not modelled.
- ClientAddress.ForwardedClientIp: parsing of addresses, their canonical form and the network match are parameters.
- Concurrent installs by two processes, package download, signature and archive checks of the updater.
- The SQLite stores, migrations, the rules by which retention chooses segments, and the log writer.
- Server-sent event translation between provider dialects, retries, routing and the credential scheduler.
- OAuth flows, sessions, encryption at rest, and the web console.
- Normalising the speed tier (`crates/protocol/src/json_codec.rs:331-361`), a direct use of the field rewrite that is modelled.

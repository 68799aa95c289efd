# lytecache, modelled and verified

lytecache is one storage contract implemented over a SQLite file in several languages. This project
models the logic around its SQL statements in Dafny and proves what that logic promises. A SQL
statement is one atomic step on a table of rows; the code around it is modelled in its own form:
classes whose methods loop and update fields where the original does, functions where it computes.
Steps of several processes interleave freely.

What is covered:

- **Durable events** (`ChannelFilter`, `EventLog`, `Subscription`, `EventProtocol`, `EventGuarantees`,
  `EventOrigins`, `EventProgress`): publishers, retention sweepers, admin purges and polling subscribers
  share one table. In every run a subscriber gets exactly its share of the history, retention never skips
  silently, gaps are exact, and whoever keeps polling catches up.
- **Hashes** (`OrderedFields`, `HashDoc`, `HashSpec`, `HashLaws`, `HashStore`, `HashMany`, `HashRuns`,
  `HashProgress`): the path of guarded SQL statements and the read-modify-write path both refine one
  specification, whose every answer, refusal and effect is stated on the pairs of the document; no update
  is lost when many write.
- **JSON text** (`JsonText`, `JsonNumbers`, `JsonString`, `JsonEscapes`, `JsonCompact`, `JsonTwins`,
  `JsonScanner`, `JsonPrinter`): the scanner, the compactors and the printer against the grammar of
  RFC 8259, sections 2 to 7.
- **The expiring store** (`CacheModel`, `CacheLaws`, `CacheStore`, `Decimal`, `Counters`): each call's promise
  in terms of what gets and ttls answer later; sweeps and lazy deletes cannot be seen; counters answer
  the sum of what was committed.
- **The token lock** (`TokenLock`), **the change dispatcher** (`Dispatcher`, `DispatcherRules`), **eviction**
  (`Eviction`), **write-behind bookkeeping** (`LruBuffer`), **key listing** (`KeyPages`), **field paths**
  (`FieldPath`), **the REPL tokenizer** (`ReplTokens`) and **the rotating log** (`RotatingLog`).

Go is the reference for events, hashes, eviction row by row, field paths and the command line; Node for
the expiring store, counters, the lock's lazy delete, the dispatcher, batched eviction, the access
buffer and JSON text.

Where the code does not keep what is documented or expected, the model keeps the code, and a lemma
gives an input with the exact condition under which the promise holds:

- Setting more than 500 hash fields counts one access a statement, not one a call (`ManyMatchesUpTo500`),
  and with an expiry already past it keeps only the last statement's fields (`ManyDocumentIsFold`).
- Identical results of the two hash paths are documented. They agree for every operation and row except
  (`PathsAgreeExactly`): more than 500 fields set in one call (`ManyPathsPart`), and an increment of a
  stored integer beyond int64, in Go always, in Node and Python when the sum comes back into range, in PHP
  never (`IncrPathsAgree`, `IncrPathsPart`). The text of an answer may differ too: they name a JSON number
  at the root differently, and Python a boolean (`FallbackMeansTheOperation`).
- An event purged by an admin before a subscriber fetched it is never delivered, and is reported lost only
  if no older event is retained (`PurgedBeforeFetchedIsNeverDelivered`, `ReportedIffNothingBelow`,
  `GapsAreCompleteUnlessHoles`, `PurgedHoleIsSilent`); a cursor ahead of a recreated file is told to
  resume past what that file already holds (`ResumeIsSafe`).
- delete counts expired rows that no sweep has reached (`DeleteCountIsExact`).
- An overflowing incr fails after it has replaced the counter (`OverflowIsCommitted`).
- The Go client's lazy delete by key alone can break a lock (`RawDeleteIsSafe`, `RawDeleteBreaksTheLock`).
- A buffered read flushed after a write moves its last access back (`WriteIsEager`).
- With no backups kept the rotating log grows past its limit (`DiskIsBounded`, `UnboundedWithoutBackups`).

`dafny verify dfyconfig.toml` checks the whole project.

## Model

| member | source | states |
|---|---|---|
| `ChannelFilter.Compile` | lytecache-go/events.go:126-146 | the compiled SQL filter accepts exactly the channels some pattern matches under the admin rule; it is refused exactly when an empty pattern comes before any lone star |
| `ChannelFilter.MatchRule` | lytecache-go/events_admin.go:23-31 | an exact name or a prefix before one trailing star matches; a star alone matches everything, an empty pattern nothing |
| `EventLog.EventTable.InsertEvents` | lytecache-go/events.go:207-260 | publishing appends the drafts in order; the returned seqs are consecutive after the last seq ever assigned |
| `EventLog.PublishAllShape` | lytecache-go/events.go:207-260 | event i of a publish has the seq last + 1 + i, its draft's channel and payload, the namespace and the time, and stands behind everything retained |
| `EventLog.PublishAllValid` | lytecache-go/events.go:207-260 | publishing keeps the table ordered and never reuses a seq, whatever was deleted before |
| `EventLog.EventTable.DeleteBatch` | lytecache-go/events.go:678-689 | one delete statement removes the first `limit` rows of its WHERE clause and reports how many went |
| `EventLog.DeleteFirstShape` | lytecache-go/events_admin.go:239-253 | a bounded delete leaves a subsequence, removes only rows its clause covers, and comes back short only when none is left |
| `EventLog.DeleteTakesOldest` | lytecache-go/events_admin.go:239-253 | and takes the oldest of the rows its clause covers first |
| `EventLog.EventTable.DeleteEventsBatched` | lytecache-go/events_admin.go:239-253 | the loop of 500-row deletes ends, removes every covered row and no other, and counts them exactly |
| `EventLog.EventTable.DeleteEvent` | lytecache-go/events_admin.go:194-203 | removes that one event and says whether it was retained |
| `EventLog.EventTable.DeleteEventsBefore` | lytecache-go/events_admin.go:211-223 | event i of the log stays exactly when it and every event after it were published at or after the time |
| `EventLog.EventTable.DeleteChannelEvents` | lytecache-go/events_admin.go:229-237 | deletes exactly the events of that channel and counts them; an empty name is refused |
| `EventLog.EventTable.SweepEvents` | lytecache-go/events.go:658-689 | the sweep ends, and event i of the log stays exactly when it and every event after it are younger than the retention, and no more than the cap are from i on |
| `EventLog.BoundedDeleteLeavesSuffix` | lytecache-go/events.go:678-689 | every batch boundary of a sweep leaves a suffix of the log |
| `EventLog.RetentionLeavesYoungSuffix` | lytecache-go/events.go:658-689 | a finished pass leaves a suffix in which nothing has reached the age cutoff, even with skewed timestamps |
| `EventLog.RetentionIsExact` | lytecache-go/events.go:658-689 | row i is retained exactly when every row from i on was created after the cutoff and, under a cap, at most that many rows are from i on |
| `EventLog.RetentionHonoursCap` | lytecache-go/events.go:658-689 | a cap n leaves at most the n newest events, and exactly min(n, size) when the age bound removes nothing more |
| `EventLog.CapBoundKeepsNewest` | lytecache-go/events.go:666-678 | the count bound keeps exactly the n newest rows |
| `Subscription.Subscriber.constructor` | lytecache-go/events.go:321-346 | a watch starts now, before the oldest retained event, or after a saved seq with a gap check |
| `Subscription.StartRule` | lytecache-go/events.go:321-346 | starting now sees nothing old, starting at 0 sees everything retained, and neither reports a gap |
| `Subscription.OpenRule` | lytecache-go/events.go:286-346 | a watch keeps the namespace and the filter it was given and begins with nothing fetched, handed over or stopped |
| `Subscription.GapRule` | lytecache-go/events.go:602-622 | the gap check is silent exactly when nothing after the cursor was assigned or an event no later than cursor + 1 is retained; nothing in the reported range is retained |
| `Subscription.ResumeIsSafe` | lytecache-go/events.go:84-110 | resuming at the reported point is accepted, and sees every retained event exactly when the cursor is not past the last seq or the table is empty: an ahead cursor skips what a recreated file already holds |
| `Subscription.SelectShape` | lytecache-go/events.go:535-561 | a batch read is ordered, past the cursor, matching, and skips nothing below its end |
| `Subscription.Subscriber.Poll` | lytecache-go/events.go:485-561 | one poll is a gap check and a batch read on one snapshot |
| `Subscription.PollRule` | lytecache-go/events.go:485-561 | a poll with nothing pending reports exactly the gap there is, or else fetches the ordered, complete batch of at most 500, changing nothing else |
| `Subscription.Subscriber.Deliver` | lytecache-go/events.go:504-512 | the first events of the batch, as many as a queue of 256 has room for, go to the queue in order; the cursor is the seq of the last of them, the others stay pending, and nothing else changes |
| `Subscription.DeliveryRule` | lytecache-go/events.go:504-512 | the same of the sequence of single hand-overs that the run theorems speak of |
| `Subscription.SendRule` | lytecache-go/events.go:504-512 | a single hand-over gives the first fetched event to a queue that has room, its seq becoming the cursor, and does nothing otherwise |
| `Subscription.WantedRule` | lytecache-go/events.go:535-561 | a subscriber wants exactly the events of its own namespace on the channels its filter accepts |
| `Subscription.ReceiveRule` | lytecache-go/events.go:424-457 | events are received in the order they were handed over, each once; the gap, and then the close, only when none is left |
| `Subscription.Subscriber.TryNext` | lytecache-go/events.go:438-457 | takes the next event; the end shows only once the queue is empty |
| `Subscription.Subscriber.Close` | lytecache-go/events.go:459-470 | closing stops the subscription and drops what was fetched but not handed over |
| `EventProtocol.NotifyKeepsTable` | lytecache-go/events.go:207-260 | a publish keeps the table invariant and only adds events newer than all before |
| `EventProtocol.SweepKeepsTable` | lytecache-go/events.go:678-689 | a batch of any sweeper, with a bound read long ago, keeps all retired seqs below all retained ones |
| `EventProtocol.PurgeKeepsTable` | lytecache-go/events_admin.go:194-253 | an admin delete batch keeps the table invariant |
| `EventProtocol.FetchIsGood` | lytecache-go/events.go:535-561 | a poll misses nothing after the cursor but what an admin purged |
| `EventProtocol.SendIsGood` | lytecache-go/events.go:504-512 | handing one event over keeps what was delivered exact for the new cursor |
| `EventProtocol.StepKeepsInv` | lytecache-go/events.go:485-561 | every step of publishers, sweepers, admins and subscribers keeps the protocol invariant |
| `EventProtocol.RunKeepsInv` | lytecache-go/events.go:485-561 | the invariant holds after every run of publishes, sweep batches (a delete before a time is one), event and channel purges, polls and hand-overs |
| `EventGuarantees.DeliveryIsExact` | lytecache-go/events.go:485-561 | in every run a subscription has handed out exactly its share of the history in (start, cursor], in order, without duplicates, short only of purged seqs: retention never causes a silent skip |
| `EventGuarantees.DeliveryIsFullWithoutPurges` | lytecache-go/events.go:485-561 | without admin deletes nothing of that share is missing |
| `EventGuarantees.GapComesLast` | lytecache-go/events.go:424-457 | a gap surfaces only after every fetched event was received, starts at the last one received, and each event it declares lost was deleted |
| `EventGuarantees.EmptyPollMeansCaughtUp` | lytecache-go/events.go:535-561 | a poll that finds nothing means nothing of the share is outstanding |
| `EventGuarantees.RetainedSuffix` | lytecache-go/events.go:602-622 | under retention alone the retained seqs are the contiguous interval from the oldest to the last |
| `EventGuarantees.GapIsExactUnderRetention` | lytecache-go/events.go:602-622 | under retention alone a gap fires iff something after the cursor was deleted, the reported range is exactly what was deleted, and resuming there gives no gap and every retained event |
| `EventGuarantees.ReportedIffNothingBelow` | lytecache-go/events.go:602-622 | in every run, admin deletes included, a deletion after the cursor is reported exactly when no older event is retained |
| `EventGuarantees.GapsAreCompleteUnlessHoles` | lytecache-go/events_admin.go:194-253 | in every run a subscriber at the cursor is told of everything it lost exactly when no event purged after the cursor has a retained one below it |
| `EventGuarantees.PurgedBeforeFetchedIsNeverDelivered` | lytecache-go/events_admin.go:189-203 | an event purged before a subscriber fetched it is never delivered to it, whatever happens next |
| `EventGuarantees.PurgedHoleIsSilent` | lytecache-go/events_admin.go:194-203 | a run in which a subscriber is handed events 1 and 3, its cursor passes the purged event 2, and no gap is reported |
| `EventGuarantees.FinishedSweepIsFinal` | lytecache-go/events.go:658-689 | once a sweep has finished, nothing it was asked to delete is ever retained again, whatever runs beside it |
| `EventGuarantees.FinishedSweepHonoursCap` | lytecache-go/events.go:658-689 | a sweep that read the bound for a cap n keeps, when it ends, at most n events plus those published since, other sweepers, admins and publishers notwithstanding |
| `EventGuarantees.BoundNeverFalls` | lytecache-go/events.go:658-689 | while its pass lasts a sweeper never lowers its bound |
| `EventOrigins.RetiredWereDue` | lytecache-go/events.go:658-689 | in every run, what retention deleted had been reached by the age cutoff or the cap of some sweep that read the table |
| `EventOrigins.PurgedWereNamed` | lytecache-go/events_admin.go:194-253 | in every run, what admins deleted was named by its seq or its channel |
| `EventOrigins.EverySubscriberWatched` | lytecache-go/events.go:286-346 | in every run, each subscriber has the namespace, filter and start of the watch that opened it |
| `EventOrigins.WatchersGetTheirShare` | lytecache-go/events.go:286-561 | in every run, each watch has handed out exactly the events of its namespace and channels past its start up to its cursor, in order, short only of purged seqs |
| `EventOrigins.GapsWereFound` | lytecache-go/events.go:602-622 | in every run, a gap that shows was found by the gap check on a table of that run at the cursor it names |
| `EventProgress.CatchesUp` | lytecache-go/events.go:485-561 | after any run a subscriber that was not closed can, by its own polls, hand-overs and receives alone, receive everything it wanted that is retained past its start, or be told of a gap |
| `EventProgress.PublishedIsReceived` | lytecache-go/events.go:286-561 | after any run, a new watch from now and a publish, the subscriber alone comes to have received every event of the publish that its namespace and filter let through, without a gap |
| `EventProgress.SweepEnds` | lytecache-go/events.go:658-689 | after any run a sweeper's batches alone end its pass, and exactly the events past its bound are left |
| `EventProgress.SweepAloneIsExact` | lytecache-go/events.go:658-689 | after any run a pass that nobody disturbs ends, and row i of the log stays exactly when every row from i on was created after the cutoff and, under a cap, at most that many are from i on |
| `EventProgress.NothingAfterLeave` | lytecache-go/events.go:459-470 | in every run a closed subscriber is handed nothing but what already lay in its queue |
| `OrderedFields.SetLaw` | lytecache-go/hash.go:984-990 | setting a field reads back, leaves other fields and the order alone and keeps keys unique |
| `OrderedFields.DelLaw` | lytecache-go/hash.go:992-999 | deleting a field removes it and nothing else |
| `OrderedFields.JsonObject.SetField` | lytecache-node/src/json-object.ts:27-31 | replaces a field in place or appends it |
| `OrderedFields.JsonObject.DeleteField` | lytecache-node/src/json-object.ts:33-38 | removes the field and says whether it was there |
| `OrderedFields.JsonObject.GetField` | lytecache-node/src/json-object.ts:22-25 | the value of the first field with that key |
| `OrderedFields.JsonObject.HasField` | lytecache-node/src/json-object.ts:18-20 | whether a field with that key exists |
| `HashSpec.ExpiryIsKept` | lytecache-node/src/core.ts:147-161 | a hash write never changes a live row's expiry or creation time and counts at most one access |
| `HashSpec.ExpiredIsAbsent` | lytecache-go/hash.go:136-150 | an expired row answers as a missing one and nothing of it survives |
| `HashSpec.FailureWritesNothing` | lytecache-go/hash.go:881-925 | a failed call leaves the row as it was |
| `HashSpec.SanityIsKept` | lytecache-go/hash.go:1001-1015 | keys stay unique and the size stays that of the document |
| `HashSpec.RemovedCounts` | lytecache-go/hash.go:496-547 | hdel answers the number of distinct named fields that were there |
| `HashSpec.OtherFieldsAreKept` | lytecache-go/hash.go:136-150 | no operation touches a field it does not name |
| `HashSpec.SetAllReadsBack` | lytecache-go/hash.go:299-364 | after setting many fields each holds the last value given for it |
| `HashLaws.GetReads` | lytecache-go/hash.go:984-990 | a field reads as the value of the first pair with its key, and is missing exactly when no pair has it |
| `HashLaws.RefusalRule` | lytecache-go/hash.go:136-192 | for every operation and row, a call is refused for a reason exactly when that holds: a live value that is no hash, a full namespace and no live key, a field that is no integer, an amount or sum outside int64; and then nothing is written |
| `HashLaws.IdleRule` | lytecache-go/hash.go:496-502 | deleting no fields and setting none answer so on any row and write nothing |
| `HashLaws.HSetRule` | lytecache-go/hash.go:196-246 | hset answers true exactly when no pair of the live document has the field, and the document then has the value in the field's place or at its end, the row with its times, count and size as a write leaves them |
| `HashLaws.HSetNXRule` | lytecache-go/hash.go:250-294 | hsetnx writes exactly when no pair has the field, and answers whether it did |
| `HashLaws.HIncrRule` | lytecache-go/hash.go:695-792 | hincrby answers the integer the field holds, or 0, plus the amount, and the field then holds the answer |
| `HashLaws.HDelRule` | lytecache-go/hash.go:496-547 | hdel drops the named pairs and no other, keeps the order, answers how many it dropped, and writes nothing if there were none |
| `HashLaws.HSetManyRule` | lytecache-go/hash.go:299-364 | hset_many leaves every pair in its place, gives each named field its last value, adds new fields once each in the order they are first named, and keeps the others |
| `HashLaws.SizeRule` | lytecache-go/hash.go:1001-1015 | an empty document takes 2 bytes; each field adds its name with quotes and escapes, a colon, its value and a comma unless it is the first |
| `HashStore.Store.HSetNative` | lytecache-go/hash.go:196-246 | the two guarded statements of hset leave the row and answer of the operation (`HashLaws.HSetRule`) |
| `HashStore.Store.HSetNXNative` | lytecache-go/hash.go:250-294 | the guarded statement of hsetnx leaves the row and answer of the operation (`HashLaws.HSetNXRule`) |
| `HashStore.Store.HDelNative` | lytecache-go/hash.go:496-547 | the field-by-field guarded deletes leave the row and answer that the operation means, with one access counted |
| `HashStore.Store.HIncrNative` | lytecache-go/hash.go:695-792 | the increment statement does what the operation means, but refuses a stored integer beyond int64 as an overflow |
| `HashStore.IncrUpsertIsRight` | lytecache-go/hash.go:695-792 | the guard and sum computed in SQL agree with the operation in every case of missing, expired, wrong type and overflow |
| `HashStore.DedupeIsHarmless` | lytecache-go/hash.go:1084-1094 | naming a field twice in hdel changes neither the document nor the count |
| `HashStore.Store.LoadHash` | lytecache-go/hash.go:855-877 | loads a live object, nothing for a missing or expired key, or the type error with the root named as the client does |
| `HashStore.Mutate` | lytecache-go/hash.go:196-714 | the mutation callbacks change the parsed object as the operation means, but for what each client does with a stored integer beyond int64 |
| `HashStore.Store.RmwHash` | lytecache-go/hash.go:881-925 | read-modify-write leaves the row and answer of the client's fallback: the operation's own, but for a stored integer beyond int64 and the name of a root |
| `HashMany.NestedSet` | lytecache-node/src/core.ts:1004-1046 | nested json_set calls of 30 pairs are a plain left-to-right fold of single sets |
| `HashMany.RunStatements` | lytecache-go/hash.go:329-357 | the 500-field statements are all-or-nothing: only the type check can refuse, and then nothing is written |
| `HashMany.HSetManyNative` | lytecache-go/hash.go:299-364 | the whole call, with its capacity check and roll-back, leaves the row of the statements and their answer |
| `HashMany.ManyDocumentIsFold` | lytecache-go/hash.go:329-357 | the document is the full fold in document order iff one statement was enough, the row was live, or the new expiry is not already past |
| `HashMany.ManyMatchesUpTo500` | lytecache-go/hash.go:329-357 | the row equals one single access iff at most 500 fields are set, although one access a call is documented |
| `HashMany.FallbackMeansTheOperation` | lytecache-node/src/core.ts:833-918 | where no stored integer is beyond int64 the fallback leaves the row, and the class of answer, that the operation means; the answer itself iff the root is not a JSON number (nor, in Python, a boolean) |
| `HashMany.PathsAgreeExactly` | lytecache-node/src/core.ts:874-1291 | for every operation and row the two paths leave the same row and class of answer iff no more than 500 fields are set by a call that is not refused, and, on a stored integer beyond int64, as the client's increments do |
| `HashMany.ManyPathsPart` | lytecache-node/src/core.ts:1004-1046 | 501 fields set on a live hash: two accesses counted by the statements, one by the fallback |
| `HashMany.NamesDiffer` | lytecache-go/hash.go:855-877 | the names the two paths give a root: SQLite's eight, but number for both kinds of number in a fallback, and boolean in Python's |
| `HashMany.IncrPathsAgree` | lytecache-go/hash.go:695-792 | the two increment paths leave the same row and class of answer: in Go iff the stored integer fits int64 (hash.go:1058-1064), in PHP always (lytecache-php/src/LyteCache.php:1752-1766), in Node (lytecache-node/src/core.ts:1228-1241) and Python (lytecache-python/src/lytecache/core.py:1292-1313) iff it fits or the sum does not |
| `HashMany.IncrPathsPart` | lytecache-go/hash.go:706-709 | an input with the four clients' answers: an overflow from the statement and PHP's fallback, not numeric from Go's, the sum from Node's and Python's |
| `HashRuns.RunsAreSerial` | lytecache-go/hash.go:807-851 | with statements, and begin, read, mutate and commit as separate steps under one write lock, of any client and either path, the committed table and every answer are those of the calls done one by one in commit order |
| `HashRuns.NoFieldUpdateIsLost` | lytecache-go/hash.go:807-851 | in every run each field ends with its own successful operations applied in commit order, whether or not the key was there, so writers of different fields all survive |
| `HashRuns.IncrementsAddUp` | lytecache-go/hash.go:695-792 | in every run concurrent increments add exactly the sum of the successful ones, a missing field or key counting 0 |
| `HashRuns.EntryAdds` | lytecache-go/hash.go:695-792 | each successful increment answers the new count, its own amount included |
| `HashRuns.IncrementSucceeds` | lytecache-go/hash.go:695-792 | an increment is refused exactly when the amount or the sum leaves int64, a missing key meets a full namespace, or the path cannot add to what is beyond int64 already |
| `HashProgress.OthersWait` | lytecache-go/hash.go:881-925 | while a process is inside a read-modify-write no step of any other changes anything |
| `HashProgress.CallIsDone` | lytecache-go/hash.go:881-925 | a read-modify-write that has begun is done by its load, compute and commit whatever others try in between: its row stored, its answer given, the lock free, no other key touched |
| `HashProgress.StatementIsDone` | lytecache-go/hash.go:807-851 | a statement of an idle process is done in one step unless another holds the lock |
| `JsonCompact.CompactJson` | lytecache-node/src/json-object.ts:46-63 | the loop of the compactor, flag and escape handling included, on any text, with either client's whitespace (lytecache-php/src/Support/JsonObject.php:86-109) |
| `JsonCompact.CompactIdempotent` | lytecache-node/src/json-object.ts:46-63 | compacting twice is compacting once, on any text |
| `JsonCompact.CompactKeepsStrings` | lytecache-node/src/json-object.ts:46-63 | compacting never changes the characters inside strings, on any text |
| `JsonCompact.CompactText` | lytecache-node/src/json-object.ts:46-63 | on well-formed JSON the compactor removes exactly the insignificant whitespace |
| `JsonTwins.TwinsAgree` | lytecache-php/src/Support/JsonObject.php:75-109 | on any text the Node and PHP compactors agree exactly when no other whitespace stands outside strings |
| `JsonTwins.TwinsAgreeOnJson` | lytecache-php/src/Support/JsonObject.php:75-109 | on every JSON text they agree, so both clients compact a field's value to the same text |
| `JsonTwins.TwinsPartOn` | lytecache-node/src/json-object.ts:46-63 | the one-character texts on which they part are the 21 characters that are whitespace to a regular expression and not to JSON |
| `JsonString.StringRoundTrip` | lytecache-node/src/json-object.ts:40-42 | every key, lone surrogates and control characters included, is encoded as a well-formed string and decoded to itself |
| `JsonEscapes.HexEscapeRule` | lytecache-node/src/json-object.ts:135 | a backslash, u and four hexadecimal digits of either case decode to the unit with that number, wherever they stand in a name |
| `JsonEscapes.ShortEscapeRule` | lytecache-node/src/json-object.ts:135 | each of the eight two-character escapes decodes to its character, the escaped slash included |
| `JsonEscapes.PlainRule` | lytecache-node/src/json-object.ts:135 | every other character of a name stands for itself |
| `JsonEscapes.NothingElseIsABody` | lytecache-node/src/json-object.ts:89 | no other escape, no bare quote and no control character is accepted |
| `JsonEscapes.OrdinaryUnitIsKept` | lytecache-node/src/json-object.ts:40-42 | all but quotes, backslashes, control characters and surrogates are written as they are, the slash included |
| `JsonEscapes.ShortFormIsWritten` | lytecache-node/src/json-object.ts:40-42 | quotes, backslashes and five control characters are written in their two-character form |
| `JsonEscapes.LongFormIsWritten` | lytecache-node/src/json-object.ts:40-42 | the other control characters and lone surrogates are written with four lower-case digits |
| `JsonEscapes.PairIsKept` | lytecache-node/src/json-object.ts:40-42 | a surrogate pair is written as it is |
| `JsonNumbers.NumberGrammar` | lytecache-node/src/json-object.ts:89 | the recognizer of numbers accepts exactly an optional minus, digits without a leading zero, an optional fraction and an optional exponent |
| `JsonScanner.Scanner.SkipWs` | lytecache-node/src/json-object.ts:96-98 | stops at the first character that is not whitespace |
| `JsonScanner.Scanner.ReadString` | lytecache-node/src/json-object.ts:99-108 | stays in bounds, ends, and returns exactly the string with its quotes |
| `JsonScanner.Scanner.ReadValue` | lytecache-node/src/json-object.ts:109-132 | stays in bounds, ends, and stops where the value ends |
| `JsonScanner.AfterFieldValue` | lytecache-node/src/json-object.ts:109-132 | the depth and string counting stops right after a nested value, and at the comma or brace after a scalar |
| `JsonScanner.Scanner.ReadField` | lytecache-node/src/json-object.ts:135-140 | one member is read as its name, decoded as `JsonEscapes` says, and the exact text of its value |
| `JsonScanner.Scanner.ReadFields` | lytecache-node/src/json-object.ts:133-146 | the members of any well-formed object are read in text order, later duplicates overwriting in place |
| `JsonScanner.FirstUnitTellsKind` | lytecache-node/src/json-object.ts:65-82 | the first character tells the kind of any well-formed value |
| `JsonScanner.ParseJsonObject` | lytecache-node/src/json-object.ts:88-147 | malformed text is refused; any other root reports its kind, and an object its fields, read off the text's tree |
| `JsonPrinter.ToJson` | lytecache-node/src/json-object.ts:40-42 | writes the fields in order, names encoded and values compacted |
| `JsonPrinter.WrittenTextIsJson` | lytecache-node/src/json-object.ts:40-42 | what is written is a well-formed object with those fields |
| `JsonPrinter.Reload` | lytecache-node/src/json-object.ts:40-147 | parsing what was written gives back the keys in order with compacted values |
| `JsonPrinter.ReloadedIsStable` | lytecache-node/src/json-object.ts:40-63 | after one round trip the object no longer changes |
| `CacheStore.Cache.DeleteExpiredRow` | lytecache-node/src/core.ts:1724-1734 | the guarded lazy delete removes the row only if it has expired, and no reader can tell |
| `CacheStore.Cache.GetKey` | lytecache-node/src/core.ts:409-451 | answers and leaves the store as one whose entries vanish at their expiry |
| `CacheStore.Cache.ExistsKey` | lytecache-node/src/core.ts:467-476 | the same for exists |
| `CacheStore.Cache.TtlOf` | lytecache-node/src/core.ts:679-690 | the same for ttl |
| `CacheStore.Cache.SetKey` | lytecache-node/src/core.ts:366-403 | the same for set: the whole row is replaced, with the expiry now + ttl or none |
| `CacheStore.Cache.AddKey` | lytecache-node/src/core.ts:483-527 | the same for add: it wins exactly where no live entry is, and then writes the row set would |
| `CacheStore.Cache.ReplaceKey` | lytecache-node/src/core.ts:530-555 | the same for replace, which writes the row set would or nothing |
| `CacheStore.Cache.GetSetKey` | lytecache-node/src/core.ts:558-593 | the same for getSet, which drops the expiry |
| `CacheStore.Cache.ExpireKey` | lytecache-node/src/core.ts:654-664 | the same for expire |
| `CacheStore.Cache.PersistKey` | lytecache-node/src/core.ts:667-676 | the same for persist |
| `CacheStore.Cache.IncrKey` | lytecache-node/src/core.ts:727-790 | the same for incr: the text read back decodes to the sum that was committed |
| `CacheStore.Cache.HashKey` | lytecache-node/src/core.ts:874-918 | the same for a hash operation |
| `CacheStore.Cache.DeleteKeys` | lytecache-node/src/core.ts:454-464 | removes the named rows, expired ones counted too |
| `CacheStore.Cache.SweepOnce` | lytecache-node/src/core.ts:1701-1722 | a sweep removes 500 expired rows or all of them, whichever its LIMIT picks, and changes nothing a reader can see |
| `CacheStore.Cache.Execute` | lytecache-node/src/core.ts:1701-1734 | over any run with a nondecreasing clock and sweeps anywhere, every answer but a delete's count is that of the store whose entries vanish at their expiry (its laws are those of `CacheLaws`) |
| `CacheStore.DeleteCountIsExact` | lytecache-node/src/core.ts:454-464 | delete's count is right exactly when no named row has outlived its expiry |
| `CacheStore.DeleteCountsExpired` | lytecache-node/src/core.ts:454-464 | an unswept expired row is counted though no reader could see it |
| `CacheLaws.PutRule` | lytecache-node/src/core.ts:366-403 | after a set with a ttl, get shows the value and ttl the time left until now + ttl, and both a miss from then on; without a ttl the value stays for good |
| `CacheLaws.PutThenTtl` | lytecache-node/src/core.ts:366-403 | in one run, a ttl asked after a set answers now + ttl - later, a miss when that time is over, no expiry without a ttl |
| `CacheLaws.AddRule` | lytecache-node/src/core.ts:483-527 | add answers whether a get would have missed, and is a set then; otherwise nothing a reader sees changes |
| `CacheLaws.ReplaceRule` | lytecache-node/src/core.ts:530-555 | replace answers whether a get would have hit, and is a set then |
| `CacheLaws.GetSetRule` | lytecache-node/src/core.ts:558-593 | getSet answers what a get would have, and the new value has no expiry |
| `CacheLaws.ExpireRule` | lytecache-node/src/core.ts:654-664 | expire gives a key that is there the new end, whatever it had before, and answers whether it was there |
| `CacheLaws.PersistRule` | lytecache-node/src/core.ts:667-676 | persist answers whether ttl would have shown a time left, and takes that end away |
| `CacheLaws.ExistsRule` | lytecache-node/src/core.ts:467-476 | exists answers whether a get would hit |
| `CacheLaws.DeleteRule` | lytecache-node/src/core.ts:454-464 | no deleted key is found afterwards; the count due is of the keys a get would have found |
| `CacheLaws.IncrReply` | lytecache-node/src/core.ts:727-790 | incr answers the sum, a missing key counting 0; a sum past 64 bits cannot be read |
| `CacheLaws.IncrRule` | lytecache-node/src/core.ts:727-790 | a new counter has no expiry, one that is there keeps its own, and it then holds the text of the sum |
| `CacheLaws.IncrUnreadable` | lytecache-node/src/core.ts:727-790 | a counter past 64 bits, or spoilt by an overflow, stays unreadable |
| `CacheLaws.IncrRefusals` | lytecache-node/src/core.ts:727-790 | an amount that is no 64-bit integer and a value that is no counter are refused exactly then, nothing being written |
| `CacheLaws.HashReply` | lytecache-node/src/core.ts:874-918 | a hash call answers as the operation on what a get shows |
| `CacheLaws.HashRule` | lytecache-node/src/core.ts:874-918 | a new hash lasts for the call's ttl, for good without one; an existing one keeps its expiry whatever the ttl |
| `CacheLaws.OthersAreKept` | lytecache-node/src/core.ts:409-451 | no call changes what readers of another key see, now or later, and looking changes nothing |
| `CacheLaws.TimePasses` | lytecache-node/src/core.ts:679-690 | what a key shows now settles what it shows at every later time if nobody writes |
| `CacheLaws.SweepsAreUnseen` | lytecache-node/src/core.ts:1701-1722 | a sweep changes nothing any reader sees |
| `CacheLaws.RunsCompose` | lytecache-node/src/core.ts:366-690 | a run is its first part, and then the rest from where that left the store |
| `CacheLaws.EmptyIsMissing` | lytecache-node/src/core.ts:409-451 | in an empty store every key is missing |
| `CacheLaws.OtherTypesAreRefused` | lytecache-node/src/core.ts:874-918 | a hash call on a value that is not JSON is refused under the value's own type code, 2 for integers |
| `Decimal.RoundTrip` | lytecache-node/src/core.ts:1796-1802 | the decimal text of an integer always reads back as that integer |
| `Decimal.DigitsRule` | lytecache-node/src/core.ts:1796-1802 | the text of 10 n + d is that of n and one more digit character; a minus stands before a negative one's digits |
| `Decimal.ParsesDigits` | lytecache-node/src/core.ts:1796-1802 | exactly the texts of digits with an optional minus denote an integer |
| `Counters.CounterHoldsTheSum` | lytecache-node/src/core.ts:727-790 | in any interleaving a counter holds the text of the sum of the amounts committed since creation, last expiry or deletion iff all partial sums fit 64 bits |
| `Counters.IncrAnswersTheSum` | lytecache-node/src/core.ts:700-704 | each incr answers that sum, its own amount included; after an overflow it fails until the row goes |
| `Counters.OverflowIsCommitted` | lytecache-node/src/core.ts:727-790 | on any live row of integer type, whose text is plain decimal or what an overflow left, an incr answers, and leaves a readable counter, iff the row holds a 64-bit integer and the sum is one; otherwise it fails though it has already replaced the value |
| `Counters.OverflowBreaksACounter` | lytecache-node/src/core.ts:727-790 | a step past the largest integer makes the step back fail too |
| `TokenLock.LockTable.Add` | lytecache-node/src/core.ts:483-527 | the attempt wins exactly when the row is missing or expired by its clock reading |
| `TokenLock.LockTable.Release` | lytecache-node/src/core.ts:1643-1655 | deletes the row only while it holds the token |
| `TokenLock.LockTable.DeleteExpired` | lytecache-node/src/core.ts:1724-1734 | a sweep or lazy delete removes the row only if expired by its reading |
| `TokenLock.CacheLock.Acquire` | lytecache-node/src/lock.ts:47-60 | polls until the first attempt that finds the row free, or fails at the first failed attempt past the deadline |
| `TokenLock.CacheLock.Release` | lytecache-node/src/lock.ts:63-68 | only the first call touches the table, and never another holder's row |
| `TokenLock.AtMostOneHolder` | lytecache-go/lock.go:33-72 | over all runs, with stale clock readings, two unexpired holders never coexist, and the row carries the holder's token |
| `TokenLock.OthersNeverRemoveIt` | lytecache-go/lock.go:59-72 | no release, sweep, lazy delete or attempt of others removes a holder's row |
| `TokenLock.FreshAttemptWins` | lytecache-go/lock.go:33-53 | an attempt with an up-to-date reading wins exactly when nobody holds the lock, so a crashed holder's lock becomes free |
| `TokenLock.WinnerHoldsUntil` | lytecache-go/lock.go:33-72 | after a win, and whatever anyone does next, the token holds the lock exactly until it gives up or read + ttl has come |
| `TokenLock.HolderIffRowIsLive` | lytecache-go/lock.go:33-72 | in every run somebody holds the lock exactly when its row is there and has not expired |
| `TokenLock.RawDeleteIsSafe` | lytecache-go/kv.go:172-174 | a lazy delete by key alone can lead to two holders exactly when the row it removes has not expired as it runs, which is the guard it lacks |
| `TokenLock.RawDeleteBreaksTheLock` | lytecache-go/kv.go:130-159 | a run in which such a delete leads to two holders |
| `Dispatcher.ChangeDispatcher.AddListener` | lytecache-node/src/events.ts:403-419 | a listener gets the next id; no or unknown kinds of change are refused |
| `Dispatcher.ChangeDispatcher.Remove` | lytecache-node/src/events.ts:416-418 | from the moment it returns the listener is never called again |
| `Dispatcher.ChangeDispatcher.Submit` | lytecache-node/src/events.ts:432-444 | a record is queued one level deeper than the one being delivered, and dropped exactly after close or past eight levels |
| `Dispatcher.ChangeDispatcher.Changed` | lytecache-node/src/core.ts:1486-1507 | a write makes a record only if somebody listens for it, and publishes it if such changes are published |
| `Dispatcher.ChangeDispatcher.Deliver` | lytecache-node/src/events.ts:450-467 | a record goes to those subscribed as its delivery began, once each, in registration order, but not to one gone by its turn |
| `Dispatcher.ChangeDispatcher.Drain` | lytecache-node/src/events.ts:446-468 | one turn delivers the queue as it stood; whatever it causes waits, at least one level deeper |
| `Dispatcher.ChangeDispatcher.RunEventLoop` | lytecache-node/src/events.ts:393-479 | turn by turn what each listener does takes effect; however much listeners write, draining ends within eight turns, every accepted record delivered in submit order unless closed |
| `Dispatcher.ChangeDispatcher.CloseDispatcher` | lytecache-node/src/events.ts:470-478 | closing drops the queue and removes every listener for good |
| `DispatcherRules.OpsAreTheNamed` | lytecache-node/src/events.ts:403-415 | a list of names is accepted exactly if it is not empty and holds set, delete and flush only, and the listener then gets the changes it names |
| `DispatcherRules.ActionRule` | lytecache-node/src/events.ts:403-444 | what each action of a listener does to the listeners, the queue and what is published; after close writes and new listeners have no effect |
| `DispatcherRules.ActionsInOrder` | lytecache-node/src/events.ts:446-468 | a listener's actions take effect one after the other, in its order |
| `DispatcherRules.UnsubscribedInTheSameTurn` | lytecache-node/src/events.ts:446-468 | a listener that unsubscribes a later one and writes: the later one is not called for the record, and the write waits for the next turn |
| `Eviction.Table.First` | lytecache-go/sweep.go:169-181 | picks a row no other precedes under the policy |
| `Eviction.Table.DeleteBatch` | lytecache-node/src/core.ts:1779-1791 | a batch removes the first rows of the policy order, each needed |
| `Eviction.Table.EnforceCapacity` | lytecache-go/sweep.go:185-222 | row by row: evicts a prefix of the policy order, each row needed, and ends within the limits, empty, or after a million rows |
| `Eviction.Table.MaybeEvict` | lytecache-node/src/core.ts:1761-1793 | in batches: ends with exactly the shortest prefix of the policy order that brings the namespace within both limits; under LRU none goes that was used after one that stays, under the expiry policy none that expires later, or never |
| `Eviction.BytesRule` | lytecache-go/sweep.go:185-222 | a namespace's bytes are the sum of its rows' sizes |
| `Eviction.EvictionIsUnique` | lytecache-go/sweep.go:185-222 | under a strict order that prefix is unique, so both loops evict the same rows in the same order |
| `LruBuffer.Bookkeeping.FlushBuffer` | lytecache-node/src/core.ts:1672-1690 | the flush adds every buffered count and sets every buffered time, in whatever order |
| `LruBuffer.Bookkeeping.BufferRead` | lytecache-node/src/core.ts:1659-1670 | a buffered read is an eager update once flushed, and fewer than 200 keys stay buffered |
| `LruBuffer.Bookkeeping.Execute` | lytecache-node/src/core.ts:1659-1690 | over any run in which no key is written while buffered, the flushed rows equal those of eager updates |
| `LruBuffer.ReadsAreCounted` | lytecache-node/src/core.ts:1659-1690 | over any run in which others only read it, a key's count grows by the number of its reads and its time is that of the last one |
| `LruBuffer.CountedSinceWrite` | lytecache-node/src/core.ts:1659-1690 | from a write on only the reads after it count; after a delete there is no row |
| `LruBuffer.WriteIsEager` | lytecache-node/src/core.ts:1659-1690 | a write keeps in step exactly when its key is not buffered |
| `LruBuffer.FlushedReadUndoesAWrite` | lytecache-go/sweep.go:97-147 | otherwise the flush moves last_accessed back and gives the new value a read it never had |
| `KeyPages.SelectPage` | lytecache-go/keys.go:57-80 | a page is the first keys after the last one, in order, or all of them |
| `KeyPages.Scan` | lytecache-go/keys.go:26-53 | while others insert and delete between pages, keys come out strictly increasing, each was there, and a completed scan lists every non-empty key that stayed |
| `KeyPages.ScanQuiet` | lytecache-node/src/core.ts:1513-1532 | on a quiet table the scan ends and lists every key but the empty one |
| `KeyPages.LessIsByteOrder` | lytecache-go/keys.go:57-80 | one key comes before another exactly when, at the first place they differ, it ends or has the smaller character |
| `FieldPath.TwoPassesAreOne` | lytecache-go/hash.go:47-49 | escaping backslashes, then quotes, is escaping character by character |
| `FieldPath.PathAddressesField` | lytecache-go/hash.go:41-49 | reading the label back gives the field, and the first unescaped quote is the path's last character |
| `FieldPath.PathIsInjective` | lytecache-go/hash.go:41-49 | distinct fields have distinct paths |
| `FieldPath.LabelOfName` | lytecache-go/hash.go:41-49 | the label is the name with a backslash before each quote and backslash, and nothing else changed |
| `FieldPath.OtherOrderIsWrong` | lytecache-go/hash.go:47-49 | with the passes swapped a quote would end the label early |
| `ReplTokens.SplitArgs` | lytecache-cli/cmd/lytecache/repl.go:131-178 | the loop over bytes with its quote flags |
| `ReplTokens.FailsOnOpenQuote` | lytecache-cli/cmd/lytecache/repl.go:171-173 | splitting fails exactly when some quote is never closed |
| `ReplTokens.SplitsLine` | lytecache-cli/cmd/lytecache/repl.go:125-178 | a line of blanks, words and gaps is split into the words' values: quotes group, single-quoted text is literal, only escaped quotes and backslashes are decoded, only between double quotes |
| `ReplTokens.EveryLineHasWords` | lytecache-cli/cmd/lytecache/repl.go:125-178 | every line in which each quote is closed is such a line |
| `ReplTokens.SplitIsExact` | lytecache-cli/cmd/lytecache/repl.go:125-178 | splitting gives a list of arguments exactly when the line is made of blanks, gaps and words with those values |
| `ReplTokens.QuotedRoundTrip` | lytecache-cli/cmd/lytecache/repl.go:125-178 | quoting any argument list and splitting the line gives the list back |
| `ReplTokens.BackslashRule` | lytecache-cli/cmd/lytecache/repl.go:146-155 | between double quotes a backslash stands for itself before every character but a quote or a backslash |
| `ReplTokens.GapRule` | lytecache-cli/cmd/lytecache/repl.go:156-169 | outside quotes exactly blank and tab end a word, for every character |
| `ReplTokens.SingleQuoteRule` | lytecache-cli/cmd/lytecache/repl.go:140-145 | single quotes keep every character but their own |
| `RotatingLog.RotatingWriter.constructor` | lytecache-cli/cmd/lytecache/service/logs.go:81-95 | an existing log is appended to, beside whatever backups there are |
| `RotatingLog.RotatingWriter.Write` | lytecache-cli/cmd/lytecache/service/logs.go:97-108 | a write that fits is appended and nothing else changes; one that does not first moves every backup one number up, makes the current file number 1 and then starts a new one |
| `RotatingLog.RotatingWriter.Rotate` | lytecache-cli/cmd/lytecache/service/logs.go:110-131 | a rotation moves every backup one number up and makes the current file number 1; with no backups kept the file stays |
| `RotatingLog.RotatingWriter.ShiftBackups` | lytecache-cli/cmd/lytecache/service/logs.go:114-120 | the descending renames move every backup one number up without overwriting a younger one |
| `RotatingLog.RotationDropsOldest` | lytecache-cli/cmd/lytecache/service/logs.go:110-131 | a rotation drops exactly the file it overwrites, at the old end, and keeps all else in order |
| `RotatingLog.DiskIsNewestPart` | lytecache-cli/cmd/lytecache/service/logs.go:97-131 | over any run of writes the disk, oldest backup to current file, holds a suffix of what was there followed by everything written |
| `RotatingLog.DiskIsBounded` | lytecache-cli/cmd/lytecache/service/logs.go:97-131 | over any run of writes that fit one by one the log takes at most (backups + 1) * maxBytes exactly when a backup is kept or everything fits one file |
| `RotatingLog.UnboundedWithoutBackups` | lytecache-cli/cmd/lytecache/service/logs.go:122-131 | two writes that exceed the bound when no backups are kept |

## Left out

- SQLite itself: locking, WAL, busy retries, JSON1 probing; every statement is atomic with its stated effect.
- Floats: incrFloat, hincrbyfloat and the digits of a float's text; a counter past int64 is only "a real number's text".
- Documents are ordered fields with values as text, not SQLite's exact bytes; `HashDoc.SizeOf` gives the length of the compact form, with control characters taken at their escaped length.
- Error message texts; only the class of an error and the root type it names are modelled.
- Timers, wake-ups, poll intervals, contexts and cancellation: a poll may happen at any step. Waiting is a list of rounds.
- Node's push delivery and its waiters; a subscriber's bounded queue is modelled as in Go.
- File recreation followed by enough new events to pass an old cursor: runs are of one file lifetime.
- I/O failures, closed handles, strict and lenient modes, the logger.
- setMany, getMany, hash reads, stats, the namespaces other than the one looked at, typed decoding.
- HashRuns.RunsAreSerial: documents have unique keys, as in `HashStore`; a call of several statements is one step, being one transaction.
- HashRuns.NoFieldUpdateIsLost: a key whose row expires in the middle of the run, or is replaced as a whole, is covered up to that point and afresh after it.
- HashLaws.HDelRule: the document has unique keys; with duplicate keys one deletion takes the first pair only.
- CacheLaws.HashRule: capacity limits are off, as in `CacheStore.Cache.Execute`.
- HashStore.Store.HDelNative: the stored document has unique keys; SQLite and the parsed object treat duplicate JSON keys differently.
- HashStore.Store.RmwHash: unique keys, as above.
- CacheStore.Cache.Execute: capacity limits are off, and hash calls do what the operation means, so at most 500 fields a call and stored integers within int64.
- HashStore.Mutate: a value that is not an integer stands for its decoded content. Go, Node and PHP keep its text; Python's fallback encodes every value anew (a stored 1.50 becomes 1.5), so a size is exact where texts are kept.
- CacheStore.Cache.IncrKey: the size column is not modelled; Go's read-back outside the transaction is not either.
- JsonScanner.ParseJsonObject: the platform parser that validates first is a parameter, and the text's tree is a ghost argument, so the result holds for every tree the text has.
- JsonTwins.TwinsAgree: PHP reads UTF-8 bytes where Node reads UTF-16 units; both are modelled on the same units, so multi-byte whitespace counts as one.
- TokenLock.AtMostOneHolder: tokens are unique by assumption; eviction, flush and user writes on lock keys are not steps.
- Dispatcher.ChangeDispatcher.RunEventLoop: a listener is a function of the calls made so far; promises, asynchronous writes and writes from outside the listeners while draining are left out, and so is the concurrent dispatcher of Go.
- Eviction.EvictionIsUnique: ties, and with them the random policy, are left out of the uniqueness, not of the loops' own contracts.
- LruBuffer.Bookkeeping.Execute: writes that keep the access count (counters, hash fields) and the concurrent buffer of Go are left out.
- KeyPages.Scan: the GLOB match and liveness are what decides which keys a page's table holds.
- RotatingLog.RotatingWriter.Write: all renames and writes succeed; files numbered above the backups kept are not looked at.
- Dispatcher.ChangeDispatcher.Changed: publishing the event succeeds; how a key list is truncated is left out.
- HTTP UI, sessions, services, Laravel adapters and the older Python copy under `src/`.

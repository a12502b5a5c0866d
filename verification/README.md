# Schaufel in Dafny

Schaufel moves messages from consumer threads through one shared queue to producer threads. This project
models the parts of it that are hard to get right and proves what they are for.

- **Routed queue and threads** (`QueueSpec`, `Queue`, `Protocol`, `Loops`, `Payload`, `Conservation`, `LaneOrder`,
  `Kafka`, `Reordering`). The
  class `Queue.Queue` keeps the doubly linked global list and the singly linked lanes as the source does; each
  method is one critical section. `Protocol` runs consumer and producer threads as a step system whose atomic
  steps are the mutex sections, split at every wait, and uses the same `AddStep` and `GetStep` the class is
  proved against. Every sequence of actions is a run, so a claim over runs is a claim over every interleaving,
  spurious wakeups and timeouts included.
- **Hash table** (`Masks`, `HTableSpec`, `Chains`, `HTable`, `Metadata`). The class `HTable.HTable` relinks
  nodes in place; its methods are proved equal to functions on lists of entries, which are proved to refine a
  finite map.
- **Text repair** (`Utf8Spec`, `Utf8`, `Escape`). The in-place loops are proved against pointwise
  specifications; the grammar is that of section 4 of RFC 3629.
- **JSON to COPY binary** (`Calendar`, `Timestamp`, `CopyBinary`, `JsonExport`, `Validate`, `Needles`). The
  encoder's arithmetic is compared with the Gregorian calendar, and its bytes with a reader of the COPY format.
- **Batch commits** (`BatchSpec`, `Batch`, `Exports`). A producer and a ticking worker share one state under a
  mutex; `Exports` joins them with the rows of the exports producer, and of the export hook in front of the
  Postgres producer.
- **Routing** (`Bits`, `Fnv`, `Routing`). FNV-1a, its xor folding, and the hook that sets a message's mark.

`Sequences`, `Options` and `Octet` hold small shared definitions. Bytes are numbers (`octet`), or `bv8` where the
source masks bits.

Inputs from outside are parameters: what a poll returns and what a hook decides (arguments of actions), a
parsed JSON document (a map from the pointers that lead somewhere to the text found there), the hash of a key
(a function, so equal keys hash equally), the bytes of an escaped text row.

## Where code and expectation differ

The model follows the code.

- Of the four resets after a take that empties something (`src/queue.c:402-412`), three never change a value;
  the reset of the lane's end does, it drops a pointer to the removed node (`Queue.Queue.UnlinkLane`).
- A producer's hooks may write the xmark that selects the lane of its next `queue_get` (`src/queue.c:337`,
  `src/queue.c:418-421`, `src/hooks/xmark.c:37-39`), so a producer can leave its configured lane. With several
  producers the order of stored offsets then holds only if no producer-side hook does that
  (`Reordering.OrderedIffOneProducer`).
- `metadata_insert` returns null for a key that exists, as its comment says, but replaces the value all the same
  (`Metadata.Metadata.Insert`).
- `store_true` is documented as storing a field if its filter holds; when the filter fails, the whole message is
  dropped (`JsonExport.JsonExport`).
- The manual page says `fold2` yields the marks 0 and 1; it folds to two bits and yields 0 to 3
  (`Fnv.FoldIsUniform`).
- Timestamps are summed up in 32 bits, so they are exact only before 2136-02-07T06:28:16Z although years up to
  4027 are accepted (`Timestamp.ExactIffBeforeOverflow`).
- The exports producer has its own copy of the export code. It refuses second 60, which the hook accepts
  (`src/exports.c:366`, `src/hooks/jsonexport.c:357`), and has no `store_meta`. The two decide differently on a text
  exactly if its second field is 60 and it passes every other test (`Timestamp.ProgramsDifferIff`), and on a message
  exactly if the hook passes it and a needle reads such a text (`JsonExport.RowsDifferIff`).
- The number of needles is kept in 16 bits, while the field count is taken over all of them, so from 65536 needles
  on a row can announce a wrong count (`JsonExport.RowBytesIff`, `JsonExport.ExportRoundTripIff`).
- A list inside the list of pointers is reported as an error but accepted, and refused by a second validation
  (`Validate.ValidateIdempotent`).
- The exports producer opens a session before it looks at the message, so a session without rows is
  committed when the producer is freed exactly if a message was refused while no rows were waiting and no row was
  put since (`BatchSpec.EmptySessionIff`, `BatchSpec.EmptySession`).
- A text of exactly 2^32 - 1 bytes would be written with the length that means NULL
  (`CopyBinary.FieldRoundTripIff`).

## Model

| member | source | states |
|---|---|---|
| QueueSpec.LaneMembers | src/queue.c:287-297 | a lane holds exactly the queued messages with its mark |
| QueueSpec.LaneWithoutFirst | src/queue.c:381-412 | taking a lane's oldest message removes that lane's head and leaves every other lane unchanged; a lane is empty iff no queued message has its mark |
| QueueSpec.LaneAfterLink | src/queue.c:287-297 | linking a message lengthens its own lane at the end and no other |
| Queue.Queue.constructor | src/queue.c:146-180 | a new queue is well formed and empty |
| Queue.Queue.FindLane | src/queue.c:192-237 | finds the lane of a mark or adds an empty one; nothing else changes |
| Queue.Queue.LinkGlobal | src/queue.c:299-310 | the node is the new end of a well-formed doubly linked list |
| Queue.Queue.LinkLane | src/queue.c:287-297 | every node points to the next one of its own mark; ends and count of the lane are right; the broadcast flag is set iff the lane was empty |
| Queue.Queue.TryAdd | src/queue.c:268-324 | one pass of queue_add from its wait test on: waits iff the length exceeds the limit, otherwise appends, and broadcasts exactly to the waiters of a queue or lane that was empty; keeps the queue well formed |
| Queue.Queue.UnlinkLane | src/queue.c:381-412 | removes the head of a lane; resetting the count changes nothing; the old end was the removed node |
| Queue.Queue.UnlinkGlobal | src/queue.c:384-396 | the links of the global list pass over the node, at the head, the end or in the middle |
| Queue.Queue.CountDelivered | src/queue.c:398-406 | the counters agree with the list; the resets of end and length change no value |
| Queue.Queue.Unlink | src/queue.c:381-412 | returns the oldest message of the lane, removes exactly it, keeps the queue well formed |
| Queue.Queue.LaneChain | src/queue.c:381-382 | following a lane's pointers visits exactly the messages of the global list with its mark, in order, and ends; the recorded count is their number |
| Queue.Queue.TryGet | src/queue.c:326-432 | one pass of queue_get: waits for any message, waits for the lane, or takes the lane's oldest message |
| Queue.Queue.Length | src/queue.c:469-477 | the length field is the number of queued messages |
| Queue.Queue.TakeAdded | src/queue.c:479-488 | returns and resets the counter of added messages |
| Queue.Queue.TakeDelivered | src/queue.c:490-499 | returns and resets the counter of delivered messages |
| Protocol.AddKeepsWakeups | src/queue.c:282-320 | the conditional broadcasts of an add suffice: no waiter whose condition came true is left without a wakeup |
| Protocol.GetKeepsWakeups | src/queue.c:351-424 | the same for a get |
| Protocol.NeverLosesAWakeup | src/queue.c:282-424 | in every run: a getter that waits without a pending wakeup waits on an empty queue or an empty lane, an adder on a queue over its limit; the length never exceeds the limit plus one |
| Protocol.StallNeedsUnservedLane | src/queue.c:282-424 | if an adder is stuck and all producers are stuck or done, every queued message lies in a lane on which no running producer is, wherever hooks have moved them |
| Loops.GaveUpMeans | src/main.c:190-197 | read off a run: a producer's last queue_get timed out iff some action ended its wait by a timeout and it took no message after that |
| Loops.ProducerLeavesIff | src/main.c:192-193 | over every run, a step ends a producer iff it is its own test at the top of its loop, consuming has been stopped, and its last queue_get timed out; an ended producer stays ended |
| Loops.StillServes | src/main.c:190-205 | over every run, a producer at the top of its loop that has not given up, or for which consuming goes on, takes its lane's oldest message by its next test and get |
| Loops.ConsumerLeavesIff | src/main.c:143-146 | a step ends a consumer iff it is its own test after consuming has been stopped, or a failing poll |
| Loops.ConsumesUntilStopped | src/main.c:390-392 | consuming goes on until it is stopped, and is never taken up again |
| Loops.StopEndsThreads | src/main.c:143-213 | after the stop a consumer ends at its next test, and a producer once its wait has timed out |
| Loops.ReadingResets | src/queue.c:479-499 | reading a counter reports what was counted since the last reading and resets it |
| Loops.AddWaitsIff | src/queue.c:282-320 | an add waits iff there are more than 100000 messages, and otherwise links its own |
| Loops.GetWaitsIff | src/queue.c:351-412 | a get takes its lane's oldest message if there is one; else it waits, for any message if it found the queue empty and waited for nothing else yet, and else for its lane |
| Loops.AddWakesIff | src/queue.c:312-316 | an add wakes the waiters for any message iff the queue was empty, those of its lane iff the lane was empty, and no others |
| Loops.TakeWakes | src/queue.c:423-424 | a take wakes every waiting adder |
| Payload.PollRecords | src/kafka.c:664-697 | a poll records exactly what was polled; the mark is the xmark modulo 2^32 |
| Payload.HookRewrites | src/main.c:149-153 | an accepting hook leaves its thread with the same message, the xmark and the body it wrote |
| Payload.HookRejects | src/main.c:194-202 | a rejecting hook ends its message's way, and the thread goes on at the top of its loop |
| Payload.EveryRunKeepsPayload | src/queue.c:253-256 | over every run, whatever is queued, held, produced, rejected or stored is a consumed message with its partition and offset, and with its body if no hook writes bodies |
| Conservation.StepKeepsPlaces | src/main.c:143-213 | no step loses or duplicates a message |
| Conservation.TakeKeepsFifo | src/queue.c:381-412 | taking keeps, for every lane, taken followed by queued equal to linked |
| Conservation.EveryRun | src/main.c:143-213 | over every run: each consumed message is in exactly one place (a consumer's hand, the queue, a producer's hand, produced, rejected by a hook); no thread leaves its loop holding one; what is taken from a lane is a prefix of what was linked into it; added minus delivered is the length, despite the counter resets |
| LaneOrder.NothingLinkedTwice | src/queue.c:287-310 | over every run no message is linked twice |
| LaneOrder.TakenInOrder | src/queue.c:381-412 | over every run, once a message was taken, every message added to its lane before it was taken earlier |
| Kafka.EveryRoutedRun | src/kafka.c:664-697 | with one owner and one lane per partition, one producer per lane, and (where there are several producers) producer-side hooks that leave them on their lanes, the messages on their way stay in consumption order within each partition, over every run |
| Kafka.StoresAfterAllEarlier | src/main.c:199-211 | when an offset is about to be stored, every earlier message of its partition was produced or rejected by a hook, exactly once |
| Kafka.StoredOffsetsIncrease | src/kafka.c:17-56 | the offsets stored for a partition strictly increase over every run |
| Reordering.SharedLaneReorders | src/main.c:188-213 | for any lanes of which two are equal, a routed run that stores a later offset first |
| Reordering.MovingHooksReorder | src/queue.c:418-421 | for any two or more producers, a run in which a hook moves one of them and a later offset is stored first |
| Reordering.OrderedIffOneProducerPerLane | src/main.c:199-211 | all routed runs store the offsets of each partition in order iff no two producers share a lane |
| Reordering.OrderedIffOneProducer | src/queue.c:337 | with nothing demanded of producer-side hooks, iff there is at most one producer |
| Masks.MaskBound | src/utils/htable.c:173 | a hash under the mask is a bucket number |
| Masks.MaskDouble | src/utils/htable.c:46 | doubling keeps a hash in its bucket or moves it up by exactly the old size |
| HTableSpec.Place | src/utils/htable.c:175-180 | the first place of a key in a chain, or its end |
| HTableSpec.GrowHolds | src/utils/htable.c:28-64 | doubling loses, duplicates and re-keys no entry |
| HTableSpec.ShrinkHolds | src/utils/htable.c:65-89 | halving loses, duplicates and re-keys no entry |
| HTableSpec.GrowOk | src/utils/htable.c:28-64 | after doubling every entry is in the bucket its hash selects, keys unique |
| HTableSpec.ShrinkOk | src/utils/htable.c:65-89 | the same after halving |
| HTableSpec.SizeIsLeast | src/utils/htable.c:23-28 | the size kept by the table is the least power of two that is at least 8 and at least the number of entries |
| HTableSpec.ResizeSize | src/utils/htable.c:15-98 | one doubling or halving after each change is always enough for that |
| HTableSpec.FindIsLookup | src/utils/htable.c:169-183 | find is lookup in the map the table stands for |
| HTableSpec.InsertKeeps | src/utils/htable.c:185-222 | insert is insertion into the map, across resizes, with nitems its size and the size least |
| HTableSpec.DeleteKeeps | src/utils/htable.c:224-252 | delete is removal from the map, likewise |
| HTableSpec.CountResize | src/utils/htable.c:15-98 | a resize keeps every value as often as it was |
| HTableSpec.RunRefinesMap | src/utils/htable.c:169-252 | after every sequence of inserts and deletes the table stands for the map of the same operations |
| HTableSpec.RunCounts | src/utils/htable.c:185-252 | over every run, each value ever stored is in the table or was released, as often as it was stored |
| HTableSpec.ReleasedExactlyOnce | src/utils/htable.c:147-167 | after htable_free_items each stored value, overwritten ones included, was released exactly as often as it was stored |
| HTableSpec.ReleaseOrder | src/utils/htable.c:153-164 | freeing releases bucket by bucket, each from the head of its chain on |
| Chains.FindInChain | src/utils/htable.c:175-180 | the search loop finds the node at the key's place, and the node before it |
| Chains.CutFromChain | src/utils/htable.c:235-238 | unlinking leaves the chain without exactly that node, at its head or inside |
| Chains.MoveUp | src/utils/htable.c:45-55 | one node moves from the rest of its chain to the front of the upper chain |
| Chains.SplitChain | src/utils/htable.c:41-62 | the splitting loop leaves the staying nodes in order and the moving ones, reversed, in the upper bucket |
| Chains.GrowBucket | src/utils/htable.c:39-63 | splitting one bucket leaves all other chains as they are |
| Chains.GrowItems | src/utils/htable.c:28-64 | the new array leads through the split chains |
| Chains.JoinChain | src/utils/htable.c:76-86 | walking to the end and linking appends the upper chain |
| Chains.ShrinkBucket | src/utils/htable.c:74-88 | joining one bucket leaves all other chains as they are |
| Chains.ShrinkItems | src/utils/htable.c:65-89 | the new array leads through the joined chains |
| Chains.GrowEntries | src/utils/htable.c:28-64 | the split chains hold the entries of the doubled table |
| Chains.ShrinkEntries | src/utils/htable.c:65-89 | the joined chains hold the entries of the halved table |
| HTable.HTable.constructor | src/utils/htable.c:119-145 | a new table has eight empty buckets |
| HTable.HTable.Find | src/utils/htable.c:169-183 | htable_find on the linked nodes is find on values |
| HTable.HTable.Overwrite | src/utils/htable.c:192-204 | the old value is released and replaced in place; nothing else changes |
| HTable.HTable.Push | src/utils/htable.c:212-217 | the new node is in front of its chain; nothing else changes |
| HTable.HTable.Add | src/utils/htable.c:207-220 | a new entry in front of its chain, then the resize, on values |
| HTable.HTable.Cut | src/utils/htable.c:233-243 | exactly one node leaves its chain, its value is released |
| HTable.HTable.Grow | src/utils/htable.c:28-64 | relinking in place doubles the table on values |
| HTable.HTable.Shrink | src/utils/htable.c:65-89 | relinking in place halves it |
| HTable.HTable.Resize | src/utils/htable.c:15-98 | _htable_resize with its thresholds |
| HTable.HTable.Insert | src/utils/htable.c:185-222 | htable_insert on the linked nodes is insert on values; the new-key flag is set iff the key was not found |
| HTable.HTable.Delete | src/utils/htable.c:224-252 | htable_delete likewise; it returns whether the key was found |
| HTable.HTable.FreeItems | src/utils/htable.c:147-167 | every value still stored is released, in bucket and chain order |
| Metadata.Metadata.constructor | src/queue.c:19-24 | a new message has no metadata table and stands for the empty map |
| Metadata.Metadata.Create | src/utils/metadata.c:160-163 | the table is created on first use only, and is empty |
| Metadata.Metadata.Find | src/utils/metadata.c:117-130 | lookup in a finite map; no table means no entry |
| Metadata.Metadata.Insert | src/utils/metadata.c:153-178 | insertion into a finite map with lazy creation; a missing value stores nothing; returns the value iff the key is new |
| Metadata.Metadata.Free | src/utils/metadata.c:184-197 | every value ever inserted, replaced ones included, was given to the before-free callback exactly as often as it was inserted |
| Utf8Spec.CharIsEncoding | src/utils/helper.c:98-139 | every character of the grammar is the RFC 3629 encoding of a Unicode scalar value |
| Utf8Spec.EncodingIsChar | src/utils/helper.c:98-139 | the encoding of every scalar value is a character of the grammar and denotes it |
| Utf8Spec.NoCharInside | src/utils/helper.c:141-144 | no character starts inside another |
| Utf8Spec.RepairedIsValid | src/utils/helper.c:75-80 | the repaired string is valid UTF-8 |
| Utf8Spec.ValidIffKept | src/utils/helper.c:75-80 | a string is valid iff every byte lies in a well-formed character |
| Utf8Spec.RepairIdempotent | src/utils/helper.c:75-80 | a second repair changes nothing |
| Utf8Spec.RepairIsLeast | src/utils/helper.c:75-80 | any valid string made by putting question marks for bytes puts one wherever the repair does |
| Utf8.CheckAt | src/utils/helper.c:89-139 | the mask tests accept at each position exactly the characters of the grammar |
| Utf8.SanitizeUtf8 | src/utils/helper.c:81-154 | byte j becomes 0x3F iff it lies in no well-formed character of the input and no NUL comes before it or is it, and every other byte stays; returns -1 iff a NUL occurs, 0 iff the input was valid, 1 otherwise |
| Utf8.SanitizedIsRepaired | src/utils/helper.c:75-80 | without NUL bytes the result is valid, and a second run returns 0 and changes nothing |
| Escape.FindEscape | src/utils/helper.c:64 | strstr: the first escape at or after a position, reading nothing past the terminating NUL |
| Escape.EscapesApart | src/utils/helper.c:64-69 | escapes do not overlap, so skipping six bytes misses none |
| Escape.EscapeIsSubstring | src/utils/helper.c:64 | an escape is an occurrence of the six bytes backslash, u, 0, 0, 0, 0 |
| Escape.RepairNullEscape | src/utils/helper.c:58-72 | exactly the bytes inside escapes become 0x3F; returns 1 iff there was one |
| Escape.RepairAfterEscapes | src/postgres.c:259-261 | the two repairs compose to one pointwise repair of the input |
| Escape.CleanIsClean | src/postgres.c:257-267 | the text sent is valid UTF-8, has no NUL, contains the NUL escape nowhere, keeps its length; byte j is 0x3F iff it lies in an escape or outside all characters or was that before, and it differs only inside escapes or at bytes from 0x80 on |
| Escape.CleanIdempotent | src/postgres.c:257-267 | cleaning clean text changes nothing |
| Escape.RepairPayload | src/postgres.c:251-267 | a payload is accepted iff it is terminated and holds no NUL, and is then cleaned in place; an unterminated one is left untouched |
| Calendar.LeapsClosedForm | src/hooks/jsonexport.c:155-171 | table entry n is the closed-form number of leap years from 2000 on |
| Calendar.LeapTable | src/hooks/jsonexport.c:155-171 | the loop fills entry n with the leap years among the n years from 2000 on |
| Calendar.YearDay | src/hooks/jsonexport.c:371-387 | the month loop computes the Gregorian day of the year |
| Calendar.MonthStarts | src/hooks/jsonexport.c:371-385 | the days before each month, as numbers, in common and leap years |
| Calendar.NextDayNumber | src/hooks/jsonexport.c:389-393 | the day number of the next calendar day is one more, with 2000-01-01 at 0 |
| Calendar.EarlierIsSmaller | src/hooks/jsonexport.c:389-393 | earlier real dates have smaller day numbers |
| Timestamp.JsonToPqTimestamp | src/hooks/jsonexport.c:273-401 | the encoder's checks, conversions and 32-bit and 64-bit sums, for every text, with the seconds limit of the hook (60) or of the exports producer (59) |
| Timestamp.NoOverflow | src/hooks/jsonexport.c:329-348 | no field has more than four digits and the fraction no more than six, so the conversions' error test never fires |
| Timestamp.ReadBack | src/hooks/jsonexport.c:330-342 | a written date and time is read back field by field, with up to ten fraction digits |
| Timestamp.MicrosTruncate | src/hooks/jsonexport.c:336-342 | the fraction is taken in microseconds, rounded down |
| Timestamp.EncodedValue | src/hooks/jsonexport.c:389-393 | the value is 10^6 times the seconds modulo 2^32 plus the microseconds |
| Timestamp.ExactIffBeforeOverflow | src/hooks/jsonexport.c:389-393 | it is the exact Gregorian count iff the instant is before 2136-02-07T06:28:16Z |
| Timestamp.EncodingIncreases | src/hooks/jsonexport.c:389-393 | below that bound the encoding is strictly increasing |
| Timestamp.WrittenTimestamp | src/hooks/jsonexport.c:273-401 | the same, stated on the text of every real date and time from 2000 to 4027, for both programs; leap seconds are accepted by the hook only |
| Timestamp.AcceptedLooksUtc | src/hooks/jsonexport.c:308-327 | whatever is accepted has 20 to 31 characters, the separators in place and Z at its end |
| Timestamp.AcceptedIff | src/hooks/jsonexport.c:308-366 | a text with digits in its fields is accepted iff it has that look and its fields are in range, stated in numbers |
| Timestamp.DigitTimestamp | src/hooks/jsonexport.c:273-401 | the encoder's answer, refusals included, on every text of digits that names a real date |
| Timestamp.OffsetRefused | src/hooks/jsonexport.c:319-327 | a time with a zone offset is refused |
| Timestamp.ProgramsDifferIff | src/exports.c:365-370 | hook and exports producer decide differently on a text iff its second field is 60 and it passes every other test |
| Timestamp.LeapSecond2016 | src/exports.c:365-370 | the leap second at the end of 2016 is accepted by the hook and refused by the exports producer |
| CopyBinary.Read64Back | src/hooks/jsonexport.c:395 | eight bytes in network order are read back as the number |
| CopyBinary.NetworkOrder | src/utils/endian.h:21-30 | numbers are read with the most significant byte first |
| CopyBinary.FieldRoundTripIff | src/hooks/jsonexport.c:581-594 | a column is read back iff its length is below 2^32 - 1; NULL differs from empty |
| CopyBinary.RowsRoundTrip | src/hooks/jsonexport.c:573-594 | rows are read back in order up to the trailer |
| CopyBinary.HeaderReads | src/postgres.c:245-248 | the 19 bytes read as the signature, clear flags and an empty header extension |
| CopyBinary.SessionRoundTrip | src/postgres.c:245-248 | header, rows and trailer are read back as exactly the rows |
| CopyBinary.SessionOfCount | src/hooks/jsonexport.c:573-576 | whatever follows, a first row that announces n columns is read with n columns, and not at all if n is negative in 16 bits |
| JsonExport.CountFields | src/hooks/jsonexport.c:448-449 | the configured field count, in 16 bits |
| JsonExport.CountIsStored | src/hooks/jsonexport.c:573-580 | the count over the needles that are run is the number of columns of every row |
| JsonExport.CountsAgreeBelow | src/hooks/jsonexport.c:631 | below 65536 needles the announced count is that of the needles that are run |
| JsonExport.RowBytesIff | src/hooks/jsonexport.c:573-594 | the bytes sent are the encoding of the row iff the announced count, taken over all needles, is that of the needles that are run |
| JsonExport.Occurs | src/hooks/jsonexport.c:240-248 | the substring search |
| JsonExport.RunFilter | src/hooks/jsonexport.c:228-262 | what each filter answers on a missing and on a found value: none but the default holds without one; equality; substring; existence |
| JsonExport.Deref | src/hooks/jsonexport.c:468-501 | succeeds iff no needle's action is against its filter's result and no text fails to be a timestamp where one is due, and yields each needle's column, NULL for a missing pointer |
| JsonExport.Assemble | src/hooks/jsonexport.c:573-605 | the buffer is the count followed by the stored columns in order |
| JsonExport.JsonExport | src/hooks/jsonexport.c:532-619 | the hook passes a message iff it is terminated, parses, and none of the needles that are run ends it; behind the count its bytes read as one column for each needle whose action is store, store_true or store_meta, in order: NULL iff the pointer leads nowhere, else the text found, or eight bytes that are its timestamp; the same for the exports producer with its seconds limit |
| JsonExport.RowMeans | src/hooks/jsonexport.c:264-270 | the same on the columns of every row that a session is proved to read back as |
| JsonExport.RowsDifferIff | src/exports.c:365-370 | hook and exports producer make different things of a message iff the hook passes it and a needle that is run reads a leap second |
| JsonExport.ExportRoundTripIff | src/hooks/jsonexport.c:532-619 | a single session of exported messages decodes to the stored columns of each passed message, in order, iff the field count is right and below 32768, or nothing was exported |
| Validate.Config.Validate | src/hooks/jsonexport.c:675-818 | the rotation succeeds iff every entry can be normalised and then leaves the elementwise normal forms in order; on the first bad entry it leaves the list half rotated with five unset strings at its end |
| Validate.StringEntry | src/hooks/jsonexport.c:693-700 | a string entry is its pointer with the four defaults |
| Validate.ArrayEntry | src/hooks/jsonexport.c:701-766 | an array gives pointer, type, action, filter and data by position, each the given word or its default; it is refused iff it is empty, names an unknown word, or lacks the data its filter needs |
| Validate.GroupEntry | src/hooks/jsonexport.c:767-804 | the same for a group, by name; it is refused without jpointer |
| Validate.OtherEntries | src/hooks/jsonexport.c:693-807 | other scalars and arrays of other things are refused, a list is let through without a pointer |
| Validate.NormaliseIdempotent | src/hooks/jsonexport.c:683-812 | an entry is left unchanged iff it is normal, and what comes out is normal |
| Validate.ValidateIdempotent | src/hooks/jsonexport.c:675-818 | a validated list passes again, unchanged, iff no entry was a list |
| Validate.SpellingsAgree | src/hooks/jsonexport.c:693-807 | string, array and group spellings of one entry have the same normal form, errors included |
| Needles.WrittenReads | src/hooks/jsonexport.c:408-461 | every needle can be configured: its five strings are normal and are read back as the needle |
| Needles.NormalReads | src/hooks/jsonexport.c:408-461 | every normal entry configures a needle whose pointer, type, action and filter are those its five strings name, and is what that needle is written as |
| BatchSpec.StepKeeps | src/postgres.c:278-340 | every step keeps: fewer than 2000 rows open, rows only in an open session, sessions of 1 to 2000 rows, no row lost or reordered |
| BatchSpec.EveryRun | src/postgres.c:278-340 | that, over every run; with no refused message a session is open iff it has rows |
| BatchSpec.CommitsIff | src/postgres.c:335-339 | a step commits iff it is the put of the 2000th row, or a tick at counter 15 while rows wait; and what every step does otherwise |
| BatchSpec.EverySessionEnded | src/postgres.c:335-339 | in every run each committed session was ended by the put of its 2000th row or by a tick at counter 15 |
| BatchSpec.PutsOnly | src/postgres.c:335-339 | without ticks, n rows are cut into n / 2000 sessions of 2000 rows each and n % 2000 rows wait |
| BatchSpec.FreeCommitsAll | src/postgres.c:345-358 | after the producer is freed the committed sessions one after another are all rows in order; only a last session can be empty |
| BatchSpec.EmptySessionIff | src/exports.c:688-700 | freeing commits a session without rows iff a message was refused while no rows were waiting and no row was put since, that is, iff a session is open with a count of 0 |
| BatchSpec.EmptySession | src/exports.c:688-700 | the shortest such run: one refused message |
| BatchSpec.BoundedStaleness | src/utils/postgres.c:48-57 | a row put at counter k is committed no later than by the (16 - k)-th following tick, in every interleaving |
| BatchSpec.StalenessIsTight | src/utils/postgres.c:48-57 | with one tick less it may still wait, for every k |
| Batch.Meta.constructor | src/postgres.c:160-167 | nothing is open or committed |
| Batch.Meta.Open | src/postgres.c:278-306 | starts a session on both connections, with the binary header where due |
| Batch.Meta.CommitSession | src/utils/postgres.c:11-23 | ends the session on both connections, the trailer to the master only, and resets the counters |
| Batch.Meta.PutRow | src/postgres.c:308-335 | both connections get the same row |
| Batch.Meta.Produce | src/postgres.c:278-340 | one put step; master and replica carry the same rows with the same batch boundaries |
| Batch.Meta.Refused | src/exports.c:625-684 | a refused message opens the session but sends no byte of a row |
| Batch.Meta.Tick | src/utils/postgres.c:48-57 | one worker round |
| Batch.Meta.FreeProducer | src/postgres.c:345-358 | commits an open session |
| Batch.SameSessions | src/utils/postgres.c:11-18 | master and replica carry the same sessions with the same rows; in binary mode the master's end in two bytes 255 more |
| Batch.MasterReadsBack | src/postgres.c:279-333 | every finished binary session on the master decodes to exactly the rows of its batch |
| Exports.Produce | src/exports.c:603-685 | an unterminated message does nothing, one that exports.c refuses (seconds above 59 included) opens the session, a passed one puts its row |
| Exports.HookAndProduce | src/main.c:199-204 | behind the hook a refused message makes no step of the batch machine, a passed one puts its row |
| Exports.SessionsReadBack | src/exports.c:625-680 | however rows are cut into batches, the sessions read back as the rows |
| Exports.EveryRunReadsBack | src/exports.c:603-700 | for the exports producer, and for the hook in front of the Postgres producer: for every sequence of messages and ticks that ends in freeing the producer, the master's sessions read one after another are exactly the stored columns of the messages that program passes, in order |
| Exports.HookedSessionsHaveRows | src/postgres.c:345-358 | behind the hook every committed session has 1 to 2000 rows, whatever is refused |
| Exports.RefusedAlone | src/exports.c:625-660 | one refused message and the end: the exports producer commits an empty session, the Postgres producer behind the hook none |
| Bits.XorShiftInjective | src/utils/fnv.c:56-60 | shift and xor loses nothing on 32 bits |
| Fnv.Fnv32a | src/utils/fnv.c:32-44 | the loop computes the FNV-1a hash |
| Fnv.KnownAnswer | src/utils/fnv.c:29-44 | the hash of the letter a is the published one, which fixes the start value, the prime and the order of operations |
| Fnv.TimesPrimeInjective | src/utils/fnv.c:40 | multiplication with the prime modulo 2^32 is injective |
| Fnv.OneByteApart | src/utils/fnv.c:32-44 | strings that differ in exactly one byte never hash equal |
| Fnv.FoldIsLowBits | src/utils/fnv.c:56-60 | a fold to n bits is below 2^n, the low bits of an invertible map |
| Fnv.FoldIsXor | src/utils/fnv.c:56-60 | a fold is the exclusive or of the n high and the n low bits, as quotient and remainder |
| Fnv.FoldIsUniform | src/utils/fnv.c:56-60 | for n from 1 to 31, every value below 2^n is hit by exactly 2^(32-n) hashes |
| Routing.HXmark | src/hooks/xmark.c:17-50 | only the mark changes: the folded hash of the field's string, and the configured mark for a missing field or another type |
| Routing.FallbackMark | src/hooks/xmark.c:22-49 | without a field, without an entry for it, or with one that is no string, the mark is the configured one |
| Routing.StringMark | src/hooks/xmark.c:36-37 | with a string it is the string's FNV-1a hash, or the exclusive or of its n high and n low bits |
| Routing.NeighboursApart | src/hooks/xmark.c:36-37 | without folding, keys that differ in one byte never share a lane |
| Routing.SameKeyKeepsOrder | src/queue.c:381-412 | over every run, of two messages marked by equal string keys the one added first is taken first |

## Left out

- libpq, librdkafka, json-c, libconfig: opaque; connections are logs of sent bytes, documents are maps, settings are values.
- `src/utils/bintree.c`: the tree of lanes is a map from mark to lane.
- Allocation failure: the source aborts or returns an error; the model always gets its memory.
- Table sizes above 2^32 and the 64-bit width of the queue's counters: numbers are unbounded there.
- A drained queue at exit: not promised by the code; a producer may time out and leave before a message arrives.
- Memory ownership: messages and metadata values are values; the rejecting-hook path frees nothing in the model.
- Placement of the `preget` hooks: hooks on one side of the queue are one step with one verdict.
- `metadata_callback_run` on a missing or mistyped callback: every message is taken to carry the offset callback.
- Kafka rebalances and the conversion of librdkafka errors.
- `explode_partitions`: no list round trip holds for it.
- Worker cancellation inside `commit`: a commit is one step.
- The bytes of `PQescapeLiteral`: a text row is given with its final bytes.
- The abort on an unexpected literal prefix and on a failed COPY command.
- JSON null at a pointer, and the metadata entry that `store_meta` writes.
- JSON well-formedness after removing NUL escapes: an escaped backslash before `u0000` is matched too.
- Dates that pass the checks without being real: they are encoded by the model, but nothing is claimed about them.
- `fnv32a_int` and unknown hash or fold names in the configuration.
- The default hash of the table: any function of the key will do.
- Byte-swap macros: numbers are written in network order directly.
- `1 << 31` in the fold mask is taken as the two's complement word.
- `exporter_validate`: the rotation of `Validate` with host and topic tests and without `store_meta`.
- Configuration merging, logger, option parsing, the file, dummy and redis drivers, `src/utils/array.c`: easy members.

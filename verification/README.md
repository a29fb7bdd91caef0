# A verified model of the TSK time-series pipeline

libtimeseries moves points (time, key, value) from producers to databases. A producer collects values in
a Key Package and flushes it; the Kafka backend packs the enabled records into batched messages; tsk-proxy
decodes them into its own Key Package and flushes that, time by time, into DBATS. A smaller path prints
points as text and reads them back with timeseries-insert. This project models these components and proves
what they keep, alone and together.

| file | component |
|---|---|
| `Basics.dfy`, `Arithmetic.dfy`, `Decimal.dfy` | machine words, byte order, C strings, last-writer-wins; division facts; decimal text |
| `KeyPackage.dfy` | the Key Package object and the simple definitions of its cached fields |
| `KafkaFormat.dfy`, `KafkaBackend.dfy` | the key hash, the wire format and the batching rule as values; the backend object with its real buffer |
| `Partitioner.dfy` | which partitions a producer reaches |
| `ProxyDecoder.dfy`, `WireRoundTrip.dfy` | decoding a message; encoder against decoder |
| `Dbats.dfy`, `Timeseries.dfy`, `WholeSink.dfy` | the transactional backend; `timeseries_kp_flush` and `timeseries_kp_resolve`; a backend that takes a flush whole or not |
| `ProxyHistory.dfy`, `ProxyStats.dfy` | the relation between received points, pending keys and database; statistics |
| `ProxyFeed.dfy`, `TskProxy.dfy` | what the proxy is fed, its bursts and what is due by when; the proxy process |
| `Pipeline.dfy`, `Interleaving.dfy` | producer, Kafka, proxy and database joined: one flush; many flushes in the order Kafka keeps |
| `AsciiText.dfy`, `LineGrammar.dfy`, `Insert.dfy` | printer and line parser; the lines it accepts; batch insert |

How to read it. `LastValue(points, t, k)` is the reference meaning of a list of writes: the last value written
at (t, k). Every storage claim is stated against it. The foreign libraries answer from a script: a finite list
of answers of `rd_kafka_produce` (accepted, queue full, fatal) or libdbats (ok, deadlock, error), after which
they succeed. All claims hold for every script, so for every pattern of back-pressure, deadlock and failure in
which retries end, and what a call returns is told beforehand from the script and the sizes involved. A commit
that fails leaves the DBATS store as it was; this is assumed of libdbats and built into `Dbats.CommitSnap`. A
proxy run is fed an arbitrary list of polls, clock readings and signals, over a database that may already hold
data.

Domain. The encoder takes keys shorter than 65535 bytes, as it asserts, and in ascii format lines shorter than
half its buffer; the results that reach the proxy take NUL-free keys shorter than its 1024-byte key buffer. The
channel name is shorter than 1024 bytes (the topic-name check); `char` is signed; `unsigned long` has 64 bits;
the clock reads a time before 2038.

## Findings

- Time 0 is both "no time set" and FORCE_FLUSH. Points stamped 0 never reach the database under their time.
  After a completed force flush the database shows every received point, last writer winning, over what it held
  before, if no point is stamped 0, and otherwise at most when each value stamped 0 was there already
  (`ProxyHistory.FinalDatabaseIff`, `Pipeline.ZeroTimeMessage`). The same value makes batch insert merge a run
  at time 0 into the next run; it writes one table per maximal run if and only if no point at 0 is directly
  followed by a point at another time (`Insert.OneTablePerRunIff`).
- `while (remain > 0)` in handle_message never ends when exactly one byte is left, because a read that runs out
  of bytes returns 0, not an error. It ends if and only if that state is never reached
  (`ProxyDecoder.LoopTerminatesIff`), and always ends on what the encoder writes. One byte behind any written
  message hangs the proxy (`WireRoundTrip.LeftoverByteHangs`); which cuts of a written message do is decided by
  the position of the cut and the bytes of the cut value (`WireRoundTrip.CutMessageHangsIff`).
- The comment beside time_partitioner says the partition count must not be a multiple of the step. That is
  neither necessary nor sufficient; all partitions are used if and only if step and count are coprime
  (`Partitioner.AllPartitionsIffCoprime`, `Partitioner.CommentIsNotTheCondition`). The code is modelled, not the
  comment.
- timeseries_kp_resolve clears `dirty` before it knows the outcome. With n enabled records that have no id, a
  flush after it is safe if and only if the next n answers of the database are all ok (`Timeseries.Resolve`);
  one new key and one error answer break it (`Timeseries.ResolveThatFails`). Re-enabling a key is safe if and
  only if it has an id or the package is dirty (`Timeseries.EnableKeepsReadyIff`). The proxy stays within both
  conditions. With several backends a flush stays safe because of their order (`Timeseries.Flush`).
- A deadlock in a set or at the commit is retried, a deadlock at the select is not. A flush succeeds if and only
  if every attempt before the last deadlocks in a set or at its commit and the last is ok throughout
  (`Dbats.FlushSucceedsIff`, `Dbats.DeadlockAtSelect`).
- insert never clears errno. A text is read as its lines would be one by one if and only if no acceptable line
  stands after a number that does not fit 64 bits (`AsciiRoundTrip.NothingIsLostIff`); one such number in front
  of a printed flush loses all of it (`AsciiRoundTrip.OneBigValueLosesTheRest`, `AsciiRoundTrip.LostLine`).

## Model

| member | source | states |
|---|---|---|
| KeyPackage.IndexIsLargestId | lib/timeseries_kp.c:372-378 | after any sequence of additions the hash holds exactly the names present, each at the largest id carrying it |
| KeyPackage.KP.AddKey | lib/timeseries_kp.c:349-387 | appends one enabled record of value 0 even for an existing name, repoints the index, counts it, sets dirty; earlier ids and names stay; a caller that looks up first keeps names unique |
| KeyPackage.KP.GetKey | lib/timeseries_kp.c:389-399 | -1 exactly when no record has the name, otherwise the largest id that has it |
| KeyPackage.KP.DisableKey | lib/timeseries_kp.c:409-415 | changes only that record's flag, and the cached count stays the number of enabled records, also when it was disabled already |
| KeyPackage.KP.EnableKey | lib/timeseries_kp.c:417-423 | the same for enabling |
| KeyPackage.KP.Set | lib/timeseries_kp.c:430-436 | changes only that record's value; index and count stay right |
| KeyPackage.KP.ResetDisable | lib/timeseries_kp.c:150-165 | values become 0 with reset and stay otherwise, flags are set with disable and stay otherwise, names stay, and with disable the cached count is 0 |
| KeyPackage.EnabledLength | lib/timeseries_kp.c:226-229 | the cached count is the number of points a flush emits, all at the flush time |
| KeyPackage.EnabledValue | lib/timeseries_kp_int.h:65-68 | with unique names a flush carries for each key exactly the value of its enabled record, once |
| KafkaFormat.HashExtend | lib/backends/timeseries_backend_kafka.c:650-658 | one round of shift-add modulo 2^32 is one Horner step of the polynomial 5381·33^n + sum c_i·33^(n-1-i) |
| KafkaBackend.KeyHash | lib/backends/timeseries_backend_kafka.c:650-658 | the loop over a NUL-terminated string returns that polynomial modulo 2^32, for every byte string, signed char |
| KafkaFormat.HashOfA | lib/backends/timeseries_backend_kafka.c:650-658 | a known value of the hash: keyhash("a") is 177670 |
| KafkaBackend.PrefixHash | lib/backends/timeseries_backend_kafka.c:728-735 | returns the hash of everything before the last dot, of the whole name when there is no dot, and the NUL written into the key is undone |
| KafkaFormat.MsgKeyMeans | lib/backends/timeseries_backend_kafka.c:713-735 | a record travels under the flush time, or in tskkey format under the hash of everything before the last dot of its name, of the whole name when it has none |
| KafkaFormat.SiblingsShareStem | lib/backends/timeseries_backend_kafka.c:713-735 | keys that differ only in a dot-free last term are hashed over the same prefix |
| KafkaFormat.SiblingsShareMessageKey | lib/backends/timeseries_backend_kafka.c:320-329 | in tskkey format the four key bytes of a message decode to the hash of every record in it, and all keys with one prefix go to one partition |
| KafkaFormat.BatchesKeepPoints | lib/backends/timeseries_backend_kafka.c:660-775 | batching loses, repeats and reorders nothing; every message has one key, that of each of its records; a message is at most half the buffer plus one record; outside tskkey every message but the last exceeds half the buffer |
| KafkaFormat.BatchesAreFull | lib/backends/timeseries_backend_kafka.c:737-765 | in every format a message ends only because it is over half full or the next record has another key |
| KafkaFormat.CutStaysCut | lib/backends/timeseries_backend_kafka.c:737-765 | what was cut after a prefix of the records is a prefix of the messages of the whole flush |
| KafkaBackend.Kafka.WriteHeader | lib/backends/timeseries_backend_kafka.c:465-495 | appends exactly the header bytes behind what is in the buffer; none of the space assertions fires |
| KafkaBackend.Kafka.WriteKv | lib/backends/timeseries_backend_kafka.c:497-520 | appends exactly length, key and value in network byte order; none of the space assertions fires |
| KafkaBackend.Kafka.WriteAscii | lib/backends/timeseries_backend_kafka.c:522-526 | returns the full line length, and appends exactly the line when it fits |
| KafkaBackend.AnswerByAnswer | lib/backends/timeseries_backend_kafka.c:98-113 | a full queue is tried again, an acceptance hands over one message, any other answer stops, and an exhausted script accepts |
| KafkaBackend.AllGetThroughIff | lib/backends/timeseries_backend_kafka.c:98-113 | all n messages get through exactly when no fatal answer stands before the n-th acceptance |
| KafkaBackend.StopsAtFatal | lib/backends/timeseries_backend_kafka.c:98-113 | otherwise as many get through as there are acceptances before the first fatal answer, which is the last one asked for |
| KafkaBackend.Kafka.SendMsg | lib/backends/timeseries_backend_kafka.c:94-126 | the buffer content is handed over, however often the queue is full, unless a fatal answer comes before the first acceptance; then not at all; the buffer is empty afterwards on every path |
| KafkaBackend.Kafka.AddRecord | lib/backends/timeseries_backend_kafka.c:683-765 | one round of the loop on the real buffer follows the batching rule; on a fatal answer the accepted messages are those cut before |
| KafkaBackend.Kafka.KpFlush | lib/backends/timeseries_backend_kafka.c:660-775 | 0 exactly when no fatal answer stands before as many acceptances as there are messages; the accepted messages are the expected list up to the first fatal answer, in order and without repetition; only what is enabled is asked to fit; the buffer is idle on every exit |
| KafkaBackend.Kafka.SetSingle | lib/backends/timeseries_backend_kafka.c:777-832 | hands over one message with header and one record under the record's own key, or returns -1 exactly when a fatal answer comes before the first acceptance |
| KafkaBackend.HandedOffIff | lib/backends/timeseries_backend_kafka.c:660-832 | result, messages handed over and answers left in terms of the answers only |
| KafkaBackend.DeliverStops | lib/backends/timeseries_backend_kafka.c:104-113 | after a fatal answer nothing more is handed over, however many messages were left |
| WireRoundTrip.BatchingRefinesSetSingle | lib/backends/timeseries_backend_kafka.c:660-832 | for every key the encoder can write: read record by record, the messages of one kp_flush give the same (message key, time, key, value) sequence as set_single on each enabled record in id order |
| WireRoundTrip.AsciiFlushIsText | lib/backends/timeseries_backend_kafka.c:684-691 | in ascii format the payloads concatenate to the text of the enabled records, every message under the flush time |
| WireRoundTrip.BodyRoundTrip | lib/backends/timeseries_backend_kafka.c:497-520 | a body written record by record is decoded to exactly those records and to its last byte |
| WireRoundTrip.BodyKeysFit | tools/tsk-proxy.c:235-262 | keys that fit the proxy's buffer never overrun it when read back from a written body |
| WireRoundTrip.BodyThenTail | tools/tsk-proxy.c:393-398 | written records are decoded one by one whatever follows them, and what follows decides how the loop ends |
| WireRoundTrip.CutBodyDecodes | tools/tsk-proxy.c:235-290 | a body cut at any byte yields exactly the records wholly before the cut; re-reading the bytes of a cut value invents none; whether the loop then ends, stops on an overrun or is stuck follows from the position of the cut and the bytes of the cut value |
| WireRoundTrip.LeftoverByteHangs | tools/tsk-proxy.c:393-398 | any written message with one byte more passes the header checks and never leaves the loop |
| WireRoundTrip.CutMessageHangsIff | tools/tsk-proxy.c:393-398 | a message cut inside its body hangs exactly when the cut record ends on one byte |
| WireRoundTrip.HeaderRoundTrip | lib/backends/timeseries_backend_kafka.c:465-495 | a written header passes all checks of the proxy and gives back the time and the body |
| WireRoundTrip.FlushDecodes | tools/tsk-proxy.c:335-401 | every message of a flush is accepted and consumed to its last byte, and together they give the producer's enabled records in order, less those the filters drop |
| Partitioner.PartitionPeriod | lib/backends/timeseries_backend_kafka.c:320-329 | two flushes of a producer with a fixed step reach the same partition exactly when their distance is a multiple of n/gcd(step, n) |
| Partitioner.ReachedCount | lib/backends/timeseries_backend_kafka.c:320-329 | m flushes reach min(m, n/gcd(step, n)) partitions |
| Partitioner.AllPartitionsIffCoprime | lib/backends/timeseries_backend_kafka.c:326-328 | a run of at least n flushes uses all n partitions exactly when step and n are coprime |
| Partitioner.CommentIsNotTheCondition | lib/backends/timeseries_backend_kafka.c:326-328 | two counterexamples to the condition in the comment, one for each direction |
| ProxyDecoder.ParseOneProgress | tools/tsk-proxy.c:235-290 | a call stops the loop, or consumes at least two bytes, or leaves a single byte as it was; what is left is always a tail |
| ProxyDecoder.LoopTerminatesIff | tools/tsk-proxy.c:393-398 | the body loop terminates exactly when it never has one byte left |
| ProxyDecoder.HeaderAcceptedIff | tools/tsk-proxy.c:335-385 | a message is taken exactly when it is any eight bytes, the version, a time, a channel that agrees with the configured one as far as the shorter goes, and a body |
| ProxyDecoder.PassesIff | tools/tsk-proxy.c:265-278 | a key passes exactly when there is no filter or it is some filter with something behind it |
| ProxyDecoder.EveryFilterCounts | tools/tsk-proxy.c:265-278 | a list of filters lets through what either of its halves does, and whatever stands behind any one of them |
| ProxyDecoder.OthersAreDropped | tools/tsk-proxy.c:265-278 | a key shorter than the only filter, or differing from it, is dropped |
| ProxyDecoder.MessagePointsIff | tools/tsk-proxy.c:235-290 | a message contributes exactly the records decoded from it whose key is under some filter, under its time and the C string of the key |
| Basics.CStringEndsAtNul | tools/tsk-proxy.c:255-257 | what stands behind a NUL in a received key is not part of the name |
| Dbats.Dbats.KiUpdate | lib/backends/timeseries_backend_dbats.c:252-287 | 0 exactly when the first answers, as many as there are enabled records without an id, are all ok, and exactly when every enabled record then has an id; it stops at the first other answer; cached ids are always the database's ids, none is lost, and readers see no change |
| Dbats.Dbats.SetRecords | lib/backends/timeseries_backend_dbats.c:318-337 | the snapshot holds exactly the enabled (id, value) pairs in id order, or the loop stopped at the first answer that is not 0 |
| Dbats.Dbats.KpFlush | lib/backends/timeseries_backend_dbats.c:298-350 | all or nothing: 0 means the store is the old one with exactly the enabled pairs written at this time, -1 means it is unchanged; result and answers left are those of the retry rule, whose meaning the next rows give; retries end |
| Dbats.CommitIsOverlay | lib/backends/timeseries_backend_dbats.c:318-340 | seen by key name, a commit shows the last enabled value of each key at this time and leaves every other (time, key) alone |
| Dbats.FlushSucceedsIff | lib/backends/timeseries_backend_dbats.c:309-349 | a flush succeeds exactly when every attempt before the last deadlocks in a set or at the commit, and the last is ok throughout |
| Dbats.DeadlockSurvived | lib/backends/timeseries_backend_dbats.c:325-345 | a deadlock in a set or at the commit leaves the flush as if it began after it |
| Dbats.OtherErrorsEndIt | lib/backends/timeseries_backend_dbats.c:309-349 | any other error, and any answer but ok to the select, a deadlock included, ends the flush with -1 |
| Dbats.DeadlockAtSelect | lib/backends/timeseries_backend_dbats.c:309-316 | the one answer "deadlock" to the select fails the flush |
| Dbats.AllOkOutcome | lib/backends/timeseries_backend_dbats.c:309-349 | when every answer is ok every flush succeeds |
| Timeseries.DbatsTurn | lib/timeseries_kp.c:470-480 | failed updates and failed flushes leave readers and table alone and the package ready: dirty again, or resolved; the answers decide which |
| Timeseries.Flush | lib/timeseries_kp.c:459-484 | for any subset of the backends, in id order: what each was given on success and on failure (Kafka nothing when DBATS failed), which answers decide it; only after all succeeded values are 0 with reset and flags set with disable, otherwise they stay; no missing id is ever read by this flush or the next, and the proxy's discipline is kept |
| Timeseries.Resolve | lib/timeseries_kp.c:438-457 | after it a flush is safe exactly when the first answers, as many as there are enabled records without an id, are all ok |
| Timeseries.ResolveThatFails | lib/timeseries_kp.c:438-457 | a reachable state where it is not: one new key, one error answer |
| Timeseries.EnableKeepsReadyIff | lib/timeseries_kp.c:417-423 | re-enabling keeps a package safe to flush exactly when the record has an id or the package is dirty |
| ProxyHistory.FlushEmitsWindow | tools/tsk-proxy.c:301-313 | a flush emits each key received since the previous boundary once, with its latest value, at one time, and nothing else |
| ProxyHistory.CompleteFlush | tools/tsk-proxy.c:301-315 | a completed flush turns the pending window into a commit that the database then shows |
| ProxyHistory.ObservedIsLastWriterWins | tools/tsk-proxy.c:292-319 | in every reachable state database and pending keys together show the last value of every point received, over what the database held at the start, wherever flushes fell |
| ProxyHistory.FinalDatabaseIff | tools/tsk-proxy.c:292-319 | after a completed force flush the database alone shows all points, last writer winning over what it held before, when no point is stamped 0; otherwise at most when each value stamped 0 was there already, never when nothing was |
| TskProxy.Proxy.MatchesFilter | tools/tsk-proxy.c:265-278 | true exactly when there is no filter or the key is some filter with something behind it |
| TskProxy.Proxy.PutKey | tools/tsk-proxy.c:280-287 | exactly this key becomes enabled with this value; names stay unique, the id cache and the discipline stay right |
| TskProxy.Proxy.ParseKeyValue | tools/tsk-proxy.c:235-290 | return code, bytes consumed and the point received are those of the decoding function |
| TskProxy.Proxy.MaybeFlush | tools/tsk-proxy.c:292-319 | a window collected under another time is committed at its own time, an empty one is not; whether it succeeds is told from the answers beforehand; failure changes nothing; the enabled-size assertion holds |
| TskProxy.Proxy.HandleMessage | tools/tsk-proxy.c:335-401 | a message is skipped without effect, or its points join the window of its time after the flush of another; the answers decide whether that flush fails, and then nothing is taken from the message |
| TskProxy.Proxy.TakePoll | tools/tsk-proxy.c:582-604 | a message is handled, an end of partition counted, another error ignored; the burst is over after it exactly when SIGINT was caught or ten ends of partition came since the last message |
| TskProxy.Proxy.Burst | tools/tsk-proxy.c:571-607 | every data message polled in a burst is handled, in order; on a failed flush exactly those before it, on a hang those up to the one that hangs; it ends at the first poll that answers nothing, comes with SIGINT or is the tenth end of partition since a message, not before; the statistics follow every clock read |
| TskProxy.Proxy.Run | tools/tsk-proxy.c:549-614 | for every feed and on every exit: exactly the accepted messages of the polls used were handled; SIGINT is noticed before the next poll, and nothing but it or the end of the feed ends a run with 0; the polls fall into whole bursts, what came in before a burst is committed when it begins, and the statistics follow every clock read; a hang is reported exactly when one of the messages hangs; the final state is faithful to the points received (what readers see, unique names, sound id cache, unresolved keys enabled and marked, counts); whether 0 is returned is told by replaying the answers over the flushes made; a failed flush is tried once more, and whenever the last flush succeeded the database alone shows all points when none is stamped 0, and over a base without time 0 only then |
| TskProxy.Proxy.AnswersDecide | tools/tsk-proxy.c:310-313 | between any two states of a proxy the answers given decide which flushes failed; none does when all are ok |
| TskProxy.Proxy.StatsAreConserved | tools/tsk-proxy.c:301-333 | in every reachable state emitted plus pending counts are the messages, bytes and flushes that happened; flushed keys are at least the points written, equal when no flush failed; stats flush times are strictly increasing multiples of the interval |
| ProxyStats.IntervalNow | tools/tsk-proxy.c:101-102 | the multiple of the interval at or before the clock, less than one interval away |
| ProxyStats.Stats.IncStat | tools/tsk-proxy.c:212-233 | adds the amount to exactly one statistic, creating it when new, and keeps emitted plus pending equal to the total |
| ProxyStats.Stats.MaybeFlush | tools/tsk-proxy.c:321-333 | emits the table at the old interval time exactly when an interval has passed and the backend takes it, whatever the clock does |
| Pipeline.Relay | tools/tsk-proxy.c:335-401 | one producer flush in tsk or tskkey format leaves exactly the producer's enabled records, filtered, last record of a name winning, enabled in a proxy with nothing pending; a failed flush leaves the proxy untouched |
| Pipeline.RelayToDatabase | tools/tsk-proxy.c:292-319 | and after a force flush the database shows everything relayed when no point is stamped 0, and over a base without time 0 only then |
| Pipeline.ZeroTimeMessage | tools/tsk-proxy.c:296-315 | a message stamped 0 is decoded like any other |
| Pipeline.ZeroTimeIsNeverWritten | tools/tsk-proxy.c:296-315 | a point stamped 0 never reaches the database under its time: what is found there was there before |
| Pipeline.AsciiFlushReadsBackIff | tools/timeseries-insert.c:58-110 | the payloads of an ascii flush are read back as its enabled records exactly when no key has a space, a newline or a leading '#' |
| Interleaving.NeighboursMaySwap | lib/backends/timeseries_backend_kafka.c:320-329 | any two neighbouring messages of different partitions may arrive in the other order |
| Interleaving.OrderWithinPartition | lib/backends/timeseries_backend_kafka.c:320-329 | two messages of one partition may not |
| Interleaving.OwnPartitionDecides | lib/backends/timeseries_backend_kafka.c:320-329 | what is found at (time, key) depends only on the messages of one partition, the one its Kafka key maps to |
| Interleaving.InterleavingDoesNotMatter | tools/tsk-proxy.c:335-401 | any number of flushes of any times, delivered in order within each partition and interleaved at will across partitions: at every (time, key) the proxy finds the last enabled value in flush order |
| Interleaving.RunOnRounds | tools/tsk-proxy.c:549-614 | such messages polled among any other answers and fed to run: when 0 is returned the database shows that fold over what it showed before, and only a flush to the database can make it otherwise |
| AsciiText.AsciiBackend.TimeBuffer | lib/backends/timeseries_backend_ascii.c:245-249 | every uint32 fits the 11-byte buffer with its NUL |
| AsciiText.AsciiBackend.KpFlush | lib/backends/timeseries_backend_ascii.c:238-260 | prints one line per enabled record, in id order |
| AsciiText.AsciiBackend.SetSingle | lib/backends/timeseries_backend_ascii.c:262-276 | prints the one line |
| AsciiRoundTrip.NextLine | tools/timeseries-insert.c:326-330 | a line is what stands before the next newline, but at most 1023 bytes of it, and nothing is lost between lines but the newlines |
| LineGrammar.NumberIsRead | tools/timeseries-insert.c:90-106 | strtoull and strtoul read white space, a sign and digits to the last digit and stop there, a minus negating modulo 2^64, and report a number of 2^64 or more |
| LineGrammar.AcceptedIff | tools/timeseries-insert.c:74-110 | a line is accepted exactly when it is a key, a value and a time between single spaces, both whole tokens numbers below 2^64, and as exactly that point, the time modulo 2^32 |
| LineGrammar.AcceptableIff | tools/timeseries-insert.c:326-337 | an input line is acceptable exactly when it is no comment and what stands before its first NUL is so formed |
| LineGrammar.OutOfRangeIff | tools/timeseries-insert.c:90-106 | errno becomes ERANGE exactly on a value token that begins with a number of 2^64 or more, or behind a good value on such a time token |
| AsciiRoundTrip.ErangeIsForever | tools/timeseries-insert.c:89-110 | once errno is ERANGE nothing is accepted from any further text |
| AsciiRoundTrip.NothingIsLostIff | tools/timeseries-insert.c:89-110 | a text is read as its lines would be one by one, each with errno clear, exactly when no acceptable line stands after a number out of range |
| AsciiRoundTrip.OneBigValueLosesTheRest | tools/timeseries-insert.c:89-96 | behind one value of 2^64 or more a whole printed flush is lost, each line of which is acceptable |
| AsciiRoundTrip.LostLine | tools/timeseries-insert.c:89-96 | the text "a 18446744073709551616 1", "b 1 1" loses its second line |
| AsciiRoundTrip.TextReadsBackIff | tools/timeseries-insert.c:58-110 | for any uint64 values and uint32 times the printed text is read back exactly when no key has a space, a newline or a leading '#' |
| Insert.RunsAreMaximal | tools/timeseries-insert.c:117-129 | the reference runs are non-empty, of one time each, neighbours differing, and make up the input in order |
| Insert.OneTablePerRunIff | tools/timeseries-insert.c:117-129 | one table per maximal run of equal times exactly when no point at 0 is directly followed by a point at another time |
| Insert.ZeroTimeIsMerged | tools/timeseries-insert.c:117-121 | any point at 0 followed by a point with a time makes one table where there are two runs |
| Insert.FirstSeenIsComplete | tools/timeseries-insert.c:131-136 | a table lists exactly the keys seen so far |
| Insert.FirstSeenIsDistinct | tools/timeseries-insert.c:131-136 | and none of them twice |
| Insert.Inserter.InsertBatch | tools/timeseries-insert.c:116-141 | a point of another time first closes the table; a refused table leaves exactly the closed ones written |
| Insert.Inserter.InsertLine | tools/timeseries-insert.c:58-144 | a line inserts a point exactly when errno is clear and the line is a key, a value and a time between single spaces, both whole numbers, and then exactly that point; any other has no effect but on errno |
| Insert.Inserter.ReadAll | tools/timeseries-insert.c:326-344 | over a whole input every run is written, the last by the final flush, each table with all keys seen so far in first-seen order and their last value in the run or 0 |

## Left out

- librdkafka and libdbats: only their answers, the id of a key (any fresh one), and the store of committed snapshots; connection set-up, polling, delivery reports and DBATS bundling are not modelled.
- wandio: the output is a byte sequence; `NextLine` assumes that wandio_fgets returns up to 1023 bytes or a line without its newline, and a positive count for an empty line.
- Allocation failures, free functions, khash internals, and counters that pass 2^31 keys: a map stands for the hash and counts are unbounded.
- PrefixHash: works in place on a copy of the key, because key records hold their names as values; that other readers of the record could see the NUL meanwhile is not modelled.
- Snapshot: libdbats writes into a snapshot through a pointer; here each dbats_set returns the extended snapshot, so aliasing of snapshots is not modelled.
- IncStat: signed overflow of a statistic is modelled as wrap-around, and conservation is claimed for counts below 2^31 only; the assertion on a value that is negative after conversion to int is not modelled.
- ParseKeyValue: requires key lengths below the key buffer, as the source's buffer does.
- Run: a list of polls stands for an unbounded run, and the end of the list for a shutdown; a message whose loop never ends ends the run with `hangs`.
- Kafka's delivery between producer and proxy: each partition is taken to be delivered whole, once and in order (`Interleaving.SamePartitions`); lost and repeated messages are covered by `Run`, which takes any messages in any order.
- KafkaBackend.Kafka.KpFlush: in ascii format requires lines shorter than half the send buffer, because snprintf truncates a longer one while its full length is counted, and what is sent then is undefined.
- KafkaBackend.Kafka.SetSingle: in ascii format requires a line shorter than the send buffer, for the same reason.
- timeseries_backend_dbats_set_single: never stores its value argument, so it is not used as a reference.
- Bulk and by-id calls of the backends: a small counter protocol or not implemented.
- YAML and getopt parsing, usage text, logging, signals, the backend registry: no property of interest.

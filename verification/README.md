# kafka-ingestion, modelled in Dafny

This project models the core of the kafka-ingestion pipeline and proves properties of the model.
The pipeline moves changed rows of a PostgreSQL `products` table through Kafka into Snowflake.

- **Producer cycle** (`src/producer.py`). It fetches the rows newer than a high-watermark timestamp and produces one Avro message per row, keyed by `product_id`. Then it moves the watermark to the table's latest `updated_timestamp`, writes the watermark to a file and drains the delivery queue.
- **Watermark file** (`src/utils.py`). The watermark is stored as `%Y-%m-%d %H:%M:%S.%f` text. It is read back with `strptime`, and falls back to `1900-01-01` when the file is missing or blank.
- **Consumer loop** (`src/consumer.py`). It polls Kafka and accumulates records into a batch. A batch is flushed when it reaches `BATCH_SIZE` or when `BATCH_TIME_LIMIT_SECONDS` have elapsed. A flush writes the batch as JSON lines, loads them into Snowflake and commits the consumer offsets.
- **Schema registration** (`src/schema.py`). The producer's setup registers the Avro schema under its subject when the registry does not list the subject yet.

## Layout

| file | module | contents |
|---|---|---|
| `wrappers.dfy` | `Wrappers` | `Option` and `Result` |
| `digits.dfy` | `Digits` | decimal digit strings: `str(n)`, zero-padded fields, reading digits back |
| `calendar.dfy` | `Calendar` | proleptic Gregorian calendar: dates and day numbers, both directions |
| `watermark.dfy` | `Watermark` | `get_last_successful_timestamp` and `set_last_successful_timestamp`: the `strftime`/`strptime` codec |
| `iso_time.dfy` | `IsoTime` | UTC ISO 8601 text with milliseconds and `Z`, plus a reader for it |
| `json_string.dfy` | `JsonString` | `json.dumps` string escaping, plus a JSON string reader |
| `json_object.dfy` | `JsonObject` | `json.dumps` of a flat dict of strings and numbers, plus a reader of such an object |
| `transfer.dfy` | `Transfer` | the JSON-lines text of a batch |
| `consumer.dfy` | `Consumer` | the consumer loop as a step function over poll events |
| `producer.dfy` | `Producer` | one `produce_message` cycle |
| `schema.dfy` | `Schema` | `check_schema_existence`, `create_schema` and the producer's setup |

## How the outside world enters the model

- **Consumer.** Each consumer event carries what `poll` returned and what the deserializers made of the message. It also carries two clock readings: the one compared with the time limit, and the one stored when the timer is reset. Finally it carries whether the Snowflake calls succeed if the event triggers a load. A load *lands* when every timestamp converts to ISO text and the Snowflake calls succeed.
- **Consumer commit policy.** The consumer takes a commit policy. `AsWritten` commits after every load attempt, as the code does. `AfterLanding` commits only after a load that landed, as the comments in the loop promise (see Findings).
- **Producer.** Each fetched row comes with what the serializer and `produce` did with it. The cycle also receives what the `max(updated_timestamp)` query returned.
- **Schema registry.** Each registration receives the registry's answer. The registry itself is a map from subjects to schema versions.

## How the code treats the watermark

- **Value.** After a completed loop the code sets the watermark to `max(updated_timestamp)` over the whole table. It does not use the rows it fetched or delivered (src/producer.py:104-107). So rows skipped in a completed cycle are never fetched again (`Producer.SkippedRowsAreNotRefetched`). Neither is a row committed to the table later with a timestamp older than that maximum.
- **Timing.** The watermark file is written inside the `try` (src/producer.py:106). The final `flush` runs afterwards, in the `finally` (src/producer.py:111-114), and messages still queued after its timeout are only logged. `Producer.ProduceCycle` states this order: the write is the effect just before the final drain.
- **Crash consistency.** `open(..., mode='w')` truncates the file before `strftime` runs (src/utils.py:23-24). A NULL table maximum therefore empties the file and then raises. The exception is caught at src/producer.py:109. The next start reads the empty file as the `1900-01-01` sentinel (src/utils.py:15-18). `Producer.ProduceCycle` models the emptied file.
- **Year formatting.** `strftime("%Y")` is modelled as CPython renders it on Linux with the GNU C library: without zero padding. So years below 1000 are written with fewer than four digits and cannot be read back (`Watermark.ShortYearRejected`). On a C library that pads `%Y` to four digits these years would read back.

## Model

| member | source | states |
|---|---|---|
| Watermark.GetLastSuccessfulTimestamp | src/utils.py:10-18 | A missing file, or a file holding only whitespace, gives the `1900-01-01 00:00:00` sentinel. Any other value read is a valid datetime. |
| Watermark.Parse | src/utils.py:17 | `strptime` accepts only text that denotes a valid datetime: the month and day exist, and the time of day is in range. |
| Watermark.Format | src/utils.py:24 | For a four-digit year the text is 26 characters long. It has `-`, `-`, space, `:`, `:` and `.` at positions 4, 7, 10, 13, 16 and 19, and ASCII digits everywhere else. |
| Watermark.SetLastSuccessfulTimestamp | src/utils.py:21-24 | The file afterwards is present and non-empty. Reading it back gives the same timestamp, down to the microsecond, for every year from 1000 to 9999, and raises `ValueError` for years below 1000. |
| Watermark.RoundTrip | src/utils.py:15-24 | Stripping the formatted text leaves it unchanged, and parsing it gives back the timestamp (four-digit years). |
| Watermark.ShortYearRejected | src/utils.py:15-24 | The file written for a year below 1000 does not read back: the reader raises. |
| IsoTime.FormatUtcMillis | src/consumer.py:86-92 | The ISO text of an instant in the datetime range is 24 characters long. |
| IsoTime.FormatLayout | src/consumer.py:86-92 | The text is `YYYY-MM-DDTHH:MM:SS.mmmZ`: the zero-padded fields of the instant's UTC calendar date and time of day. Days are split off with floor division, so instants before 1970 land on the right day. |
| IsoTime.ParseFormat | src/consumer.py:86-92 | Reading the ISO text back gives the same millisecond instant, for every instant a datetime can hold. |
| JsonString.EscapeChar | src/consumer.py:94 | `json.dumps` escapes every character into non-empty printable ASCII. |
| JsonString.Escaped | src/consumer.py:94 | An escaped string body is printable ASCII and at least as long as the string. |
| JsonString.UnescapeEscaped | src/consumer.py:94 | A JSON reader recovers every string from its escaped body, including characters beyond the Basic Multilingual Plane written as surrogate pairs. |
| Transfer.IsoText | src/consumer.py:80-92 | The ISO text of a timestamp is 24 characters long. |
| Transfer.IsoTextParsesBack | src/consumer.py:80-92 | Epoch milliseconds have ISO text exactly when they lie in the datetime range. An aware datetime has it exactly when its instant, truncated to the millisecond, does. The text reads back as that millisecond instant. |
| Transfer.EncodeRecord | src/consumer.py:79-94 | A record has a JSON line exactly when its timestamp converts. The line is a printable-ASCII object text, so it contains no newline. |
| Transfer.EncodeRecordReadBack | src/consumer.py:79-94 | A JSON reader finds exactly five members in the line, in schema order. `product_id`, `name` and `category` read back as the record's strings, and `price` as its number text. `updated_timestamp` is a string that parses back to the record's instant, truncated to the millisecond. |
| JsonObject.ReadObjectText | src/consumer.py:94 | Reading the object text `json.dumps` writes for a dict gives back its items, keys and values, in insertion order. |
| Transfer.EncodeBatch | src/consumer.py:76-94 | The transfer text of a batch exists exactly when every record's timestamp converts. Otherwise the load attempt is abandoned. |
| Transfer.OneLinePerRecord | src/consumer.py:76-94 | The transfer text splits into exactly one line per batch record, in batch order, and line i is record i's JSON text. |
| Consumer.Flush | src/consumer.py:67-144 | A load attempt of a non-empty batch empties the batch whether or not the load landed. The load is recorded before the commit that follows it. |
| Consumer.Step | src/consumer.py:150-207 | Partition ends and broker errors, including authentication failures, change nothing. So do messages with a `None` key or value or a failed deserialization. An idle poll flushes exactly when the batch is non-empty and the time limit has elapsed. An accepted record flushes exactly when it fills the batch or the time limit has elapsed. A flush leaves the batch empty. The timer changes only on a flush, to the reading taken after it. Shutdown stops the loop after one last load of a non-empty batch. History is only extended. The batch stays below `BATCH_SIZE`. |
| Consumer.StepConserves | src/consumer.py:179-198 | After each event the loaded records followed by the batch are the records accepted so far, in arrival order. |
| Consumer.StepKeepsInv | src/consumer.py:181-207 | Each event keeps the batch below `BATCH_SIZE` and keeps the action history ordered. Under `AsWritten` every load attempt is immediately followed by a commit (interrupts arrive only between events; see Left out). Under `AfterLanding` every commit immediately follows a landed load. No load has an empty batch. |
| Consumer.Run | src/consumer.py:150-207 | Over any sequence of events the invariant of `StepKeepsInv` holds and the history is only extended. |
| Consumer.RunConserves | src/consumer.py:150-207 | Every record accepted before shutdown has been handed to a load attempt, landed or not, or is still in the batch. None is duplicated or reordered. |
| Consumer.ShutdownLoadsEverything | src/consumer.py:201-207 | A consumer that reaches shutdown has stopped with an empty batch, having handed every accepted record to a load attempt in order. |
| Consumer.FailedLoadIsCommitted | src/consumer.py:187-191 | As written, one record with a batch size of 1 and a failing sink yields a load that did not land, followed by a commit. |
| Consumer.FailedLoadIsNotCommitted | src/consumer.py:182-184 | Under `AfterLanding` the same input yields the failed load and no commit. |
| Consumer.FiveRecordsInBatchesOfTwo | src/consumer.py:181-198 | With a batch size of 2, five records arriving within the time limit give two loads of two records, each committed. The fifth record is loaded and committed by an idle poll past the limit. |
| Producer.ProduceAll | src/producer.py:60-103 | The messages produced are exactly those of the delivering rows before the first row that ends the cycle, in row order, each keyed by `product_id`. Skipped rows are those the serializer turned into `None`, or whose `produce` raised a non-authentication error. The loop completes exactly when no row ends the cycle, and exits the process exactly when that row failed authentication. Every flush for a full queue is followed by the single retry, unless the retry raised. |
| Producer.ProduceCycle | src/producer.py:41-114 | A failed or empty query produces nothing and changes nothing. Every path ends with exactly one final drain. The watermark and its file change only when the loop completed and the maximum query answered. When it answered a timestamp, the watermark becomes that maximum in memory and on file, written just before the final drain. A NULL maximum leaves an emptied file. |
| Producer.WatermarkMonotone | src/producer.py:52-107 | Suppose every fetched row is newer than the watermark and the table maximum is at least every fetched row. Then the watermark never moves back, and a completed cycle that fetched rows moves it strictly forward. |
| Producer.SkippedRowsAreNotRefetched | src/producer.py:104-107 | After a completed cycle no row it fetched, delivered or skipped, is newer than the new watermark, so none is fetched again. |
| Producer.PersistedMatchesMemory | src/producer.py:104-107 | If the file matched the in-memory watermark before a cycle, it matches after it (four-digit years, non-NULL maximum). A restart resumes where the cycle left off. |
| Producer.ThreeRowsFromSentinel | src/producer.py:52-107 | From the sentinel, three rows stamped T1 < T2 < T3 that all publish are produced in order. The watermark becomes T3, written just before the final drain. |
| Schema.CheckSchemaExistence | src/schema.py:11-20 | True exactly when the name is among the listed subjects. An empty listing gives false. |
| Schema.CreateSchema | src/schema.py:22-41 | An accepted registration puts the text, typed Avro, under the subject and leaves every other subject alone. A 409 answer leaves the registry unchanged and raises nothing. Every other error propagates. |
| Schema.EnsureSchema | src/producer.py:30-34 | A subject already listed is left alone. A new subject ends up with exactly the one schema version. |
| Schema.SetupTwice | src/producer.py:30-34 | Running the setup twice leaves exactly one version under the subject and raises nothing, whatever the registry would answer the second time. |

## Findings

| source | as written | input that shows it | evidently intended | confidence | as-written member | corrected member |
|---|---|---|---|---|---|---|
| src/consumer.py:187-191 | After every load attempt the loop commits offsets, whether the load landed or not. `_load_batch_to_snowflake` swallows every failure. | `BATCH_SIZE` 1, one record, Snowflake failing: the history is a load that did not land, followed by a commit. | The comments at src/consumer.py:182-184 and 190 say offsets are committed only when a batch lands. | not executed | Consumer.FailedLoadIsCommitted | Consumer.FailedLoadIsNotCommitted |

The corrected behaviour is the `AfterLanding` commit policy. `Consumer.Run` proves for it, over every event sequence, that every commit directly follows a landed load. Under the code's own policy `AsWritten`, `Consumer.Run` proves the opposite guarantee: every load attempt, landed or not, is followed by a commit. `AfterLanding` corrects only when commits happen, not what they cover; see `Consumer.FailedLoadIsNotCommitted` under Left out.

## Left out

- Snowflake: the PUT and COPY statements, the temporary file and the stage file name (a UUID) are not modelled. One success flag per event stands for all of them.
- Kafka clients: `subscribe`, `close`, `poll(0)` and the delivery callbacks are not modelled. The producer's flush timeouts become the `Drain` and `FinalDrain` effects. The number of messages left after the final flush is only logged by the code.
- Consumer.FailedLoadIsNotCommitted: commits carry no offsets in the model. `commit(asynchronous=False)` commits the whole consumed position (src/consumer.py:157, 191, 197, 207). So under `AfterLanding` the next commit after a landed load still moves past the records of an earlier failed load, and past dropped messages. The corrected policy fixes when commits happen, not which offsets they cover.
- Consumer.Step: an interrupt is modelled only between events, as the `Shutdown` event. A `KeyboardInterrupt` raised inside a flush is not caught by `except Exception` (src/consumer.py:138, 199). The `finally` at src/consumer.py:144 still clears the batch, and the outer `finally` (src/consumer.py:204-207) then finds it empty and does not commit. Such a load attempt has no commit after it. An interrupt between a load and its commit (src/consumer.py:155-157, 189-191, 195-197) has the same effect. The model does not include these histories.
- Offset commits are assumed to succeed. A raising `commit` in the idle branch would end the loop, and one in the message branch would skip the timer reset. Neither case is modelled.
- Clocks and sleeps: `time.time()` readings are event parameters. `time.sleep` and the outer `run_producer` loop are not modelled. The model covers one producer cycle, and `Producer.WatermarkMonotone` chains from cycle to cycle.
- Avro serialization and deserialization are not modelled beyond their outcomes: a value, `None`, or a raised exception.
- The producer's `datetime`-to-milliseconds and `Decimal`-to-float conversions are not modelled, because only the message key and the watermark are observable in the model.
- Transfer.Record: `price` is a Python float. The model carries the text `json.dumps` writes for it instead of modelling float formatting.
- Transfer.IsoText: `fromtimestamp(ms / 1000)` divides in floating point, and `fromtimestamp` rounds the quotient half-even to microseconds. The model divides exactly. The two agree while the instant is less than 2^33 seconds from the epoch, that is from about October 1697 to about March 2242. Beyond that the quotient can be off by more than half a microsecond. When it falls short, the code writes the previous millisecond.
- Transfer.IsoText: an aware `datetime` is taken as its UTC instant. `astimezone` on a naive datetime would use the host's local time zone, which is not modelled.
- Watermark.Parse: reads ASCII digits only. Python's `strptime` also accepts other Unicode decimal digits.
- Watermark.GetLastSuccessfulTimestamp: file read and write errors other than the NULL maximum are not modelled. Time zones attached to the database timestamps are dropped, as `strftime` drops them.
- Producer.ProduceCycle: an interrupt in the middle of a cycle is not modelled, and an authentication failure is modelled as an exit flag.
- Schema: `get_subjects` failures, the registry's own compatibility checks and schema ids are not modelled. A registration's outcome is its answer.
- `admin.py` (topic creation), `config.py`, connection setup, the `running` flag with `signal_handler`, and all printing are not part of this model.

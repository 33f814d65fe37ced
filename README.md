# redis-row-stream, modelled in Dafny

`RedisRowStream` is the last stage of a Node.js pipeline. It receives parsed records and persists each one to Redis under a fresh key `keyPrefix:eventID`. When indexing is on, it also sends selected field values to a full-text search index (reds). The stream's state is a handful of flags (`writable`, `readable`, `_paused`, `_ended`, `_destroyed`) and the counter `eventID`. Its operations are `write`, `end`, `pause`, `resume`, `destroy` and `flush`.

The model is one Dafny class, `RowStream.RedisRowStream`. Its fields are the flags, the counter and the configuration. It also has three logs of what the stream hands to its collaborators:
- `stores`: the `set(key, value)` calls sent to the store, in order;
- `indexed`: the `index(text, key)` calls sent to the search index, in order;
- `events`: the events emitted, in order.

Every method's postcondition gives the exact new state in terms of the old one. A class invariant (`Valid`, built on `LogsValid`) says four things, and every method keeps it:
- store write `i` went to key `keyPrefix:i`;
- there is one store write per counted event;
- every index submission names a key that has already been written;
- a destroyed stream has ended, because `destroy` sets both flags and nothing clears either (redis-row-stream.js:168-169).

Key construction is pure:
- `Key(prefix, id)` is `prefix + ":" + NatToString(id)`.
- `ParseKey` is its inverse, proved in both directions.
- Keys are therefore unique, and a stream that has accepted `n` records holds exactly the `n` keys `prefix:0` to `prefix:(n-1)`.

Files:
- `wrappers.dfy`: Option and Result.
- `decimal.dfy`: decimal rendering of the counter and its inverse.
- `records.dfy`: records and property lookup.
- `redis_row_stream.dfy`: keys, index submissions, the stream class and lemmas about stored keys.
- `stream_scenarios.dfy`: client runs that follow the repository's tests and examples.

Where the repository's own documentation, tests or option names promise something the code does not do, the model follows the code:
- The hash test passes `structure: "hash"` and reads the record back as a hash (test/stream-test.js:114, 139). The parse-strings examples pass the same option. The code never reads `opts.structure`: every write is `set(key, serialize(record))` (redis-row-stream.js:93), so the model has no hash branch.
- The doc comment on `write` says `false` means the record "will be sent later" (redis-row-stream.js:73). The code returns `false` while paused and drops the record (redis-row-stream.js:84-85). Nothing is buffered or sent later. `Write` states this: a paused write leaves the stream unchanged.
- The option comment says the listed fields "will be indexed" (redis-row-stream.js:19). The guard tests only the field *name* for emptiness (redis-row-stream.js:102). A listed field that the record lacks is still submitted, with an absent value (`None`, JavaScript's `undefined`).
- `destroy` is guarded only by `_destroyed` (redis-row-stream.js:166). On a stream that has already ended, it therefore emits `end` and `close` a second time. `TerminalScenario` shows this.

## Model

| member | source | states |
|---|---|---|
| Decimal.NatToString | redis-row-stream.js:87 | the counter's rendering in a key is non-empty, all decimal digits, and starts with '0' exactly when the counter is zero |
| Decimal.ParseNatToString | redis-row-stream.js:87 | reading the rendering of n back as a decimal gives n |
| Decimal.NatToStringOfParse | redis-row-stream.js:87 | every canonical decimal string is the rendering of the number it denotes (the converse round trip) |
| Decimal.NatToStringInjective | redis-row-stream.js:33 | distinct counters have distinct renderings |
| Records.Lookup | redis-row-stream.js:103 | `record[field]` is None exactly when no field has that name; otherwise it is the value of the last field with that name |
| RowStream.ParseKeyOfKey | redis-row-stream.js:87 | the counter a key was built from can be recovered from the key and the prefix |
| RowStream.KeyOfParseKey | redis-row-stream.js:87 | any string that parses as a key under a prefix is the key built from that counter |
| RowStream.KeyInjective | redis-row-stream.js:33 | under one prefix, equal keys come from equal counters, so the counter guarantees unique keys |
| RowStream.KeySetIssued | redis-row-stream.js:87-108 | the keys `prefix:0` to `prefix:(n-1)` are exactly the keys under the prefix whose counter is below n |
| RowStream.KeySetSize | redis-row-stream.js:87-108 | those n keys are n distinct strings |
| RowStream.NonEmptyNames | redis-row-stream.js:99-102 | the names the index loop acts on are the listed names that are non-empty, and there are no more of them than names listed |
| RowStream.NonEmptyNamesCounts | redis-row-stream.js:99-102 | the loop acts on each non-empty name once per occurrence in the list, and never on the empty name |
| RowStream.NonEmptyNamesAppend | redis-row-stream.js:99-102 | filtering a concatenation filters each part in turn, so the names are acted on in list order |
| RowStream.NonEmptyNamesSingle | redis-row-stream.js:102 | a single name is acted on exactly when it is non-empty |
| RowStream.IndexRequests | redis-row-stream.js:96-106 | a write submits one index request per non-empty index field name, in list order, each with that field's value (or None) and the record's key |
| RowStream.LogsValidAppend | redis-row-stream.js:87-108 | storing under `prefix:n`, submitting index requests under that key and counting the event keeps the key layout and the index-key invariant |
| RowStream.RedisRowStream.constructor | redis-row-stream.js:23-56 | a new stream is writable, readable, not paused, ended or destroyed, with counter 0 and empty logs; prefix "Default" unless a non-empty prefix is given; indexing off unless asked for; index fields [] when absent |
| RowStream.RedisRowStream.Write | redis-row-stream.js:76-111 | fails with WriteAfterEnd once ended or destroyed (checked first), with NotWritable when not writable, and returns false while paused; each failure or refusal leaves the stream unchanged. Otherwise returns true, appends one store write of the serialised record under `keyPrefix:old eventID`, appends that record's index submissions, and increments the counter; flags and events are untouched |
| RowStream.RedisRowStream.SubmitIndexRequests | redis-row-stream.js:99-104 | the index loop appends exactly the requests IndexRequests gives for the configured field names |
| RowStream.RedisRowStream.End | redis-row-stream.js:120-134 | no effect once ended or when not writable. Otherwise it writes the final record when one is given (a no-op while paused), then the stream is ended, not readable and not writable, and end then close are emitted |
| RowStream.RedisRowStream.Pause | redis-row-stream.js:141-146 | sets paused and emits pause if not already paused; otherwise no effect |
| RowStream.RedisRowStream.Resume | redis-row-stream.js:153-158 | clears paused and emits drain if paused; otherwise no effect |
| RowStream.RedisRowStream.Destroy | redis-row-stream.js:165-176 | afterwards the stream has always ended. On its first call it sets destroyed and ended, clears readable and writable, and emits end then close, even on a stream that has already ended; later calls have no effect |
| RowStream.RedisRowStream.Flush | redis-row-stream.js:178-180 | only appends a flush event |
| RowStream.StoredKeysDistinct | redis-row-stream.js:33 | the keys of a stream's store writes are pairwise distinct |
| RowStream.StoredKeysAreKeySet | redis-row-stream.js:87-108 | the set of keys written is exactly `prefix:0` to `prefix:(eventID-1)` |
| RowStream.StoredKeyCount | test/stream-test.js:91-93 | the number of distinct keys written equals the number of accepted records |
| StreamScenarios.StringRowScenario | test/stream-test.js:65-107 | three writes under prefix "stringRowTest" produce keys ":0" to ":2", and ":2" holds the serialised third record |
| StreamScenarios.StringRowKeyCountScenario | test/stream-test.js:87-93 | those three writes leave exactly three distinct keys |
| StreamScenarios.IndexScenario | redis-row-stream.js:96-106 | with index fields "A label", "" and "D label", the empty name is skipped and the missing field is still submitted as None, both under the record's key |
| StreamScenarios.PauseResumeScenario | test/stream-test.js:55-63 | a write while paused returns false and stores nothing; after resume the next write is stored under "Default:0"; a repeated pause or resume emits nothing |
| StreamScenarios.TerminalScenario | redis-row-stream.js:120-176 | end with a final record stores it and closes; a second end has no effect; destroy still emits end and close; a later write fails with WriteAfterEnd |
| StreamScenarios.ClosedStreamRejectsWrites | redis-row-stream.js:78-82 | on any valid stream, every write after destroy fails with WriteAfterEnd and stores nothing, and every write after end fails |
| StreamScenarios.NotWritableScenario | redis-row-stream.js:81-82 | a writable flag cleared from outside makes write fail with NotWritable and leaves the counter and logs unchanged |

## Left out

- Redis client creation and connection options (redis-row-stream.js:36-41, 57-60): network I/O. The store is the `stores` log of submitted writes. The `set` callback is ignored by the code and is not modelled.
- reds search creation and indexing internals (redis-row-stream.js:97, 103): a foreign library. Only the submitted `(text, key)` pairs are logged.
- `JSON.stringify` (redis-row-stream.js:93): the stream takes the serialisation as a constructor parameter `serialize: Record -> string` and treats it as opaque. JSON itself is not modelled.
- Verbose logging (redis-row-stream.js:12, 89-91) and the unused `_buffer` field (redis-row-stream.js:29): neither affects behaviour.
- Node `Stream` inheritance and `EventEmitter` (redis-row-stream.js:31, 65): `emit` appends to the `events` log. Listeners and `pipe` wiring are not modelled.
- JavaScript truthiness: `index` is a boolean and index field names are strings, so the guard at redis-row-stream.js:102 is `name != ""`. Values that are neither strings nor booleans are not modelled.
- Records are ordered lists of string-valued fields. Non-string values and prototype properties reached by `record[field]` are not modelled. Chunks that are not labelled records are not modelled either, such as the random values the pause test pipes into `write` (test/stream-test.js:56-58).
- `keyPrefix`, `index` and `indexedFields` are fixed when the stream is constructed. In the code they are ordinary properties of the stream, read again on every write (redis-row-stream.js:87, 96, 99-101). `indexedFields` is the caller's own array (redis-row-stream.js:49). If the caller later changes these properties, or mutates that array, later writes change in the code but not in the model. The model does not capture aliasing of the caller's array.
- Write: the counter is an unbounded `nat`. The loss of integer precision of JavaScript numbers above 2^53 is not modelled.
- `end(undefined)` counts as an argument in JavaScript. The model's `End(None)` stands for a call with no argument.
- The parse-strings examples (example/parse-strings/addData.js, examples/parse-strings/parse-strings.js): file reading and pipe wiring only.

# waldb storage engine, modelled in Dafny

waldb is a key-value store kept in one append-only write-ahead log file
(`db.wal`) with an in-memory index from each key to the file offset of its
most recent log record. This project models its storage engine
(`src/main.rs`):

- the record format written by `LogEntry::to_binary_log`: a 16-byte big-endian
  millisecond timestamp (`u128`), a 4-byte big-endian key length, a 4-byte
  big-endian value length, then the key bytes and the value bytes. The fixed
  header is 24 bytes. A zero-length value is a tombstone.
- index recovery (`load_key_pos_map_from_file`): scan the log from offset 0,
  decode each header and key, point the key at the record's start offset
  (later records overwrite earlier ones), count the record, and stop silently
  when a read would run past the end of the file.
- the engine operations: `set` appends an encoded record at the current file
  length and points the index at it, `get` follows the index and decodes the
  value (none for an absent key or a tombstone), and `delete` is
  `set(key, "")`.

The log file is a byte sequence (`seq<Byte>`). The index is a
`map<seq<Byte>, nat>`. `read_exact_at(buf, off)` with a non-empty buffer
succeeds exactly when `off + |buf|` is at most the file length. Files:

- `Wrappers.dfy`: `Option`.
- `Bytes.dfy`: bytes, big-endian encode and decode, and their round trips.
- `LogRecord.dfy`: `Encode`, the reads recovery and `get` make at an offset,
  and the round-trip lemmas between the two.
- `Recovery.dfy`: the recovery scan as a pure function `ScanFrom`/`Rebuild`.
  It holds what the scan computes on a log of whole records, after an
  append, and on torn tails. It also holds `CompleteEnd`, the end of the
  unbroken run of complete records from the start of the file.
- `Engine.dfy`: `Lookup` (what `get` answers), lemmas connecting `set`,
  `get` and recovery, and the class `StorageEngine`. The class has the
  source's fields `dbFile`, `keyPositionMap` and `sequenceNumber`. Its
  recovery loop is proved against `Rebuild`. `Set` and `Delete` preserve
  `Healthy()`: the index in memory is the one a restart would rebuild.

Points where the model takes a position:

- The header is 24 bytes with a 16-byte timestamp, as the format comment at
  src/main.rs:90, the entry-size comment at src/main.rs:220 (16 + 4 + 4) and
  every read offset agree.
- Recovery never reads value bytes. A record cut off inside its value is
  still indexed (`TruncatedValueStillIndexed`), and `get` on that key fails
  its read.
- An empty-value `set` is a tombstone. The format cannot tell it from
  `delete`.

## Model

| member | source | states |
|---|---|---|
| `Bytes.ToBE` | src/main.rs:113-125 | the `width`-byte big-endian encoding of any n < 256^width has exactly `width` bytes and decodes back to n |
| `Bytes.FromBE` | src/main.rs:190 | a big-endian decode of k bytes is below 256^k (a 4-byte field is a `u32`) |
| `Bytes.ToBEFromBE` | src/main.rs:271-272 | decoding is injective: re-encoding a decoded field at the same width gives back the same bytes |
| `Bytes.ZeroBE` | src/main.rs:124-125 | zero encodes as all-zero bytes at every width |
| `Bytes.FromBE4` | src/main.rs:190 | a 4-byte field decodes to ((a·256+b)·256+c)·256+d |
| `LogRecord.Encode` | src/main.rs:108-137 | an encoded record is exactly 24 + key length + value length bytes |
| `LogRecord.EncodeRoundTrip` | src/main.rs:116-134 | bytes 0-15 decode to the timestamp, 16-19 to the key length, 20-23 to the value length, then come the key and then the value |
| `LogRecord.FieldsAt` | src/main.rs:181-212 | for a record encoded at offset p of any file: timestamp at p, key length at p+16, value length at p+20, key at p+24, value right after the key |
| `LogRecord.DecodeAt` | src/main.rs:259-283 | recovery decodes the record at p as the key and the value length, the record is complete, and `get`'s reads return the value, or not-found when it is empty |
| `LogRecord.EncodeOfDecoded` | src/main.rs:170-221 | conversely, every complete record in a file is the encoding of the timestamp, key and value decoded from it |
| `LogRecord.EntryAt` | src/main.rs:171-212 | recovery's decode at p succeeds iff the 24-byte header and the key fit in the file; its key length and value length are the `u32`s at p+16 and p+20 |
| `LogRecord.ReadValue` | src/main.rs:259-283 | `get`'s reads avoid a short read iff the header fits and the value is empty or fits; a found value is never empty |
| `LogRecord.ReadValueExtend` | src/main.rs:243-246 | appending to the file does not change what `get` reads from a complete record |
| `LogRecord.EntryAtExtend` | src/main.rs:243-246 | appending to the file does not change how recovery decodes a header and key that already fit |
| `Recovery.ScanFrom` | src/main.rs:170-222 | the scan only moves forward and only adds keys; when it stops before the end of the file, the header or the key there does not fit |
| `Recovery.ScanExtend` | src/main.rs:170-222 | a scan that ends exactly at the end of a file takes the same steps in any longer file and continues from the old end |
| `Recovery.RebuildAppend` | src/main.rs:237-250 | appending a record to a clean log makes recovery map that key to the old file length, keep every other key, count one more record and end at the new file end |
| `Recovery.TruncatedTail` | src/main.rs:170-211 | bytes after a clean log too short for a header plus its key are ignored: same index and count, stop at the old end |
| `Recovery.TruncatedValueStillIndexed` | src/main.rs:203-221 | a last record cut off after its key is still indexed and counted, the scan ends past the file end, and `get` on it is a short read |
| `Recovery.ScanComplete` | src/main.rs:214-221 | a scan ending exactly at the file end only indexes offsets that start complete records |
| `Recovery.CleanIndexComplete` | src/main.rs:214-221 | in a clean log every indexed offset starts a complete record |
| `Recovery.OffsetStep` | src/main.rs:219-221 | in a log of whole records each record starts 24 + key length + value length after the previous one |
| `Recovery.IndexOfHasKey` | src/main.rs:214-216 | every key that occurs in a record sequence is in its last-write-wins index |
| `Recovery.IndexOfOnlyKeys` | src/main.rs:214-216 | the last-write-wins index holds only keys that occur in the records |
| `Recovery.IndexOfLastWins` | src/main.rs:214-216 | each indexed key maps to the offset of the last record carrying it |
| `Recovery.RebuildRecords` | src/main.rs:161-225 | on a log of whole records recovery ends exactly at the file end, builds the last-write-wins index and counts every record |
| `Recovery.CompleteEnd` | src/main.rs:170-222 | the end of the longest run of complete records lies inside the file, and no complete record starts there |
| `Recovery.TrimTornTail` | src/main.rs:170-222 | cutting the log at `CompleteEnd` leaves a clean log; a clean log is not cut |
| `Recovery.CompleteEndExtend` | src/main.rs:170-222 | bytes appended after a run of complete records that reaches the end of the file do not move where that run ends |
| `Recovery.TrimAfterClean` | src/main.rs:170-222 | a clean log followed by a tail that does not start a complete record is cut back to exactly the clean log: no complete record is lost |
| `Recovery.TornValueTrimmed` | src/main.rs:203-221 | after a record cut off inside its value, the corrected recovery cuts at the old end and rebuilds the index and count from before that record |
| `Recovery.TornHeaderTrimmed` | src/main.rs:170-211 | after a tail too short for a header plus its key, the corrected recovery cuts at the old end and rebuilds the clean log's index and count |
| `Recovery.TornHeaderIndexComplete` | src/main.rs:170-211 | after a torn header tail, every offset recovery indexes still starts a complete record |
| `Engine.ConsistentLookup` | src/main.rs:253-284 | when the index is the one recovery rebuilds from a clean log, `get` never reads past the end of the file |
| `Engine.SetThenLookup` | src/main.rs:237-284 | after `set(k, v)` on a consistent engine the index stays consistent, `get(k)` is v (not-found if v is empty) and every other key reads as before |
| `Engine.SetKeepsOtherKeys` | src/main.rs:237-284 | `set(k, v)` leaves `get(q)` unchanged for every other key q whose indexed record is complete, torn tail or not |
| `Engine.RecoveredLookup` | src/main.rs:141-159 | reopening a log of whole records makes `get(k)` return the value of k's last record, or not-found if it has none or it is a tombstone |
| `Engine.TornTailLosesWrite` | src/main.rs:242-250 | after a 1-byte torn tail, `set("a", [1])` at any timestamp is visible to `get` but absent from the index rebuilt on restart |
| `Engine.TornTailFields` | src/main.rs:116-134 | in that file bytes 16-19 are the last timestamp byte then 0, 0, 0, and bytes 20-23 are 1, 0, 0, 0 |
| `Engine.TornTailMisread` | src/main.rs:181-221 | recovery never indexes "a" in that file: with a timestamp that is a multiple of 256 it reads one record with an empty key and value length 2^24, otherwise its key read fails and the index is empty |
| `Engine.TornTailWriteNotRecovered` | src/main.rs:170-222 | in that file the record for "a" is complete, yet the run of complete records from the start is empty, so cutting there keeps nothing |
| `Engine.StorageEngine.constructor` | src/main.rs:141-159 | opening keeps the file and sets the index and counter to what recovery computes; from a clean log the engine is healthy |
| `Engine.StorageEngine.Recover` | src/main.rs:141-159 | opens the log cut at `CompleteEnd` with the index and counter recovery computes from it: a healthy engine, and a clean log is kept whole |
| `Engine.StorageEngine.ReadEntry` | src/main.rs:171-212 | one iteration's reads (timestamp, key length, value length, key) give recovery's decode at that offset |
| `Engine.StorageEngine.LoadKeyPosMapFromFile` | src/main.rs:161-225 | the loop leaves the file unchanged, sets the index to `Rebuild(file).index` and adds `Rebuild(file).count` to the counter |
| `Engine.StorageEngine.Set` | src/main.rs:237-251 | the file gains exactly the encoded record, the key maps to the old length, no other key changes, the counter grows by 1, `get(key)` then yields the value, `get` of another key with a complete record is unchanged, and health is preserved |
| `Engine.StorageEngine.Get` | src/main.rs:253-284 | returns `Lookup` on the current file and index; never a short read on a healthy engine |
| `Engine.StorageEngine.Delete` | src/main.rs:286-288 | appends a tombstone like `set(key, "")`; `get(key)` is then not-found, `get` of another key with a complete record is unchanged, and health is preserved |

## Findings

| source | as written | input that shows it | evidently intended | confidence | as-written member | corrected member |
|---|---|---|---|---|---|---|
| src/main.rs:243-250 | recovery stops at a torn tail but leaves it in the file, and `set` appends after it | file `[0]`, then `set("a", [1])` at any timestamp: the rebuilt index does not hold "a" (it maps only the empty key when the timestamp is a multiple of 256, and is empty otherwise), so `get("a")` is lost after restart | a write acknowledged after recovery survives a restart | medium, not executed | `Engine.TornTailLosesWrite` | `Engine.StorageEngine.Recover` |
| src/main.rs:203-216 | recovery indexes a record whose value was cut off by a crash | a clean log plus the first 25 bytes of the record for key "a" with a 2-byte value: "a" is indexed, and `get("a")` panics on its short read | only complete records are recovered | medium, not executed | `Recovery.TruncatedValueStillIndexed` | `Engine.StorageEngine.Recover` |

`Recover` cuts the file at `CompleteEnd` (the end of the unbroken run of
complete records from the start of the file) before the scan. After a clean
log followed by a torn header or a record cut inside its value, the cut lands
exactly at the end of the clean log (`TrimAfterClean`, `TornHeaderTrimmed`,
`TornValueTrimmed`), so the index and count are those from before the torn
write. The engine it builds is `Healthy()`. `Set` and `Delete` keep it
healthy, and `Get` on a healthy engine never fails a read. The plain
constructor keeps the as-written behaviour.

`Recover` prevents the lost write only when every opening of the log goes
through it. It does not bring back records that the plain constructor's
engine has already appended after a torn tail: those lie beyond the first
incomplete record and are cut away with it (`TornTailWriteNotRecovered`: in
the first row's file the record for "a" is complete, yet the cut keeps
nothing).

## Left out

- The interactive command loop (src/main.rs:8-80) is stdin/stdout glue. `SHOWKEYS` is `todo!()` there.
- `compact` (src/main.rs:227-235) starts with `todo!()`, so its body never runs.
- `SystemTime::now()` (src/main.rs:103) becomes the `ts` parameter of `Set` and `Delete`, a number below 2^128.
- Opening the file, `metadata()`, durability, and I/O failures other than short reads are not modelled. The file is an in-memory byte sequence. The `unwrap` panics on short reads in `get` are the `ShortRead` result.
- UTF-8 validation of keys and values (`String::from_utf8(..).unwrap()`, src/main.rs:212 and 283) is not modelled. Keys and values are byte sequences.
- The counter `sequence_number` is an `i32` in the source. The model uses an unbounded integer, so it does not overflow.
- The `u64` arithmetic on scan offsets is unbounded here, so it does not wrap.
- Concurrent access is not modelled. The engine is used by one caller at a time.
- LogRecord.Encode: requires key and value lengths below 2^32. The source's `as u32` casts (src/main.rs:113-114) would wrap larger lengths silently.
- Engine.StorageEngine.Set: has the same length bound as `Encode`.
- Engine.StorageEngine.Delete: has the same key-length bound as `Encode`.

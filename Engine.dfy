/**
 * The storage engine (`StorageEngine` in src/main.rs): a log file, the
 * in-memory key index and the record counter, with `set`, `get`, `delete`
 * and recovery on construction.
 */
module Engine {
  import opened Wrappers
  import opened Bytes
  import opened LogRecord
  import opened Recovery

  /** What `get(key)` returns for a log file and an index over it. */
  function Lookup(file: seq<Byte>, index: Index, key: seq<Byte>): (r: GetResult) {
    if key in index then ReadValue(file, index[key]) else NotFound
  }

  /**
   * The index held in memory is the one recovery rebuilds from the file, and
   * recovery reads the file to its very end (no torn tail).
   */
  ghost predicate Consistent(file: seq<Byte>, index: Index) {
    Clean(file) && index == Rebuild(file).index
  }

  /** With a consistent index, `get` never reads past the end of the file. */
  lemma ConsistentLookup(file: seq<Byte>, index: Index, key: seq<Byte>)
    requires Consistent(file, index)
    ensures Lookup(file, index, key) != ShortRead
  {
    CleanIndexComplete(file);
    if key in index {
      var p := index[key];
      assert Complete(file, p);
    }
  }

  /**
   * `set(key, val)` seen through `get`: on a consistent engine it keeps the
   * index consistent, `get(key)` then yields `val` (none for an empty value:
   * last write wins, delete is a tombstone) and every other key reads as
   * before.
   */
  lemma SetThenLookup(file: seq<Byte>, index: Index, ts: nat, key: seq<Byte>, val: seq<Byte>, q: seq<Byte>)
    requires Consistent(file, index)
    requires Encodable(ts, key, val)
    ensures Consistent(file + Encode(ts, key, val), index[key := |file|])
    ensures Lookup(file + Encode(ts, key, val), index[key := |file|], q) ==
      if q == key then (if val == [] then NotFound else Found(val)) else Lookup(file, index, q)
  {
    var r := Encode(ts, key, val);
    RebuildAppend(file, ts, key, val);
    if q == key {
      DecodeAt(file, ts, key, val, []);
      assert file + r + [] == file + r;
    } else if q in index {
      CleanIndexComplete(file);
      ReadValueExtend(file, r, index[q]);
    }
  }

  /**
   * `set(key, val)` leaves `get(q)` unchanged for every other key whose
   * indexed record is complete, whether or not the log has a torn tail.
   */
  lemma SetKeepsOtherKeys(file: seq<Byte>, index: Index, ts: nat, key: seq<Byte>, val: seq<Byte>, q: seq<Byte>)
    requires Encodable(ts, key, val)
    requires q != key && q in index && Complete(file, index[q])
    ensures Lookup(file + Encode(ts, key, val), index[key := |file|], q) == Lookup(file, index, q)
  {
    ReadValueExtend(file, Encode(ts, key, val), index[q]);
  }

  /** The value of the last record for `k` in `rs`: none if there is none or it is a tombstone. */
  function LatestValue(rs: seq<Record>, k: seq<Byte>): (r: GetResult) {
    if rs == [] then NotFound
    else if rs[|rs| - 1].key == k then
      (if rs[|rs| - 1].val == [] then NotFound else Found(rs[|rs| - 1].val))
    else LatestValue(rs[..|rs| - 1], k)
  }

  /**
   * Reopening the engine on a log of whole records (recovery, then `get`)
   * yields for every key the value of its last record.
   */
  lemma {:induction false} RecoveredLookup(rs: seq<Record>, k: seq<Byte>)
    requires ValidRecords(rs)
    ensures Consistent(EncodeAll(rs), Rebuild(EncodeAll(rs)).index)
    ensures Lookup(EncodeAll(rs), Rebuild(EncodeAll(rs)).index, k) == LatestValue(rs, k)
  {
    RebuildRecords(rs);
    if rs != [] {
      var n := |rs| - 1;
      var r := rs[n];
      ValidPrefix(rs, n);
      RecoveredLookup(rs[..n], k);
      RebuildRecords(rs[..n]);
      SetThenLookup(EncodeAll(rs[..n]), Rebuild(EncodeAll(rs[..n])).index, r.timestamp, r.key, r.val, k);
    }
  }

  /**
   * The example below: a 1-byte torn tail, then the record `set("a", [1])`
   * writes at time `ts`. Bytes 16-19 hold the last timestamp byte and the
   * first three bytes of the key length; bytes 20-23 the last key-length byte
   * and the first three bytes of the value length.
   */
  lemma TornTailFields(ts: nat)
    requires ts < U128Bound
    ensures var after := [0] + Encode(ts, [97], [1]);
      && |after| == HeaderSize + 3
      && after[KeyLenOffset..KeyLenOffset + 4] == [ts % 256, 0, 0, 0]
      && after[ValLenOffset..ValLenOffset + 4] == [1, 0, 0, 0]
  {
    Pow256Widths();
    var t := ToBE(ts, TimestampSize);
    assert t == ToBE(ts / 256, TimestampSize - 1) + [ts % 256];
    TornTailLayout(ts);
    WindowsAfterTimestamp(t);
  }

  /** The bytes after the timestamp in that file. */
  lemma TornTailLayout(ts: nat)
    requires ts < U128Bound
    ensures Pow256(TimestampSize) == U128Bound
    ensures [0] + Encode(ts, [97], [1]) == [0] + ToBE(ts, TimestampSize) + [0, 0, 0, 1, 0, 0, 0, 1, 97, 1]
  {
    Pow256Widths();
    ZeroBE(3);
    var one := ToBE(1, 4);
    assert one == ToBE(0, 3) + [1] == [0, 0, 0, 1];
    var t := ToBE(ts, TimestampSize);
    assert Encode(ts, [97], [1]) == t + one + one + [97] + [1];
    assert t + one + one + [97] + [1] == t + [0, 0, 0, 1, 0, 0, 0, 1, 97, 1];
  }

  /** Bytes 16-19 and 20-23 of a 1-byte prefix, a 16-byte timestamp and that record's other bytes. */
  lemma WindowsAfterTimestamp(t: seq<Byte>)
    requires |t| == TimestampSize
    ensures var after := [0] + t + [0, 0, 0, 1, 0, 0, 0, 1, 97, 1];
      && after[KeyLenOffset..KeyLenOffset + 4] == [t[15], 0, 0, 0]
      && after[ValLenOffset..ValLenOffset + 4] == [1, 0, 0, 0]
  {
  }

  /**
   * Recovery misreads that file. When `ts` is a multiple of 256 it finds one
   * record with an empty key and value length 2^24; otherwise the key length
   * it reads is at least 2^24, the key read fails and nothing is indexed.
   * Either way "a" is not in the index.
   */
  lemma TornTailMisread(ts: nat)
    requires ts < U128Bound
    ensures var after := [0] + Encode(ts, [97], [1]);
      && [97] !in Rebuild(after).index
      && (ts % 256 == 0 ==> Rebuild(after) == ScanState(map[[] := 0], 1, HeaderSize + 0x100_0000))
      && (ts % 256 != 0 ==> Rebuild(after) == ScanState(map[], 0, 0))
  {
    var after := [0] + Encode(ts, [97], [1]);
    TornTailFields(ts);
    FromBE4(ts % 256, 0, 0, 0);
    FromBE4(1, 0, 0, 0);
    if ts % 256 == 0 {
      assert EntryAt(after, 0) == Some(Entry([], 0x100_0000));
      ScanAdvances(after, 0, map[], 0);
    } else {
      assert EntryAt(after, 0) == None;
      ScanStops(after, 0, map[], 0);
    }
  }

  /**
   * Recovery leaves a torn tail in the file and `set` appends after it: a
   * one-byte leftover, then `set("a", [1])` at any time `ts`. Before a
   * restart `get("a")` yields [1]; the index recovery rebuilds from the
   * resulting file does not hold "a" at all, so after a restart the write is
   * lost.
   */
  lemma TornTailLosesWrite(ts: nat)
    requires ts < U128Bound
    ensures var file: seq<Byte>, key: seq<Byte>, val: seq<Byte> := [0], [97], [1];
      var after := file + Encode(ts, key, val);
      && !Clean(file)
      && Lookup(after, Rebuild(file).index[key := |file|], key) == Found(val)
      && Lookup(after, Rebuild(after).index, key) == NotFound
  {
    var file: seq<Byte>, key: seq<Byte>, val: seq<Byte> := [0], [97], [1];
    assert EntryAt(file, 0) == None;
    ScanStops(file, 0, map[], 0);
    DecodeAt(file, ts, key, val, []);
    assert file + Encode(ts, key, val) + [] == file + Encode(ts, key, val);
    TornTailMisread(ts);
  }

  /**
   * Cutting after the run of complete records from the start does not save
   * that write once it has been made: the record for "a" at offset 1 is
   * complete, but no complete record starts at offset 0, so the cut keeps
   * nothing.
   */
  lemma TornTailWriteNotRecovered(ts: nat)
    requires ts < U128Bound
    ensures var after := [0] + Encode(ts, [97], [1]);
      Complete(after, 1) && CompleteEnd(after, 0) == 0
  {
    var after := [0] + Encode(ts, [97], [1]);
    DecodeAt([0], ts, [97], [1], []);
    assert [0] + Encode(ts, [97], [1]) + [] == after;
    TornTailFields(ts);
    FromBE4(ts % 256, 0, 0, 0);
    FromBE4(1, 0, 0, 0);
    assert !Complete(after, 0);
  }

  /** The engine: the open log file, the key index and the record counter. */
  class StorageEngine {
    var dbFile: seq<Byte>
    var keyPositionMap: Index
    var sequenceNumber: int

    /** The state recovery would reproduce after a restart. */
    ghost predicate Healthy()
      reads this
    {
      Consistent(dbFile, keyPositionMap) && sequenceNumber == Rebuild(dbFile).count
    }

    /** `StorageEngine::new`: open the log (its current bytes are `file`) and recover. */
    constructor (file: seq<Byte>)
      ensures dbFile == file
      ensures keyPositionMap == Rebuild(file).index
      ensures sequenceNumber == Rebuild(file).count
      ensures Clean(file) ==> Healthy()
    {
      dbFile := file;
      keyPositionMap := map[];
      sequenceNumber := 0;
      new;
      LoadKeyPosMapFromFile();
    }

    /**
     * Open a log after cutting off the torn tail a crash may have left, so
     * that later writes survive a restart.
     */
    constructor Recover(file: seq<Byte>)
      ensures dbFile == file[..CompleteEnd(file, 0)]
      ensures keyPositionMap == Rebuild(dbFile).index && sequenceNumber == Rebuild(dbFile).count
      ensures Clean(file) ==> dbFile == file
      ensures Healthy()
    {
      TrimTornTail(file);
      dbFile := file[..CompleteEnd(file, 0)];
      keyPositionMap := map[];
      sequenceNumber := 0;
      new;
      LoadKeyPosMapFromFile();
    }

    /**
     * The reads of one iteration of the recovery loop: timestamp, key length,
     * value length and key at `pos`; none as soon as one would run past the
     * end of the file.
     */
    static method ReadEntry(file: seq<Byte>, pos: nat) returns (e: Option<Entry>)
      ensures e == EntryAt(file, pos)
    {
      var timestamp := ReadExactAt(file, pos, TimestampSize);
      if timestamp.None? {
        return None;
      }
      var keyLenBytes := ReadExactAt(file, pos + KeyLenOffset, 4);
      if keyLenBytes.None? {
        return None;
      }
      var keyLen := FromBE(keyLenBytes.value);
      var valLenBytes := ReadExactAt(file, pos + ValLenOffset, 4);
      if valLenBytes.None? {
        return None;
      }
      var valLen := FromBE(valLenBytes.value);
      var keyBuffer := ReadExactAt(file, pos + HeaderSize, keyLen);
      if keyBuffer.None? {
        return None;
      }
      return Some(Entry(keyBuffer.value, valLen));
    }

    /**
     * `load_key_pos_map_from_file`: scan the log from offset 0, pointing each
     * key at its latest record and counting records, until the end of the
     * file or the first header or key that does not fit.
     */
    method LoadKeyPosMapFromFile()
      modifies this
      ensures dbFile == old(dbFile)
      ensures keyPositionMap == Rebuild(dbFile).index
      ensures sequenceNumber == old(sequenceNumber) + Rebuild(dbFile).count
    {
      var file := dbFile;
      ghost var target := Rebuild(file);
      var mp: Index := map[];
      var fileSize := |file|;
      var currentPos: nat := 0;
      ghost var counted: nat := 0;
      while currentPos < fileSize
        invariant dbFile == file && fileSize == |file|
        invariant ScanFrom(file, currentPos, mp, counted) == target
        invariant sequenceNumber == old(sequenceNumber) + counted
        decreases fileSize - currentPos
      {
        var entry := ReadEntry(file, currentPos);
        if entry.None? {
          ScanStops(file, currentPos, mp, counted);
          break;
        }
        ScanAdvances(file, currentPos, mp, counted);
        mp := mp[entry.value.key := currentPos];
        sequenceNumber := sequenceNumber + 1;
        counted := counted + 1;
        currentPos := EntryEnd(currentPos, entry.value);
      }
      keyPositionMap := mp;
    }

    /**
     * `set`: append the encoded record at the current end of file, count it
     * and point the key at it.
     */
    method Set(ts: nat, key: seq<Byte>, val: seq<Byte>)
      requires Encodable(ts, key, val)
      modifies this
      ensures dbFile == old(dbFile) + Encode(ts, key, val)
      ensures keyPositionMap == old(keyPositionMap)[key := |old(dbFile)|]
      ensures sequenceNumber == old(sequenceNumber) + 1
      ensures Lookup(dbFile, keyPositionMap, key) == if val == [] then NotFound else Found(val)
      ensures forall q :: q != key && q in old(keyPositionMap) && Complete(old(dbFile), old(keyPositionMap)[q]) ==>
        Lookup(dbFile, keyPositionMap, q) == Lookup(old(dbFile), old(keyPositionMap), q)
      ensures old(Healthy()) ==> Healthy()
    {
      var binaryLogEntry := Encode(ts, key, val);
      var fileLen := |dbFile|;
      dbFile := dbFile + binaryLogEntry;
      sequenceNumber := sequenceNumber + 1;
      keyPositionMap := keyPositionMap[key := fileLen];
      DecodeAt(old(dbFile), ts, key, val, []);
      assert old(dbFile) + binaryLogEntry + [] == dbFile;
      forall q | q != key && q in old(keyPositionMap) && Complete(old(dbFile), old(keyPositionMap)[q])
        ensures Lookup(dbFile, keyPositionMap, q) == Lookup(old(dbFile), old(keyPositionMap), q)
      {
        SetKeepsOtherKeys(old(dbFile), old(keyPositionMap), ts, key, val, q);
      }
      if old(Healthy()) {
        RebuildAppend(old(dbFile), ts, key, val);
      }
    }

    /**
     * `get`: follow the index, read the two lengths, answer none for a
     * tombstone and otherwise read the value after the key.
     */
    method Get(key: seq<Byte>) returns (r: GetResult)
      ensures r == Lookup(dbFile, keyPositionMap, key)
      ensures Healthy() ==> r != ShortRead
    {
      if Healthy() {
        ConsistentLookup(dbFile, keyPositionMap, key);
      }
      if key !in keyPositionMap {
        return NotFound;
      }
      var keyStartPos := keyPositionMap[key];
      var keyLenBytes := ReadExactAt(dbFile, keyStartPos + KeyLenOffset, 4);
      if keyLenBytes.None? {
        return ShortRead;
      }
      var valLenBytes := ReadExactAt(dbFile, keyStartPos + ValLenOffset, 4);
      if valLenBytes.None? {
        return ShortRead;
      }
      var keyLen := FromBE(keyLenBytes.value);
      var valLen := FromBE(valLenBytes.value);
      if valLen == 0 {
        return NotFound;
      }
      var valBuffer := ReadExactAt(dbFile, keyStartPos + HeaderSize + keyLen, valLen);
      if valBuffer.None? {
        return ShortRead;
      }
      return Found(valBuffer.value);
    }

    /** `delete`: a `set` with the empty value, i.e. an appended tombstone. */
    method Delete(ts: nat, key: seq<Byte>)
      requires Encodable(ts, key, [])
      modifies this
      ensures dbFile == old(dbFile) + Encode(ts, key, [])
      ensures keyPositionMap == old(keyPositionMap)[key := |old(dbFile)|]
      ensures sequenceNumber == old(sequenceNumber) + 1
      ensures Lookup(dbFile, keyPositionMap, key) == NotFound
      ensures forall q :: q != key && q in old(keyPositionMap) && Complete(old(dbFile), old(keyPositionMap)[q]) ==>
        Lookup(dbFile, keyPositionMap, q) == Lookup(old(dbFile), old(keyPositionMap), q)
      ensures old(Healthy()) ==> Healthy()
    {
      Set(ts, key, []);
    }
  }
}

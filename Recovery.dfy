/**
 * Index rebuild by replaying the log (`load_key_pos_map_from_file`), stated
 * as a pure scan over the file's bytes, with what it computes for logs made
 * of whole records, for torn tails, and for the trimming of such a tail.
 */
module Recovery {
  import opened Wrappers
  import opened Bytes
  import opened LogRecord

  /** Key index: each key to the start offset of its most recent record. */
  type Index = map<seq<Byte>, nat>

  /** Where the scan stands: the index so far, the records counted, the offset. */
  datatype ScanState = ScanState(index: Index, count: nat, pos: nat)

  /**
   * The recovery loop from offset `pos`: while `pos` is inside the file, decode
   * the header and key there (stopping silently where that read would run past
   * the end), point the key at `pos`, count the record and skip to its end.
   */
  function ScanFrom(file: seq<Byte>, pos: nat, index: Index, count: nat): (s: ScanState)
    ensures pos <= s.pos && count <= s.count
    ensures index.Keys <= s.index.Keys
    ensures s.pos < |file| ==> EntryAt(file, s.pos) == None
    decreases |file| - pos
  {
    if pos >= |file| then ScanState(index, count, pos)
    else
      match EntryAt(file, pos)
      case None => ScanState(index, count, pos)
      case Some(e) => ScanFrom(file, EntryEnd(pos, e), index[e.key := pos], count + 1)
  }

  /** The scan stops where the header or the key does not fit. */
  lemma ScanStops(file: seq<Byte>, pos: nat, index: Index, count: nat)
    requires EntryAt(file, pos) == None
    ensures ScanFrom(file, pos, index, count) == ScanState(index, count, pos)
  {
  }

  /** Otherwise it records the entry and moves past it. */
  lemma ScanAdvances(file: seq<Byte>, pos: nat, index: Index, count: nat)
    requires pos < |file| && EntryAt(file, pos).Some?
    ensures var e := EntryAt(file, pos).value;
      ScanFrom(file, pos, index, count) == ScanFrom(file, EntryEnd(pos, e), index[e.key := pos], count + 1)
  {
  }

  /** The index, record count and stop offset recovery computes for a whole file. */
  function Rebuild(file: seq<Byte>): (s: ScanState) {
    ScanFrom(file, 0, map[], 0)
  }

  /** Recovery stops exactly at the end of the file: no torn tail. */
  predicate Clean(file: seq<Byte>) {
    Rebuild(file).pos == |file|
  }

  /**
   * A scan that stops exactly at the end of `file` takes the same steps in any
   * longer file, and then carries on from `|file|`.
   */
  lemma {:induction false} ScanExtend(file: seq<Byte>, extra: seq<Byte>, pos: nat, index: Index, count: nat)
    requires ScanFrom(file, pos, index, count).pos == |file|
    ensures var s := ScanFrom(file, pos, index, count);
      ScanFrom(file + extra, pos, index, count) == ScanFrom(file + extra, |file|, s.index, s.count)
    decreases |file| - pos
  {
    if pos < |file| {
      var e := EntryAt(file, pos).value;
      EntryAtExtend(file, extra, pos);
      ScanExtend(file, extra, EntryEnd(pos, e), index[e.key := pos], count + 1);
    }
  }

  /**
   * Appending one record to a clean log (what `set` does) makes recovery
   * point that key at the old end of file, keep every other key, count one
   * more record and stop at the new end of file.
   */
  lemma RebuildAppend(file: seq<Byte>, ts: nat, key: seq<Byte>, val: seq<Byte>)
    requires Clean(file)
    requires Encodable(ts, key, val)
    ensures var s := Rebuild(file);
      Rebuild(file + Encode(ts, key, val)) == ScanState(s.index[key := |file|], s.count + 1, |file| + HeaderSize + |key| + |val|)
    ensures Clean(file + Encode(ts, key, val))
  {
    var r := Encode(ts, key, val);
    var s := Rebuild(file);
    ScanExtend(file, r, 0, map[], 0);
    DecodeAt(file, ts, key, val, []);
    assert file + r + [] == file + r;
  }

  /** Bytes too short to hold the 24-byte header and the key it announces. */
  predicate TornHeader(tail: seq<Byte>) {
    |tail| < HeaderSize || HeaderSize + U32At(tail, KeyLenOffset) > |tail|
  }

  /**
   * Torn header: when the bytes after a clean log are too short to hold the
   * 24-byte header and the key it announces, recovery ignores them and builds
   * the same index and count as for the clean log.
   */
  lemma TruncatedTail(file: seq<Byte>, tail: seq<Byte>)
    requires Clean(file)
    requires TornHeader(tail)
    ensures Rebuild(file + tail) == ScanState(Rebuild(file).index, Rebuild(file).count, |file|)
    ensures tail != [] ==> !Clean(file + tail)
  {
    ScanExtend(file, tail, 0, map[], 0);
    if |tail| >= HeaderSize {
      assert (file + tail)[|file| + KeyLenOffset..|file| + KeyLenOffset + 4] == tail[KeyLenOffset..KeyLenOffset + 4];
    }
    assert EntryAt(file + tail, |file|) == None;
  }

  /** A record cut off after its key still decodes, header and key, where it starts. */
  lemma TornEntryAt(file: seq<Byte>, ts: nat, key: seq<Byte>, val: seq<Byte>, n: nat)
    requires Encodable(ts, key, val)
    requires HeaderSize + |key| <= n <= HeaderSize + |key| + |val|
    ensures var torn := file + Encode(ts, key, val)[..n];
      EntryAt(torn, |file|) == Some(Entry(key, |val|)) && U32At(torn, |file| + ValLenOffset) == |val|
  {
    var r := Encode(ts, key, val);
    var torn := file + r[..n];
    EncodeRoundTrip(ts, key, val);
    SliceOfMiddle(file, r[..n], [], KeyLenOffset, KeyLenOffset + 4);
    SliceOfMiddle(file, r[..n], [], ValLenOffset, ValLenOffset + 4);
    SliceOfMiddle(file, r[..n], [], HeaderSize, HeaderSize + |key|);
    assert torn + [] == torn;
    assert r[..n][KeyLenOffset..KeyLenOffset + 4] == r[KeyLenOffset..KeyLenOffset + 4];
    assert r[..n][ValLenOffset..ValLenOffset + 4] == r[ValLenOffset..ValLenOffset + 4];
    assert r[..n][HeaderSize..HeaderSize + |key|] == r[HeaderSize..HeaderSize + |key|];
  }

  /**
   * Torn value: recovery never reads value bytes, so a last record cut off
   * anywhere after its key is still indexed and counted, and the scan ends
   * beyond the end of the file; `get` on that key would then fail its read.
   */
  lemma TruncatedValueStillIndexed(file: seq<Byte>, ts: nat, key: seq<Byte>, val: seq<Byte>, n: nat)
    requires Clean(file)
    requires Encodable(ts, key, val)
    requires HeaderSize + |key| <= n < HeaderSize + |key| + |val|
    ensures var torn := file + Encode(ts, key, val)[..n];
      && Rebuild(torn).index == Rebuild(file).index[key := |file|]
      && Rebuild(torn).count == Rebuild(file).count + 1
      && Rebuild(torn).pos > |torn|
      && ReadValue(torn, |file|) == ShortRead
  {
    var torn := file + Encode(ts, key, val)[..n];
    var s := Rebuild(file);
    ScanExtend(file, Encode(ts, key, val)[..n], 0, map[], 0);
    TornEntryAt(file, ts, key, val, n);
    ScanAdvances(torn, |file|, s.index, s.count);
  }

  /**
   * Every offset a scan that ends exactly at the end of the file puts in the
   * index is the start of a complete record.
   */
  lemma {:induction false} ScanComplete(file: seq<Byte>, pos: nat, index: Index, count: nat)
    requires ScanFrom(file, pos, index, count).pos == |file|
    requires forall k :: k in index ==> Complete(file, index[k])
    ensures var s := ScanFrom(file, pos, index, count);
      forall k :: k in s.index ==> Complete(file, s.index[k])
    decreases |file| - pos
  {
    if pos < |file| {
      var e := EntryAt(file, pos).value;
      ScanComplete(file, EntryEnd(pos, e), index[e.key := pos], count + 1);
    }
  }

  /** In a clean log every indexed offset starts a complete record. */
  lemma CleanIndexComplete(file: seq<Byte>)
    requires Clean(file)
    ensures forall k :: k in Rebuild(file).index ==> Complete(file, Rebuild(file).index[k])
  {
    ScanComplete(file, 0, map[], 0);
  }

  /**
   * After a torn header tail the index recovery rebuilds is the clean log's,
   * and every offset in it still starts a complete record.
   */
  lemma TornHeaderIndexComplete(file: seq<Byte>, tail: seq<Byte>)
    requires Clean(file)
    requires TornHeader(tail)
    ensures forall k :: k in Rebuild(file + tail).index ==> Complete(file + tail, Rebuild(file + tail).index[k])
  {
    TruncatedTail(file, tail);
    CleanIndexComplete(file);
    var index := Rebuild(file).index;
    forall k | k in index
      ensures Complete(file + tail, index[k])
    {
      EntryAtExtend(file, tail, index[k]);
    }
  }

  // ---------------------------------------------------------------------
  // Logs written as a sequence of whole records

  /** One log entry as `set` writes it. */
  datatype Record = Record(timestamp: nat, key: seq<Byte>, val: seq<Byte>)

  predicate ValidRecords(rs: seq<Record>) {
    forall i :: 0 <= i < |rs| ==> Encodable(rs[i].timestamp, rs[i].key, rs[i].val)
  }

  /** The log file holding the records `rs` back to back, without padding. */
  function EncodeAll(rs: seq<Record>): (file: seq<Byte>)
    requires ValidRecords(rs)
  {
    if rs == [] then []
    else
      var r := rs[|rs| - 1];
      EncodeAll(rs[..|rs| - 1]) + Encode(r.timestamp, r.key, r.val)
  }

  /** Start offset of record `i` in `EncodeAll(rs)`. */
  function Offset(rs: seq<Record>, i: nat): (off: nat)
    requires ValidRecords(rs) && i <= |rs|
  {
    |EncodeAll(rs[..i])|
  }

  /** Last-write-wins index of a record sequence: each key to its latest record's offset. */
  function IndexOf(rs: seq<Record>): (index: Index)
    requires ValidRecords(rs)
  {
    if rs == [] then map[]
    else IndexOf(rs[..|rs| - 1])[rs[|rs| - 1].key := Offset(rs, |rs| - 1)]
  }

  /** Consecutive records are laid out back to back: each is 24 + key + value bytes long. */
  lemma OffsetStep(rs: seq<Record>, i: nat)
    requires ValidRecords(rs) && i < |rs|
    ensures Offset(rs, i + 1) == Offset(rs, i) + HeaderSize + |rs[i].key| + |rs[i].val|
  {
    assert rs[..i + 1][..i] == rs[..i];
  }

  lemma ValidPrefix(rs: seq<Record>, n: nat)
    requires ValidRecords(rs) && n <= |rs|
    ensures ValidRecords(rs[..n])
  {
    assert forall i :: 0 <= i < n ==> rs[..n][i] == rs[i];
  }

  /** Every key that occurs in the records is in `IndexOf`. */
  lemma {:induction false} IndexOfHasKey(rs: seq<Record>, i: nat)
    requires ValidRecords(rs) && i < |rs|
    ensures rs[i].key in IndexOf(rs)
  {
    var n := |rs| - 1;
    if i < n {
      ValidPrefix(rs, n);
      IndexOfHasKey(rs[..n], i);
      assert rs[..n][i] == rs[i];
    }
  }

  /** `IndexOf` holds only keys that occur in the records. */
  lemma {:induction false} IndexOfOnlyKeys(rs: seq<Record>, k: seq<Byte>)
    requires ValidRecords(rs) && k in IndexOf(rs)
    ensures exists i :: 0 <= i < |rs| && rs[i].key == k
  {
    var n := |rs| - 1;
    if rs[n].key != k {
      var init := rs[..n];
      ValidPrefix(rs, n);
      IndexOfOnlyKeys(init, k);
      var i :| 0 <= i < n && init[i].key == k;
      assert rs[i] == init[i];
    }
  }

  /** Record `i` is the last one in `rs` that carries key `k`. */
  predicate LastWith(rs: seq<Record>, k: seq<Byte>, i: nat) {
    i < |rs| && rs[i].key == k && forall j :: i < j < |rs| ==> rs[j].key != k
  }

  /** `IndexOf` points each key at the offset of the last record carrying it. */
  lemma {:induction false} IndexOfLastWins(rs: seq<Record>, k: seq<Byte>)
    requires ValidRecords(rs)
    requires k in IndexOf(rs)
    ensures exists i: nat :: LastWith(rs, k, i) && IndexOf(rs)[k] == Offset(rs, i)
  {
    var n := |rs| - 1;
    var init := rs[..n];
    ValidPrefix(rs, n);
    var m := IndexOf(init)[rs[n].key := Offset(rs, n)];
    assert IndexOf(rs) == m;
    if rs[n].key == k {
      assert LastWith(rs, k, n) && m[k] == Offset(rs, n);
    } else {
      IndexOfLastWins(init, k);
      var i: nat :| LastWith(init, k, i) && IndexOf(init)[k] == Offset(init, i);
      assert init[..i] == rs[..i];
      assert LastWith(rs, k, i) by {
        forall j | i < j < |rs| ensures rs[j].key != k {
          if j < n { assert init[j] == rs[j]; }
        }
      }
      assert m[k] == Offset(rs, i);
    }
  }

  /**
   * Recovery over a log of whole records finds every record, ends exactly at
   * the end of the file and builds the last-write-wins index.
   */
  lemma {:induction false} RebuildRecords(rs: seq<Record>)
    requires ValidRecords(rs)
    ensures Clean(EncodeAll(rs))
    ensures Rebuild(EncodeAll(rs)) == ScanState(IndexOf(rs), |rs|, |EncodeAll(rs)|)
  {
    if rs != [] {
      var n := |rs| - 1;
      var r := rs[n];
      ValidPrefix(rs, n);
      RebuildRecords(rs[..n]);
      RebuildAppend(EncodeAll(rs[..n]), r.timestamp, r.key, r.val);
    }
  }

  // ---------------------------------------------------------------------
  // Trimming a torn tail

  /** End of the longest run of complete records that starts at `pos`. */
  function CompleteEnd(file: seq<Byte>, pos: nat): (e: nat)
    requires pos <= |file|
    ensures pos <= e <= |file|
    ensures !Complete(file, e)
    decreases |file| - pos
  {
    if Complete(file, pos) then CompleteEnd(file, EntryEnd(pos, EntryAt(file, pos).value)) else pos
  }

  lemma EntryAtPrefix(file: seq<Byte>, n: nat, pos: nat)
    requires Complete(file, pos) && EntryEnd(pos, EntryAt(file, pos).value) <= n <= |file|
    ensures EntryAt(file[..n], pos) == EntryAt(file, pos)
  {
    assert file[..n][pos + KeyLenOffset..pos + KeyLenOffset + 4] == file[pos + KeyLenOffset..pos + KeyLenOffset + 4];
    assert file[..n][pos + ValLenOffset..pos + ValLenOffset + 4] == file[pos + ValLenOffset..pos + ValLenOffset + 4];
    var keyLen := U32At(file, pos + KeyLenOffset);
    assert file[..n][pos + HeaderSize..pos + HeaderSize + keyLen] == file[pos + HeaderSize..pos + HeaderSize + keyLen];
  }

  lemma {:induction false} ScanTrimmed(file: seq<Byte>, e: nat, pos: nat, index: Index, count: nat)
    requires pos <= |file| && e == CompleteEnd(file, pos)
    ensures ScanFrom(file[..e], pos, index, count).pos == e
    decreases |file| - pos
  {
    if Complete(file, pos) {
      var ent := EntryAt(file, pos).value;
      EntryAtPrefix(file, e, pos);
      ScanTrimmed(file, e, EntryEnd(pos, ent), index[ent.key := pos], count + 1);
    }
  }

  lemma {:induction false} CleanRunEnd(file: seq<Byte>, pos: nat, index: Index, count: nat)
    requires pos <= |file| && ScanFrom(file, pos, index, count).pos == |file|
    ensures CompleteEnd(file, pos) == |file|
    decreases |file| - pos
  {
    if pos < |file| {
      var e := EntryAt(file, pos).value;
      CleanRunEnd(file, EntryEnd(pos, e), index[e.key := pos], count + 1);
    }
  }

  /**
   * Cutting the log after its last complete record leaves a log recovery
   * reads to the end; a clean log is left as it is.
   */
  lemma TrimTornTail(file: seq<Byte>)
    ensures Clean(file[..CompleteEnd(file, 0)])
    ensures Clean(file) ==> CompleteEnd(file, 0) == |file|
  {
    ScanTrimmed(file, CompleteEnd(file, 0), 0, map[], 0);
    if Clean(file) {
      CleanRunEnd(file, 0, map[], 0);
    }
  }

  /**
   * Past the end of a run of complete records that reaches the end of `file`,
   * bytes appended after it do not move the cut point: the run continues
   * unchanged from `|file|`.
   */
  lemma {:induction false} CompleteEndExtend(file: seq<Byte>, extra: seq<Byte>, pos: nat, index: Index, count: nat)
    requires pos <= |file| && ScanFrom(file, pos, index, count).pos == |file|
    ensures CompleteEnd(file + extra, pos) == CompleteEnd(file + extra, |file|)
    decreases |file| - pos
  {
    if pos < |file| {
      var e := EntryAt(file, pos).value;
      EntryAtExtend(file, extra, pos);
      assert EntryEnd(pos, e) <= |file|;
      CompleteEndExtend(file, extra, EntryEnd(pos, e), index[e.key := pos], count + 1);
    }
  }

  /**
   * Cutting a clean log followed by any tail that does not start with a
   * complete record keeps exactly the clean log: no complete record is lost.
   */
  lemma TrimAfterClean(file: seq<Byte>, tail: seq<Byte>)
    requires Clean(file) && !Complete(file + tail, |file|)
    ensures CompleteEnd(file + tail, 0) == |file|
    ensures (file + tail)[..CompleteEnd(file + tail, 0)] == file
  {
    CompleteEndExtend(file, tail, 0, map[], 0);
  }

  /**
   * A record cut off inside its value after a clean log: the corrected
   * recovery cuts it away and rebuilds the index and count of the clean log,
   * that is, the state from before that record was written.
   */
  lemma TornValueTrimmed(file: seq<Byte>, ts: nat, key: seq<Byte>, val: seq<Byte>, n: nat)
    requires Clean(file)
    requires Encodable(ts, key, val)
    requires HeaderSize + |key| <= n < HeaderSize + |key| + |val|
    ensures var torn := file + Encode(ts, key, val)[..n];
      && CompleteEnd(torn, 0) == |file|
      && Rebuild(torn[..CompleteEnd(torn, 0)]) == Rebuild(file)
  {
    var torn := file + Encode(ts, key, val)[..n];
    TornEntryAt(file, ts, key, val, n);
    TrimAfterClean(file, Encode(ts, key, val)[..n]);
  }

  /**
   * A tail too short for a header plus its key after a clean log: the
   * corrected recovery cuts it away, with the index and count of the clean log.
   */
  lemma TornHeaderTrimmed(file: seq<Byte>, tail: seq<Byte>)
    requires Clean(file)
    requires TornHeader(tail)
    ensures CompleteEnd(file + tail, 0) == |file|
    ensures Rebuild((file + tail)[..CompleteEnd(file + tail, 0)]) == Rebuild(file)
  {
    if |tail| >= HeaderSize {
      assert (file + tail)[|file| + KeyLenOffset..|file| + KeyLenOffset + 4] == tail[KeyLenOffset..KeyLenOffset + 4];
    }
    assert EntryAt(file + tail, |file|) == None;
    TrimAfterClean(file, tail);
  }
}

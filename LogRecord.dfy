/**
 * One write-ahead-log record: its binary layout (`LogEntry::to_binary_log`)
 * and the positional reads with which recovery and `get` decode it again.
 *
 *   [16 B timestamp][4 B key length][4 B value length][key bytes][value bytes]
 *
 * All integers are big-endian; the fixed header is 24 bytes.  A record whose
 * value length is 0 is a tombstone.
 */
module LogRecord {
  import opened Wrappers
  import opened Bytes

  const TimestampSize: nat := 16
  const KeyLenOffset: nat := 16
  const ValLenOffset: nat := 20
  const HeaderSize: nat := 24

  /**
   * Fields that `to_binary_log` encodes without loss: the timestamp is a
   * `u128` millisecond count and both lengths go through `as u32`.
   */
  predicate Encodable(ts: nat, key: seq<Byte>, val: seq<Byte>) {
    ts < U128Bound && |key| < U32Bound && |val| < U32Bound
  }

  /** The bytes `to_binary_log` produces for one entry. */
  function Encode(ts: nat, key: seq<Byte>, val: seq<Byte>): (r: seq<Byte>)
    requires Encodable(ts, key, val)
    ensures |r| == HeaderSize + |key| + |val|
  {
    Pow256Widths();
    ToBE(ts, TimestampSize) + ToBE(|key|, 4) + ToBE(|val|, 4) + key + val
  }

  /**
   * `read_exact_at` on the in-memory file: it fills `len` bytes from `off`,
   * and fails exactly when that would run past the end of the file. For an
   * empty buffer past the end the real call succeeds; no read here is empty
   * and past the end at once.
   */
  function ReadExactAt(file: seq<Byte>, off: nat, len: nat): (r: Option<seq<Byte>>)
  {
    if off + len <= |file| then Some(file[off..off + len]) else None
  }

  /** The big-endian `u32` stored at `off`. */
  function U32At(file: seq<Byte>, off: nat): (n: nat)
    requires off + 4 <= |file|
    ensures n < U32Bound
  {
    Pow256Widths();
    FromBE(file[off..off + 4])
  }

  /** What the recovery scan learns from the record that starts at some offset. */
  datatype Entry = Entry(key: seq<Byte>, valLen: nat)

  /**
   * The recovery scan's decoding of the record at `pos`: the header and the
   * key must lie inside the file, the value bytes are never read.
   */
  function EntryAt(file: seq<Byte>, pos: nat): (r: Option<Entry>)
    ensures r.Some? <==> pos + HeaderSize <= |file| && pos + HeaderSize + U32At(file, pos + KeyLenOffset) <= |file|
    ensures r.Some? ==> |r.value.key| == U32At(file, pos + KeyLenOffset) && r.value.valLen == U32At(file, pos + ValLenOffset)
  {
    if pos + HeaderSize > |file| then None
    else
      var keyLen := U32At(file, pos + KeyLenOffset);
      if pos + HeaderSize + keyLen > |file| then None
      else Some(Entry(file[pos + HeaderSize..pos + HeaderSize + keyLen], U32At(file, pos + ValLenOffset)))
  }

  /** Offset just past the record that starts at `pos` and decodes as `e`. */
  function EntryEnd(pos: nat, e: Entry): (end: nat) {
    pos + HeaderSize + |e.key| + e.valLen
  }

  /** The record at `pos` lies entirely inside the file, value bytes included. */
  predicate Complete(file: seq<Byte>, pos: nat) {
    EntryAt(file, pos).Some? && EntryEnd(pos, EntryAt(file, pos).value) <= |file|
  }

  /**
   * Outcome of `get` once the key has been found in the index: the value,
   * "not found" for a tombstone, or `ShortRead` where one of its
   * `read_exact_at(..).unwrap()` calls would panic.
   */
  datatype GetResult = Found(value: seq<Byte>) | NotFound | ShortRead

  /** The reads `get` performs on the record at `pos`, in the same order. */
  function ReadValue(file: seq<Byte>, pos: nat): (r: GetResult)
    ensures r.Found? ==> r.value != []
    ensures r != ShortRead <==>
      (pos + HeaderSize <= |file| &&
       (U32At(file, pos + ValLenOffset) == 0 ||
        pos + HeaderSize + U32At(file, pos + KeyLenOffset) + U32At(file, pos + ValLenOffset) <= |file|))
  {
    if pos + HeaderSize > |file| then ShortRead
    else
      var keyLen := U32At(file, pos + KeyLenOffset);
      var valLen := U32At(file, pos + ValLenOffset);
      if valLen == 0 then NotFound
      else if pos + HeaderSize + keyLen + valLen > |file| then ShortRead
      else Found(file[pos + HeaderSize + keyLen..pos + HeaderSize + keyLen + valLen])
  }

  /** Decoding an encoded record field by field gives back what was encoded. */
  lemma EncodeRoundTrip(ts: nat, key: seq<Byte>, val: seq<Byte>)
    requires Encodable(ts, key, val)
    ensures var r := Encode(ts, key, val);
      && FromBE(r[..TimestampSize]) == ts
      && FromBE(r[KeyLenOffset..KeyLenOffset + 4]) == |key|
      && FromBE(r[ValLenOffset..ValLenOffset + 4]) == |val|
      && r[HeaderSize..HeaderSize + |key|] == key
      && r[HeaderSize + |key|..] == val
  {
    Pow256Widths();
    var r := Encode(ts, key, val);
    var t, kl, vl := ToBE(ts, TimestampSize), ToBE(|key|, 4), ToBE(|val|, 4);
    var h := t + kl + vl;
    assert r == h + key + val;
    assert r[..HeaderSize] == h;
    assert h[..TimestampSize] == t;
    assert h[KeyLenOffset..KeyLenOffset + 4] == kl;
    assert h[ValLenOffset..ValLenOffset + 4] == vl;
    assert r[..TimestampSize] == t;
    assert r[KeyLenOffset..KeyLenOffset + 4] == kl;
    assert r[ValLenOffset..ValLenOffset + 4] == vl;
  }

  /** A window of the middle part of a concatenation is a window of that part. */
  lemma SliceOfMiddle(pre: seq<Byte>, r: seq<Byte>, post: seq<Byte>, i: nat, j: nat)
    requires i <= j <= |r|
    ensures (pre + r + post)[|pre| + i..|pre| + j] == r[i..j]
  {
  }

  /** The fields of a record encoded at offset `|pre|`, read back from the whole file. */
  lemma FieldsAt(pre: seq<Byte>, ts: nat, key: seq<Byte>, val: seq<Byte>, post: seq<Byte>)
    requires Encodable(ts, key, val)
    ensures var file, p := pre + Encode(ts, key, val) + post, |pre|;
      && |file| >= p + HeaderSize + |key| + |val|
      && FromBE(file[p..p + TimestampSize]) == ts
      && U32At(file, p + KeyLenOffset) == |key|
      && U32At(file, p + ValLenOffset) == |val|
      && file[p + HeaderSize..p + HeaderSize + |key|] == key
      && file[p + HeaderSize + |key|..p + HeaderSize + |key| + |val|] == val
  {
    var r := Encode(ts, key, val);
    EncodeRoundTrip(ts, key, val);
    SliceOfMiddle(pre, r, post, 0, TimestampSize);
    SliceOfMiddle(pre, r, post, KeyLenOffset, KeyLenOffset + 4);
    SliceOfMiddle(pre, r, post, ValLenOffset, ValLenOffset + 4);
    SliceOfMiddle(pre, r, post, HeaderSize, HeaderSize + |key|);
    SliceOfMiddle(pre, r, post, HeaderSize + |key|, |r|);
    assert r[HeaderSize + |key|..|r|] == r[HeaderSize + |key|..];
  }

  /**
   * A record encoded at offset `|pre|` of a file decodes, with the reads of
   * recovery and of `get`, to its key and value, whatever precedes or
   * follows it; a zero-length value reads as a tombstone.
   */
  lemma DecodeAt(pre: seq<Byte>, ts: nat, key: seq<Byte>, val: seq<Byte>, post: seq<Byte>)
    requires Encodable(ts, key, val)
    ensures var file, p := pre + Encode(ts, key, val) + post, |pre|;
      && EntryAt(file, p) == Some(Entry(key, |val|))
      && Complete(file, p)
      && ReadValue(file, p) == (if val == [] then NotFound else Found(val))
  {
    FieldsAt(pre, ts, key, val, post);
  }

  /**
   * Conversely, every complete record in a file is the encoding of the
   * timestamp, key and value that decoding it yields.
   */
  lemma EncodeOfDecoded(file: seq<Byte>, pos: nat)
    requires Complete(file, pos)
    ensures var e := EntryAt(file, pos).value;
      var ts, v := FromBE(file[pos..pos + TimestampSize]), file[pos + HeaderSize + |e.key|..EntryEnd(pos, e)];
      && Encodable(ts, e.key, v)
      && file[pos..EntryEnd(pos, e)] == Encode(ts, e.key, v)
  {
    Pow256Widths();
    var e := EntryAt(file, pos).value;
    var t := file[pos..pos + TimestampSize];
    var kl := file[pos + KeyLenOffset..pos + KeyLenOffset + 4];
    var vl := file[pos + ValLenOffset..pos + ValLenOffset + 4];
    var v := file[pos + HeaderSize + |e.key|..EntryEnd(pos, e)];
    ToBEFromBE(t);
    ToBEFromBE(kl);
    ToBEFromBE(vl);
    var end := EntryEnd(pos, e);
    SliceSplit(file, pos, pos + KeyLenOffset, end);
    SliceSplit(file, pos + KeyLenOffset, pos + ValLenOffset, end);
    SliceSplit(file, pos + ValLenOffset, pos + HeaderSize, end);
    SliceSplit(file, pos + HeaderSize, pos + HeaderSize + |e.key|, end);
  }

  lemma SliceSplit(s: seq<Byte>, a: nat, b: nat, c: nat)
    requires a <= b <= c <= |s|
    ensures s[a..c] == s[a..b] + s[b..c]
  {
  }

  lemma SliceOfPrefix(file: seq<Byte>, extra: seq<Byte>, i: nat, j: nat)
    requires i <= j <= |file|
    ensures (file + extra)[i..j] == file[i..j]
  {
  }

  /** Appending to a file does not change how a record that fits in it decodes. */
  lemma EntryAtExtend(file: seq<Byte>, extra: seq<Byte>, pos: nat)
    requires EntryAt(file, pos).Some?
    ensures EntryAt(file + extra, pos) == EntryAt(file, pos)
  {
    SliceOfPrefix(file, extra, pos + KeyLenOffset, pos + KeyLenOffset + 4);
    SliceOfPrefix(file, extra, pos + ValLenOffset, pos + ValLenOffset + 4);
    SliceOfPrefix(file, extra, pos + HeaderSize, pos + HeaderSize + U32At(file, pos + KeyLenOffset));
  }

  /** Appending to a file does not change what `get` reads from a complete record. */
  lemma ReadValueExtend(file: seq<Byte>, extra: seq<Byte>, pos: nat)
    requires Complete(file, pos)
    ensures ReadValue(file + extra, pos) == ReadValue(file, pos)
  {
    EntryAtExtend(file, extra, pos);
    var e := EntryAt(file, pos).value;
    SliceOfPrefix(file, extra, pos + HeaderSize + |e.key|, EntryEnd(pos, e));
  }
}

/**
 The log record of an insert and its binary form.
 */
module InsertLog {
  import opened Common
  import opened Words

  const INSERT := 1
  const INVALID := -1
  const LOG_HEADER_SIZE := 20

  /** The log header (type, lsn, total length, transaction, previous lsn), the record with its length
      before it, its place, and the table name with its length before it. */
  ghost function Image(lsn: int, tid: int, prevLsn: int, data: Bytes, rid: Rid, name: Bytes): Bytes
    requires Storable(lsn, tid, prevLsn, data, rid, name)
  {
    Word(INSERT) + Word(lsn) + Word(ImageLen(data, name)) + Word(tid) + Word(prevLsn) +
    Word(|data|) + data + Word(rid.pageNo) + Word(rid.slotNo) + Long(|name|) + name
  }

  function ImageLen(data: Bytes, name: Bytes): nat {
    LOG_HEADER_SIZE + 4 + |data| + 8 + (8 + |name|)
  }

  predicate Storable(lsn: int, tid: int, prevLsn: int, data: Bytes, rid: Rid, name: Bytes) {
    Int32(lsn) && Int32(tid) && Int32(prevLsn) && Int32(rid.pageNo) && Int32(rid.slotNo) && Int32(ImageLen(data, name))
  }

  class InsertLogRecord {
    var logType: int
    var lsn: int
    var totLen: int
    var tid: int
    var prevLsn: int
    var data: Bytes
    var rid: Rid
    var name: Bytes

    ghost predicate Valid()
      reads this
    {
      logType == INSERT && totLen == ImageLen(data, name)
    }

    constructor (tid: int, data: Bytes, rid: Rid, name: Bytes)
      ensures Valid() && this.tid == tid && this.data == data && this.rid == rid && this.name == name
      ensures lsn == INVALID && prevLsn == INVALID
    {
      logType, lsn, prevLsn := INSERT, INVALID, INVALID;
      this.tid, this.data, this.rid, this.name := tid, data, rid, name;
      totLen := LOG_HEADER_SIZE + 4 + |data| + 8 + (8 + |name|);
    }

    /** Writes exactly `totLen` bytes. */
    method Serialize(dest: array<Byte>)
      requires Valid() && Storable(lsn, tid, prevLsn, data, rid, name) && totLen <= dest.Length
      modifies dest
      ensures Filled(dest[..], old(dest[..]), Image(lsn, tid, prevLsn, data, rid, name))
      ensures |Image(lsn, tid, prevLsn, data, rid, name)| == totLen
    {
      hide Filled, Word, Long;
      ghost var was, b := dest[..], [];
      NothingFilled(was);
      var offset := CopyIn(dest, 0, Word(logType), was, b);
      b := b + Word(logType);
      offset := CopyIn(dest, offset, Word(lsn), was, b);
      b := b + Word(lsn);
      offset := CopyIn(dest, offset, Word(totLen), was, b);
      b := b + Word(totLen);
      offset := CopyIn(dest, offset, Word(tid), was, b);
      b := b + Word(tid);
      offset := CopyIn(dest, offset, Word(prevLsn), was, b);
      b := b + Word(prevLsn);
      offset := CopyIn(dest, offset, Word(|data|), was, b);
      b := b + Word(|data|);
      offset := CopyIn(dest, offset, data, was, b);
      b := b + data;
      offset := CopyIn(dest, offset, Word(rid.pageNo), was, b);
      b := b + Word(rid.pageNo);
      offset := CopyIn(dest, offset, Word(rid.slotNo), was, b);
      b := b + Word(rid.slotNo);
      offset := CopyIn(dest, offset, Long(|name|), was, b);
      b := b + Long(|name|);
      offset := CopyIn(dest, offset, name, was, b);
      assert [] + Word(logType) == Word(logType);
    }

    /** Reads a record back. */
    method Deserialize(src: Bytes, ghost lsn0: int, ghost tid0: int, ghost prevLsn0: int, ghost data0: Bytes,
                       ghost rid0: Rid, ghost name0: Bytes)
      requires Storable(lsn0, tid0, prevLsn0, data0, rid0, name0)
      requires Image(lsn0, tid0, prevLsn0, data0, rid0, name0) <= src
      modifies this
      ensures Valid() && lsn == lsn0 && tid == tid0 && prevLsn == prevLsn0
      ensures data == data0 && rid == rid0 && name == name0
    {
      hide Word, Long, IntOf, LongOf;
      Parts(src, lsn0, tid0, prevLsn0, data0, rid0, name0);
      logType := IntOf(src[0..4]);
      lsn := IntOf(src[4..8]);
      totLen := IntOf(src[8..12]);
      tid := IntOf(src[12..16]);
      prevLsn := IntOf(src[16..20]);
      var size := IntOf(src[20..24]);
      data := src[24..24 + size];
      var offset := LOG_HEADER_SIZE + size + 4;
      rid := Rid(IntOf(src[offset..offset + 4]), IntOf(src[offset + 4..offset + 8]));
      offset := offset + 8;
      var nameSize := LongOf(src[offset..offset + 8]);
      offset := offset + 8;
      name := src[offset..offset + nameSize];
    }
  }

  /** Which bytes of an image hold what. */
  lemma Parts(src: Bytes, lsn: int, tid: int, prevLsn: int, data: Bytes, rid: Rid, name: Bytes)
    requires Storable(lsn, tid, prevLsn, data, rid, name) && Image(lsn, tid, prevLsn, data, rid, name) <= src
    ensures var n, m := |data|, |name|;
            && ImageLen(data, name) <= |src|
            && IntOf(src[0..4]) == INSERT && IntOf(src[4..8]) == lsn && IntOf(src[8..12]) == ImageLen(data, name)
            && IntOf(src[12..16]) == tid && IntOf(src[16..20]) == prevLsn
            && IntOf(src[20..24]) == n && src[24..24 + n] == data
            && IntOf(src[24 + n..28 + n]) == rid.pageNo && IntOf(src[28 + n..32 + n]) == rid.slotNo
            && LongOf(src[32 + n..40 + n]) == m && src[40 + n..40 + n + m] == name
  {
    hide Word, Long, IntOf, LongOf;
    var n, m := |data|, |name|;
    assert src[0..4] == Word(INSERT);
    assert src[4..8] == Word(lsn);
    assert src[8..12] == Word(ImageLen(data, name));
    assert src[12..16] == Word(tid);
    assert src[16..20] == Word(prevLsn);
    assert src[20..24] == Word(n);
    assert src[24 + n..28 + n] == Word(rid.pageNo);
    assert src[28 + n..32 + n] == Word(rid.slotNo);
    assert src[32 + n..40 + n] == Long(m);
    WordRoundTrip(INSERT);
    WordRoundTrip(lsn);
    WordRoundTrip(ImageLen(data, name));
    WordRoundTrip(tid);
    WordRoundTrip(prevLsn);
    WordRoundTrip(n);
    WordRoundTrip(rid.pageNo);
    WordRoundTrip(rid.slotNo);
    LongRoundTrip(m);
  }
}

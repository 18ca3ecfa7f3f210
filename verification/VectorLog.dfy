/**
  The append-only record log: the scan that rebuilds the offset index from bytes, and what it
  computes for any file made of well-formed records (internal/core/file_vector_store.go).
 */
module VectorLog {
  import opened RecordCodec

  type Decoder = Bytes -> Result<Record>

  datatype Meta = Meta(recordOffset: nat, recordLength: nat)
  datatype OffsetIndex = OffsetIndex(offsets: map<Bytes, Meta>, total: nat, stale: nat)

  const EMPTY := OffsetIndex(map[], 0, 0)

  /** The effect of one record on the index. */
  function Absorb(st: OffsetIndex, record: Record, meta: Meta): OffsetIndex {
    if record.op == OP_DELETE then OffsetIndex(st.offsets - {record.id}, st.total + 1, st.stale + 1)
    else OffsetIndex(st.offsets[record.id := meta], st.total + 1, st.stale + if record.id in st.offsets then 1 else 0)
  }

  /** One round of the scan at `offset`: the record there and the offset after it. */
  function ReadNext(dec: Decoder, file: Bytes, offset: nat): (r: Result<(Record, nat)>)
    requires offset <= |file|
    ensures r.Ok? ==> offset + 4 <= r.value.1 <= |file|
  {
    if |file| - offset < 4 then Err
    else
      var recordLength := Uint32(file[offset..offset + 4]);
      if |file| - offset - 4 < recordLength then Err
      else
        var record := dec(file[offset + 4..offset + 4 + recordLength]);
        if record.Err? then Err else Ok((record.value, offset + 4 + recordLength))
  }

  function Scan(dec: Decoder, file: Bytes, offset: nat, st: OffsetIndex): Result<OffsetIndex>
    requires offset <= |file|
    decreases |file| - offset
  {
    if offset == |file| then Ok(st)
    else
      var next := ReadNext(dec, file, offset);
      if next.Err? then Err
      else
        var (record, end) := next.value;
        Scan(dec, file, end, Absorb(st, record, Meta(offset, (end - offset) % U32)))
  }

  function Rebuild(dec: Decoder, file: Bytes): Result<OffsetIndex> {
    Scan(dec, file, 0, EMPTY)
  }

  method RebuildIndex(dec: Decoder, file: Bytes) returns (r: Result<OffsetIndex>)
    ensures r == Rebuild(dec, file)
  {
    var offset, st := 0, EMPTY;
    while offset < |file|
      invariant offset <= |file|
      invariant Scan(dec, file, offset, st) == Rebuild(dec, file)
      decreases |file| - offset
    {
      var next := ReadNext(dec, file, offset);
      if next.Err? {
        return Err;
      }
      var (record, end) := next.value;
      st := Absorb(st, record, Meta(offset, (end - offset) % U32));
      offset := end;
    }
    r := Ok(st);
  }

  /** The bytes of one record: its length, which fits the header, then a payload that decodes. */
  ghost predicate Framed(dec: Decoder, chunk: Bytes, record: Record) {
    4 < |chunk| < U32 && 4 + Uint32(chunk[..4]) == |chunk| && dec(chunk[4..]) == Ok(record)
  }

  ghost predicate AllFramed(dec: Decoder, chunks: seq<Bytes>, records: seq<Record>) {
    |chunks| == |records| && forall i | 0 <= i < |chunks| :: Framed(dec, chunks[i], records[i])
  }

  ghost function Flatten(chunks: seq<Bytes>): Bytes {
    if chunks == [] then [] else Flatten(chunks[..|chunks| - 1]) + chunks[|chunks| - 1]
  }

  /** The index that the records of a file describe. */
  ghost function IndexOf(chunks: seq<Bytes>, records: seq<Record>): OffsetIndex
    requires |chunks| == |records|
  {
    if records == [] then EMPTY
    else
      var n := |records| - 1;
      Absorb(IndexOf(chunks[..n], records[..n]), records[n], Meta(|Flatten(chunks[..n])|, |chunks[n]|))
  }

  lemma ReadNextChunk(dec: Decoder, before: Bytes, chunk: Bytes, tail: Bytes, record: Record)
    requires Framed(dec, chunk, record)
    ensures ReadNext(dec, before + chunk + tail, |before|) == Ok((record, |before| + |chunk|))
  {
    var file, offset := before + chunk + tail, |before|;
    assert file[offset..offset + 4] == chunk[..4];
    assert file[offset + 4..offset + |chunk|] == chunk[4..];
  }

  lemma AbsorbLast(dec: Decoder, before: Bytes, st: OffsetIndex, chunk: Bytes, record: Record, tail: Bytes)
    requires Framed(dec, chunk, record)
    ensures Scan(dec, before + (chunk + tail), |before|, st)
      == Scan(dec, before + chunk + tail, |before + chunk|, Absorb(st, record, Meta(|before|, |chunk|)))
  {
    Reassociate(before, chunk, tail);
    ReadNextChunk(dec, before, chunk, tail, record);
    ScanStep(dec, before + chunk + tail, |before|, |before + chunk|, st, record);
  }

  lemma ScanStep(dec: Decoder, file: Bytes, offset: nat, end: nat, st: OffsetIndex, record: Record)
    requires offset < |file| && ReadNext(dec, file, offset) == Ok((record, end)) && end - offset < U32
    ensures offset < end && Scan(dec, file, offset, st) == Scan(dec, file, end, Absorb(st, record, Meta(offset, end - offset)))
  {
    ShortLengthFits(end - offset);
  }

  lemma ShortLengthFits(n: nat)
    requires n < U32
    ensures n % U32 == n
  {
  }

  /** Scanning a file that starts with well-formed records absorbs exactly those records. */
  lemma {:induction false} ScanAbsorbsLog(dec: Decoder, chunks: seq<Bytes>, records: seq<Record>, tail: Bytes)
    requires AllFramed(dec, chunks, records)
    ensures Rebuild(dec, Flatten(chunks) + tail) == Scan(dec, Flatten(chunks) + tail, |Flatten(chunks)|, IndexOf(chunks, records))
  {
    if chunks != [] {
      var n := |chunks| - 1;
      var before := Flatten(chunks[..n]);
      ScanAbsorbsLog(dec, chunks[..n], records[..n], chunks[n] + tail);
      Reassociate(before, chunks[n], tail);
      AbsorbLast(dec, before, IndexOf(chunks[..n], records[..n]), chunks[n], records[n], tail);
    }
  }

  /** Rebuilding a file of well-formed records gives the index of those records. */
  lemma RebuildOfLog(dec: Decoder, chunks: seq<Bytes>, records: seq<Record>)
    requires AllFramed(dec, chunks, records)
    ensures Rebuild(dec, Flatten(chunks)) == Ok(IndexOf(chunks, records))
  {
    ScanAbsorbsLog(dec, chunks, records, []);
    assert Flatten(chunks) + [] == Flatten(chunks);
  }

  lemma {:induction false} FlattenSplits(chunks: seq<Bytes>, k: nat) returns (rest: Bytes)
    requires k <= |chunks|
    ensures Flatten(chunks) == Flatten(chunks[..k]) + rest
    ensures k < |chunks| ==> |rest| >= |chunks[k]| && rest[..|chunks[k]|] == chunks[k]
  {
    if k == |chunks| {
      rest := [];
      assert chunks[..k] == chunks;
    } else if k == |chunks| - 1 {
      rest := chunks[k];
    } else {
      var n := |chunks| - 1;
      var r := FlattenSplits(chunks[..n], k);
      assert chunks[..n][..k] == chunks[..k];
      rest := r + chunks[n];
      Reassociate(Flatten(chunks[..k]), r, chunks[n]);
    }
  }

  /** The byte position of a record boundary. */
  ghost function Boundary(chunks: seq<Bytes>, k: nat): nat
    requires k <= |chunks|
  {
    |Flatten(chunks[..k])|
  }

  /** A later record ends at a later byte. */
  lemma {:induction false} BoundariesGrow(dec: Decoder, chunks: seq<Bytes>, records: seq<Record>, j: nat, k: nat)
    requires AllFramed(dec, chunks, records) && j <= |chunks| && k <= |chunks| && Boundary(chunks, j) >= Boundary(chunks, k)
    ensures j >= k
  {
    if j < k {
      assert chunks[..k][..k - 1] == chunks[..k - 1];
      if j < k - 1 {
        BoundariesGrow(dec, chunks, records, j, k - 1);
      }
    }
  }

  lemma LastBoundary(chunks: seq<Bytes>, t: nat) returns (k: nat)
    requires t <= |Flatten(chunks)|
    ensures k <= |chunks| && Boundary(chunks, k) <= t
    ensures k < |chunks| ==> t < Boundary(chunks, k + 1)
  {
    k := |chunks|;
    assert chunks[..k] == chunks;
    while Boundary(chunks, k) > t
      invariant k <= |chunks|
      invariant k < |chunks| ==> t < Boundary(chunks, k + 1)
      decreases k
    {
      assert k > 0;
      k := k - 1;
    }
  }

  lemma CutChunkIsRejected(dec: Decoder, before: Bytes, chunk: Bytes, record: Record, cut: Bytes)
    requires Framed(dec, chunk, record) && 0 < |cut| < |chunk| && cut == chunk[..|cut|]
    ensures ReadNext(dec, before + cut, |before|) == Err
  {
    if |cut| >= 4 {
      assert (before + cut)[|before|..|before| + 4] == cut[..4] == chunk[..4];
    }
  }

  lemma CutIsRejected(dec: Decoder, chunks: seq<Bytes>, records: seq<Record>, t: nat, k: nat)
    requires AllFramed(dec, chunks, records)
    requires k < |chunks| && Boundary(chunks, k) < t < Boundary(chunks, k + 1) && t <= |Flatten(chunks)|
    ensures Rebuild(dec, Flatten(chunks)[..t]).Err?
  {
    var before := Flatten(chunks[..k]);
    var rest := FlattenSplits(chunks, k);
    assert chunks[..k + 1][..k] == chunks[..k];
    var cut := rest[..t - |before|];
    assert Flatten(chunks)[..t] == before + cut;
    assert cut == chunks[k][..|cut|];
    ScanAbsorbsLog(dec, chunks[..k], records[..k], cut);
    CutChunkIsRejected(dec, before, chunks[k], records[k], cut);
  }

  lemma CutAtBoundary(dec: Decoder, chunks: seq<Bytes>, records: seq<Record>, k: nat)
    requires AllFramed(dec, chunks, records) && k <= |chunks|
    ensures Boundary(chunks, k) <= |Flatten(chunks)|
    ensures Rebuild(dec, Flatten(chunks)[..Boundary(chunks, k)]) == Ok(IndexOf(chunks[..k], records[..k]))
  {
    var rest := FlattenSplits(chunks, k);
    assert Flatten(chunks)[..Boundary(chunks, k)] == Flatten(chunks[..k]);
    RebuildOfLog(dec, chunks[..k], records[..k]);
  }

  /**
    Cutting the file anywhere either leaves exactly the first k records, and rebuilds to their
    index, or is detected: it is never silently read as something else.
   */
  lemma TruncationIsDetected(dec: Decoder, chunks: seq<Bytes>, records: seq<Record>, t: nat)
    requires AllFramed(dec, chunks, records) && t <= |Flatten(chunks)|
    ensures Rebuild(dec, Flatten(chunks)[..t]).Ok? <==> exists k :: 0 <= k <= |chunks| && Boundary(chunks, k) == t
    ensures forall k :: 0 <= k <= |chunks| && Boundary(chunks, k) == t ==> Rebuild(dec, Flatten(chunks)[..t]) == Ok(IndexOf(chunks[..k], records[..k]))
  {
    forall k | 0 <= k <= |chunks| && Boundary(chunks, k) == t
      ensures Rebuild(dec, Flatten(chunks)[..t]) == Ok(IndexOf(chunks[..k], records[..k]))
    {
      CutAtBoundary(dec, chunks, records, k);
    }
    var k := LastBoundary(chunks, t);
    assert chunks[..|chunks|] == chunks;
    if Boundary(chunks, k) != t {
      CutIsRejected(dec, chunks, records, t, k);
    }
  }

  function DecoderOf(c: Conversion): Decoder {
    (payload: Bytes) => Decode(c, payload)
  }

  /** Header and offset-index lengths are uint32, so a longer record would be misread. */
  predicate Fits(op: Byte, id: Bytes, values: seq<Float64>) {
    KnownOp(op) && 4 + PayloadLength(op, id, values) < U32
  }

  lemma HeaderAndPayload(c: Conversion, header: Bytes, payload: Bytes, record: Record)
    requires |header| == 4 && Uint32(header) == |payload| && 0 < |payload| < U32 - 4 && Decode(c, payload) == Ok(record)
    ensures Framed(DecoderOf(c), header + payload, record)
  {
    assert (header + payload)[..4] == header && (header + payload)[4..] == payload;
  }

  /** What the store writes is a well-formed record that reads back with its values narrowed. */
  lemma EncodedIsFramed(c: Conversion, op: Byte, id: Bytes, values: seq<Float64>)
    requires Fits(op, id, values)
    ensures Framed(DecoderOf(c), Encode(c, op, id, values), Record(op, id, Narrowed(c, values)))
  {
    DecodeEncode(c, op, id, values);
    FieldHolds(PayloadLength(op, id, values));
    HeaderAndPayload(c, PutUint32(PayloadLength(op, id, values)), Payload(c, op, id, values), Record(op, id, Narrowed(c, values)));
  }

  /** A scan steps over an encoded record exactly when its length fits the uint32 header. */
  lemma HeaderHoldsLength(c: Conversion, op: Byte, id: Bytes, values: seq<Float64>)
    requires KnownOp(op)
    ensures 4 + Uint32(Encode(c, op, id, values)[..4]) == |Encode(c, op, id, values)| <==> PayloadLength(op, id, values) < U32
  {
    var length := PayloadLength(op, id, values);
    assert Encode(c, op, id, values)[..4] == PutUint32(length);
    FieldHolds(length);
  }

  /** readFileVectorRecordAt: the record that an index entry points at. */
  function ReadRecordAt(dec: Decoder, file: Bytes, meta: Meta): Result<Record> {
    if |file| < meta.recordOffset + meta.recordLength || meta.recordLength < 4 then Err
    else
      var buf := file[meta.recordOffset..meta.recordOffset + meta.recordLength];
      var recordLength := Uint32(buf[..4]);
      if |buf| < 4 + recordLength then Err else dec(buf[4..4 + recordLength])
  }

  /** The vectors a log describes: the last value put for each id that was not deleted since. */
  ghost function Contents(records: seq<Record>): map<Bytes, seq<Float32>> {
    if records == [] then map[]
    else
      var n := |records| - 1;
      if records[n].op == OP_DELETE then Contents(records[..n]) - {records[n].id}
      else Contents(records[..n])[records[n].id := records[n].values]
  }

  /** The last record of an id decides: a delete takes it out, anything else puts its values; and an id without records is not there. */
  lemma {:induction false} LastRecordDecides(records: seq<Record>, id: Bytes, k: nat)
    requires k <= |records| && (k < |records| ==> records[k].id == id)
    requires forall j | k < j < |records| :: records[j].id != id
    requires k == |records| ==> forall j | 0 <= j < |records| :: records[j].id != id
    ensures id in Contents(records) <==> k < |records| && records[k].op != 2
    ensures k < |records| && records[k].op != 2 ==> Contents(records)[id] == records[k].values
  {
    var n := |records| - 1;
    if 0 <= n && k != n {
      LastRecordDecides(records[..n], id, if k > n then n else k);
    }
  }

  lemma ReadChunkAt(dec: Decoder, before: Bytes, chunk: Bytes, record: Record, tail: Bytes)
    requires Framed(dec, chunk, record)
    ensures ReadRecordAt(dec, before + chunk + tail, Meta(|before|, |chunk|)) == Ok(record)
  {
    var file := before + chunk + tail;
    assert file[|before|..|before| + |chunk|] == chunk;
    assert chunk[4..4 + Uint32(chunk[..4])] == chunk[4..];
  }

  lemma ReadIgnoresTail(dec: Decoder, file: Bytes, meta: Meta, tail: Bytes)
    requires ReadRecordAt(dec, file, meta).Ok?
    ensures ReadRecordAt(dec, file + tail, meta) == ReadRecordAt(dec, file, meta)
  {
    var a, b := meta.recordOffset, meta.recordOffset + meta.recordLength;
    assert (file + tail)[a..b] == file[a..b];
  }

  /** Every indexed id is live, and its index entry reads back its last value. */
  lemma {:induction false} IndexReadsContents(dec: Decoder, chunks: seq<Bytes>, records: seq<Record>, id: Bytes)
    requires AllFramed(dec, chunks, records)
    ensures id in IndexOf(chunks, records).offsets <==> id in Contents(records)
    ensures id in Contents(records) ==> ReadsAs(dec, Flatten(chunks), IndexOf(chunks, records).offsets, id, Contents(records)[id])
  {
    if records != [] {
      var n := |records| - 1;
      var before := Flatten(chunks[..n]);
      IndexReadsContents(dec, chunks[..n], records[..n], id);
      if records[n].id == id {
        assert before + chunks[n] + [] == Flatten(chunks);
        ReadChunkAt(dec, before, chunks[n], records[n], []);
      } else if id in Contents(records[..n]) {
        ReadIgnoresTail(dec, before, IndexOf(chunks[..n], records[..n]).offsets[id], chunks[n]);
      }
    }
  }

  ghost predicate ReadsAs(dec: Decoder, file: Bytes, offsets: map<Bytes, Meta>, id: Bytes, values: seq<Float32>) {
    && id in offsets
    && var r := ReadRecordAt(dec, file, offsets[id]);
       r.Ok? && r.value.op != OP_DELETE && r.value.id == id && r.value.values == values
  }

  /** Puts that replaced a live record. */
  ghost function Overwritten(records: seq<Record>): nat {
    if records == [] then 0
    else
      var n := |records| - 1;
      Overwritten(records[..n]) + if records[n].op != OP_DELETE && records[n].id in Contents(records[..n]) then 1 else 0
  }

  ghost function Tombstones(records: seq<Record>): nat {
    if records == [] then 0
    else
      var n := |records| - 1;
      Tombstones(records[..n]) + if records[n].op == OP_DELETE then 1 else 0
  }

  ghost predicate ProperAt(records: seq<Record>, i: nat) {
    i < |records| && records[i].op == OP_DELETE ==> records[i].id in Contents(records[..i])
  }

  /** A log in which only live ids are deleted, as in every log that the store writes. */
  ghost predicate Proper(records: seq<Record>) {
    forall i: nat :: ProperAt(records, i)
  }

  lemma ProperPrefix(records: seq<Record>, n: nat)
    requires Proper(records) && n <= |records|
    ensures Proper(records[..n])
  {
    forall i: nat
      ensures ProperAt(records[..n], i)
    {
      assert ProperAt(records, i);
      assert i < n ==> records[..n][..i] == records[..i];
    }
  }

  /** Records in the file = live + overwritten + two for each delete, of which only one is counted stale. */
  lemma {:induction false} RecordsAreAccountedFor(dec: Decoder, chunks: seq<Bytes>, records: seq<Record>)
    requires AllFramed(dec, chunks, records) && Proper(records)
    ensures IndexOf(chunks, records).total == |records| == |Contents(records)| + Overwritten(records) + 2 * Tombstones(records)
    ensures IndexOf(chunks, records).stale == Overwritten(records) + Tombstones(records)
  {
    if records != [] {
      var n := |records| - 1;
      ProperPrefix(records, n);
      assert ProperAt(records, n);
      RecordsAreAccountedFor(dec, chunks[..n], records[..n]);
      IndexReadsContents(dec, chunks[..n], records[..n], records[n].id);
      MapSizes(Contents(records[..n]), records[n].id, records[n].values);
    }
  }

  lemma MapSizes<K, V>(m: map<K, V>, k: K, v: V)
    ensures |m[k := v]| == |m| + if k in m then 0 else 1
    ensures |m - {k}| == |m| - if k in m then 1 else 0
  {
    assert m[k := v].Keys == m.Keys + {k};
    assert (m - {k}).Keys == m.Keys - {k};
  }
}

/**
  The append-only file vector store (internal/core/file_vector_store.go): an offset index and
  counters kept incrementally beside the bytes of the file, a rebuild by scanning on open,
  compaction, grouped fsync, and a cache of recently used vectors.
 */
module FileVectorStores {
  import opened Ordering
  import opened Recency
  import opened RecordCodec
  import opened VectorLog

  datatype StoreError = ErrVectorNotFound | ErrClosed

  type Values = seq<Float32>

  lemma ProperOneMore(records: seq<Record>, record: Record)
    requires Proper(records) && (record.op == OP_DELETE ==> record.id in Contents(records))
    ensures Proper(records + [record])
  {
    var longer := records + [record];
    forall i: nat
      ensures ProperAt(longer, i)
    {
      assert ProperAt(records, i);
      if i <= |records| {
        assert longer[..i] == records[..i];
        assert records[..|records|] == records;
      }
    }
  }

  /** Appending one record to a log. */
  lemma AppendRecord(dec: Decoder, chunks: seq<Bytes>, records: seq<Record>, chunk: Bytes, record: Record)
    requires AllFramed(dec, chunks, records) && Proper(records) && Framed(dec, chunk, record)
    requires record.op == OP_DELETE ==> record.id in Contents(records)
    ensures AllFramed(dec, chunks + [chunk], records + [record]) && Proper(records + [record])
    ensures Flatten(chunks + [chunk]) == Flatten(chunks) + chunk
    ensures IndexOf(chunks + [chunk], records + [record]) == Absorb(IndexOf(chunks, records), record, Meta(|Flatten(chunks)|, |chunk|))
    ensures Contents(records + [record]) == if record.op == OP_DELETE then Contents(records) - {record.id} else Contents(records)[record.id := record.values]
  {
    ProperOneMore(records, record);
    assert (chunks + [chunk])[..|chunks|] == chunks && (records + [record])[..|records|] == records;
  }

  /** A decoded record is no longer than its payload, so its narrowed form can be written back. */
  lemma DecodedFits(c: Conversion, payload: Bytes)
    requires Decode(c, payload).Ok? && 4 + |payload| < U32
    ensures var r := Decode(c, payload).value; Fits(OP_PUT, r.id, Widened(c, r.values))
  {
  }

  lemma {:induction false} LiveFits(c: Conversion, chunks: seq<Bytes>, records: seq<Record>, id: Bytes)
    requires AllFramed(DecoderOf(c), chunks, records) && id in Contents(records)
    ensures Fits(OP_PUT, id, Widened(c, Contents(records)[id]))
  {
    var n := |records| - 1;
    if records[n].id == id {
      DecodedFits(c, chunks[n][4..]);
    } else {
      LiveFits(c, chunks[..n], records[..n], id);
    }
  }

  /** The records a compaction writes. */
  function PutRecords(live: seq<(Bytes, Values)>): (r: seq<Record>)
    ensures |r| == |live| && forall i | 0 <= i < |r| :: r[i] == Record(OP_PUT, live[i].0, live[i].1)
  {
    seq(|live|, i requires 0 <= i < |live| => Record(OP_PUT, live[i].0, live[i].1))
  }

  function WidenAll(c: Conversion, live: seq<(Bytes, Values)>): (r: seq<(Bytes, seq<Float64>)>)
    ensures |r| == |live| && forall i | 0 <= i < |r| :: r[i] == (live[i].0, Widened(c, live[i].1))
  {
    seq(|live|, i requires 0 <= i < |live| => (live[i].0, Widened(c, live[i].1)))
  }

  ghost predicate DistinctIds(live: seq<(Bytes, Values)>) {
    forall i, j | 0 <= i < j < |live| :: live[i].0 != live[j].0
  }

  ghost function IdsOf(live: seq<(Bytes, Values)>): set<Bytes> {
    set entry | entry in live :: entry.0
  }

  /** `live` lists exactly the entries of m. */
  ghost predicate Lists(live: seq<(Bytes, Values)>, m: map<Bytes, Values>) {
    && DistinctIds(live) && IdsOf(live) == m.Keys
    && forall entry | entry in live :: m[entry.0] == entry.1
  }

  lemma ListsOneMore(live: seq<(Bytes, Values)>, entry: (Bytes, Values))
    requires DistinctIds(live) && entry.0 !in IdsOf(live)
    ensures DistinctIds(live + [entry]) && IdsOf(live + [entry]) == IdsOf(live) + {entry.0}
  {
    forall i | 0 <= i < |live|
      ensures live[i].0 in IdsOf(live)
    {
      assert live[i] in live;
    }
  }

  lemma ListsOneLess(rest: seq<(Bytes, Values)>, last: (Bytes, Values), m: map<Bytes, Values>)
    requires Lists(rest + [last], m)
    ensures Lists(rest, m - {last.0}) && m == (m - {last.0})[last.0 := last.1]
  {
    var live := rest + [last];
    assert last in live;
    assert DistinctIds(rest) by {
      forall i, j | 0 <= i < j < |rest|
        ensures rest[i].0 != rest[j].0
      {
        assert live[i].0 != live[j].0;
      }
    }
    forall i | 0 <= i < |rest|
      ensures rest[i].0 != last.0
    {
      assert live[i].0 != live[|rest|].0;
    }
    assert IdsOf(live) == IdsOf(rest) + {last.0};
  }

  lemma PutOneMore(records: seq<Record>, id: Bytes, values: Values)
    requires Proper(records)
    ensures var longer := records + [Record(OP_PUT, id, values)];
      && Proper(longer) && Contents(longer) == Contents(records)[id := values]
      && Overwritten(longer) == Overwritten(records) + (if id in Contents(records) then 1 else 0)
      && Tombstones(longer) == Tombstones(records)
  {
    ProperOneMore(records, Record(OP_PUT, id, values));
    assert (records + [Record(OP_PUT, id, values)])[..|records|] == records;
  }

  /** A log of puts with distinct ids describes exactly the listed entries, and wastes nothing. */
  lemma {:induction false} PutContents(live: seq<(Bytes, Values)>, m: map<Bytes, Values>)
    requires Lists(live, m)
    ensures Contents(PutRecords(live)) == m && Proper(PutRecords(live))
    ensures Overwritten(PutRecords(live)) == 0 && Tombstones(PutRecords(live)) == 0
  {
    if live == [] {
      assert m.Keys == {};
    } else {
      var n := |live| - 1;
      assert live == live[..n] + [live[n]];
      ListsOneLess(live[..n], live[n], m);
      PutContents(live[..n], m - {live[n].0});
      PutOneMore(PutRecords(live[..n]), live[n].0, live[n].1);
      assert PutRecords(live) == PutRecords(live[..n]) + [Record(OP_PUT, live[n].0, live[n].1)];
    }
  }

  /** The index, ID set and counters are exactly what a rescan of the file would compute. */
  ghost predicate InStep(c: Conversion, file: Bytes, chunks: seq<Bytes>, records: seq<Record>, ids: set<Bytes>, st: OffsetIndex) {
    && file == Flatten(chunks) && AllFramed(DecoderOf(c), chunks, records) && Proper(records)
    && st == IndexOf(chunks, records) && ids == st.offsets.Keys
  }

  lemma IndexedIdsAreLive(dec: Decoder, chunks: seq<Bytes>, records: seq<Record>)
    requires AllFramed(dec, chunks, records)
    ensures IndexOf(chunks, records).offsets.Keys == Contents(records).Keys
    ensures forall id | id in Contents(records) :: ReadsAs(dec, Flatten(chunks), IndexOf(chunks, records).offsets, id, Contents(records)[id])
  {
    forall id
      ensures id in IndexOf(chunks, records).offsets <==> id in Contents(records)
      ensures id in Contents(records) ==> ReadsAs(dec, Flatten(chunks), IndexOf(chunks, records).offsets, id, Contents(records)[id])
    {
      IndexReadsContents(dec, chunks, records, id);
    }
  }

  lemma IndexedKeys(dec: Decoder, chunks: seq<Bytes>, records: seq<Record>, id: Bytes)
    requires AllFramed(dec, chunks, records)
    ensures id in IndexOf(chunks, records).offsets <==> id in Contents(records)
    ensures id !in Contents(records) ==> Contents(records) - {id} == Contents(records)
  {
    IndexReadsContents(dec, chunks, records, id);
  }

  /** In every reachable state a rescan gives the same index, and every index entry reads back its id's last value. */
  lemma InStepMeansRebuilt(c: Conversion, file: Bytes, chunks: seq<Bytes>, records: seq<Record>, ids: set<Bytes>, st: OffsetIndex)
    requires InStep(c, file, chunks, records, ids, st)
    ensures Rebuild(DecoderOf(c), file) == Ok(st) && ids == Contents(records).Keys
    ensures forall id | id in ids :: ReadsAs(DecoderOf(c), file, st.offsets, id, Contents(records)[id])
    ensures st.total == |records| == |ids| + Overwritten(records) + 2 * Tombstones(records)
    ensures st.stale == Overwritten(records) + Tombstones(records)
  {
    RebuildOfLog(DecoderOf(c), chunks, records);
    RecordsAreAccountedFor(DecoderOf(c), chunks, records);
    IndexedIdsAreLive(DecoderOf(c), chunks, records);
    assert |Contents(records)| == |Contents(records).Keys|;
  }

  /** The vectors after a batch of upserts; a later entry for the same id wins. */
  ghost function PutAll(m: map<Bytes, Values>, c: Conversion, vectors: seq<(Bytes, seq<Float64>)>): map<Bytes, Values> {
    if vectors == [] then m
    else
      var n := |vectors| - 1;
      PutAll(m, c, vectors[..n])[vectors[n].0 := Narrowed(c, vectors[n].1)]
  }

  /** The last entry for an id wins, in stored precision, and other ids keep their values. */
  lemma {:induction false} LastPutWins(m: map<Bytes, Values>, c: Conversion, vectors: seq<(Bytes, seq<Float64>)>, id: Bytes, k: nat)
    requires k <= |vectors| && (k < |vectors| ==> vectors[k].0 == id)
    requires forall j | k < j < |vectors| :: vectors[j].0 != id
    requires k == |vectors| ==> forall j | 0 <= j < |vectors| :: vectors[j].0 != id
    ensures id in PutAll(m, c, vectors) <==> k < |vectors| || id in m
    ensures k == |vectors| && id in m ==> PutAll(m, c, vectors)[id] == m[id]
    ensures k < |vectors| ==> |PutAll(m, c, vectors)[id]| == |vectors[k].1|
    ensures k < |vectors| ==> forall i | 0 <= i < |vectors[k].1| :: PutAll(m, c, vectors)[id][i] == c.narrow(vectors[k].1[i])
  {
    var n := |vectors| - 1;
    if 0 <= n && k != n {
      LastPutWins(m, c, vectors[..n], id, if k > n then n else k);
    }
  }

  datatype Pending = Pending(id: Bytes, values: seq<Float64>, meta: Meta)

  /** The log that a batch leads to, with `buf` appended to the file. */
  ghost predicate Grown(c: Conversion, vectors: seq<(Bytes, seq<Float64>)>, file: Bytes, buf: Bytes,
                        records0: seq<Record>, chunks: seq<Bytes>, records: seq<Record>) {
    && AllFramed(DecoderOf(c), chunks, records) && Proper(records)
    && file + buf == Flatten(chunks)
    && Contents(records) == PutAll(Contents(records0), c, vectors)
  }

  /** The pending records continue the log at positions |records0|, |records0| + 1, ... */
  ghost predicate Placed(c: Conversion, vectors: seq<(Bytes, seq<Float64>)>, pending: seq<Pending>,
                         chunks0: seq<Bytes>, records0: seq<Record>, chunks: seq<Bytes>, records: seq<Record>) {
    && |pending| == |vectors| && |chunks| == |records| == |records0| + |pending| && |chunks0| == |records0|
    && chunks[..|chunks0|] == chunks0 && records[..|records0|] == records0
    && forall i | 0 <= i < |pending| :: BatchedOne(c, vectors[i], pending[i], chunks, records, |records0| + i)
  }

  ghost predicate BatchedOne(c: Conversion, vec: (Bytes, seq<Float64>), p: Pending, chunks: seq<Bytes>, records: seq<Record>, k: nat) {
    && k < |chunks| == |records| && p.id == vec.0 && p.values == vec.1
    && p.meta == Meta(|Flatten(chunks[..k])|, |chunks[k]|)
    && records[k] == Record(OP_PUT, vec.0, Narrowed(c, vec.1))
  }

  lemma BatchedOneGrows(c: Conversion, vec: (Bytes, seq<Float64>), p: Pending, chunks: seq<Bytes>, records: seq<Record>, k: nat, chunk: Bytes, record: Record)
    requires BatchedOne(c, vec, p, chunks, records, k)
    ensures BatchedOne(c, vec, p, chunks + [chunk], records + [record], k)
  {
    assert (chunks + [chunk])[..k] == chunks[..k];
  }

  lemma GrowOneMore(c: Conversion, vectors: seq<(Bytes, seq<Float64>)>, i: nat, file: Bytes, buf: Bytes,
                    records0: seq<Record>, chunks: seq<Bytes>, records: seq<Record>, chunk: Bytes, record: Record)
    requires i < |vectors| && Framed(DecoderOf(c), chunk, record)
    requires record == Record(OP_PUT, vectors[i].0, Narrowed(c, vectors[i].1))
    requires Grown(c, vectors[..i], file, buf, records0, chunks, records)
    ensures Grown(c, vectors[..i + 1], file, buf + chunk, records0, chunks + [chunk], records + [record])
  {
    AppendRecord(DecoderOf(c), chunks, records, chunk, record);
    Reassociate(file, buf, chunk);
    assert vectors[..i + 1][..i] == vectors[..i];
  }

  lemma PlaceOneMore(c: Conversion, vectors: seq<(Bytes, seq<Float64>)>, i: nat, pending: seq<Pending>,
                     chunks0: seq<Bytes>, records0: seq<Record>, chunks: seq<Bytes>, records: seq<Record>, chunk: Bytes, record: Record)
    requires i < |vectors| && record == Record(OP_PUT, vectors[i].0, Narrowed(c, vectors[i].1))
    requires Placed(c, vectors[..i], pending, chunks0, records0, chunks, records)
    ensures Placed(c, vectors[..i + 1], pending + [Pending(vectors[i].0, vectors[i].1, Meta(|Flatten(chunks)|, |chunk|))],
                   chunks0, records0, chunks + [chunk], records + [record])
  {
    var last := Pending(vectors[i].0, vectors[i].1, Meta(|Flatten(chunks)|, |chunk|));
    assert (chunks + [chunk])[..|chunks|] == chunks;
    forall j | 0 <= j < i + 1
      ensures BatchedOne(c, vectors[j], (pending + [last])[j], chunks + [chunk], records + [record], |records0| + j)
    {
      if j < i {
        assert vectors[..i][j] == vectors[j];
        BatchedOneGrows(c, vectors[j], pending[j], chunks, records, |records0| + j, chunk, record);
      }
    }
  }

  method EncodeBatch(c: Conversion, vectors: seq<(Bytes, seq<Float64>)>, file: Bytes, ghost chunks0: seq<Bytes>, ghost records0: seq<Record>)
    returns (buf: Bytes, pending: seq<Pending>, ghost chunks: seq<Bytes>, ghost records: seq<Record>)
    requires file == Flatten(chunks0) && AllFramed(DecoderOf(c), chunks0, records0) && Proper(records0)
    requires forall i | 0 <= i < |vectors| :: Fits(OP_PUT, vectors[i].0, vectors[i].1)
    ensures Grown(c, vectors, file, buf, records0, chunks, records)
    ensures Placed(c, vectors, pending, chunks0, records0, chunks, records) && records == records0 + PutsOf(c, vectors)
  {
    buf, pending, chunks, records := [], [], chunks0, records0;
    assert file + buf == file;
    for i := 0 to |vectors|
      invariant Grown(c, vectors[..i], file, buf, records0, chunks, records)
      invariant Placed(c, vectors[..i], pending, chunks0, records0, chunks, records)
    {
      var (id, values) := vectors[i];
      EncodedIsFramed(c, OP_PUT, id, values);
      ghost var record := Record(OP_PUT, id, Narrowed(c, values));
      var encoded := EncodeFileVectorRecord(c, OP_PUT, id, values);
      GrowOneMore(c, vectors, i, file, buf, records0, chunks, records, encoded.value, record);
      PlaceOneMore(c, vectors, i, pending, chunks0, records0, chunks, records, encoded.value, record);
      pending := pending + [Pending(id, values, Meta(|file| + |buf|, |encoded.value|))];
      buf := buf + encoded.value;
      chunks, records := chunks + [encoded.value], records + [record];
    }
    assert vectors[..|vectors|] == vectors;
    PlacedAreAppended(c, vectors, pending, chunks0, records0, chunks, records);
  }

  /** The entries that survive a compaction, in whatever order Go ranges over the map. */
  method CollectLive(dec: Decoder, file: Bytes, offsets: map<Bytes, Meta>, ghost m: map<Bytes, Values>) returns (live: seq<(Bytes, Values)>)
    requires m.Keys == offsets.Keys && forall id | id in m :: ReadsAs(dec, file, offsets, id, m[id])
    ensures Lists(live, m)
  {
    live := [];
    var rest := offsets.Keys;
    while rest != {}
      invariant rest <= m.Keys && IdsOf(live) == m.Keys - rest && DistinctIds(live)
      invariant forall entry | entry in live :: entry.0 in m && m[entry.0] == entry.1
      decreases rest
    {
      var id :| id in rest;
      rest := rest - {id};
      assert ReadsAs(dec, file, offsets, id, m[id]);
      var record := ReadRecordAt(dec, file, offsets[id]);
      if record.Ok? && record.value.op != OP_DELETE {
        ListsOneMore(live, (id, record.value.values));
        live := live + [(id, record.value.values)];
      }
    }
  }

  /** The compacted file holds one put for each given entry. */
  ghost predicate Rewritten(c: Conversion, live: seq<(Bytes, Values)>, file: Bytes, offsets: map<Bytes, Meta>, chunks: seq<Bytes>) {
    && AllFramed(DecoderOf(c), chunks, PutRecords(live)) && file == Flatten(chunks)
    && IndexOf(chunks, PutRecords(live)) == OffsetIndex(offsets, |live|, 0)
    && offsets.Keys == IdsOf(live)
  }

  lemma RewriteOneMore(c: Conversion, live: seq<(Bytes, Values)>, i: nat, file: Bytes, offsets: map<Bytes, Meta>, chunks: seq<Bytes>, chunk: Bytes)
    requires i < |live| && DistinctIds(live) && Rewritten(c, live[..i], file, offsets, chunks)
    requires Framed(DecoderOf(c), chunk, Record(OP_PUT, live[i].0, live[i].1))
    ensures Rewritten(c, live[..i + 1], file + chunk, offsets[live[i].0 := Meta(|file|, |chunk|)], chunks + [chunk])
  {
    var records, record := PutRecords(live[..i]), Record(OP_PUT, live[i].0, live[i].1);
    assert live[..i + 1] == live[..i] + [live[i]];
    assert PutRecords(live[..i + 1]) == records + [record];
    assert (chunks + [chunk])[..i] == chunks && (records + [record])[..i] == records;
    assert live[i].0 !in IdsOf(live[..i]);
  }

  /** The next entry, encoded, extends the compacted file. */
  lemma EncodedRewrites(c: Conversion, live: seq<(Bytes, Values)>, i: nat, file: Bytes, offsets: map<Bytes, Meta>, chunks: seq<Bytes>, chunk: Bytes)
    requires i < |live| && DistinctIds(live) && Rewritten(c, live[..i], file, offsets, chunks)
    requires Fits(OP_PUT, live[i].0, Widened(c, live[i].1)) && chunk == Encode(c, OP_PUT, live[i].0, Widened(c, live[i].1))
    ensures Rewritten(c, live[..i + 1], file + chunk, offsets[live[i].0 := Meta(|file|, |chunk|)], chunks + [chunk])
  {
    EncodedIsFramed(c, OP_PUT, live[i].0, Widened(c, live[i].1));
    NarrowOfWide(c, live[i].1);
    RewriteOneMore(c, live, i, file, offsets, chunks, chunk);
  }

  /** One turn of the loop: the entry's record at the end of the file, indexed there. */
  method WriteOne(c: Conversion, live: seq<(Bytes, Values)>, i: nat, file: Bytes, offsets: map<Bytes, Meta>, ghost chunks: seq<Bytes>)
    returns (longer: Bytes, more: map<Bytes, Meta>, ghost newChunks: seq<Bytes>)
    requires i < |live| && DistinctIds(live) && Rewritten(c, live[..i], file, offsets, chunks)
    requires Fits(OP_PUT, live[i].0, Widened(c, live[i].1))
    ensures Rewritten(c, live[..i + 1], longer, more, newChunks) && more.Keys == offsets.Keys + {live[i].0}
  {
    var record := EncodeFileVectorRecord(c, OP_PUT, live[i].0, Widened(c, live[i].1));
    EncodedRewrites(c, live, i, file, offsets, chunks, record.value);
    longer, more := file + record.value, offsets[live[i].0 := Meta(|file|, |record.value|)];
    newChunks := chunks + [record.value];
  }

  lemma NothingRewritten(c: Conversion)
    ensures Rewritten(c, [], [], map[], [])
  {
  }

  method WriteLive(c: Conversion, live: seq<(Bytes, Values)>) returns (file: Bytes, offsets: map<Bytes, Meta>, ids: set<Bytes>, ghost chunks: seq<Bytes>)
    requires DistinctIds(live) && forall i | 0 <= i < |live| :: Fits(OP_PUT, live[i].0, Widened(c, live[i].1))
    ensures Rewritten(c, live, file, offsets, chunks) && ids == offsets.Keys
  {
    file, offsets, ids, chunks := [], map[], {}, [];
    NothingRewritten(c);
    for i := 0 to |live|
      invariant Rewritten(c, live[..i], file, offsets, chunks) && ids == offsets.Keys
    {
      file, offsets, chunks := WriteOne(c, live, i, file, offsets, chunks);
      ids := ids + {live[i].0};
    }
    assert live[..|live|] == live;
  }

  const COMPACT_MIN_STALE := 1
  const COMPACT_STALE_DIVISOR := 2

  predicate CompactionDue(st: OffsetIndex) {
    st.stale >= COMPACT_MIN_STALE && st.stale * COMPACT_STALE_DIVISOR >= st.total
  }

  /** Nothing is stale, or overwritten puts are fewer than live records. */
  ghost predicate Settled(records: seq<Record>) {
    (Overwritten(records) == 0 && Tombstones(records) == 0) || Overwritten(records) < |Contents(records)|
  }

  /**
    A delete leaves two dead records but counts one, so it adds nothing to the overwritten side:
    it can make compaction due only by lowering the number of live records.
   */
  lemma CompactionDueIff(dec: Decoder, chunks: seq<Bytes>, records: seq<Record>)
    requires AllFramed(dec, chunks, records) && Proper(records)
    ensures CompactionDue(IndexOf(chunks, records)) <==> !Settled(records)
  {
    RecordsAreAccountedFor(dec, chunks, records);
  }

  /** Without deletes a settled file holds fewer than twice the live records. */
  lemma SmallWithoutDeletes(dec: Decoder, chunks: seq<Bytes>, records: seq<Record>)
    requires AllFramed(dec, chunks, records) && Proper(records) && Tombstones(records) == 0 && Settled(records)
    ensures |records| == |Contents(records)| || |records| < 2 * |Contents(records)|
  {
    RecordsAreAccountedFor(dec, chunks, records);
  }

  /** A file with one record for each live id has neither overwritten puts nor tombstones. */
  lemma OneEachWastesNothing(dec: Decoder, chunks: seq<Bytes>, records: seq<Record>)
    requires AllFramed(dec, chunks, records) && Proper(records) && |records| == |Contents(records)|
    ensures Overwritten(records) == 0 && Tombstones(records) == 0 && Settled(records)
  {
    RecordsAreAccountedFor(dec, chunks, records);
  }

  /** The records that a batch appends. */
  function PutsOf(c: Conversion, vectors: seq<(Bytes, seq<Float64>)>): (r: seq<Record>)
    ensures |r| == |vectors| && forall i | 0 <= i < |r| :: r[i] == Record(OP_PUT, vectors[i].0, Narrowed(c, vectors[i].1))
  {
    seq(|vectors|, i requires 0 <= i < |vectors| => Record(OP_PUT, vectors[i].0, Narrowed(c, vectors[i].1)))
  }

  lemma PlacedAreAppended(c: Conversion, vectors: seq<(Bytes, seq<Float64>)>, pending: seq<Pending>,
                          chunks0: seq<Bytes>, records0: seq<Record>, chunks: seq<Bytes>, records: seq<Record>)
    requires Placed(c, vectors, pending, chunks0, records0, chunks, records)
    ensures records == records0 + PutsOf(c, vectors)
  {
    forall k | |records0| <= k < |records|
      ensures records[k] == PutsOf(c, vectors)[k - |records0|]
    {
      var i := k - |records0|;
      assert BatchedOne(c, vectors[i], pending[i], chunks, records, |records0| + i);
    }
  }

  lemma {:induction false} PutsAddNoTombstone(c: Conversion, records: seq<Record>, vectors: seq<(Bytes, seq<Float64>)>)
    ensures Tombstones(records + PutsOf(c, vectors)) == Tombstones(records)
  {
    if vectors == [] {
      assert records + PutsOf(c, vectors) == records;
    } else {
      var n := |vectors| - 1;
      PutsAddNoTombstone(c, records, vectors[..n]);
      assert PutsOf(c, vectors)[..n] == PutsOf(c, vectors[..n]);
      assert (records + PutsOf(c, vectors))[..|records| + n] == records + PutsOf(c, vectors[..n]);
    }
  }

  /** Putting an id that is not stored and deleting it again: two records more, no vector more, and never a compaction. */
  lemma ChurnIsNeverDue(records: seq<Record>, id: Bytes, values: Values)
    requires Proper(records) && id !in Contents(records) && Overwritten(records) < |Contents(records)|
    ensures var put := records + [Record(OP_PUT, id, values)]; var deleted := put + [Record(OP_DELETE, id, [])];
      && Settled(put) && Settled(deleted)
      && Contents(deleted) == Contents(records) && Overwritten(deleted) == Overwritten(records)
  {
    var put := records + [Record(OP_PUT, id, values)];
    PutOneMore(records, id, values);
    MapSizes(Contents(records), id, values);
    var deleted := put + [Record(OP_DELETE, id, [])];
    assert deleted[..|put|] == put;
    assert Contents(put) - {id} == Contents(records);
  }

  lemma {:induction false} BytesPerRecord(dec: Decoder, chunks: seq<Bytes>, records: seq<Record>)
    requires AllFramed(dec, chunks, records)
    ensures |Flatten(chunks)| >= 5 * |records|
  {
    if chunks != [] {
      var n := |chunks| - 1;
      BytesPerRecord(dec, chunks[..n], records[..n]);
      assert Framed(dec, chunks[n], records[n]);
    }
  }

  lemma RewrittenIsInStep(c: Conversion, live: seq<(Bytes, Values)>, m: map<Bytes, Values>, file: Bytes, offsets: map<Bytes, Meta>, chunks: seq<Bytes>)
    requires Lists(live, m) && Rewritten(c, live, file, offsets, chunks)
    ensures InStep(c, file, chunks, PutRecords(live), offsets.Keys, OffsetIndex(offsets, |offsets|, 0))
    ensures Contents(PutRecords(live)) == m && |offsets| == |m| == |live|
  {
    PutContents(live, m);
    IndexedIdsAreLive(DecoderOf(c), chunks, PutRecords(live));
    RecordsAreAccountedFor(DecoderOf(c), chunks, PutRecords(live));
    assert |offsets| == |offsets.Keys| && |m| == |m.Keys|;
  }

  /** The new file of a compaction: same vectors, one record each, nothing stale. */
  method RewriteFile(c: Conversion, file: Bytes, offsets: map<Bytes, Meta>, ghost chunks: seq<Bytes>, ghost records: seq<Record>)
    returns (newFile: Bytes, newOffsets: map<Bytes, Meta>, newIDs: set<Bytes>, ghost newChunks: seq<Bytes>, ghost newRecords: seq<Record>)
    requires AllFramed(DecoderOf(c), chunks, records) && file == Flatten(chunks) && IndexOf(chunks, records).offsets == offsets
    ensures InStep(c, newFile, newChunks, newRecords, newIDs, OffsetIndex(newOffsets, |newOffsets|, 0))
    ensures Contents(newRecords) == Contents(records) && |newOffsets| == |newRecords| == |Contents(records)|
  {
    ghost var m := Contents(records);
    IndexedIdsAreLive(DecoderOf(c), chunks, records);
    var live := CollectLive(DecoderOf(c), file, offsets, m);
    forall i | 0 <= i < |live|
      ensures Fits(OP_PUT, live[i].0, Widened(c, live[i].1))
    {
      assert live[i] in live && live[i].0 in IdsOf(live);
      LiveFits(c, chunks, records, live[i].0);
    }
    newFile, newOffsets, newIDs, newChunks := WriteLive(c, live);
    newRecords := PutRecords(live);
    RewrittenIsInStep(c, live, m, newFile, newOffsets, newChunks);
  }

  method LoadIndex(c: Conversion, file: Bytes, ghost chunks: seq<Bytes>, ghost records: seq<Record>) returns (st: OffsetIndex)
    requires AllFramed(DecoderOf(c), chunks, records) && file == Flatten(chunks)
    ensures st == IndexOf(chunks, records)
  {
    var r := RebuildIndex(DecoderOf(c), file);
    RebuildOfLog(DecoderOf(c), chunks, records);
    st := r.value;
  }

  const HOT_CACHE_MAX_ITEMS := 1024

  /** The hot cache: its list and its map hold the same ids, and every entry is current. */
  ghost predicate HotOk(hotCache: map<Bytes, Values>, hotOrder: seq<Bytes>, m: map<Bytes, Values>) {
    && NoDuplicates(hotOrder) && Elements(hotOrder) == hotCache.Keys && |hotOrder| <= HOT_CACHE_MAX_ITEMS
    && forall id | id in hotCache :: id in m && hotCache[id] == m[id]
  }

  /** The 1024 most recently used. */
  function Newest(order: seq<Bytes>): seq<Bytes> {
    if |order| > 1024 then order[..1024] else order
  }

  class FileVectorStore {
    const c: Conversion
    const syncEvery: nat
    var file: Bytes
    var isOpen: bool
    var offsets: map<Bytes, Meta>
    var ids: set<Bytes>
    var writes: nat
    var stale: nat
    var compacts: nat
    var pending: nat
    var hotCache: map<Bytes, Values>
    var hotOrder: seq<Bytes>
    /** The records that make up the file, and how many of them are known to be on disk. */
    ghost var chunks: seq<Bytes>
    ghost var records: seq<Record>
    ghost var synced: nat

    ghost function Index(): OffsetIndex
      reads `offsets, `writes, `stale
    {
      OffsetIndex(offsets, writes, stale)
    }

    ghost function Map(): map<Bytes, Values>
      reads `records
    {
      Contents(records)
    }

    /** Index and counters agree with the bytes. */
    ghost predicate OnFile()
      reads `file, `isOpen, `offsets, `ids, `writes, `stale, `pending, `chunks, `records, `synced
    {
      && syncEvery > 0
      && InStep(c, file, chunks, records, ids, Index())
      && synced + pending == |records|
      && (!isOpen ==> pending == 0)
    }

    /** And so does the cache. */
    ghost predicate Intact()
      reads this
    {
      OnFile() && HotOk(hotCache, hotOrder, Map())
    }

    /** Between calls the file is settled too, and fewer records than asked for are not yet synced. */
    ghost predicate Valid()
      reads this
    {
      Intact() && Settled(records) && pending < syncEvery
    }

    /** The file holds `grown`, or it has been compacted to one record for each live id, which happens when `grown` is not settled. */
    twostate predicate Grew(grown: seq<Record>)
      reads this
    {
      if Settled(grown) then records == grown && compacts == old(compacts)
      else |records| == |Map()| && compacts == old(compacts) + 1
    }

    /** Without deletes the file of a store stays below twice its live records. */
    lemma SmallFile()
      requires Valid() && Tombstones(records) == 0
      ensures |records| == |Map()| || |records| < 2 * |Map()|
    {
      SmallWithoutDeletes(DecoderOf(c), chunks, records);
    }

    /** Opens a file of well-formed records, such as any earlier store left behind. */
    constructor (c: Conversion, syncEvery: int, file: Bytes, ghost chunks: seq<Bytes>, ghost records: seq<Record>)
      requires AllFramed(DecoderOf(c), chunks, records) && Proper(records) && file == Flatten(chunks)
      ensures Valid() && isOpen && Map() == Contents(records) && this.c == c
      ensures this.syncEvery == (if syncEvery <= 0 then 1 else syncEvery) && pending == 0
      ensures if Settled(records) then this.records == records else |this.records| == |Map()|
      ensures Tombstones(records) == 0 ==> Tombstones(this.records) == 0
    {
      this.c := c;
      this.syncEvery := if syncEvery <= 0 then 1 else syncEvery;
      this.file, this.chunks, this.records := file, chunks, records;
      var st := LoadIndex(c, file, chunks, records);
      isOpen := true;
      offsets, ids, writes, stale := st.offsets, st.offsets.Keys, st.total, st.stale;
      compacts, pending, synced := 0, 0, |records|;
      hotCache, hotOrder := map[], [];
      new;
      MaybeCompact();
    }

    /** Switches to the given file and index. */
    method Install(file: Bytes, st: OffsetIndex, ids: set<Bytes>, pending: nat, ghost chunks: seq<Bytes>, ghost records: seq<Record>, ghost synced: nat)
      modifies `file, `ids, `pending, `isOpen, `offsets, `writes, `stale, `chunks, `records, `synced
      ensures this.file == file && Index() == st && this.ids == ids && isOpen && this.pending == pending
      ensures this.chunks == chunks && this.records == records && this.synced == synced
    {
      this.file, this.ids, this.pending, isOpen := file, ids, pending, true;
      offsets, writes, stale := st.offsets, st.total, st.stale;
      this.chunks, this.records, this.synced := chunks, records, synced;
    }

    method ClearHot()
      modifies `hotCache, `hotOrder
      ensures hotCache == map[] && hotOrder == []
    {
      hotCache, hotOrder := map[], [];
    }

    /** Reopening rebuilds the index that was there before. */
    method EnsureOpen()
      requires Valid()
      modifies this
      ensures Valid() && isOpen && records == old(records) && file == old(file) && compacts == old(compacts)
      ensures Index() == old(Index()) && ids == old(ids)
      ensures old(isOpen) ==> unchanged(this)
    {
      if isOpen {
        return;
      }
      Reopen();
      MaybeCompact();
    }

    method Reopen()
      requires Intact() && !isOpen
      modifies this
      ensures Intact() && isOpen && records == old(records) && file == old(file) && compacts == old(compacts)
      ensures Index() == old(Index()) && ids == old(ids) && pending == old(pending)
    {
      var st := LoadIndex(c, file, chunks, records);
      InstallIndex(st);
    }

    method InstallIndex(st: OffsetIndex)
      modifies `offsets, `ids, `writes, `stale, `isOpen, `hotCache, `hotOrder
      ensures Index() == st && ids == st.offsets.Keys && isOpen && hotCache == map[] && hotOrder == []
    {
      offsets, ids, writes, stale, isOpen := st.offsets, st.offsets.Keys, st.total, st.stale, true;
      ClearHot();
    }

    method SyncPending(force: bool)
      requires Intact()
      modifies `pending, `synced
      ensures Intact() && pending == if isOpen && old(pending) != 0 && (force || old(pending) >= syncEvery) then 0 else old(pending)
    {
      if !isOpen || pending == 0 {
        return;
      }
      if !force && pending < syncEvery {
        return;
      }
      synced := |records|;
      pending := 0;
    }

    method MaybeCompact()
      requires Intact() && isOpen && pending < syncEvery
      modifies this
      ensures Valid() && isOpen && Map() == old(Map()) && Grew(old(records))
      ensures pending <= old(pending)
      ensures Settled(old(records)) ==> unchanged(this)
      ensures old(Tombstones(records)) == 0 ==> Tombstones(records) == 0
    {
      CompactionDueIff(DecoderOf(c), chunks, records);
      if stale < COMPACT_MIN_STALE || stale * COMPACT_STALE_DIVISOR < writes {
        return;
      }
      Compact();
    }

    method Compact()
      requires Intact() && isOpen
      modifies this
      ensures Valid() && isOpen && Map() == old(Map()) && |records| == |Map()| && compacts == old(compacts) + 1
      ensures stale == 0 && pending == 0 && Tombstones(records) == 0
    {
      SyncPending(true);
      var newFile, newOffsets, newIDs; ghost var newChunks, newRecords;
      newFile, newOffsets, newIDs, newChunks, newRecords := RewriteFile(c, file, offsets, chunks, records);
      OneEachWastesNothing(DecoderOf(c), newChunks, newRecords);
      Replace(newFile, newOffsets, newIDs, newChunks, newRecords);
    }

    /** The renamed compacted file takes over. */
    method Replace(file: Bytes, offsets: map<Bytes, Meta>, ids: set<Bytes>, ghost chunks: seq<Bytes>, ghost records: seq<Record>)
      modifies this
      ensures this.file == file && Index() == OffsetIndex(offsets, |offsets|, 0) && this.ids == ids && isOpen && pending == 0
      ensures this.chunks == chunks && this.records == records && synced == |records| && compacts == old(compacts) + 1
      ensures hotCache == map[] && hotOrder == []
    {
      compacts := compacts + 1;
      Install(file, OffsetIndex(offsets, |offsets|, 0), ids, 0, chunks, records, |records|);
      ClearHot();
    }

    method PutHot(id: Bytes, values: Values, ghost m: map<Bytes, Values>)
      requires HotOk(hotCache, hotOrder, m)
      modifies `hotCache, `hotOrder
      ensures HotOk(hotCache, hotOrder, m[id := values]) && id in hotCache && hotOrder == Newest(ToFront(old(hotOrder), id))
    {
      var cache, order := hotCache[id := values], ToFront(hotOrder, id);
      ghost var all := order;
      while |order| > HOT_CACHE_MAX_ITEMS
        invariant NoDuplicates(order) && Elements(order) == cache.Keys && |order| <= HOT_CACHE_MAX_ITEMS + 1
        invariant forall i | i in cache :: i in m[id := values] && cache[i] == m[id := values][i]
        invariant |order| > 0 && order[0] == id && id in cache
        invariant |order| <= |all| && order == all[..|order|] && (|order| == |all| || |order| == HOT_CACHE_MAX_ITEMS)
      {
        DropOldest(order);
        cache, order := cache - {order[|order| - 1]}, order[..|order| - 1];
      }
      hotCache, hotOrder := cache, order;
    }

    method TouchHot(id: Bytes)
      requires id in hotCache && NoDuplicates(hotOrder) && Elements(hotOrder) == hotCache.Keys
      modifies `hotOrder
      ensures NoDuplicates(hotOrder) && Elements(hotOrder) == hotCache.Keys && |hotOrder| == old(|hotOrder|) && hotOrder[0] == id
      ensures hotOrder == ToFront(old(hotOrder), id)
    {
      hotOrder := ToFront(hotOrder, id);
    }

    method DeleteHot(id: Bytes, ghost m: map<Bytes, Values>)
      requires HotOk(hotCache, hotOrder, m)
      modifies `hotCache, `hotOrder
      ensures HotOk(hotCache, hotOrder, m - {id})
    {
      if id in hotCache {
        hotCache, hotOrder := hotCache - {id}, Without(hotOrder, id);
      }
    }

    /** Indexing one record of a batch that has just been written. */
    method IndexOne(p: Pending, ghost m: map<Bytes, Values>)
      requires HotOk(hotCache, hotOrder, m) && ids == offsets.Keys
      modifies `offsets, `ids, `writes, `stale, `hotCache, `hotOrder
      ensures Index() == Absorb(old(Index()), Record(OP_PUT, p.id, Narrowed(c, p.values)), p.meta) && ids == offsets.Keys
      ensures HotOk(hotCache, hotOrder, m[p.id := Narrowed(c, p.values)])
    {
      if p.id in offsets {
        stale := stale + 1;
      } else {
        ids := ids + {p.id};
      }
      offsets := offsets[p.id := p.meta];
      writes := writes + 1;
      PutHot(p.id, Narrowed(c, p.values), m);
    }

    method IndexBatch(vectors: seq<(Bytes, seq<Float64>)>, batch: seq<Pending>, ghost chunks0: seq<Bytes>, ghost records0: seq<Record>,
                      ghost chunks: seq<Bytes>, ghost records: seq<Record>)
      requires Placed(c, vectors, batch, chunks0, records0, chunks, records)
      requires Index() == IndexOf(chunks0, records0) && ids == offsets.Keys && HotOk(hotCache, hotOrder, Contents(records0))
      modifies `offsets, `ids, `writes, `stale, `hotCache, `hotOrder
      ensures Index() == IndexOf(chunks, records) && ids == offsets.Keys && HotOk(hotCache, hotOrder, Contents(records))
    {
      ghost var n := |records0|;
      for i := 0 to |batch|
        invariant Index() == IndexOf(chunks[..n + i], records[..n + i]) && ids == offsets.Keys
        invariant HotOk(hotCache, hotOrder, Contents(records[..n + i]))
      {
        IndexStep(c, vectors[i], batch[i], chunks, records, n + i);
        IndexOne(batch[i], Contents(records[..n + i]));
      }
      assert chunks[..|records|] == chunks && records[..|records|] == records;
    }

    /** Upserts with values that fit a record never fail, and leave the file settled and synced as asked. */
    method UpsertVectors(vectors: seq<(Bytes, seq<Float64>)>)
      requires Valid() && forall i | 0 <= i < |vectors| :: Fits(OP_PUT, vectors[i].0, vectors[i].1)
      modifies this
      ensures Valid() && Map() == PutAll(old(Map()), c, vectors)
      ensures if vectors == [] then unchanged(this) else isOpen && pending < syncEvery && Grew(old(records) + PutsOf(c, vectors))
      ensures old(Tombstones(records)) == 0 ==> Tombstones(records) == 0
    {
      if |vectors| == 0 {
        return;
      }
      EnsureOpen();
      AppendAndSettle(vectors);
    }

    method AppendAndSettle(vectors: seq<(Bytes, seq<Float64>)>)
      requires Intact() && isOpen && forall i | 0 <= i < |vectors| :: Fits(OP_PUT, vectors[i].0, vectors[i].1)
      modifies this
      ensures Valid() && isOpen && Map() == PutAll(old(Map()), c, vectors)
      ensures Grew(old(records) + PutsOf(c, vectors))
      ensures old(Tombstones(records)) == 0 ==> Tombstones(records) == 0
    {
      PutsAddNoTombstone(c, records, vectors);
      AppendBatch(vectors);
      Settle();
    }

    /** The end of every mutation: sync what is pending if that is due, then compact if that is due. */
    method Settle()
      requires Intact() && isOpen
      modifies this
      ensures Valid() && isOpen && Map() == old(Map()) && Grew(old(records))
      ensures old(Tombstones(records)) == 0 ==> Tombstones(records) == 0
    {
      SyncPending(false);
      MaybeCompact();
    }

    method AppendBatch(vectors: seq<(Bytes, seq<Float64>)>)
      requires Intact() && isOpen && forall i | 0 <= i < |vectors| :: Fits(OP_PUT, vectors[i].0, vectors[i].1)
      modifies this
      ensures Intact() && isOpen && Map() == PutAll(old(Map()), c, vectors)
      ensures records == old(records) + PutsOf(c, vectors) && compacts == old(compacts)
    {
      var buf, batch; ghost var newChunks, newRecords;
      buf, batch, newChunks, newRecords := EncodeBatch(c, vectors, file, chunks, records);
      InstallBatch(vectors, buf, batch, newChunks, newRecords);
    }

    method InstallBatch(vectors: seq<(Bytes, seq<Float64>)>, buf: Bytes, batch: seq<Pending>, ghost newChunks: seq<Bytes>, ghost newRecords: seq<Record>)
      requires Placed(c, vectors, batch, chunks, records, newChunks, newRecords)
      requires Index() == IndexOf(chunks, records) && ids == offsets.Keys && HotOk(hotCache, hotOrder, Contents(records))
      modifies this
      ensures Index() == IndexOf(newChunks, newRecords) && ids == offsets.Keys && HotOk(hotCache, hotOrder, Contents(newRecords))
      ensures file == old(file) + buf && pending == old(pending) + |batch| && chunks == newChunks && records == newRecords
      ensures isOpen == old(isOpen) && synced == old(synced) && compacts == old(compacts)
    {
      IndexBatch(vectors, batch, chunks, records, newChunks, newRecords);
      file, pending, chunks, records := file + buf, pending + |batch|, newChunks, newRecords;
    }

    method DeleteVector(id: Bytes) returns (err: bool)
      requires Valid()
      modifies this
      ensures Valid() && (err <==> id !in old(Map())) && Map() == old(Map()) - {id}
      ensures if err then unchanged(this) else isOpen && pending < syncEvery && Grew(old(records) + [Record(OP_DELETE, id, [])])
    {
      IndexedKeys(DecoderOf(c), chunks, records, id);
      if id !in offsets {
        return true;
      }
      EnsureOpen();
      TombstoneAndSettle(id);
      err := false;
    }

    method TombstoneAndSettle(id: Bytes)
      requires Intact() && isOpen && id in Map()
      modifies this
      ensures Valid() && isOpen && Map() == old(Map()) - {id}
      ensures Grew(old(records) + [Record(OP_DELETE, id, [])])
    {
      AppendTombstone(id);
      Settle();
    }

    method AppendTombstone(id: Bytes)
      requires Intact() && isOpen && id in Map()
      modifies this
      ensures Intact() && isOpen && Map() == old(Map()) - {id}
      ensures records == old(records) + [Record(OP_DELETE, id, [])] && compacts == old(compacts)
    {
      LiveFits(c, chunks, records, id);
      EncodedIsFramed(c, OP_DELETE, id, []);
      var record := EncodeFileVectorRecord(c, OP_DELETE, id, []);
      AppendRecord(DecoderOf(c), chunks, records, record.value, Record(OP_DELETE, id, []));
      InstallTombstone(id, record.value);
    }

    method InstallTombstone(id: Bytes, record: Bytes)
      requires HotOk(hotCache, hotOrder, Map())
      modifies this
      ensures Index() == OffsetIndex(old(offsets) - {id}, old(writes) + 1, old(stale) + 1) && ids == old(ids) - {id}
      ensures HotOk(hotCache, hotOrder, old(Map()) - {id})
      ensures file == old(file) + record && pending == old(pending) + 1
      ensures chunks == old(chunks) + [record] && records == old(records) + [Record(OP_DELETE, id, [])]
      ensures isOpen == old(isOpen) && synced == old(synced) && compacts == old(compacts)
    {
      DeleteHot(id, Map());
      offsets, ids, writes, stale := offsets - {id}, ids - {id}, writes + 1, stale + 1;
      file, pending := file + record, pending + 1;
      chunks, records := chunks + [record], records + [Record(OP_DELETE, id, [])];
    }

    method Close()
      requires Valid()
      modifies this
      ensures Valid() && !isOpen && records == old(records) && file == old(file) && synced == |records|
    {
      if !isOpen {
        return;
      }
      SyncPending(true);
      Shut();
    }

    method Shut()
      modifies `isOpen, `hotCache, `hotOrder
      ensures !isOpen && hotCache == map[] && hotOrder == []
    {
      isOpen := false;
      ClearHot();
    }

    /** Every live vector once, in whatever order Go ranges over the index; nothing once the store is closed. */
    method ListVectors() returns (out: seq<(Bytes, seq<Float64>)>, ghost live: seq<(Bytes, Values)>)
      requires Valid()
      ensures Lists(live, if isOpen then Map() else map[]) && out == WidenAll(c, live)
    {
      if !isOpen {
        return [], [];
      }
      IndexedIdsAreLive(DecoderOf(c), chunks, records);
      var found := CollectLive(DecoderOf(c), file, offsets, Map());
      out, live := WidenAll(c, found), found;
    }

    /** GetVectorReadOnly32: from the hot cache when possible, otherwise from the file. */
    method GetVector32(id: Bytes) returns (r: Result<Values>, err: StoreError)
      requires Valid()
      modifies `hotCache, `hotOrder
      ensures Valid()
      ensures id !in Map() ==> r == Err && err == ErrVectorNotFound
      ensures id in Map() && !isOpen ==> r == Err && err == ErrClosed
      ensures id in Map() && isOpen ==> r == Ok(Map()[id])
      ensures hotOrder == if id in Map() && isOpen then Newest(ToFront(old(hotOrder), id)) else old(hotOrder)
    {
      r, err := Fetch(id);
    }

    method Fetch(id: Bytes) returns (r: Result<Values>, err: StoreError)
      requires Intact()
      modifies `hotCache, `hotOrder
      ensures Intact()
      ensures id !in Map() ==> r == Err && err == ErrVectorNotFound
      ensures id in Map() && !isOpen ==> r == Err && err == ErrClosed
      ensures id in Map() && isOpen ==> r == Ok(Map()[id])
      ensures hotOrder == if id in Map() && isOpen then Newest(ToFront(old(hotOrder), id)) else old(hotOrder)
    {
      IndexedKeys(DecoderOf(c), chunks, records, id);
      if id !in offsets {
        return Err, ErrVectorNotFound;
      }
      if !isOpen {
        return Err, ErrClosed;
      }
      var values := Serve(id);
      r, err := Ok(values), ErrVectorNotFound;
    }

    /** A live vector, from the hot cache or from the file, which puts it there. */
    method Serve(id: Bytes) returns (values: Values)
      requires OnFile() && HotOk(hotCache, hotOrder, Map()) && id in Map()
      modifies `hotCache, `hotOrder
      ensures HotOk(hotCache, hotOrder, Map()) && values == Map()[id] && hotOrder == Newest(ToFront(old(hotOrder), id))
    {
      if id in hotCache {
        TouchHot(id);
        return hotCache[id];
      }
      values := ReadFile(id);
      assert Map()[id := values] == Map();
      PutHot(id, values, Map());
    }

    method ReadFile(id: Bytes) returns (values: Values)
      requires OnFile() && id in Map()
      ensures values == Map()[id]
    {
      IndexReadsContents(DecoderOf(c), chunks, records, id);
      var record := ReadRecordAt(DecoderOf(c), file, offsets[id]);
      values := record.value.values;
    }
  }

  lemma IndexStep(c: Conversion, vec: (Bytes, seq<Float64>), p: Pending, chunks: seq<Bytes>, records: seq<Record>, k: nat)
    requires BatchedOne(c, vec, p, chunks, records, k)
    ensures IndexOf(chunks[..k + 1], records[..k + 1])
      == Absorb(IndexOf(chunks[..k], records[..k]), Record(OP_PUT, p.id, Narrowed(c, p.values)), p.meta)
    ensures Contents(records[..k + 1]) == Contents(records[..k])[p.id := Narrowed(c, p.values)]
  {
    assert chunks[..k + 1][..k] == chunks[..k] && records[..k + 1][..k] == records[..k];
  }

  /**
    A client that puts and deletes one id n times, beside at least one vector that was not
    overwritten: the stored vectors stay the same, the file is never compacted, and it grows with n.
   */
  method Churn(store: FileVectorStore, id: Bytes, values: seq<Float64>, n: nat)
    requires store.Valid() && id !in store.Map() && Fits(OP_PUT, id, values)
    requires Overwritten(store.records) < |store.Map()|
    modifies store
    ensures store.Valid() && store.Map() == old(store.Map()) && store.compacts == old(store.compacts)
    ensures |store.records| == old(|store.records|) + 2 * n && |store.file| >= 10 * n
  {
    for i := 0 to n
      invariant store.Valid() && store.Map() == old(store.Map()) && store.compacts == old(store.compacts)
      invariant |store.records| == old(|store.records|) + 2 * i && Overwritten(store.records) < |store.Map()|
    {
      ghost var records := store.records;
      ChurnIsNeverDue(records, id, Narrowed(store.c, values));
      assert PutsOf(store.c, [(id, values)]) == [Record(OP_PUT, id, Narrowed(store.c, values))];
      store.UpsertVectors([(id, values)]);
      assert records + PutsOf(store.c, [(id, values)]) == store.records;
      var err := store.DeleteVector(id);
    }
    BytesPerRecord(DecoderOf(store.c), store.chunks, store.records);
  }

  /** A file that was cut short rebuilds exactly at a record boundary, and then is the log up to it. */
  lemma CutIsLog(dec: Decoder, file: Bytes, chunks: seq<Bytes>, records: seq<Record>) returns (k: nat)
    requires AllFramed(dec, chunks, records) && Proper(records) && file <= Flatten(chunks)
    ensures Rebuild(dec, file).Ok? <==> exists j :: 0 <= j <= |chunks| && Boundary(chunks, j) == |file|
    ensures Rebuild(dec, file).Ok? ==> k <= |chunks| && Boundary(chunks, k) == |file| && file == Flatten(chunks[..k])
    ensures Rebuild(dec, file).Ok? ==> AllFramed(dec, chunks[..k], records[..k]) && Proper(records[..k])
  {
    k := 0;
    assert file == Flatten(chunks)[..|file|];
    TruncationIsDetected(dec, chunks, records, |file|);
    if Rebuild(dec, file).Ok? {
      k :| 0 <= k <= |chunks| && Boundary(chunks, k) == |file|;
      var rest := FlattenSplits(chunks, k);
      ProperPrefix(records, k);
    }
  }

  /**
    Opens a file that was cut short anywhere: the store then holds the records before the cut, or,
    when the cut is inside a record, opening panics.
   */
  method OpenCut(c: Conversion, syncEvery: int, file: Bytes, ghost chunks: seq<Bytes>, ghost records: seq<Record>)
    returns (store: FileVectorStore?, ghost k: nat)
    requires AllFramed(DecoderOf(c), chunks, records) && Proper(records) && file <= Flatten(chunks)
    ensures store != null <==> exists j :: 0 <= j <= |chunks| && Boundary(chunks, j) == |file|
    ensures store != null ==> k <= |chunks| && Boundary(chunks, k) == |file|
    ensures store != null ==> fresh(store) && store.Valid() && store.isOpen && store.c == c && store.Map() == Contents(records[..k])
    ensures store != null ==> store.syncEvery == if syncEvery <= 0 then 1 else syncEvery
  {
    k := CutIsLog(DecoderOf(c), file, chunks, records);
    var index := RebuildIndex(DecoderOf(c), file);
    if index.Err? {
      return null, 0;
    }
    store := new FileVectorStore(c, syncEvery, file, chunks[..k], records[..k]);
  }
}

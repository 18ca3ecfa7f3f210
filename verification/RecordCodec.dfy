/**
  The length-prefixed record format of vectors.dat and the scan that rebuilds the offset
  index from it (internal/core/file_vector_store.go). Values are IEEE bit patterns; the
  conversions between the two widths are arbitrary functions with narrow(widen(x)) == x.
 */
module RecordCodec {

  type Byte = x: nat | x < 256
  type Bytes = seq<Byte>

  const U32 := 0x1_0000_0000
  const U64 := 0x1_0000_0000_0000_0000

  type Float32 = x: nat | x < 0x1_0000_0000
  type Float64 = x: nat | x < 0x1_0000_0000_0000_0000

  datatype Conv = Conv(narrow: Float64 -> Float32, widen: Float32 -> Float64) {
    ghost predicate Exact() {
      forall x :: narrow(widen(x)) == x
    }
  }

  type Conversion = c: Conv | c.Exact() witness Conv((x: Float64) => x % 0x1_0000_0000, (x: Float32) => x)

  const OP_PUT_FLOAT64: Byte := 1
  const OP_DELETE: Byte := 2
  const OP_PUT: Byte := 3

  datatype Result<+T> = Ok(value: T) | Err

  /** binary.LittleEndian.PutUint32 of uint32(x). */
  function PutUint32(x: nat): (r: Bytes)
    ensures |r| == 4
  {
    var x1 := x / 256;
    var x2 := x1 / 256;
    var x3 := x2 / 256;
    [x % 256, x1 % 256, x2 % 256, x3 % 256]
  }

  function Uint32(b: Bytes): (x: nat)
    requires |b| == 4
    ensures x < U32
  {
    var b0: int, b1: int, b2: int, b3: int := b[0], b[1], b[2], b[3];
    b0 + 0x100 * b1 + 0x1_0000 * b2 + 0x100_0000 * b3
  }

  function PutUint64(x: Float64): (r: Bytes)
    ensures |r| == 8
  {
    PutUint32(x % U32) + PutUint32(x / U32)
  }

  function Uint64(b: Bytes): (x: Float64)
    requires |b| == 8
  {
    Uint32(b[..4]) + U32 * Uint32(b[4..])
  }

  lemma FourDigits(x: nat, x1: nat, x2: nat, x3: nat, x4: nat, d0: Byte, d1: Byte, d2: Byte, d3: Byte)
    requires x == 256 * x1 + d0 && x1 == 256 * x2 + d1 && x2 == 256 * x3 + d2 && x3 == 256 * x4 + d3
    ensures d0 + 0x100 * d1 + 0x1_0000 * d2 + 0x100_0000 * d3 == x % U32
  {
    var r := d0 + 0x100 * d1 + 0x1_0000 * d2 + 0x100_0000 * d3;
    assert x == x4 * U32 + r;
    assert 0 <= r < U32;
  }

  lemma Uint32RoundTrip(x: nat)
    ensures Uint32(PutUint32(x)) == x % U32
  {
    var x1 := x / 256;
    var x2 := x1 / 256;
    var x3 := x2 / 256;
    FourDigits(x, x1, x2, x3, x3 / 256, x % 256, x1 % 256, x2 % 256, x3 % 256);
  }

  /** The field holds a number exactly when it is below 2^32. */
  lemma FieldHolds(x: nat)
    ensures Uint32(PutUint32(x)) == x <==> x < U32
  {
    Uint32RoundTrip(x);
  }

  lemma TwoWords(lo: Bytes, hi: Bytes)
    requires |lo| == |hi| == 4
    ensures Uint64(lo + hi) == Uint32(lo) + U32 * Uint32(hi)
  {
    assert (lo + hi)[..4] == lo && (lo + hi)[4..] == hi;
  }

  lemma Uint64RoundTrip(y: Float64)
    ensures Uint64(PutUint64(y)) == y
  {
    FieldHolds(y % U32);
    FieldHolds(y / U32);
    TwoWords(PutUint32(y % U32), PutUint32(y / U32));
  }

  datatype Record = Record(op: Byte, id: Bytes, values: seq<Float32>)

  function ValueBytes(op: Byte): Result<nat> {
    if op == OP_PUT then Ok(4) else if op == OP_PUT_FLOAT64 || op == OP_DELETE then Ok(8) else Err
  }

  predicate KnownOp(op: Byte) {
    ValueBytes(op).Ok?
  }

  function Narrowed(c: Conversion, values: seq<Float64>): (r: seq<Float32>)
    ensures |r| == |values| && forall i | 0 <= i < |r| :: r[i] == c.narrow(values[i])
  {
    seq(|values|, i requires 0 <= i < |values| => c.narrow(values[i]))
  }

  function Widened(c: Conversion, values: seq<Float32>): (r: seq<Float64>)
    ensures |r| == |values| && forall i | 0 <= i < |r| :: r[i] == c.widen(values[i])
  {
    seq(|values|, i requires 0 <= i < |values| => c.widen(values[i]))
  }

  lemma NarrowOfWide(c: Conversion, values: seq<Float32>)
    ensures Narrowed(c, Widened(c, values)) == values
  {
    var e: Conv := c;
    assert e.Exact();
  }

  /** What one value occupies when written: eight bytes for the legacy op, four for the others. */
  function ValueWidth(op: Byte): nat {
    if op == OP_PUT_FLOAT64 then 8 else 4
  }

  /** valuesLen * valueBytes: the room the length field accounts for. */
  function Room(op: Byte, n: nat): (r: nat)
    requires KnownOp(op)
  {
    if op == OP_PUT then n * 4 else n * 8
  }

  /** The bytes that n values fill. */
  function Written(op: Byte, n: nat): (r: nat)
    ensures KnownOp(op) ==> r <= Room(op, n)
  {
    if op == OP_PUT_FLOAT64 then n * 8 else n * 4
  }

  function EncodeValue(c: Conversion, op: Byte, value: Float64): (r: Bytes)
    ensures |r| == ValueWidth(op)
  {
    if op == OP_PUT_FLOAT64 then PutUint64(value) else PutUint32(c.narrow(value))
  }

  function DecodeValue(c: Conversion, op: Byte, b: Bytes): Float32
    requires |b| == ValueWidth(op)
  {
    if op == OP_PUT_FLOAT64 then c.narrow(Uint64(b)) else Uint32(b)
  }

  lemma ValueRoundTrip(c: Conversion, op: Byte, value: Float64)
    ensures DecodeValue(c, op, EncodeValue(c, op, value)) == c.narrow(value)
  {
    if op == OP_PUT_FLOAT64 {
      Uint64RoundTrip(value);
    } else {
      Uint32RoundTrip(c.narrow(value));
    }
  }

  function EncodeValues(c: Conversion, op: Byte, values: seq<Float64>): (r: Bytes)
    ensures |r| == Written(op, |values|)
  {
    if values == [] then [] else EncodeValue(c, op, values[0]) + EncodeValues(c, op, values[1..])
  }

  function DecodeValues(c: Conversion, op: Byte, n: nat, b: Bytes): (r: seq<Float32>)
    requires |b| >= Written(op, n)
    ensures |r| == n
    decreases n
  {
    if n == 0 then []
    else
      [DecodeValue(c, op, b[..ValueWidth(op)])] + DecodeValues(c, op, n - 1, b[ValueWidth(op)..])
  }

  lemma {:induction false} ValuesRoundTrip(c: Conversion, op: Byte, values: seq<Float64>, tail: Bytes)
    requires |EncodeValues(c, op, values) + tail| >= Written(op, |values|)
    ensures DecodeValues(c, op, |values|, EncodeValues(c, op, values) + tail) == Narrowed(c, values)
  {
    if values != [] {
      var b, w := EncodeValues(c, op, values) + tail, ValueWidth(op);
      var rest := EncodeValues(c, op, values[1..]) + tail;
      assert b[..w] == EncodeValue(c, op, values[0]) && b[w..] == rest;
      ValueRoundTrip(c, op, values[0]);
      ValuesRoundTrip(c, op, values[1..], tail);
      assert Narrowed(c, values) == [c.narrow(values[0])] + Narrowed(c, values[1..]);
    }
  }

  function Zeros(n: nat): (r: Bytes)
    ensures |r| == n && forall i | 0 <= i < n :: r[i] == 0
  {
    seq(n, i => 0)
  }

  function PayloadLength(op: Byte, id: Bytes, values: seq<Float64>): nat
    requires KnownOp(op)
  {
    1 + 4 + |id| + 4 + Room(op, |values|)
  }

  /** Room that is reserved for a value but never written: a delete reserves eight bytes and writes four. */
  function Unwritten(op: Byte, values: seq<Float64>): nat {
    if op == OP_DELETE then 4 * |values| else 0
  }

  function Body(c: Conversion, op: Byte, values: seq<Float64>): Bytes {
    EncodeValues(c, op, values) + Zeros(Unwritten(op, values))
  }

  function Payload(c: Conversion, op: Byte, id: Bytes, values: seq<Float64>): (r: Bytes)
    requires KnownOp(op)
    ensures |r| == PayloadLength(op, id, values)
  {
    [op] + PutUint32(|id|) + id + PutUint32(|values|) + Body(c, op, values)
  }

  /** The bytes of one record: its length as a uint32, then the payload. */
  function Encode(c: Conversion, op: Byte, id: Bytes, values: seq<Float64>): (r: Bytes)
    requires KnownOp(op)
    ensures |r| == 4 + PayloadLength(op, id, values)
  {
    PutUint32(PayloadLength(op, id, values)) + Payload(c, op, id, values)
  }

  function Decode(c: Conversion, payload: Bytes): Result<Record> {
    if |payload| < 9 then Err
    else
      var op, idLen := payload[0], Uint32(payload[1..5]);
      if |payload| - 5 < idLen + 4 then Err
      else
        var id, n := payload[5..5 + idLen], Uint32(payload[5 + idLen..9 + idLen]);
        if !KnownOp(op) then Err
        else if |payload| - (9 + idLen) < Room(op, n) then Err
        else Ok(Record(op, id, DecodeValues(c, op, n, payload[9 + idLen..])))
  }

  /** A payload that is laid out as a record with n values written in `body`. */
  ghost predicate LaidOut(p: Bytes, op: Byte, id: Bytes, n: nat, body: Bytes) {
    && KnownOp(op) && |p| == 9 + |id| + |body| && |body| == Room(op, n)
    && p[0] == op && Uint32(p[1..5]) == |id| && p[5..5 + |id|] == id
    && Uint32(p[5 + |id|..9 + |id|]) == n && p[9 + |id|..] == body
  }

  lemma Concatenated<T>(a: T, b: seq<T>, c: seq<T>, d: seq<T>, e: seq<T>)
    requires |b| == 4 && |d| == 4
    ensures var p := [a] + b + c + d + e;
      p[0] == a && p[1..5] == b && p[5..5 + |c|] == c && p[5 + |c|..9 + |c|] == d && p[9 + |c|..] == e
  {
  }

  lemma LengthsRoundTrip(n: nat, m: nat)
    requires n < U32 && m < U32
    ensures Uint32(PutUint32(n)) == n && Uint32(PutUint32(m)) == m
  {
    FieldHolds(n);
    FieldHolds(m);
  }

  lemma PayloadIsLaidOut(c: Conversion, op: Byte, id: Bytes, values: seq<Float64>)
    requires KnownOp(op) && PayloadLength(op, id, values) < U32
    ensures LaidOut(Payload(c, op, id, values), op, id, |values|, Body(c, op, values))
  {
    LengthsRoundTrip(|id|, |values|);
    Concatenated(op, PutUint32(|id|), id, PutUint32(|values|), Body(c, op, values));
  }

  lemma DecodeLaidOut(c: Conversion, p: Bytes, op: Byte, id: Bytes, n: nat, body: Bytes)
    requires LaidOut(p, op, id, n, body)
    ensures Decode(c, p) == Ok(Record(op, id, DecodeValues(c, op, n, body)))
  {
  }

  /** Decoding an encoded record gives back op and id, and the values narrowed, for every op. */
  lemma DecodeEncode(c: Conversion, op: Byte, id: Bytes, values: seq<Float64>)
    requires KnownOp(op) && PayloadLength(op, id, values) < U32
    ensures Decode(c, Payload(c, op, id, values)) == Ok(Record(op, id, Narrowed(c, values)))
  {
    PayloadIsLaidOut(c, op, id, values);
    DecodeLaidOut(c, Payload(c, op, id, values), op, id, |values|, Body(c, op, values));
    ValuesRoundTrip(c, op, values, Zeros(Unwritten(op, values)));
  }

  /** Four bytes that are x modulo 2^32, lowest byte first. */
  ghost predicate LittleEndian(b: Bytes, x: nat) {
    && |b| == 4
    && (var b0: int, b1: int, b2: int, b3: int := b[0], b[1], b[2], b[3];
        b0 + 256 * b1 + 65536 * b2 + 16777216 * b3 == x % 4294967296)
  }

  lemma PutsLittleEndian(x: nat)
    ensures LittleEndian(PutUint32(x), x)
  {
    Uint32RoundTrip(x);
  }

  /** The bits of one value: a float64 for the legacy op, otherwise a float32. */
  ghost predicate HoldsValue(c: Conversion, op: Byte, b: Bytes, value: Float64) {
    if op == 1 then |b| == 8 && LittleEndian(b[..4], value % 4294967296) && LittleEndian(b[4..], value / 4294967296)
    else LittleEndian(b, c.narrow(value))
  }

  lemma EncodesBits(c: Conversion, op: Byte, value: Float64)
    ensures HoldsValue(c, op, EncodeValue(c, op, value), value)
  {
    if op == 1 {
      PutsLittleEndian(value % U32);
      PutsLittleEndian(value / U32);
      assert PutUint64(value)[..4] == PutUint32(value % U32) && PutUint64(value)[4..] == PutUint32(value / U32);
    } else {
      PutsLittleEndian(c.narrow(value));
    }
  }

  lemma TailSlice<T>(x: seq<T>, y: seq<T>, from: nat, w: nat)
    requires from + w <= |y|
    ensures (x + y)[|x| + from..|x| + from + w] == y[from..from + w]
  {
  }

  lemma HeadSlice<T>(x: seq<T>, y: seq<T>, from: nat, w: nat)
    requires from + w <= |x|
    ensures (x + y)[from..from + w] == x[from..from + w]
  {
  }

  lemma WrittenNext(op: Byte, i: nat, n: nat)
    requires 0 < i < n
    ensures Written(op, i) == ValueWidth(op) + Written(op, i - 1) && Written(op, i) + ValueWidth(op) <= Written(op, n)
  {
  }

  lemma {:induction false} ValuesInOrder(c: Conversion, op: Byte, values: seq<Float64>, i: nat)
    requires i < |values|
    ensures Written(op, i) + ValueWidth(op) <= Written(op, |values|)
    ensures EncodeValues(c, op, values)[Written(op, i)..Written(op, i) + ValueWidth(op)] == EncodeValue(c, op, values[i])
  {
    var first, rest := EncodeValue(c, op, values[0]), EncodeValues(c, op, values[1..]);
    assert EncodeValues(c, op, values) == first + rest;
    if i > 0 {
      ValuesInOrder(c, op, values[1..], i - 1);
      WrittenNext(op, i, |values|);
      SliceAfter(first, rest, EncodeValue(c, op, values[i]), Written(op, i - 1));
    } else {
      HeadSlice(first, rest, 0, |first|);
      assert first[0..|first|] == first;
    }
  }

  lemma SliceAfter(first: Bytes, rest: Bytes, value: Bytes, from: nat)
    requires from + |value| <= |rest| && rest[from..from + |value|] == value
    ensures (first + rest)[|first| + from..|first| + from + |value|] == value
  {
    TailSlice(first, rest, from, |value|);
  }

  /** What comes before the values, by position. */
  lemma FieldsByPosition(c: Conversion, op: Byte, id: Bytes, values: seq<Float64>)
    requires KnownOp(op)
    ensures var e := Encode(c, op, id, values);
      && LittleEndian(e[..4], |e| - 4) && e[4] == op && LittleEndian(e[5..9], |id|)
      && e[9..9 + |id|] == id && LittleEndian(e[9 + |id|..13 + |id|], |values|) && e[13 + |id|..] == Body(c, op, values)
  {
    var e, p := Encode(c, op, id, values), Payload(c, op, id, values);
    PutsLittleEndian(|p|);
    PutsLittleEndian(|id|);
    PutsLittleEndian(|values|);
    Concatenated(op, PutUint32(|id|), id, PutUint32(|values|), Body(c, op, values));
    FieldsMoved(PutUint32(|p|), p, |id|);
  }

  /** Positions in a payload, after the four bytes of its length. */
  lemma FieldsMoved(length: Bytes, p: Bytes, n: nat)
    requires |length| == 4 && 9 + n <= |p|
    ensures var e := length + p;
      && e[..4] == length && e[4] == p[0] && e[5..9] == p[1..5] && e[9..9 + n] == p[5..5 + n]
      && e[9 + n..13 + n] == p[5 + n..9 + n] && e[13 + n..] == p[9 + n..]
  {
  }

  /** Where the i-th value is written: after the length, op, id length, id and value count. */
  function ValueAt(op: Byte, id: Bytes, i: nat): nat {
    if op == 1 then 13 + |id| + 8 * i else 13 + |id| + 4 * i
  }

  lemma BodyIsLast(c: Conversion, op: Byte, id: Bytes, values: seq<Float64>)
    requires KnownOp(op)
    ensures Encode(c, op, id, values)[13 + |id|..] == Body(c, op, values)
  {
    FieldsByPosition(c, op, id, values);
  }

  lemma BodyInOrder(c: Conversion, op: Byte, values: seq<Float64>, i: nat)
    requires i < |values|
    ensures Written(op, i) + ValueWidth(op) <= |Body(c, op, values)|
    ensures Body(c, op, values)[Written(op, i)..Written(op, i) + ValueWidth(op)] == EncodeValue(c, op, values[i])
  {
    ValuesInOrder(c, op, values, i);
    HeadSlice(EncodeValues(c, op, values), Zeros(Unwritten(op, values)), Written(op, i), ValueWidth(op));
  }

  lemma SliceOfTail(e: Bytes, body: Bytes, value: Bytes, start: nat, from: nat)
    requires start <= |e| && e[start..] == body && from + |value| <= |body| && body[from..from + |value|] == value
    ensures start + from + |value| <= |e| && e[start + from..start + from + |value|] == value
  {
    assert e == e[..start] + body;
    TailSlice(e[..start], body, from, |value|);
  }

  lemma ValueByPosition(c: Conversion, op: Byte, id: Bytes, values: seq<Float64>, i: nat)
    requires KnownOp(op) && i < |values|
    ensures ValueIsWritten(c, op, id, values, i)
  {
    BodyIsLast(c, op, id, values);
    BodyInOrder(c, op, values, i);
    EncodesBits(c, op, values[i]);
    SliceOfTail(Encode(c, op, id, values), Body(c, op, values), EncodeValue(c, op, values[i]), 13 + |id|, Written(op, i));
  }

  /**
    The bytes of a record on disk: length, op (1 for the legacy float64 put, 2 for a delete, 3 for
    a put), id length, id, value count and values, all numbers little-endian.
   */
  lemma RecordByPosition(c: Conversion, op: Byte, id: Bytes, values: seq<Float64>)
    ensures KnownOp(op) <==> op == 1 || op == 2 || op == 3
    ensures KnownOp(op) ==> var e := Encode(c, op, id, values);
      && |e| == 13 + |id| + (if op == 3 then 4 * |values| else 8 * |values|)
      && LittleEndian(e[..4], |e| - 4) && e[4] == op && LittleEndian(e[5..9], |id|)
      && e[9..9 + |id|] == id && LittleEndian(e[9 + |id|..13 + |id|], |values|)
    ensures KnownOp(op) ==> forall i | 0 <= i < |values| :: ValueIsWritten(c, op, id, values, i)
  {
    if KnownOp(op) {
      FieldsByPosition(c, op, id, values);
      forall i | 0 <= i < |values|
        ensures ValueIsWritten(c, op, id, values, i)
      {
        ValueByPosition(c, op, id, values, i);
      }
    }
  }

  ghost predicate ValueIsWritten(c: Conversion, op: Byte, id: Bytes, values: seq<Float64>, i: nat)
    requires KnownOp(op) && i < |values|
  {
    var e, at := Encode(c, op, id, values), ValueAt(op, id, i); var w := if op == 1 then 8 else 4;
    at + w <= |e| && HoldsValue(c, op, e[at..at + w], values[i])
  }

  method PutBytes(buf: array<Byte>, pos: nat, data: Bytes)
    requires pos + |data| <= buf.Length
    modifies buf
    ensures buf[..pos] == old(buf[..pos]) && buf[pos..pos + |data|] == data && buf[pos + |data|..] == old(buf[pos + |data|..])
  {
    for i := 0 to |data|
      invariant forall j | 0 <= j < buf.Length :: buf[j] == if pos <= j < pos + i then data[j - pos] else old(buf[j])
    {
      buf[pos + i] := data[i];
    }
  }

  /** The buffer holds `written` and is zero after it. */
  ghost predicate Filled(buf: array<Byte>, written: Bytes)
    reads buf
  {
    |written| <= buf.Length && buf[..] == written + Zeros(buf.Length - |written|)
  }

  method Append(buf: array<Byte>, pos: nat, data: Bytes, ghost written: Bytes) returns (next: nat)
    requires Filled(buf, written) && pos == |written| && pos + |data| <= buf.Length
    modifies buf
    ensures Filled(buf, written + data) && next == |written + data|
  {
    PutBytes(buf, pos, data);
    next := pos + |data|;
    assert buf[..] == buf[..pos] + buf[pos..next] + buf[next..];
    assert Zeros(buf.Length - pos)[|data|..] == Zeros(buf.Length - next);
    assert old(buf[next..]) == old(buf[..])[next..];
  }

  method EncodeFileVectorRecord(c: Conversion, op: Byte, id: Bytes, values: seq<Float64>) returns (r: Result<Bytes>)
    ensures r == if KnownOp(op) then Ok(Encode(c, op, id, values)) else Err
  {
    if !KnownOp(op) {
      return Err;
    }
    var recordLength := 1 + 4 + |id| + 4 + |values| * ValueBytes(op).value;
    var buf := new Byte[4 + recordLength](_ => 0);
    assert recordLength == PayloadLength(op, id, values);
    assert buf[..] == [] + Zeros(buf.Length);
    var pos := Append(buf, 0, PutUint32(recordLength), []);
    pos := Append(buf, pos, [op], PutUint32(recordLength));
    pos := Append(buf, pos, PutUint32(|id|), PutUint32(recordLength) + [op]);
    pos := Append(buf, pos, id, PutUint32(recordLength) + [op] + PutUint32(|id|));
    pos := Append(buf, pos, PutUint32(|values|), PutUint32(recordLength) + [op] + PutUint32(|id|) + id);
    PutValues(c, buf, pos, op, values, PutUint32(recordLength) + [op] + PutUint32(|id|) + id + PutUint32(|values|));
    HeaderFirst(PutUint32(recordLength), [op], PutUint32(|id|), id, PutUint32(|values|), Body(c, op, values));
    r := Ok(buf[..]);
  }

  lemma HeaderFirst<T>(a: seq<T>, b: seq<T>, c: seq<T>, d: seq<T>, e: seq<T>, f: seq<T>)
    ensures a + b + c + d + e + f == a + (b + c + d + e + f)
  {
  }

  lemma WrittenFits(op: Byte, n: nat, i: nat)
    requires KnownOp(op) && i < n
    ensures Written(op, i + 1) == Written(op, i) + ValueWidth(op) && Written(op, i + 1) <= Room(op, n)
  {
  }

  lemma Reassociate<T>(a: seq<T>, b: seq<T>, c: seq<T>)
    ensures (a + b) + c == a + (b + c)
  {
  }

  method PutValues(c: Conversion, buf: array<Byte>, pos0: nat, op: Byte, values: seq<Float64>, ghost written: Bytes)
    requires Filled(buf, written) && pos0 == |written| && KnownOp(op)
    requires buf.Length == |written| + Room(op, |values|)
    modifies buf
    ensures buf[..] == written + Body(c, op, values)
  {
    var pos := pos0;
    ghost var now: Bytes := [];
    for i := 0 to |values|
      invariant now == EncodeValues(c, op, values[..i])
      invariant Filled(buf, written + now) && pos == |written + now|
    {
      EncodeOneMore(c, op, values, i);
      WrittenFits(op, |values|, i);
      var data := EncodeValue(c, op, values[i]);
      pos := Append(buf, pos, data, written + now);
      Reassociate(written, now, data);
      now := now + data;
    }
    assert values[..|values|] == values;
    Reassociate(written, now, Zeros(Unwritten(op, values)));
  }

  lemma {:induction false} EncodeOneMore(c: Conversion, op: Byte, values: seq<Float64>, i: nat)
    requires i < |values|
    ensures EncodeValues(c, op, values[..i + 1]) == EncodeValues(c, op, values[..i]) + EncodeValue(c, op, values[i])
  {
    if i > 0 {
      EncodeOneMore(c, op, values[1..], i - 1);
      assert values[..i + 1][1..] == values[1..][..i] && values[..i][1..] == values[1..][..i - 1];
    }
  }
}

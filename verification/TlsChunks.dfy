// Which chunkings of a TLS stream the record walk reads correctly.
module TlsChunks {
  import opened Bytes
  import opened FieldParser
  import opened TlsRecords

  // All calls on one direction, one per chunk, with the same number of result
  // elements for each since a call gives back what it took. The fields of a call
  // that fails are thrown away, and it is the last one: from then on the flow is
  // not inspected.
  function Run(dir: Direction, room: nat, s: Reader, chunks: seq<Data>): (a: Answer)
    requires s.Valid() && s.skip == 0
    ensures a.ok ==> Reader(a.parseField, a.store, 0).Valid()
    decreases |chunks|
  {
    if chunks == [] then Answer(s.field, s.store, [], true)
    else
      var a := CallWithin(dir, s, chunks[0], room);
      if !a.ok then Answer(a.parseField, a.store, [], false)
      else
        var b := Run(dir, room, Reader(a.parseField, a.store, 0), chunks[1..]);
        Answer(b.parseField, b.store, a.fields + b.fields, b.ok)
  }

  // One more chunk at the end.
  lemma {:induction false} RunOneMore(dir: Direction, room: nat, s: Reader, chunks: seq<Data>, last: Data)
    requires s.Valid() && s.skip == 0
    ensures var a := Run(dir, room, s, chunks);
      Run(dir, room, s, chunks + [last]) ==
        if !a.ok then a
        else
          var b := CallWithin(dir, Reader(a.parseField, a.store, 0), last, room);
          Answer(b.parseField, b.store, if b.ok then a.fields + b.fields else a.fields, b.ok)
    decreases |chunks|
  {
    if chunks == [] {
      assert chunks + [last] == [last];
    } else {
      var a := CallWithin(dir, s, chunks[0], room);
      assert (chunks + [last])[1..] == chunks[1..] + [last];
      if a.ok {
        var next := Reader(a.parseField, a.store, 0);
        RunOneMore(dir, room, next, chunks[1..], last);
        var b := Run(dir, room, next, chunks[1..]);
        if b.ok {
          ConcatAssociative(a.fields, b.fields, CallWithin(dir, Reader(b.parseField, b.store, 0), last, room).fields);
        }
      }
    }
  }

  // A chunk boundary the parser can resume from: inside a record header or
  // between two records. The end of the header of a record with a body is not.
  predicate Boundary(records: seq<Record>, at: nat)
    requires forall r <- records :: r.Valid()
    decreases |records|
  {
    || at == 0
    || (records != [] &&
        (at < 5 || (at >= |records[0].Encode()| && Boundary(records[1..], at - |records[0].Encode()|))))
  }

  // How many header fields end within the first bytes of the stream.
  function FieldsBefore(records: seq<Record>, at: nat): (n: nat)
    requires forall r <- records :: r.Valid()
    decreases |records|
  {
    if records == [] || at == 0 then 0
    else if at < 3 then 1
    else if at < 5 then 2
    else 3 + if at < |records[0].Encode()| then 0 else FieldsBefore(records[1..], at - |records[0].Encode()|)
  }

  // Where chunk i begins.
  function Start(chunks: seq<Data>, i: nat): nat
    requires i <= |chunks|
  {
    |Flatten(chunks[..i])|
  }

  // How many header fields end in chunk i.
  function FieldsIn(records: seq<Record>, chunks: seq<Data>, i: nat): int
    requires (forall r <- records :: r.Valid()) && i < |chunks|
  {
    FieldsBefore(records, Start(chunks, i + 1)) - FieldsBefore(records, Start(chunks, i))
  }

  // Reading a prefix that ends inside a record.
  lemma ReadPrefix(dir: Direction, r: Record, at: nat)
    requires r.Valid() && at <= |r.Encode()|
    ensures var p := Read(dir, FRESH, r.Encode()[..at]);
      && p.reader.skip == (if at < 5 then 0 else 5 + |r.body| - at)
      && |p.fields| == FieldsBefore([r], at)
  {
    var e := r.Encode();
    var s1, s2 := Reader(1, [], 0), Reader(2, [], 0);
    ReadHeaderBytes(dir, FRESH, e[..if at < 1 then at else 1]);
    if at >= 1 {
      assert FRESH.store + e[..1] == e[..1];
      ReadHeaderBytes(dir, s1, e[1..if at < 3 then at else 3]);
      ReadOn(dir, FRESH, e, 1, if at < 3 then at else 3);
    }
    if at >= 3 {
      assert s1.store + e[1..3] == e[1..3];
      ReadHeaderBytes(dir, s2, e[3..if at < 5 then at else 5]);
      ReadOn(dir, FRESH, e, 3, if at < 5 then at else 5);
    }
    if at >= 5 {
      assert s2.store + e[3..5] == r.Length();
      SkipBody(dir, |r.body|, e[5..at]);
      ReadOn(dir, FRESH, e, 5, at);
    }
  }

  // What has been read of the stream at a position: exactly the fields that
  // ended before it, and body bytes are outstanding exactly off the boundaries.
  lemma {:induction false} ReadUpTo(dir: Direction, records: seq<Record>, at: nat)
    requires (forall r <- records :: r.Valid()) && at <= |EncodeAll(records)|
    ensures var p := Read(dir, FRESH, EncodeAll(records)[..at]);
      (Boundary(records, at) <==> p.reader.skip == 0) && |p.fields| == FieldsBefore(records, at)
    decreases |records|
  {
    if records == [] || at == 0 {
      assert EncodeAll(records)[..at] == [];
    } else {
      var e, rest := records[0].Encode(), EncodeAll(records[1..]);
      if at < |e| {
        assert EncodeAll(records)[..at] == e[..at];
        ReadPrefix(dir, records[0], at);
      } else {
        assert EncodeAll(records)[..at] == e + rest[..at - |e|];
        ReadRecord(dir, records[0]);
        ReadAppend(dir, FRESH, e, rest[..at - |e|]);
        ReadUpTo(dir, records[1..], at - |e|);
      }
    }
  }

  // The boundary condition says exactly that no body bytes are outstanding.
  lemma BoundaryMeansNothingToSkip(dir: Direction, records: seq<Record>, at: nat)
    requires (forall r <- records :: r.Valid()) && at <= |EncodeAll(records)|
    ensures Boundary(records, at) <==> Read(dir, FRESH, EncodeAll(records)[..at]).reader.skip == 0
  {
    ReadUpTo(dir, records, at);
  }

  // ---- runs ----

  // What has been read when chunk i begins.
  function Before(dir: Direction, s: Reader, chunks: seq<Data>, i: nat): (p: Progress)
    requires s.Valid() && i <= |chunks|
    ensures p.reader.Valid()
  {
    Read(dir, s, Flatten(chunks[..i]))
  }

  // No chunk begins with body bytes outstanding.
  ghost predicate Resumable(dir: Direction, s: Reader, chunks: seq<Data>)
    requires s.Valid()
  {
    forall i | 0 <= i <= |chunks| :: Before(dir, s, chunks, i).reader.skip == 0
  }

  // The fields that end in a chunk are no more than there are result elements.
  ghost predicate FitsIn(dir: Direction, s: Reader, chunks: seq<Data>, i: nat, room: nat)
    requires s.Valid() && i < |chunks|
  {
    |Before(dir, s, chunks, i + 1).fields| <= |Before(dir, s, chunks, i).fields| + room
  }

  lemma BeforeTail(dir: Direction, s: Reader, chunks: seq<Data>, i: nat)
    requires s.Valid() && 1 <= i <= |chunks|
    ensures var p := Read(dir, s, chunks[0]);
      var q := Before(dir, p.reader, chunks[1..], i - 1);
      Before(dir, s, chunks, i) == Progress(q.reader, p.fields + q.fields)
  {
    assert chunks[..i][0] == chunks[0] && chunks[..i][1..] == chunks[1..][..i - 1];
    ReadAppend(dir, s, chunks[0], Flatten(chunks[1..][..i - 1]));
  }

  lemma TailIsResumable(dir: Direction, s: Reader, chunks: seq<Data>)
    requires s.Valid() && s.skip == 0 && chunks != [] && Resumable(dir, s, chunks)
    ensures Call(dir, s, chunks[0]) == Read(dir, s, chunks[0])
    ensures Resumable(dir, Read(dir, s, chunks[0]).reader, chunks[1..])
  {
    var p := Read(dir, s, chunks[0]);
    forall i | 0 <= i <= |chunks[1..]|
      ensures Before(dir, p.reader, chunks[1..], i).reader.skip == 0
    {
      var j := i + 1;
      assert Before(dir, s, chunks, j).reader.skip == 0;
      BeforeTail(dir, s, chunks, j);
    }
    assert Before(dir, p.reader, chunks[1..], 0) == Progress(p.reader, []);
  }

  // The chunks that fit are those of the rest, and the first.
  lemma FirstMisfitOfTail(dir: Direction, room: nat, s: Reader, chunks: seq<Data>, k: nat)
    requires s.Valid() && 0 < k <= |chunks| && (k < |chunks| ==> !FitsIn(dir, s, chunks, k, room))
    requires forall i | 0 <= i < k :: FitsIn(dir, s, chunks, i, room)
    ensures var q := Read(dir, s, chunks[0]).reader;
      && |Read(dir, s, chunks[0]).fields| <= room
      && (k < |chunks| ==> !FitsIn(dir, q, chunks[1..], k - 1, room))
      && forall i | 0 <= i < k - 1 :: FitsIn(dir, q, chunks[1..], i, room)
  {
    assert FitsIn(dir, s, chunks, 0, room);
    FitsInTail(dir, s, chunks, 0, room);
    forall i | 0 <= i < k - 1 ensures FitsIn(dir, Read(dir, s, chunks[0]).reader, chunks[1..], i, room) {
      var j := i + 1;
      assert FitsIn(dir, s, chunks, j, room);
      FitsInTail(dir, s, chunks, j, room);
    }
    if k < |chunks| {
      FitsInTail(dir, s, chunks, k, room);
    }
  }

  lemma FitsInTail(dir: Direction, s: Reader, chunks: seq<Data>, i: nat, room: nat)
    requires s.Valid() && i < |chunks|
    ensures FitsIn(dir, s, chunks, i, room)
      == if i == 0 then |Read(dir, s, chunks[0]).fields| <= room
         else FitsIn(dir, Read(dir, s, chunks[0]).reader, chunks[1..], i - 1, room)
  {
    BeforeTail(dir, s, chunks, i + 1);
    if i > 0 {
      BeforeTail(dir, s, chunks, i);
    } else {
      assert chunks[..0] == [] && chunks[1..][..0] == [];
    }
  }

  // Calls that all resume with nothing to skip read the stream as if it were
  // whole, up to the first chunk in which more fields end than there are
  // elements; that call is the last.
  lemma {:induction false} RunIsRead(dir: Direction, room: nat, s: Reader, chunks: seq<Data>, k: nat)
    requires s.Valid() && s.skip == 0 && Resumable(dir, s, chunks)
    requires k <= |chunks| && (k < |chunks| ==> !FitsIn(dir, s, chunks, k, room))
    requires forall i | 0 <= i < k :: FitsIn(dir, s, chunks, i, room)
    ensures var a, p := Run(dir, room, s, chunks), Before(dir, s, chunks, k);
      && a.fields == p.fields && (a.ok <==> k == |chunks|)
      && (a.ok ==> Reader(a.parseField, a.store, 0) == p.reader)
    decreases |chunks|
  {
    if chunks != [] {
      var p := Read(dir, s, chunks[0]);
      TailIsResumable(dir, s, chunks);
      if k == 0 {
        FitsInTail(dir, s, chunks, 0, room);
      } else {
        FirstMisfitOfTail(dir, room, s, chunks, k);
        RunIsRead(dir, room, p.reader, chunks[1..], k - 1);
        BeforeTail(dir, s, chunks, k);
      }
    }
  }

  // The stream of a sequence of records, cut inside headers or between records.
  ghost predicate CutOutsideBodies(records: seq<Record>, chunks: seq<Data>) {
    && (forall r <- records :: r.Valid()) && Flatten(chunks) == EncodeAll(records)
    && forall i | 0 <= i <= |chunks| :: Boundary(records, Start(chunks, i))
  }

  lemma CutIsResumable(dir: Direction, records: seq<Record>, chunks: seq<Data>, i: nat)
    requires CutOutsideBodies(records, chunks) && i <= |chunks|
    ensures var p := Before(dir, FRESH, chunks, i);
      p.reader.skip == 0 && |p.fields| == FieldsBefore(records, Start(chunks, i))
    ensures Start(chunks, i) <= |EncodeAll(records)| && Flatten(chunks[..i]) == EncodeAll(records)[..Start(chunks, i)]
  {
    FlattenAppend(chunks[..i], chunks[i..]);
    assert chunks[..i] + chunks[i..] == chunks;
    assert Boundary(records, Start(chunks, i));
    ReadUpTo(dir, records, Start(chunks, i));
  }

  // The header fields of the first chunks are those that end in them.
  lemma FieldsOfPrefix(dir: Direction, records: seq<Record>, chunks: seq<Data>, i: nat)
    requires CutOutsideBodies(records, chunks) && i <= |chunks|
    ensures var n := FieldsBefore(records, Start(chunks, i));
      n <= |Headers(dir, records)| && Before(dir, FRESH, chunks, i).fields == Headers(dir, records)[..n]
  {
    CutIsResumable(dir, records, chunks, i);
    ReadRecords(dir, records);
    var at, stream := Start(chunks, i), EncodeAll(records);
    ReadOn(dir, FRESH, stream, at, |stream|);
    assert stream[..|stream|] == stream;
  }

  // For every sequence of records and every chunking of its bytes that only cuts
  // inside headers or between records, the calls emit, in order, the type,
  // version and length of the records up to the first chunk in which more of
  // these end than there are result elements.
  lemma ChunkedRunEmitsHeaders(dir: Direction, room: nat, records: seq<Record>, chunks: seq<Data>, k: nat)
    requires CutOutsideBodies(records, chunks)
    requires k <= |chunks| && (forall i | 0 <= i < k :: FieldsIn(records, chunks, i) <= room)
    requires k < |chunks| ==> FieldsIn(records, chunks, k) > room
    ensures FieldsBefore(records, Start(chunks, k)) <= |Headers(dir, records)|
    ensures var a := Run(dir, room, FRESH, chunks);
      && a.fields == Headers(dir, records)[..FieldsBefore(records, Start(chunks, k))]
      && (a.ok <==> k == |chunks|) && (a.ok ==> a.parseField == 0 && a.store == [])
  {
    forall i | 0 <= i <= |chunks| ensures Before(dir, FRESH, chunks, i).reader.skip == 0 {
      CutIsResumable(dir, records, chunks, i);
    }
    forall i | 0 <= i < |chunks| ensures FitsIn(dir, FRESH, chunks, i, room) <==> FieldsIn(records, chunks, i) <= room {
      CutIsResumable(dir, records, chunks, i);
      CutIsResumable(dir, records, chunks, i + 1);
    }
    RunIsRead(dir, room, FRESH, chunks, k);
    FieldsOfPrefix(dir, records, chunks, k);
    ReadRecords(dir, records);
    assert chunks[..|chunks|] == chunks;
  }

  // So every header is emitted exactly if no chunk holds the ends of more header
  // fields than there are result elements.
  lemma ChunkedRunEmitsEveryHeader(dir: Direction, room: nat, records: seq<Record>, chunks: seq<Data>)
    requires CutOutsideBodies(records, chunks)
    ensures Run(dir, room, FRESH, chunks) == Answer(0, [], Headers(dir, records), true)
      <==> forall i | 0 <= i < |chunks| :: FieldsIn(records, chunks, i) <= room
  {
    var k := FirstOverfull(records, chunks, room, 0);
    ChunkedRunEmitsHeaders(dir, room, records, chunks, k);
    if k == |chunks| {
      FieldsOfPrefix(dir, records, chunks, k);
      ReadRecords(dir, records);
      assert chunks[..|chunks|] == chunks;
    }
  }

  // The first chunk from the i-th on with too many fields.
  function FirstOverfull(records: seq<Record>, chunks: seq<Data>, room: nat, i: nat): (k: nat)
    requires (forall r <- records :: r.Valid()) && i <= |chunks|
    ensures i <= k <= |chunks| && (k < |chunks| ==> FieldsIn(records, chunks, k) > room)
    ensures forall j | i <= j < k :: FieldsIn(records, chunks, j) <= room
    decreases |chunks| - i
  {
    if i < |chunks| && FieldsIn(records, chunks, i) <= room then FirstOverfull(records, chunks, room, i + 1) else i
  }

  function Repeated(r: Record, n: nat): (records: seq<Record>)
    requires r.Valid()
    ensures |records| == n && forall q <- records :: q == r
    decreases n
  {
    if n == 0 then [] else [r] + Repeated(r, n - 1)
  }

  lemma {:induction false} EmptyRecords(n: nat)
    ensures var records := Repeated(EMPTY_ALERT, n);
      && (forall r <- records :: r.Valid())
      && |EncodeAll(records)| == 5 * n && FieldsBefore(records, 5 * n) == 3 * n && Boundary(records, 5 * n)
    decreases n
  {
    if n > 0 {
      EmptyRecords(n - 1);
      assert Repeated(EMPTY_ALERT, n)[1..] == Repeated(EMPTY_ALERT, n - 1);
    }
  }

  const EMPTY_ALERT := Record(0x15, [3, 1], [])

  // The longest chunk the stream engine hands over.
  const MSG_DATA_SIZE := 2048

  // Empty records in one chunk are read as long as their fields find elements;
  // of 334 in 1670 bytes, nothing is emitted.
  lemma EmptyRecordsInOneChunk(dir: Direction, n: nat)
    ensures var records := Repeated(EMPTY_ALERT, n);
      && (forall r <- records :: r.Valid()) && |EncodeAll(records)| == 5 * n
      && Run(dir, POOL_SIZE, FRESH, [EncodeAll(records)]) ==
           if 3 * n <= POOL_SIZE then Answer(0, [], Headers(dir, records), true) else Answer(0, [], [], false)
    ensures 5 * 334 < MSG_DATA_SIZE && 3 * 334 > POOL_SIZE
  {
    var records := Repeated(EMPTY_ALERT, n);
    EmptyRecords(n);
    var chunks := [EncodeAll(records)];
    assert chunks[..0] == [] && chunks[..1] == chunks && Flatten(chunks) == chunks[0] + Flatten<byte>([]) == chunks[0];
    assert Start(chunks, 0) == 0 && Start(chunks, 1) == 5 * n;
    assert FieldsIn(records, chunks, 0) == 3 * n;
    if 3 * n <= POOL_SIZE {
      ChunkedRunEmitsEveryHeader(dir, POOL_SIZE, records, chunks);
    } else {
      ChunkedRunEmitsHeaders(dir, POOL_SIZE, records, chunks, 0);
      assert Headers(dir, records)[..0] == [];
    }
  }

  // The condition cannot be weakened: a boundary is safe for every way the
  // stream may go on if and only if no body bytes are outstanding there.
  lemma BoundaryConditionIsExact(dir: Direction, s: Reader)
    requires s.Valid()
    ensures s.skip == 0 <==> forall tail :: Read(dir, s, tail).fields == Read(dir, s.(skip := 0), tail).fields
  {
    if s.skip > 0 {
      SkipBody(dir, s.skip, [0]);
      ReadHeaderBytes(dir, FRESH, [0]);
      assert Read(dir, s, [0]).fields == [] != Read(dir, s.(skip := 0), [0]).fields;
    } else {
      assert s == s.(skip := 0);
    }
  }
}

// The TLS record walk (app-layer-tls.c): one call cuts the five-byte headers of
// every record in a chunk, growing its own loop bound as it finds more data.
module TlsRecords {
  import opened Bytes
  import opened FieldParser

  const TLS_FIELD_CLIENT_CONTENT_TYPE := 1
  const TLS_FIELD_CLIENT_VERSION := 2
  const TLS_FIELD_SERVER_CONTENT_TYPE := 3
  const TLS_FIELD_SERVER_VERSION := 4
  const TLS_FIELD_LENGTH := 5

  function FieldId(dir: Direction, f: nat): nat {
    if f == 2 then TLS_FIELD_LENGTH
    else match dir
      case ToServer => if f == 0 then TLS_FIELD_CLIENT_CONTENT_TYPE else TLS_FIELD_CLIENT_VERSION
      case ToClient => if f == 0 then TLS_FIELD_SERVER_CONTENT_TYPE else TLS_FIELD_SERVER_VERSION
  }

  // Content type, version and length take 1, 2 and 2 bytes.
  function Width(f: nat): nat {
    if f == 0 then 1 else 2
  }

  // ---- the stream as a sequence of records: a byte-at-a-time reader ----

  // The field being read, its bytes so far, and the body bytes still to skip.
  datatype Reader = Reader(field: nat, store: Data, skip: nat)
  {
    predicate Valid() {
      && field < 3 && |store| < Width(field)
      && (skip > 0 ==> field == 0 && store == [])
    }
  }

  const FRESH := Reader(0, [], 0)

  datatype Progress = Progress(reader: Reader, fields: seq<Field>)

  function Complete(dir: Direction, f: nat, bytes: Data): (p: Progress)
    requires f < 3 && |bytes| == Width(f)
    ensures p.reader.Valid()
  {
    Progress(if f == 2 then Reader(0, [], Be16(bytes)) else Reader(f + 1, [], 0), [Field(FieldId(dir, f), bytes)])
  }

  function ReadByte(dir: Direction, s: Reader, b: byte): (p: Progress)
    requires s.Valid()
    ensures p.reader.Valid()
  {
    if s.skip > 0 then Progress(s.(skip := s.skip - 1), [])
    else if |s.store| + 1 < Width(s.field) then Progress(s.(store := s.store + [b]), [])
    else Complete(dir, s.field, s.store + [b])
  }

  function Read(dir: Direction, s: Reader, data: Data): (p: Progress)
    requires s.Valid()
    ensures p.reader.Valid()
    decreases |data|
  {
    if data == [] then Progress(s, [])
    else
      var p := ReadByte(dir, s, data[0]);
      var q := Read(dir, p.reader, data[1..]);
      Progress(q.reader, p.fields + q.fields)
  }

  lemma {:induction false} ReadAppend(dir: Direction, s: Reader, a: Data, b: Data)
    requires s.Valid()
    ensures var p := Read(dir, s, a);
      var q := Read(dir, p.reader, b);
      Read(dir, s, a + b) == Progress(q.reader, p.fields + q.fields)
    decreases |a|
  {
    if a == [] {
      assert a + b == b;
      var q := Read(dir, s, b);
      assert [] + q.fields == q.fields;
    } else {
      var p0 := ReadByte(dir, s, a[0]);
      assert (a + b)[1..] == a[1..] + b;
      ReadAppend(dir, p0.reader, a[1..], b);
      var p1 := Read(dir, p0.reader, a[1..]);
      var q := Read(dir, p1.reader, b);
      assert p0.fields + (p1.fields + q.fields) == (p0.fields + p1.fields) + q.fields;
    }
  }

  lemma {:induction false} ReadHeaderBytes(dir: Direction, s: Reader, d: Data)
    requires s.Valid() && s.skip == 0
    requires |s.store| + |d| <= Width(s.field)
    ensures Read(dir, s, d) ==
      if |s.store| + |d| < Width(s.field) then Progress(s.(store := s.store + d), [])
      else Complete(dir, s.field, s.store + d)
    decreases |d|
  {
    if d == [] {
      assert s.store + d == s.store;
    } else {
      var p := ReadByte(dir, s, d[0]);
      assert (s.store + [d[0]]) + d[1..] == s.store + d;
      if |d| == 1 {
        assert d == [d[0]] && d[1..] == [];
        assert p.fields + [] == p.fields;
      } else {
        ReadHeaderBytes(dir, p.reader, d[1..]);
        var q := Read(dir, p.reader, d[1..]);
        assert [] + q.fields == q.fields;
      }
    }
  }

  lemma {:induction false} SkipBody(dir: Direction, n: nat, d: Data)
    requires |d| <= n
    ensures Read(dir, Reader(0, [], n), d) == Progress(Reader(0, [], n - |d|), [])
    decreases |d|
  {
    if d != [] {
      SkipBody(dir, n - 1, d[1..]);
    }
  }

  // ---- records ----

  // A record: content type, two version bytes and a body (section 6.2.1 of RFC 5246).
  datatype Record = Record(ctype: byte, version: Data, body: Data)
  {
    predicate Valid() {
      |version| == 2 && |body| < 0x1_0000
    }

    function Length(): (s: Data)
      requires Valid()
      ensures |s| == 2 && Be16(s) == |body|
    {
      [|body| / 256, |body| % 256]
    }

    function Encode(): Data
      requires Valid()
    {
      [ctype] + version + Length() + body
    }

    function Header(dir: Direction): seq<Field>
      requires Valid()
    {
      [Field(FieldId(dir, 0), [ctype]), Field(FieldId(dir, 1), version), Field(FieldId(dir, 2), Length())]
    }
  }

  function EncodeAll(records: seq<Record>): Data
    requires forall r <- records :: r.Valid()
  {
    if records == [] then [] else records[0].Encode() + EncodeAll(records[1..])
  }

  function Headers(dir: Direction, records: seq<Record>): seq<Field>
    requires forall r <- records :: r.Valid()
  {
    if records == [] then [] else records[0].Header(dir) + Headers(dir, records[1..])
  }

  lemma ReadRecord(dir: Direction, r: Record)
    requires r.Valid()
    ensures Read(dir, FRESH, r.Encode()) == Progress(FRESH, r.Header(dir))
  {
    var h := [r.ctype] + r.version;
    ReadHeaderBytes(dir, FRESH, [r.ctype]);
    assert FRESH.store + [r.ctype] == [r.ctype];
    ReadAppend(dir, FRESH, [r.ctype], r.version);
    ReadHeaderBytes(dir, Reader(1, [], 0), r.version);
    assert [] + r.version == r.version;
    ReadAppend(dir, FRESH, h, r.Length());
    ReadHeaderBytes(dir, Reader(2, [], 0), r.Length());
    assert [] + r.Length() == r.Length();
    ReadAppend(dir, FRESH, h + r.Length(), r.body);
    SkipBody(dir, |r.body|, r.body);
    assert r.Header(dir) + [] == r.Header(dir);
  }

  // The reader recovers exactly the headers of a stream of records.
  lemma {:induction false} ReadRecords(dir: Direction, records: seq<Record>)
    requires forall r <- records :: r.Valid()
    ensures Read(dir, FRESH, EncodeAll(records)) == Progress(FRESH, Headers(dir, records))
    decreases |records|
  {
    if records != [] {
      ReadRecord(dir, records[0]);
      ReadRecords(dir, records[1..]);
      ReadAppend(dir, FRESH, records[0].Encode(), EncodeAll(records[1..]));
    }
  }

  // ---- one call of the record parser ----

  // A call keeps the field index and the stored bytes, but not how much of a
  // record body is still to come.
  function Call(dir: Direction, s: Reader, chunk: Data): (p: Progress)
    requires s.Valid() && s.skip == 0
    ensures p.reader.Valid() && p.reader.skip == 0
  {
    var p := Read(dir, s, chunk);
    p.(reader := p.reader.(skip := 0))
  }

  // What a call does with the elements at hand: the fields it outputs and the
  // state it leaves. Once there is none for the next field it gives up, and that
  // field stays in the store if its first bytes were there before.
  datatype Answer = Answer(parseField: nat, store: Data, fields: seq<Field>, ok: bool)

  function CallWithin(dir: Direction, s: Reader, chunk: Data, room: nat): (a: Answer)
    requires s.Valid() && s.skip == 0
    ensures |a.fields| <= room && (a.ok ==> Reader(a.parseField, a.store, 0).Valid())
  {
    var p := Call(dir, s, chunk);
    if |p.fields| <= room then Answer(p.reader.field, p.reader.store, p.fields, true)
    else Answer(s.field, if room == 0 then Kept(s.store, p.fields[0].data) else [], p.fields[..room], false)
  }

  // The loop counter is a signed and the loop bound an unsigned 16-bit integer.
  function IncInt16(u: nat): int {
    if u == 0x7fff then -0x8000 else u + 1
  }

  function AddUint16(a: nat, b: nat): nat {
    (a + b) % 0x1_0000
  }

  // Every emitted field has the width its handler expects.
  ghost predicate Sized(dir: Direction, fields: seq<Field>) {
    forall x <- fields :: IsField(dir, 0, x) || IsField(dir, 1, x) || IsField(dir, 2, x)
  }

  ghost predicate IsField(dir: Direction, f: nat, x: Field) {
    x.idx == FieldId(dir, f) && |x.data| == Width(f)
  }

  lemma {:induction false} ReadIsSized(dir: Direction, s: Reader, data: Data)
    requires s.Valid()
    ensures Sized(dir, Read(dir, s, data).fields)
    decreases |data|
  {
    if data != [] {
      var p := ReadByte(dir, s, data[0]);
      assert forall x <- p.fields :: IsField(dir, s.field, x);
      ReadIsSized(dir, p.reader, data[1..]);
    }
  }

  // Reading on from a prefix of the input.
  lemma ReadOn(dir: Direction, start: Reader, input: Data, a: nat, b: nat)
    requires start.Valid() && a <= b <= |input|
    ensures var p := Read(dir, start, input[..a]);
      var q := Read(dir, p.reader, input[a..b]);
      Read(dir, start, input[..b]) == Progress(q.reader, p.fields + q.fields)
  {
    assert input[..a] + input[a..b] == input[..b];
    ReadAppend(dir, start, input[..a], input[a..b]);
  }

  // Behind a length field either the body reaches to the end of the chunk, or
  // the next header starts right after it.
  lemma AfterLength(dir: Direction, start: Reader, input: Data, offset: nat, len: nat, fields: seq<Field>)
    requires start.Valid() && start.skip == 0 && offset <= |input|
    requires Read(dir, start, input[..offset]) == Progress(Reader(0, [], len), fields)
    ensures |input| <= offset + len ==> Call(dir, start, input) == Progress(FRESH, fields)
    ensures |input| > offset + len ==> Read(dir, start, input[..offset + len]) == Progress(FRESH, fields)
  {
    var end := if |input| <= offset + len then |input| else offset + len;
    SkipBody(dir, len, input[offset..end]);
    ReadOn(dir, start, input, offset, end);
    assert fields + [] == fields;
    assert input[..|input|] == input;
  }

  // The loop invariant of the walk: before field f the reader stands where the
  // loop does, and behind the last field, for which f is 3, the whole chunk has
  // been read.
  ghost predicate Walking(dir: Direction, start: Reader, input: Data, f: nat, offset: nat, store: Data, out: seq<Field>)
  {
    && start.Valid() && start.skip == 0 && offset <= |input| && f <= 3
    && (if out == [] then store == start.store && f == start.field else store == [])
    && if f < 3 then Read(dir, start, input[..offset]) == Progress(Reader(f, store, 0), out)
       else Call(dir, start, input) == Progress(FRESH, out)
  }

  // The field behind field f, if the bytes of a length and what follows in the
  // chunk ask for another record.
  function NextField(f: nat, more: bool): nat {
    if f < 2 then f + 1 else if more then 0 else 3
  }

  // Completing the field at hand.
  lemma ReadField(dir: Direction, start: Reader, input: Data, offset: nat, f: nat, store: Data, out: seq<Field>,
                  next: nat)
    requires start.Valid() && offset <= next <= |input| && f < 3 && |store| < Width(f)
    requires Read(dir, start, input[..offset]) == Progress(Reader(f, store, 0), out)
    requires next - offset == Width(f) - |store|
    ensures |store + input[offset..next]| == Width(f)
    ensures var bytes := store + input[offset..next];
      Read(dir, start, input[..next])
        == Progress(Complete(dir, f, bytes).reader, out + [Field(FieldId(dir, f), bytes)])
  {
    ReadHeaderBytes(dir, Reader(f, store, 0), input[offset..next]);
    ReadOn(dir, start, input, offset, next);
  }

  // Cutting the field at hand, and behind a length moving on to the next record.
  lemma WalkStep(dir: Direction, start: Reader, input: Data, f: nat, offset: nat, store: Data, out: seq<Field>,
                 next: nat)
    requires Walking(dir, start, input, f, offset, store, out) && f < 3
    requires |store| < Width(f) && offset < next <= |input| && next - offset == Width(f) - |store|
    ensures |store + input[offset..next]| == Width(f)
    ensures var bytes := store + input[offset..next];
      var out' := out + [Field(FieldId(dir, f), bytes)];
      var more := f == 2 && next + Be16(bytes) < |input|;
      Walking(dir, start, input, NextField(f, more), if more then next + Be16(bytes) else next, [], out')
  {
    var bytes := store + input[offset..next];
    var out' := out + [Field(FieldId(dir, f), bytes)];
    ReadField(dir, start, input, offset, f, store, out, next);
    if f == 2 {
      AfterLength(dir, start, input, next, Be16(bytes), out');
    }
  }

  // The chunk ends inside the field at hand.
  lemma WalkStops(dir: Direction, start: Reader, input: Data, f: nat, offset: nat, store: Data, out: seq<Field>)
    requires Walking(dir, start, input, f, offset, store, out) && f < 3
    requires |store| + |input[offset..]| < Width(f)
    ensures Call(dir, start, input) == Progress(Reader(f, store + input[offset..], 0), out)
  {
    ReadHeaderBytes(dir, Reader(f, store, 0), input[offset..]);
    ReadOn(dir, start, input, offset, |input|);
    assert input[..|input|] == input && input[offset..|input|] == input[offset..];
    assert out + [] == out;
  }

  // There is no element for the field at hand, so the call has more fields than
  // elements.
  lemma WalkFails(dir: Direction, start: Reader, input: Data, f: nat, offset: nat, store: Data, out: seq<Field>,
                  next: nat)
    requires Walking(dir, start, input, f, offset, store, out) && f < 3
    requires |store| < Width(f) && offset < next <= |input| && next - offset == Width(f) - |store|
    ensures CallWithin(dir, start, input, |out|)
      == Answer(start.field, Kept(store, store + input[offset..next]), out, false)
  {
    var bytes := store + input[offset..next];
    ReadField(dir, start, input, offset, f, store, out, next);
    ReadOn(dir, start, input, next, |input|);
    assert input[..|input|] == input;
    var x := Field(FieldId(dir, f), bytes);
    var fields := Call(dir, start, input).fields;
    assert out + [x] <= fields;
    assert fields[..|out|] == out && fields[|out|] == x;
  }

  // The bytes of a field that is complete.
  lemma CutBytes(store: Data, input: Data, offset: nat, size: nat)
    requires |store| <= size && offset <= |input| && |store| + |input[offset..]| >= size
    ensures var next := offset + size - |store|;
      && input[offset..][..next - offset] == input[offset..next]
      && CutBySize(store, size, input[offset..]) == Cut([], Some(store + input[offset..next]), next - offset)
  {
    var next := offset + size - |store|;
    assert (store + input[offset..])[..size] == store + input[offset..next];
  }

  // One step of the loop with some elements left: its answer, whether it found
  // another record, where it goes on, what it stored and what it output.
  datatype Step = Step(r: int, more: bool, offset: nat, store: Data, out: seq<Field>)

  function Advance(dir: Direction, input: Data, f: nat, offset: nat, store: Data, room: nat): Step
    requires f < 3 && offset <= |input| && |store| < Width(f)
  {
    if |store| + |input[offset..]| < Width(f) then Step(IN_PROGRESS, false, offset, store + input[offset..], [])
    else
      var next := offset + Width(f) - |store|;
      var bytes := store + input[offset..next];
      if room == 0 then Step(ERROR, false, offset, Kept(store, bytes), [])
      else
        var more := f == 2 && next + Be16(bytes) < |input|;
        Step(FOUND, more, if more then next + Be16(bytes) else next, [], [Field(FieldId(dir, f), bytes)])
  }

  ghost predicate Answers(dir: Direction, start: Reader, input: Data, room: nat, a: Answer) {
    start.Valid() && start.skip == 0 && CallWithin(dir, start, input, room) == a
  }

  // On success the loop can go on, otherwise the answer is the call's.
  lemma WalkOn(dir: Direction, start: Reader, input: Data, f: nat, offset: nat, store: Data, out: seq<Field>, room: nat)
    requires Walking(dir, start, input, f, offset, store, out) && f < 3 && |store| < Width(f)
    ensures var s := Advance(dir, input, f, offset, store, room);
      && (s.r == FOUND ==> Walking(dir, start, input, NextField(f, s.more), s.offset, [], out + s.out))
      && (s.r == ERROR ==> Answers(dir, start, input, |out| + room, Answer(start.field, s.store, out, false)))
      && (s.r == IN_PROGRESS ==> Answers(dir, start, input, |out| + room, Answer(f, s.store, out, true)))
  {
    if |store| + |input[offset..]| < Width(f) {
      WalkStops(dir, start, input, f, offset, store, out);
    } else if room == 0 {
      WalkFails(dir, start, input, f, offset, store, out, offset + Width(f) - |store|);
    } else {
      WalkStep(dir, start, input, f, offset, store, out, offset + Width(f) - |store|);
    }
  }

  lemma WalkEnds(dir: Direction, start: Reader, input: Data, offset: nat, store: Data, out: seq<Field>, room: nat)
    requires Walking(dir, start, input, 3, offset, store, out)
    ensures store == [] && Answers(dir, start, input, |out| + room, Answer(0, [], out, true))
  {
  }

  // Cut field f, and behind a length look for another record.
  method CutField(dir: Direction, output: Output, pstate: ParserState, input: Data, f: nat, maxFields: nat, offset: nat)
    returns (r: int, maxFields': nat, offset': nat)
    requires f < 3 && maxFields < 0xFFFD && |pstate.store| < Width(f) && offset <= |input|
    modifies output, pstate`store
    ensures var s := Advance(dir, input, f, offset, old(pstate.store), old(output.room));
      && r == s.r && offset' == s.offset && maxFields' == (if s.more then maxFields + 3 else maxFields)
      && pstate.store == s.store && output.fields == old(output.fields) + s.out
      && output.room == old(output.room) - |s.out|
  {
    ghost var store := pstate.store;
    var consumed;
    r, consumed := AlpParseFieldBySize(output, pstate, FieldId(dir, f), Width(f), input[offset..]);
    maxFields', offset' := maxFields, offset + consumed;
    if r == IN_PROGRESS {
      return;
    }
    CutBytes(store, input, offset, Width(f));
    if r == FOUND && f == 2 {
      maxFields', offset' := MoreRecords(output.fields[|output.fields| - 1].data, input, maxFields, offset');
    }
  }

  // The record is done: look for another one behind its body.
  method MoreRecords(length: Data, input: Data, maxFields: nat, offset: nat) returns (maxFields': nat, offset': nat)
    requires |length| == 2 && maxFields < 0xFFFD
    ensures var more := offset + Be16(length) < |input|;
      && maxFields' == (if more then maxFields + 3 else maxFields)
      && offset' == if more then offset + Be16(length) else offset
  {
    var recordOffset := offset + Be16(length);
    if recordOffset < |input| {
      return AddUint16(maxFields, 3), recordOffset;
    }
    return maxFields, offset;
  }

  // A round of the loop goes on with the walk or ends with the call's answer.
  method WalkField(dir: Direction, output: Output, pstate: ParserState, input: Data, f: nat, maxFields: nat,
                   offset: nat, ghost start: Reader, ghost out: seq<Field>)
    returns (r: int, maxFields': nat, offset': nat, ghost more: bool, ghost x: seq<Field>)
    requires f < 3 && maxFields < 0xFFFD && |pstate.store| < Width(f)
    requires Walking(dir, start, input, f, offset, pstate.store, out)
    modifies output, pstate`store
    ensures output.fields == old(output.fields) + x && output.room == old(output.room) - |x|
    ensures r == FOUND || r == IN_PROGRESS || r == ERROR
    ensures r == FOUND ==>
      && |x| == 1 && maxFields' == (if f == 2 && more then maxFields + 3 else maxFields)
      && Walking(dir, start, input, NextField(f, more), offset', pstate.store, out + x)
    ensures r != FOUND ==>
      && x == [] && Answers(dir, start, input, |out| + output.room,
                            Answer(if r == ERROR then start.field else f, pstate.store, out, r == IN_PROGRESS))
  {
    ghost var s := Advance(dir, input, f, offset, pstate.store, output.room);
    more, x := s.more, s.out;
    WalkOn(dir, start, input, f, offset, pstate.store, out, output.room);
    r, maxFields', offset' := CutField(dir, output, pstate, input, f, maxFields, offset);
  }

  // The loop raises its own bound. Every field takes a result element, so the
  // counters stay small.
  method TLSParseRecord(dir: Direction, output: Output, pstate: ParserState, input: Data) returns (r: int)
    requires Reader(pstate.parseField, pstate.store, 0).Valid() && output.room <= POOL_SIZE
    modifies output, pstate`store, pstate`parseField
    ensures var a := CallWithin(dir, Reader(old(pstate.parseField), old(pstate.store), 0), input, old(output.room));
      && pstate.parseField == a.parseField && pstate.store == a.store
      && output.fields == old(output.fields) + a.fields && (r == ERROR <==> !a.ok)
  {
    var maxFields: nat := 3;
    var u: int := pstate.parseField;
    var offset: nat := 0;
    ghost var start := Reader(pstate.parseField, pstate.store, 0);
    ghost var before, room, out: seq<Field> := output.fields, output.room, [];
    assert input[..0] == [];

    ghost var f: nat := u;
    while u < maxFields
      invariant 0 <= u == start.field + |out| && |out| + output.room == room
      invariant f <= 3 && maxFields == u + 3 - f && maxFields % 3 == 0
      invariant pstate.parseField == start.field && output.fields == before + out
      invariant Walking(dir, start, input, f, offset, pstate.store, out)
      decreases output.room, maxFields - u
    {
      assert u % 3 == f;
      ghost var more, x := false, [];
      r, maxFields, offset, more, x := WalkField(dir, output, pstate, input, u % 3, maxFields, offset, start, out);
      if r != FOUND {
        if r == IN_PROGRESS {
          pstate.parseField := u % 3;
        }
        return;
      }
      ConcatAssociative(before, out, x);
      f, out := NextField(f, more), out + x;
      u := IncInt16(u);
    }
    WalkEnds(dir, start, input, offset, pstate.store, out, output.room);
    pstate.parseField := 0;
    return FOUND;
  }
}

// TLS flows: the table of TLS parsers among all registered parsers, and what
// whole runs of messages through it do (app-layer-tls.c, app-layer-parser.c).
module TlsFlow {
  import opened Bytes
  import opened FieldParser
  import opened FieldMap
  import opened FieldDispatch
  import opened AppLayer
  import opened ParserTables
  import TlsChunks
  import opened TlsRecords
  import opened TlsSession

  const ALPROTO_TLS := 5

  // Where the TLS parsers stand in the table.
  datatype Places = Places(clientRecord: nat, clientType: nat, clientVersion: nat,
                           serverRecord: nat, serverType: nat, serverVersion: nat)
  {
    function EntryPoints(): Entries {
      Entries(clientRecord, serverRecord)
    }

    predicate Within(n: nat) {
      && 1 <= clientRecord < n && 1 <= serverRecord < n
      && clientType < n && clientVersion < n && serverType < n && serverVersion < n
    }

    function Record(dir: Direction): nat {
      if dir == ToServer then clientRecord else serverRecord
    }

    function Fields(): map<nat, nat> {
      map[TLS_FIELD_CLIENT_CONTENT_TYPE := clientType, TLS_FIELD_CLIENT_VERSION := clientVersion,
          TLS_FIELD_SERVER_CONTENT_TYPE := serverType, TLS_FIELD_SERVER_VERSION := serverVersion]
    }

    function Ranks(): map<nat, nat> {
      map[clientRecord := 1, serverRecord := 1, clientType := 0, clientVersion := 0,
          serverType := 0, serverVersion := 0]
    }
  }

  // The record parser from any state; one that no call leaves behind is answered
  // by an error.
  function ParseRecord(dir: Direction, s: Tls, ps: PState, input: Data, room: nat): Outcome<Tls> {
    if Reader(ps.parseField, ps.store, 0).Valid() then
      var a := CallWithin(dir, Reader(ps.parseField, ps.store, 0), input, room);
      Outcome(a.fields, s, ps.(parseField := a.parseField, store := a.store), a.ok)
    else Outcome([], s, ps, false)
  }

  function RecordParser(dir: Direction): ParserFn<Tls> {
    (s, ps, input, room: nat) => ParseRecord(dir, s, ps, input, room)
  }

  function ClientTypeParser(noReassemble: bool): ParserFn<Tls> {
    (s, ps, input, room: nat) => ParseClientType(s, ps, input, noReassemble)
  }

  function ServerTypeParser(noReassemble: bool): ParserFn<Tls> {
    (s, ps, input, room: nat) => ParseServerType(s, ps, input, noReassemble)
  }

  function VersionParser(dir: Direction): ParserFn<Tls> {
    (s, ps, input, room: nat) => ParseVersion(s, ps, input, dir)
  }

  // The record method computes the table's record parser.
  method RunRecordParser(dir: Direction, output: Output, pstate: ParserState, input: Data,
                         ghost s: Tls) returns (r: int)
    requires Reader(pstate.parseField, pstate.store, 0).Valid() && output.fields == [] && output.room <= POOL_SIZE
    modifies output, pstate`store, pstate`parseField
    ensures Outcome(output.fields, s, pstate.Value(), r != ERROR)
      == ParseRecord(dir, s, old(pstate.Value()), input, old(output.room))
  {
    r := TLSParseRecord(dir, output, pstate, input);
  }

  // The TLS parsers are registered, among any others.
  ghost predicate TlsTable(t: Table<Tls>, regs: seq<Parser>, at: Places, noReassemble: bool) {
    && Registers(t, regs, ALPROTO_TLS, at.Fields())
    && at.Within(|regs|)
    && regs[at.clientRecord].localId == 0 && regs[at.serverRecord].localId == 0
    && t.parsers[at.clientRecord] == RecordParser(ToServer) && t.parsers[at.serverRecord] == RecordParser(ToClient)
    && t.parsers[at.clientType] == ClientTypeParser(noReassemble)
    && t.parsers[at.serverType] == ServerTypeParser(noReassemble)
    && t.parsers[at.clientVersion] == VersionParser(ToServer) && t.parsers[at.serverVersion] == VersionParser(ToClient)
  }

  lemma TlsRanks(t: Table<Tls>, regs: seq<Parser>, at: Places, noReassemble: bool)
    requires TlsTable(t, regs, at, noReassemble)
    ensures var rank := at.Ranks();
      && rank[at.clientRecord] == 1 && rank[at.serverRecord] == 1
      && rank[at.clientType] == rank[at.clientVersion] == rank[at.serverType] == rank[at.serverVersion] == 0
  {
    var fields := at.Fields();
    assert fields[1] == at.clientType && fields[2] == at.clientVersion
           && fields[3] == at.serverType && fields[4] == at.serverVersion;
    assert forall id <- fields :: regs[fields[id]].localId == id;
  }

  lemma RecordFits(t: Table<Tls>, regs: seq<Parser>, at: Places, noReassemble: bool, dir: Direction, fields: seq<Field>)
    requires TlsTable(t, regs, at, noReassemble) && Sized(dir, fields)
    ensures |t.local.fields| == t.local.mapSize && Below(t, at.Ranks(), 1, fields)
  {
    TlsRanks(t, regs, at, noReassemble);
    LookupRegistered(t, regs, ALPROTO_TLS, at.Fields(), 1);
    LookupRegistered(t, regs, ALPROTO_TLS, at.Fields(), 2);
    LookupRegistered(t, regs, ALPROTO_TLS, at.Fields(), 3);
    LookupRegistered(t, regs, ALPROTO_TLS, at.Fields(), 4);
    LookupRegistered(t, regs, ALPROTO_TLS, at.Fields(), 5);
  }

  lemma CallIsSized(dir: Direction, s: Reader, input: Data, room: nat)
    requires s.Valid() && s.skip == 0
    ensures Sized(dir, CallWithin(dir, s, input, room).fields)
  {
    ReadIsSized(dir, s, input);
  }

  // The recursion through the TLS parsers ends: records lead to content types
  // and versions, and these to nothing.
  lemma {:induction false} TlsTableIsRanked(t: Table<Tls>, regs: seq<Parser>, at: Places, noReassemble: bool)
    requires TlsTable(t, regs, at, noReassemble)
    ensures Usable(t, at.Ranks(), at.EntryPoints())
  {
    var rank := at.Ranks();
    TlsRanks(t, regs, at, noReassemble);
    RecordFits(t, regs, at, noReassemble, ToServer, []);
    forall i, a, ps, d, room: nat | i in rank
      ensures Fits(t, rank, i, room, t.parsers[i](a, ps, d, room).fields)
    {
      if i == at.clientRecord || i == at.serverRecord {
        var dir := if i == at.clientRecord then ToServer else ToClient;
        assert t.parsers[i] == RecordParser(dir);
        var fields := ParseRecord(dir, a, ps, d, room).fields;
        if Reader(ps.parseField, ps.store, 0).Valid() {
          CallIsSized(dir, Reader(ps.parseField, ps.store, 0), d, room);
        }
        RecordFits(t, regs, at, noReassemble, dir, fields);
      }
    }
  }

  // ---- one message ----

  function SessionOf(c: Conn<Tls>): Session {
    Session(c.app, c.toServer.marks, c.toClient.marks)
  }

  function Sided(dir: Direction, side: Side, other: Marks): Session {
    if dir == ToServer then Session(side.tls, side.marks, other) else Session(side.tls, other, side.marks)
  }

  lemma {:induction false} HandleFirst(s: Session, fields: seq<Field>, noReassemble: bool)
    requires fields != []
    ensures HandleAll(s, fields, noReassemble)
      == HandleAll(Handle(s, fields[0], noReassemble), fields[1..], noReassemble)
    decreases |fields|
  {
    if |fields| == 1 {
      assert HandleAll(s, fields[..0], noReassemble) == s;
    } else {
      HandleFirst(s, fields[..|fields| - 1], noReassemble);
      assert fields[1..][..|fields[1..]| - 1] == fields[..|fields| - 1][1..];
    }
  }

  // The parser a field leads to does what the session's handler does.
  lemma FieldIsHandled(t: Table<Tls>, regs: seq<Parser>, at: Places, noReassemble: bool, dir: Direction,
                       room: nat, s: Tls, ps: PState, other: Marks, x: Field)
    requires TlsTable(t, regs, at, noReassemble) && Usable(t, at.Ranks(), at.EntryPoints()) && Sized(dir, [x])
    ensures var p, before := Lookup(t.local, x.idx), Sided(dir, Side(s, ps.marks), other);
      match p
      case None => Handle(before, x, noReassemble) == before
      case Some(i) =>
        i in at.Ranks() &&
        var e := Run(t, at.Ranks(), room, s, ps, x.data, i);
        e.ok && e.ps == ps.(marks := e.ps.marks)
        && Sided(dir, Side(e.app, e.ps.marks), other) == Handle(before, x, noReassemble)
  {
    assert x in [x];
    TlsRanks(t, regs, at, noReassemble);
    LookupRegistered(t, regs, ALPROTO_TLS, at.Fields(), x.idx);
  }

  lemma {:induction false} FieldsAreHandled(t: Table<Tls>, regs: seq<Parser>, at: Places, noReassemble: bool,
                                            dir: Direction, room: nat, s: Tls, ps: PState, other: Marks,
                                            fields: seq<Field>)
    requires TlsTable(t, regs, at, noReassemble) && Usable(t, at.Ranks(), at.EntryPoints())
    requires Sized(dir, fields) && Below(t, at.Ranks(), 1, fields)
    ensures var e := Dispatch(t, at.Ranks(), room, s, ps, fields, 1);
      && e.ok && e.ps.parseField == ps.parseField && e.ps.store == ps.store
      && Sided(dir, Side(e.app, e.ps.marks), other)
         == HandleAll(Sided(dir, Side(s, ps.marks), other), fields, noReassemble)
    decreases |fields|
  {
    if fields != [] {
      assert fields[0] in fields;
      FieldIsHandled(t, regs, at, noReassemble, dir, room, s, ps.(parseField := 0, eof := true), other, fields[0]);
      HandleFirst(Sided(dir, Side(s, ps.marks), other), fields, noReassemble);
      match Lookup(t.local, fields[0].idx)
      case None => FieldsAreHandled(t, regs, at, noReassemble, dir, room, s, ps, other, fields[1..]);
      case Some(p) =>
        var inner := Run(t, at.Ranks(), room, s, ps.(parseField := 0, eof := true), fields[0].data, p);
        var back := inner.ps.(parseField := ps.parseField, eof := false);
        FieldsAreHandled(t, regs, at, noReassemble, dir, room, inner.app, back, other, fields[1..]);
    }
  }

  function ReaderOf(ps: PState): Reader {
    Reader(ps.parseField, ps.store, 0)
  }

  // What the byte-wise reader makes of a message.
  function Heard(c: Conn<Tls>, m: Msg): Progress
    requires ReaderOf(c.Own(m.dir)).Valid()
  {
    Call(m.dir, ReaderOf(c.Own(m.dir)), m.input)
  }

  predicate Refused(c: Conn<Tls>, m: Msg, room: nat)
    requires ReaderOf(c.Own(m.dir)).Valid()
  {
    m.gap || (!c.Own(m.dir).marks.done && |Heard(c, m).fields| > room)
  }

  // The parsers failed for want of elements, or handled what the byte-wise
  // reader reads.
  ghost predicate Handled(dir: Direction, s: Tls, ps: PState, other: Marks, p: Progress, room: nat, noReassemble: bool,
                          e: Ended<Tls>) {
    if |p.fields| > room then !e.ok && e.app == s && e.ps.marks == ps.marks
    else
      && e.ok && ReaderOf(e.ps) == p.reader
      && Sided(dir, Side(e.app, e.ps.marks), other)
         == HandleAll(Sided(dir, Side(s, ps.marks), other), p.fields, noReassemble)
  }

  // The record parser and the fields it output.
  lemma RecordsAreHandled(t: Table<Tls>, regs: seq<Parser>, at: Places, noReassemble: bool, dir: Direction,
                          room: nat, s: Tls, ps: PState, other: Marks, input: Data)
    requires TlsTable(t, regs, at, noReassemble) && Usable(t, at.Ranks(), at.EntryPoints()) && ReaderOf(ps).Valid()
    ensures at.Record(dir) in at.Ranks()
    ensures Handled(dir, s, ps, other, Call(dir, ReaderOf(ps), input), room, noReassemble,
                    Run(t, at.Ranks(), room, s, ps, input, at.Record(dir)))
  {
    RunOfRecord(t, regs, at, noReassemble, dir, room, s, ps, input);
    var o := ParseRecord(dir, s, ps, input, room);
    if o.ok {
      FieldsAreHandled(t, regs, at, noReassemble, dir, room - |o.fields|, s, o.ps, other, o.fields);
    }
  }

  lemma RunOfRecord(t: Table<Tls>, regs: seq<Parser>, at: Places, noReassemble: bool, dir: Direction,
                    room: nat, s: Tls, ps: PState, input: Data)
    requires TlsTable(t, regs, at, noReassemble) && Usable(t, at.Ranks(), at.EntryPoints()) && ReaderOf(ps).Valid()
    ensures at.Record(dir) in at.Ranks()
    ensures var o := ParseRecord(dir, s, ps, input, room);
      && Sized(dir, o.fields) && Below(t, at.Ranks(), 1, o.fields) && |o.fields| <= room
      && Run(t, at.Ranks(), room, s, ps, input, at.Record(dir))
        == if o.ok then Dispatch(t, at.Ranks(), room - |o.fields|, s, o.ps, o.fields, 1) else Ended(s, o.ps, false)
  {
    TlsRanks(t, regs, at, noReassemble);
    var o := ParseRecord(dir, s, ps, input, room);
    assert t.parsers[at.Record(dir)](s, ps, input, room) == o;
    CallIsSized(dir, ReaderOf(ps), input, room);
    RecordFits(t, regs, at, noReassemble, dir, o.fields);
  }

  // What parsing a message means for the session and the flow.
  ghost predicate Delivers(c: Conn<Tls>, m: Msg, room: nat, noReassemble: bool, p: Parsed<Tls>)
    requires ReaderOf(c.Own(m.dir)).Valid()
  {
    if Refused(c, m, room) then
      p.r == -1 && p.conn.closed && SessionOf(p.conn) == SessionOf(c) && p.conn.noPayload == c.noPayload
    else if c.Own(m.dir).marks.done then p == Parsed(c, 0)
    else
      && p.r == 0 && SessionOf(p.conn) == Deliver(SessionOf(c), m.dir, Heard(c, m).fields, noReassemble)
      && ReaderOf(p.conn.Own(m.dir)) == Heard(c, m).reader
      && p.conn.Own(Opposite(m.dir)) == c.Own(Opposite(m.dir))
      && p.conn.noPayload == (c.noPayload || p.conn.Own(m.dir).marks.noInspection)
      && p.conn.closed == (c.closed || p.conn.Own(m.dir).marks.noInspection)
  }

  function Opposite(dir: Direction): Direction {
    if dir == ToServer then ToClient else ToServer
  }

  function Other(c: Conn<Tls>, dir: Direction): Marks {
    c.Own(Opposite(dir)).marks
  }

  lemma {:induction false} FinishDelivers(c: Conn<Tls>, m: Msg, room: nat, noReassemble: bool, e: Ended<Tls>)
    requires ReaderOf(c.Own(m.dir)).Valid() && !m.gap && !c.Own(m.dir).marks.done
    requires Handled(m.dir, c.app, Opened(c, m), Other(c, m.dir), Heard(c, m), room, noReassemble, e)
    ensures Delivers(c, m, room, noReassemble, Finish(c, m.dir, e))
  {
    if !Refused(c, m, room) {
      FinishKeepsSession(c, m.dir, e);
      FinishSettles(c, m.dir, e);
    }
  }

  lemma FinishKeepsSession(c: Conn<Tls>, dir: Direction, e: Ended<Tls>)
    ensures SessionOf(Finish(c, dir, e).conn) == Sided(dir, Side(e.app, e.ps.marks), Other(c, dir))
  {
  }

  lemma FinishSettles(c: Conn<Tls>, dir: Direction, e: Ended<Tls>)
    requires e.ok
    ensures var d := Finish(c, dir, e).conn;
      && d.Own(dir) == e.ps && d.Own(Opposite(dir)) == c.Own(Opposite(dir))
      && d.noPayload == (c.noPayload || e.ps.marks.noInspection) && d.closed == (c.closed || e.ps.marks.noInspection)
  {
  }

  // A message without missing bytes is delivered to the session as the byte-wise
  // reader reads it, unless it holds the ends of more header fields than there
  // are result elements; then the flow is closed and the session is as before.
  lemma ParseDelivers(t: Table<Tls>, regs: seq<Parser>, at: Places, noReassemble: bool, room: nat, c: Conn<Tls>, m: Msg)
    requires TlsTable(t, regs, at, noReassemble) && Usable(t, at.Ranks(), at.EntryPoints())
    requires ReaderOf(c.Own(m.dir)).Valid()
    ensures Delivers(c, m, room, noReassemble, Parse(t, at.Ranks(), at.EntryPoints(), room, c, m))
  {
    if !m.gap && !c.Own(m.dir).marks.done {
      var ps := Opened(c, m);
      RecordsAreHandled(t, regs, at, noReassemble, m.dir, room, c.app, ps, Other(c, m.dir), m.input);
      var e := if m.input == [] then Ended(c.app, ps, true)
               else Run(t, at.Ranks(), room, c.app, ps, m.input, at.Record(m.dir));
      FinishDelivers(c, m, room, noReassemble, e);
    }
  }

  // ---- whole runs ----

  // The messages as the session got them, each with the fields read from it.
  ghost function Deliveries(t: Table<Tls>, at: Places, room: nat, c: Conn<Tls>, ms: seq<Msg>): seq<Delivery>
    requires Usable(t, at.Ranks(), at.EntryPoints())
    decreases |ms|
  {
    if ms == [] then []
    else
      var front, m := ms[..|ms| - 1], ms[|ms| - 1];
      var d := FeedAll(t, at.Ranks(), at.EntryPoints(), room, c, front);
      Deliveries(t, at, room, c, front)
      + if d.closed || !ReaderOf(d.Own(m.dir)).Valid() || Refused(d, m, room) then []
        else [Delivery(m.dir, Heard(d, m).fields)]
  }

  // Both directions can go on unless the flow is closed, and inspection of
  // payloads is off once a direction's marks say so.
  ghost predicate Sound(c: Conn<Tls>) {
    && (!c.closed ==> ReaderOf(c.toServer).Valid() && ReaderOf(c.toClient).Valid())
    && (c.noPayload <==> c.toServer.marks.noInspection || c.toClient.marks.noInspection)
    && (c.noPayload ==> c.closed)
  }

  // The history goes on with a message that is not refused.
  lemma DeliveryKeepsSound(c: Conn<Tls>, m: Msg, room: nat, noReassemble: bool, p: Parsed<Tls>, s: Seen,
                           ds: seq<Delivery>)
    requires Sound(c) && !c.closed && Delivers(c, m, room, noReassemble, p)
    requires SessionOf(c) == Interleave(s, ds, noReassemble).session
    ensures Sound(p.conn)
    ensures var more := if Refused(c, m, room) then [] else [Delivery(m.dir, Heard(c, m).fields)];
      SessionOf(p.conn) == Interleave(s, ds + more, noReassemble).session
  {
    if Refused(c, m, room) {
      assert ds + [] == ds;
    } else {
      var next := Delivery(m.dir, Heard(c, m).fields);
      assert (ds + [next])[..|ds + [next]| - 1] == ds;
    }
  }

  lemma {:induction false} RunDelivers(t: Table<Tls>, regs: seq<Parser>, at: Places, noReassemble: bool, room: nat,
                                       ms: seq<Msg>)
    requires TlsTable(t, regs, at, noReassemble) && Usable(t, at.Ranks(), at.EntryPoints())
    ensures var c := FeedAll(t, at.Ranks(), at.EntryPoints(), room, NewConn(NEW_TLS), ms);
      && Sound(c)
      && SessionOf(c)
         == Interleave(Seen(NEW_SESSION, []), Deliveries(t, at, room, NewConn(NEW_TLS), ms), noReassemble).session
    decreases |ms|
  {
    if ms != [] {
      var front, m := ms[..|ms| - 1], ms[|ms| - 1];
      RunDelivers(t, regs, at, noReassemble, room, front);
      var d := FeedAll(t, at.Ranks(), at.EntryPoints(), room, NewConn(NEW_TLS), front);
      var ds := Deliveries(t, at, room, NewConn(NEW_TLS), front);
      if d.closed {
        assert ds + [] == ds;
      } else {
        ParseDelivers(t, regs, at, noReassemble, room, d, m);
        DeliveryKeepsSound(d, m, room, noReassemble, Parse(t, at.Ranks(), at.EntryPoints(), room, d, m),
                           Seen(NEW_SESSION, []), ds);
      }
    }
  }

  // In every run of messages in both directions, with gaps, ends of streams and
  // exhausted pools, the marks say exactly what the history of the content types
  // read from the delivered messages says, and payload inspection is off exactly
  // when a direction ended it.
  lemma {:induction false} EveryRunIsExplained(t: Table<Tls>, regs: seq<Parser>, at: Places, noReassemble: bool,
                                               room: nat, ms: seq<Msg>)
    requires TlsTable(t, regs, at, noReassemble)
    ensures Usable(t, at.Ranks(), at.EntryPoints())
    ensures var c := FeedAll(t, at.Ranks(), at.EntryPoints(), room, NewConn(NEW_TLS), ms);
      var seen := Interleave(Seen(NEW_SESSION, []), Deliveries(t, at, room, NewConn(NEW_TLS), ms), noReassemble);
      && SessionOf(c) == seen.session && Explained(seen, noReassemble)
      && (c.noPayload <==> ClientEnded(seen.history) || ServerEnded(seen.history)) && (c.noPayload ==> c.closed)
  {
    TlsTableIsRanked(t, regs, at, noReassemble);
    RunDelivers(t, regs, at, noReassemble, room, ms);
    EveryInterleavingIsExplained(Deliveries(t, at, room, NewConn(NEW_TLS), ms), noReassemble);
  }

  // ---- one direction alone ----

  function Messages(dir: Direction, chunks: seq<Data>): (ms: seq<Msg>)
    ensures |ms| == |chunks|
    decreases |chunks|
  {
    if chunks == [] then [] else Messages(dir, chunks[..|chunks| - 1]) + [Msg(dir, false, false, chunks[|chunks| - 1])]
  }

  lemma {:induction false} HandleMore(s: Session, a: seq<Field>, b: seq<Field>, noReassemble: bool)
    ensures HandleAll(s, a + b, noReassemble) == HandleAll(HandleAll(s, a, noReassemble), b, noReassemble)
    decreases |b|
  {
    if b == [] {
      assert a + b == a;
    } else {
      HandleMore(s, a, b[..|b| - 1], noReassemble);
      assert (a + b)[..|a + b| - 1] == a + b[..|b| - 1];
    }
  }

  // The flow is where the calls on its chunks leave it.
  ghost predicate Follows(c: Conn<Tls>, dir: Direction, a: Answer, noReassemble: bool) {
    && c.closed == !a.ok && (a.ok ==> ReaderOf(c.Own(dir)) == Reader(a.parseField, a.store, 0))
    && SessionOf(c) == HandleAll(NEW_SESSION, a.fields, noReassemble)
  }

  lemma OneMoreFollows(c: Conn<Tls>, m: Msg, room: nat, noReassemble: bool, p: Parsed<Tls>, a: Answer)
    requires Sound(c) && !c.closed && Follows(c, m.dir, a, noReassemble) && !m.gap
    requires ReaderOf(c.Own(m.dir)).Valid() && Delivers(c, m, room, noReassemble, p) && !p.conn.Own(m.dir).marks.done
    requires p.conn.Own(m.dir).marks.noInspection ==> p.conn.Own(m.dir).marks.done
    ensures var b := CallWithin(m.dir, Reader(a.parseField, a.store, 0), m.input, room);
      Follows(p.conn, m.dir, Answer(b.parseField, b.store, if b.ok then a.fields + b.fields else a.fields, b.ok),
              noReassemble)
  {
    HandleMore(NEW_SESSION, a.fields, Heard(c, m).fields, noReassemble);
  }

  lemma DoneStays(c: Conn<Tls>, m: Msg, room: nat, noReassemble: bool, p: Parsed<Tls>)
    requires ReaderOf(c.Own(m.dir)).Valid() && Delivers(c, m, room, noReassemble, p) && c.Own(m.dir).marks.done
    ensures p.conn.Own(m.dir).marks.done
  {
    assert MarksOf(SessionOf(c), m.dir) == c.Own(m.dir).marks
           && MarksOf(SessionOf(p.conn), m.dir) == p.conn.Own(m.dir).marks;
  }

  // The chunks of one direction alone, as long as it is not done, go through the
  // flow as the calls on them say.
  lemma {:induction false} FlowFollowsRun(t: Table<Tls>, regs: seq<Parser>, at: Places, noReassemble: bool, room: nat,
                                          dir: Direction, chunks: seq<Data>)
    requires TlsTable(t, regs, at, noReassemble) && Usable(t, at.Ranks(), at.EntryPoints())
    requires var c := FeedAll(t, at.Ranks(), at.EntryPoints(), room, NewConn(NEW_TLS), Messages(dir, chunks));
      !c.Own(dir).marks.done
    ensures Follows(FeedAll(t, at.Ranks(), at.EntryPoints(), room, NewConn(NEW_TLS), Messages(dir, chunks)), dir,
                    TlsChunks.Run(dir, room, FRESH, chunks), noReassemble)
    decreases |chunks|
  {
    if chunks != [] {
      var front, last := chunks[..|chunks| - 1], chunks[|chunks| - 1];
      var ms, m := Messages(dir, front), Msg(dir, false, false, last);
      assert Messages(dir, chunks) == ms + [m] && (ms + [m])[..|ms + [m]| - 1] == ms && front + [last] == chunks;
      TlsChunks.RunOneMore(dir, room, FRESH, front, last);
      RunDelivers(t, regs, at, noReassemble, room, ms);
      EveryRunIsExplained(t, regs, at, noReassemble, room, ms + [m]);
      var c := FeedAll(t, at.Ranks(), at.EntryPoints(), room, NewConn(NEW_TLS), ms);
      if c.closed {
        FlowFollowsRun(t, regs, at, noReassemble, room, dir, front);
      } else {
        var p := Parse(t, at.Ranks(), at.EntryPoints(), room, c, m);
        ParseDelivers(t, regs, at, noReassemble, room, c, m);
        if c.Own(dir).marks.done {
          DoneStays(c, m, room, noReassemble, p);
        }
        FlowFollowsRun(t, regs, at, noReassemble, room, dir, front);
        OneMoreFollows(c, m, room, noReassemble, p, TlsChunks.Run(dir, room, FRESH, front));
      }
    }
  }
}

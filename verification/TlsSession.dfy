// The TLS session state driven by both directions of a flow (app-layer-tls.c):
// when the parsers declare the rest of the session not worth inspecting.
module TlsSession {
  import opened Bytes
  import opened FieldParser
  import opened FieldDispatch
  import opened TlsRecords

  const CHANGE_CIPHER_SPEC: byte := 0x14
  const ALERT_PROTOCOL: byte := 0x15
  const HANDSHAKE_PROTOCOL: byte := 0x16
  const APPLICATION_PROTOCOL: byte := 0x17

  predicate KnownType(b: byte) {
    b == CHANGE_CIPHER_SPEC || b == ALERT_PROTOCOL || b == HANDSHAKE_PROTOCOL || b == APPLICATION_PROTOCOL
  }

  predicate KnownVersion(v: nat) {
    0x0300 <= v <= 0x0303
  }

  // ---- the session as a value ----

  datatype Tls = Tls(clientType: byte, clientVersion: nat, serverType: byte, serverVersion: nat, clientCcs: bool,
                     serverCcs: bool)

  const NEW_TLS := Tls(0, 0, 0, 0, false, false)

  // What the handlers of one direction work on.
  datatype Side = Side(tls: Tls, marks: Marks)

  datatype Session = Session(tls: Tls, toServer: Marks, toClient: Marks)

  const NEW_SESSION := Session(NEW_TLS, UNMARKED, UNMARKED)

  function EndInspection(m: Marks, noReassemble: bool): Marks {
    Marks(true, true, m.noReassembly || noReassemble)
  }

  // The client handler looks at the flags before it sets its own.
  function ClientType(s: Side, b: byte, noReassemble: bool): Side {
    if !KnownType(b) then s
    else
      var t := s.tls.(clientType := b);
      var m :=
        if b == APPLICATION_PROTOCOL && t.clientCcs && t.serverCcs then EndInspection(s.marks, noReassemble)
        else s.marks;
      Side(if b == CHANGE_CIPHER_SPEC then t.(clientCcs := true) else t, m)
  }

  // The server handler sets its flag first, and tests the client's last type.
  function ServerType(s: Side, b: byte, noReassemble: bool): Side {
    if !KnownType(b) then s
    else
      var t := s.tls.(serverType := b, serverCcs := s.tls.serverCcs || b == CHANGE_CIPHER_SPEC);
      var m := if b == CHANGE_CIPHER_SPEC then s.marks.(done := true) else s.marks;
      Side(t,
           if t.clientType == APPLICATION_PROTOCOL && t.clientCcs && t.serverCcs then EndInspection(m, noReassemble)
           else m)
  }

  function Version(t: Tls, dir: Direction, v: nat): Tls {
    if !KnownVersion(v) then t else if dir == ToServer then t.(clientVersion := v) else t.(serverVersion := v)
  }

  function WithClient(s: Session, b: byte, noReassemble: bool): Session {
    var side := ClientType(Side(s.tls, s.toServer), b, noReassemble);
    s.(tls := side.tls, toServer := side.marks)
  }

  function WithServer(s: Session, b: byte, noReassemble: bool): Session {
    var side := ServerType(Side(s.tls, s.toClient), b, noReassemble);
    s.(tls := side.tls, toClient := side.marks)
  }

  // One emitted field and the parser registered for it.
  function Handle(s: Session, x: Field, noReassemble: bool): Session {
    if x.idx == TLS_FIELD_CLIENT_CONTENT_TYPE && |x.data| == 1 then WithClient(s, x.data[0], noReassemble)
    else if x.idx == TLS_FIELD_SERVER_CONTENT_TYPE && |x.data| == 1 then WithServer(s, x.data[0], noReassemble)
    else if x.idx == TLS_FIELD_CLIENT_VERSION && |x.data| == 2 then s.(tls := Version(s.tls, ToServer, Be16(x.data)))
    else if x.idx == TLS_FIELD_SERVER_VERSION && |x.data| == 2 then s.(tls := Version(s.tls, ToClient, Be16(x.data)))
    else s
  }

  function HandleAll(s: Session, fields: seq<Field>, noReassemble: bool): Session
    decreases |fields|
  {
    if fields == [] then s
    else Handle(HandleAll(s, fields[..|fields| - 1], noReassemble), fields[|fields| - 1], noReassemble)
  }

  function MarksOf(s: Session, dir: Direction): Marks {
    if dir == ToServer then s.toServer else s.toClient
  }

  // One chunk handed to the parser of its direction; a direction that is done
  // ignores it.
  function Deliver(s: Session, dir: Direction, fields: seq<Field>, noReassemble: bool): Session {
    if MarksOf(s, dir).done then s else HandleAll(s, fields, noReassemble)
  }

  // ---- the parsers of single fields ----

  // What a parser answers: the state and marks it leaves, or an error.
  function Reply(s: Side, ps: PState, after: Option<Side>): Outcome<Tls> {
    match after
    case None => Outcome([], s.tls, ps, false)
    case Some(n) => Outcome([], n.tls, ps.(marks := n.marks), true)
  }

  function ParseClientType(s: Tls, ps: PState, input: Data, noReassemble: bool): Outcome<Tls> {
    var side := Side(s, ps.marks);
    Reply(side, ps, if |input| == 1 then Some(ClientType(side, input[0], noReassemble)) else None)
  }

  function ParseServerType(s: Tls, ps: PState, input: Data, noReassemble: bool): Outcome<Tls> {
    var side := Side(s, ps.marks);
    Reply(side, ps, if |input| == 1 then Some(ServerType(side, input[0], noReassemble)) else None)
  }

  function ParseVersion(s: Tls, ps: PState, input: Data, dir: Direction): Outcome<Tls> {
    Reply(Side(s, ps.marks), ps, if |input| == 2 then Some(Side(Version(s, dir, Be16(input)), ps.marks)) else None)
  }

  // The protocol's state, shared by both directions.
  class TlsState {
    var clientType: byte
    var clientVersion: nat
    var serverType: byte
    var serverVersion: nat
    var clientCcs: bool
    var serverCcs: bool

    ghost function Value(): Tls
      reads this
    {
      Tls(clientType, clientVersion, serverType, serverVersion, clientCcs, serverCcs)
    }

    constructor ()
      ensures Value() == NEW_TLS
    {
      clientType, clientVersion, serverType, serverVersion := 0, 0, 0, 0;
      clientCcs, serverCcs := false, false;
    }

    method TLSParseClientContentType(pstate: ParserState, input: Data, noReassemble: bool) returns (r: int)
      modifies this, pstate`done, pstate`noInspection, pstate`noReassembly
      ensures r == 0 || r == ERROR
      ensures Outcome([], Value(), pstate.Value(), r == 0)
        == ParseClientType(old(Value()), old(pstate.Value()), input, noReassemble)
    {
      if |input| != 1 {
        return ERROR;
      }
      if !KnownType(input[0]) {
        return 0;
      }
      clientType := input[0];
      if clientType == APPLICATION_PROTOCOL && clientCcs && serverCcs {
        pstate.done := true;
        pstate.noInspection := true;
        if noReassemble {
          pstate.noReassembly := true;
        }
      }
      if clientType == CHANGE_CIPHER_SPEC {
        clientCcs := true;
      }
      return 0;
    }

    method TLSParseServerContentType(pstate: ParserState, input: Data, noReassemble: bool) returns (r: int)
      modifies this, pstate`done, pstate`noInspection, pstate`noReassembly
      ensures r == 0 || r == ERROR
      ensures Outcome([], Value(), pstate.Value(), r == 0)
        == ParseServerType(old(Value()), old(pstate.Value()), input, noReassemble)
    {
      if |input| != 1 {
        return ERROR;
      }
      if !KnownType(input[0]) {
        return 0;
      }
      serverType := input[0];
      if serverType == CHANGE_CIPHER_SPEC {
        pstate.done := true;
        serverCcs := true;
      }
      if clientType == APPLICATION_PROTOCOL && clientCcs && serverCcs {
        pstate.done := true;
        pstate.noInspection := true;
        if noReassemble {
          pstate.noReassembly := true;
        }
      }
      return 0;
    }

    method TLSParseVersion(dir: Direction, pstate: ParserState, input: Data) returns (r: int)
      modifies this
      ensures r == 0 || r == ERROR
      ensures Outcome([], Value(), pstate.Value(), r == 0)
        == ParseVersion(old(Value()), old(pstate.Value()), input, dir)
    {
      if |input| != 2 {
        return ERROR;
      }
      var v := Be16(input);
      if KnownVersion(v) {
        if dir == ToServer {
          clientVersion := v;
        } else {
          serverVersion := v;
        }
      }
      return 0;
    }
  }

  // ---- every interleaving of the two directions ----

  // The accepted content types in the order the session saw them.
  datatype Event = Event(dir: Direction, ctype: byte)

  datatype Delivery = Delivery(dir: Direction, fields: seq<Field>)

  function TypeEvents(x: Field): seq<Event> {
    if |x.data| == 1 && KnownType(x.data[0]) then
      if x.idx == TLS_FIELD_CLIENT_CONTENT_TYPE then [Event(ToServer, x.data[0])]
      else if x.idx == TLS_FIELD_SERVER_CONTENT_TYPE then [Event(ToClient, x.data[0])]
      else []
    else []
  }

  function FieldEvents(fields: seq<Field>): seq<Event>
    decreases |fields|
  {
    if fields == [] then [] else FieldEvents(fields[..|fields| - 1]) + TypeEvents(fields[|fields| - 1])
  }

  datatype Seen = Seen(session: Session, history: seq<Event>)

  function Next(s: Seen, d: Delivery, noReassemble: bool): Seen {
    if MarksOf(s.session, d.dir).done then s
    else Seen(Deliver(s.session, d.dir, d.fields, noReassemble), s.history + FieldEvents(d.fields))
  }

  function Interleave(s: Seen, ds: seq<Delivery>, noReassemble: bool): Seen
    decreases |ds|
  {
    if ds == [] then s else Next(Interleave(s, ds[..|ds| - 1], noReassemble), ds[|ds| - 1], noReassemble)
  }

  function LastClient(h: seq<Event>): byte
    decreases |h|
  {
    if h == [] then 0
    else if h[|h| - 1].dir == ToServer then h[|h| - 1].ctype
    else LastClient(h[..|h| - 1])
  }

  ghost predicate BothChanged(h: seq<Event>) {
    Event(ToServer, CHANGE_CIPHER_SPEC) in h && Event(ToClient, CHANGE_CIPHER_SPEC) in h
  }

  // The client ended inspection: at some point it sent application data with
  // both change-cipher-specs behind it.
  predicate ClientEnded(h: seq<Event>)
    decreases |h|
  {
    h != [] && (ClientEnded(h[..|h| - 1]) || ClientEnds(h[..|h| - 1], h[|h| - 1]))
  }

  predicate ClientEnds(before: seq<Event>, e: Event) {
    && e == Event(ToServer, APPLICATION_PROTOCOL)
    && Event(ToServer, CHANGE_CIPHER_SPEC) in before && Event(ToClient, CHANGE_CIPHER_SPEC) in before
  }

  // The server ended inspection: at some point it sent a record while the
  // client's latest one was application data, with both change-cipher-specs
  // seen, its own possibly being that very record.
  predicate ServerEnded(h: seq<Event>)
    decreases |h|
  {
    h != [] && (ServerEnded(h[..|h| - 1]) || ServerEnds(h[..|h| - 1], h[|h| - 1]))
  }

  predicate ServerEnds(before: seq<Event>, e: Event) {
    && e.dir == ToClient && LastClient(before) == APPLICATION_PROTOCOL
    && Event(ToServer, CHANGE_CIPHER_SPEC) in before
    && (e.ctype == CHANGE_CIPHER_SPEC || Event(ToClient, CHANGE_CIPHER_SPEC) in before)
  }

  ghost predicate ClientEndsAt(h: seq<Event>, i: nat) {
    i < |h| && ClientEnds(h[..i], h[i])
  }

  ghost predicate ServerEndsAt(h: seq<Event>, i: nat) {
    i < |h| && ServerEnds(h[..i], h[i])
  }

  lemma {:induction false} ClientEndedAtSomePoint(h: seq<Event>)
    ensures ClientEnded(h) <==> exists i: nat :: ClientEndsAt(h, i)
    decreases |h|
  {
    if h != [] {
      var n := |h| - 1;
      ClientEndedAtSomePoint(h[..n]);
      forall i: nat | i < n ensures ClientEndsAt(h[..n], i) <==> ClientEndsAt(h, i) {
        assert h[..n][..i] == h[..i];
      }
      assert ClientEnds(h[..n], h[n]) <==> ClientEndsAt(h, n);
    }
  }

  lemma {:induction false} ServerEndedAtSomePoint(h: seq<Event>)
    ensures ServerEnded(h) <==> exists i: nat :: ServerEndsAt(h, i)
    decreases |h|
  {
    if h != [] {
      var n := |h| - 1;
      ServerEndedAtSomePoint(h[..n]);
      forall i: nat | i < n ensures ServerEndsAt(h[..n], i) <==> ServerEndsAt(h, i) {
        assert h[..n][..i] == h[..i];
      }
      assert ServerEnds(h[..n], h[n]) <==> ServerEndsAt(h, n);
    }
  }

  // What the session's marks mean in terms of the history.
  ghost predicate Explained(s: Seen, noReassemble: bool) {
    var (v, h) := (s.session, s.history);
    && v.tls.clientType == LastClient(h)
    && (v.tls.clientCcs <==> Event(ToServer, CHANGE_CIPHER_SPEC) in h)
    && (v.tls.serverCcs <==> Event(ToClient, CHANGE_CIPHER_SPEC) in h)
    && (v.toServer.noInspection <==> ClientEnded(h))
    && (v.toClient.noInspection <==> ServerEnded(h))
    && (v.toServer.done <==> v.toServer.noInspection)
    && (v.toClient.done <==> v.tls.serverCcs)
    && (v.toServer.noReassembly <==> v.toServer.noInspection && noReassemble)
    && (v.toClient.noReassembly <==> v.toClient.noInspection && noReassemble)
    && (ClientEnded(h) || ServerEnded(h) ==> BothChanged(h) && Event(ToServer, APPLICATION_PROTOCOL) in h)
    && (LastClient(h) != 0 ==> Event(ToServer, LastClient(h)) in h)
  }

  lemma Snoc(h: seq<Event>, e: Event)
    ensures LastClient(h + [e]) == if e.dir == ToServer then e.ctype else LastClient(h)
    ensures ClientEnded(h + [e]) == (ClientEnded(h) || ClientEnds(h, e))
    ensures ServerEnded(h + [e]) == (ServerEnded(h) || ServerEnds(h, e))
  {
    assert (h + [e])[..|h + [e]| - 1] == h;
  }

  lemma ClientTypeKeepsExplained(s: Seen, b: byte, noReassemble: bool)
    requires Explained(s, noReassemble) && KnownType(b)
    ensures Explained(Seen(WithClient(s.session, b, noReassemble), s.history + [Event(ToServer, b)]), noReassemble)
  {
    Snoc(s.history, Event(ToServer, b));
  }

  lemma ServerTypeKeepsExplained(s: Seen, b: byte, noReassemble: bool)
    requires Explained(s, noReassemble) && KnownType(b)
    ensures Explained(Seen(WithServer(s.session, b, noReassemble), s.history + [Event(ToClient, b)]), noReassemble)
  {
    Snoc(s.history, Event(ToClient, b));
  }

  lemma EventKeepsExplained(s: Seen, x: Field, noReassemble: bool)
    requires Explained(s, noReassemble)
    ensures Explained(Seen(Handle(s.session, x, noReassemble), s.history + TypeEvents(x)), noReassemble)
  {
    if TypeEvents(x) == [] {
      assert s.history + TypeEvents(x) == s.history;
    } else if x.idx == TLS_FIELD_CLIENT_CONTENT_TYPE {
      ClientTypeKeepsExplained(s, x.data[0], noReassemble);
    } else {
      ServerTypeKeepsExplained(s, x.data[0], noReassemble);
    }
  }

  lemma {:induction false} FieldsKeepExplained(s: Seen, fields: seq<Field>, noReassemble: bool)
    requires Explained(s, noReassemble)
    ensures Explained(Seen(HandleAll(s.session, fields, noReassemble), s.history + FieldEvents(fields)), noReassemble)
    decreases |fields|
  {
    if fields == [] {
      assert s.history + [] == s.history;
    } else {
      var front, x := fields[..|fields| - 1], fields[|fields| - 1];
      FieldsKeepExplained(s, front, noReassemble);
      EventKeepsExplained(Seen(HandleAll(s.session, front, noReassemble), s.history + FieldEvents(front)),
                          x, noReassemble);
      assert s.history + FieldEvents(front) + TypeEvents(x) == s.history + FieldEvents(fields);
    }
  }

  // In every interleaving, the marks say exactly what the history says.
  lemma {:induction false} EveryInterleavingIsExplained(ds: seq<Delivery>, noReassemble: bool)
    ensures Explained(Interleave(Seen(NEW_SESSION, []), ds, noReassemble), noReassemble)
    decreases |ds|
  {
    if ds != [] {
      var t := Interleave(Seen(NEW_SESSION, []), ds[..|ds| - 1], noReassemble);
      EveryInterleavingIsExplained(ds[..|ds| - 1], noReassemble);
      FieldsKeepExplained(t, ds[|ds| - 1].fields, noReassemble);
    }
  }

  // No inspection, in either direction, needs both change-cipher-specs and a
  // client application-data record.
  lemma NoInspectionNeedsEncryption(ds: seq<Delivery>, noReassemble: bool)
    ensures var t := Interleave(Seen(NEW_SESSION, []), ds, noReassemble);
      t.session.toServer.noInspection || t.session.toClient.noInspection ==>
        && t.session.tls.clientCcs && t.session.tls.serverCcs
        && Event(ToServer, APPLICATION_PROTOCOL) in t.history
  {
    EveryInterleavingIsExplained(ds, noReassemble);
  }

  ghost predicate FlagsGrow(s: Session, t: Session) {
    && (s.tls.clientCcs ==> t.tls.clientCcs) && (s.tls.serverCcs ==> t.tls.serverCcs)
    && MarksGrow(s.toServer, t.toServer) && MarksGrow(s.toClient, t.toClient)
  }

  ghost predicate MarksGrow(m: Marks, n: Marks) {
    (m.done ==> n.done) && (m.noInspection ==> n.noInspection) && (m.noReassembly ==> n.noReassembly)
  }

  lemma {:induction false} HandleAllGrows(s: Session, fields: seq<Field>, noReassemble: bool)
    ensures FlagsGrow(s, HandleAll(s, fields, noReassemble))
    decreases |fields|
  {
    if fields != [] {
      HandleAllGrows(s, fields[..|fields| - 1], noReassemble);
    }
  }

  lemma NextGrows(s: Seen, d: Delivery, noReassemble: bool)
    ensures FlagsGrow(s.session, Next(s, d, noReassemble).session)
  {
    HandleAllGrows(s.session, d.fields, noReassemble);
  }

  // No later delivery clears a flag.
  lemma {:induction false} FlagsNeverClear(s: Seen, more: seq<Delivery>, noReassemble: bool)
    ensures FlagsGrow(s.session, Interleave(s, more, noReassemble).session)
    decreases |more|
  {
    if more != [] {
      var front := more[..|more| - 1];
      FlagsNeverClear(s, front, noReassemble);
      NextGrows(Interleave(s, front, noReassemble), more[|more| - 1], noReassemble);
    }
  }

  // Once the server has changed cipher, no server chunk changes anything, now
  // or after any further deliveries.
  lemma ServerSilentAfterChange(ds: seq<Delivery>, more: seq<Delivery>, fields: seq<Field>, noReassemble: bool)
    ensures var s := Interleave(Seen(NEW_SESSION, []), ds, noReassemble);
      var t := Interleave(s, more, noReassemble);
      s.session.tls.serverCcs ==> Deliver(t.session, ToClient, fields, noReassemble) == t.session
  {
    var s := Interleave(Seen(NEW_SESSION, []), ds, noReassemble);
    EveryInterleavingIsExplained(ds, noReassemble);
    FlagsNeverClear(s, more, noReassemble);
  }
}

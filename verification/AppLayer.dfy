// The entry point of the application layer, for any protocol: one message of a
// flow handed to the parsers of its direction (app-layer-parser.c, app-layer.c).
module AppLayer {
  import opened Bytes
  import opened FieldParser
  import opened ResultPool
  import opened FieldDispatch

  // A flow: the protocol's state, a parser state per direction, and the flow's
  // flags. A closed flow is not inspected any more.
  datatype Conn<A> = Conn(app: A, toServer: PState, toClient: PState,
                          closed: bool, noPayload: bool, noReassembly: bool, eofSeen: bool)
  {
    function Own(dir: Direction): PState {
      if dir == ToServer then toServer else toClient
    }

    function With(dir: Direction, app: A, ps: PState): Conn<A> {
      if dir == ToServer then this.(app := app, toServer := ps) else this.(app := app, toClient := ps)
    }

    // The parser state's flags carried over to the flow.
    function Settle(dir: Direction): Conn<A> {
      var ps := Own(dir);
      var c := if ps.marks.noInspection
               then this.(noPayload := true, closed := true, noReassembly := noReassembly || ps.marks.noReassembly)
               else this;
      c.(eofSeen := eofSeen || ps.eof)
    }
  }

  function NewConn<A>(app: A): Conn<A> {
    Conn(app, NEW_PSTATE, NEW_PSTATE, false, false, false, false)
  }

  // A piece of a direction's stream: whether bytes are missing before it,
  // whether the stream ends with it, and its bytes.
  datatype Msg = Msg(dir: Direction, gap: bool, eof: bool, input: Data)

  // The parsers the two directions start with; 0 is none.
  datatype Entries = Entries(toServer: nat, toClient: nat)
  {
    function Of(dir: Direction): nat {
      if dir == ToServer then toServer else toClient
    }
  }

  ghost predicate Usable<A(!new)>(t: Table<A>, rank: map<nat, nat>, entries: Entries) {
    && Ranked(t, rank)
    && (entries.toServer != 0 ==> entries.toServer in rank) && (entries.toClient != 0 ==> entries.toClient in rank)
  }

  datatype Parsed<A> = Parsed(conn: Conn<A>, r: int)

  // The parser state a message is parsed with.
  function Opened<A>(c: Conn<A>, m: Msg): PState {
    c.Own(m.dir).(eof := c.Own(m.dir).eof || m.eof)
  }

  // What the end of the parsers means for the flow.
  function Finish<A>(c: Conn<A>, dir: Direction, e: Ended<A>): Parsed<A> {
    var d := c.With(dir, e.app, e.ps);
    if e.ok then Parsed(d.Settle(dir), 0) else Parsed(d.(closed := true), -1)
  }

  ghost function Parse<A(!new)>(t: Table<A>, rank: map<nat, nat>, entries: Entries, room: nat, c: Conn<A>,
                                m: Msg): Parsed<A>
    requires Usable(t, rank, entries)
  {
    var idx := entries.Of(m.dir);
    if m.gap then Parsed(c.(closed := true), -1)
    else if idx == 0 || c.Own(m.dir).marks.done then Parsed(c, 0)
    else
      Finish(c, m.dir,
             if m.input == [] then Ended(c.app, Opened(c, m), true)
             else Run(t, rank, room, c.app, Opened(c, m), m.input, idx))
  }

  // Every message of a flow; a closed flow gets none.
  ghost function Feed<A(!new)>(t: Table<A>, rank: map<nat, nat>, entries: Entries, room: nat, c: Conn<A>,
                               m: Msg): Conn<A>
    requires Usable(t, rank, entries)
  {
    if c.closed then c else Parse(t, rank, entries, room, c, m).conn
  }

  ghost function FeedAll<A(!new)>(t: Table<A>, rank: map<nat, nat>, entries: Entries, room: nat, c: Conn<A>,
                                  ms: seq<Msg>): Conn<A>
    requires Usable(t, rank, entries)
    decreases |ms|
  {
    if ms == [] then c
    else Feed(t, rank, entries, room, FeedAll(t, rank, entries, room, c, ms[..|ms| - 1]), ms[|ms| - 1])
  }

  class Flow<!A(!new)> {
    const entries: Entries
    var app: A
    var toServer: PState
    var toClient: PState
    var closed: bool
    var noPayload: bool
    var noReassembly: bool
    var eofSeen: bool

    ghost function Value(): Conn<A>
      reads this
    {
      Conn(app, toServer, toClient, closed, noPayload, noReassembly, eofSeen)
    }

    constructor (entries: Entries, app: A)
      ensures this.entries == entries && Value() == NewConn(app)
    {
      this.entries, this.app := entries, app;
      toServer, toClient := NEW_PSTATE, NEW_PSTATE;
      closed, noPayload, noReassembly, eofSeen := false, false, false, false;
    }

    // Whatever the parsers do, every result element goes back to the pool.
    method AppLayerParse(pool: Pool, t: Table<A>, ghost rank: map<nat, nat>, m: Msg) returns (r: int)
      requires pool.Valid() && Usable(t, rank, entries)
      modifies pool, pool.free, this
      ensures pool.Valid() && pool.out == old(pool.out) && fresh(pool.free - old(pool.free))
      ensures Parsed(Value(), r) == Parse(t, rank, entries, old(pool.Room()) as nat, old(Value()), m)
    {
      if m.gap {
        closed := true;
        return -1;
      }
      var idx := entries.Of(m.dir);
      var ps := if m.dir == ToServer then toServer else toClient;
      if idx == 0 || ps.marks.done {
        return 0;
      }
      if m.eof {
        ps := ps.(eof := true);
      }
      SetOwn(m.dir, ps);
      var ok := true;
      if |m.input| > 0 {
        ok := Invoke(pool, t, rank, m.dir, m.input, idx);
      }
      if !ok {
        closed := true;
        return -1;
      }
      Settle(m.dir);
      return 0;
    }

    method SetOwn(dir: Direction, ps: PState)
      modifies this`toServer, this`toClient
      ensures Value() == old(Value()).With(dir, app, ps)
    {
      if dir == ToServer {
        toServer := ps;
      } else {
        toClient := ps;
      }
    }

    // The parsers work on the flow's state and the parser state of the direction.
    method Invoke(pool: Pool, t: Table<A>, ghost rank: map<nat, nat>, dir: Direction, input: Data,
                  idx: nat) returns (ok: bool)
      requires pool.Valid() && Ranked(t, rank) && idx in rank
      modifies pool, pool.free, this
      ensures pool.Valid() && pool.out == old(pool.out) && fresh(pool.free - old(pool.free))
      ensures var e := Run(t, rank, old(pool.Room()) as nat, old(app), old(Value()).Own(dir), input, idx);
        Value() == old(Value()).With(dir, e.app, e.ps) && ok == e.ok
    {
      var session := new Context(app, if dir == ToServer then toServer else toClient);
      ok := AppLayerDoParse(pool, session, t, rank, input, idx);
      app := session.app;
      SetOwn(dir, session.ps);
    }

    method Settle(dir: Direction)
      modifies this
      ensures Value() == old(Value()).Settle(dir)
    {
      var ps := if dir == ToServer then toServer else toClient;
      if ps.marks.noInspection {
        noPayload, closed := true, true;
        if ps.marks.noReassembly {
          noReassembly := true;
        }
      }
      if ps.eof {
        eofSeen := true;
      }
    }

    // Messages of a closed flow are not parsed.
    method AppLayerHandleMsg(pool: Pool, t: Table<A>, ghost rank: map<nat, nat>, m: Msg) returns (r: int)
      requires pool.Valid() && Usable(t, rank, entries)
      modifies pool, pool.free, this
      ensures pool.Valid() && pool.out == old(pool.out) && pool.Room() == old(pool.Room())
      ensures fresh(pool.free - old(pool.free))
      ensures Value() == Feed(t, rank, entries, old(pool.Room()) as nat, old(Value()), m)
    {
      r := 0;
      if !closed {
        r := AppLayerParse(pool, t, rank, m);
      }
    }
  }
}

// FTP flows: the table of FTP parsers among all registered parsers, and what
// whole runs of messages through it do (app-layer-ftp.c, app-layer-parser.c).
module FtpFlow {
  import opened Bytes
  import opened FieldParser
  import opened FieldMap
  import opened FieldDispatch
  import opened AppLayer
  import opened ParserTables
  import opened FtpRequests

  const ALPROTO_FTP := 2

  // Where the FTP parsers stand in the table.
  datatype Places = Places(request: nat, response: nat, commandLine: nat)
  {
    function EntryPoints(): Entries {
      Entries(request, response)
    }

    function Fields(): map<nat, nat> {
      map[FTP_FIELD_REQUEST_LINE := commandLine]
    }

    function Ranks(): map<nat, nat> {
      map[request := 1, response := 1, commandLine := 0]
    }
  }

  function RequestParser(): ParserFn<Ftp> {
    (s, ps, input, room: nat) => ParseRequest(s, ps, input, room)
  }

  function ResponseParser(): ParserFn<Ftp> {
    (s, ps, input, room: nat) => ParseResponse(s, ps, input, room)
  }

  function CommandLineParser(): ParserFn<Ftp> {
    (s, ps, input, room: nat) => ParseCommandLine(s, ps, input, room)
  }

  // The FTP parsers are registered, among any others.
  ghost predicate FtpTable(t: Table<Ftp>, regs: seq<Parser>, at: Places) {
    && Registers(t, regs, ALPROTO_FTP, at.Fields())
    && 1 <= at.request < |regs| && 1 <= at.response < |regs| && at.commandLine < |regs|
    && regs[at.request].localId == 0 && regs[at.response].localId == 0
    && t.parsers[at.request] == RequestParser() && t.parsers[at.response] == ResponseParser()
    && t.parsers[at.commandLine] == CommandLineParser()
  }

  lemma FtpRanks(t: Table<Ftp>, regs: seq<Parser>, at: Places)
    requires FtpTable(t, regs, at)
    ensures var rank := at.Ranks();
      rank[at.request] == 1 && rank[at.response] == 1 && rank[at.commandLine] == 0
  {
    assert at.Fields()[1] == at.commandLine;
    assert forall id <- at.Fields() :: regs[at.Fields()[id]].localId == id;
  }

  // The recursion through the FTP parsers ends: requests lead to command lines,
  // these and responses to nothing.
  lemma FtpTableIsRanked(t: Table<Ftp>, regs: seq<Parser>, at: Places)
    requires FtpTable(t, regs, at)
    ensures Usable(t, at.Ranks(), at.EntryPoints())
  {
    var rank := at.Ranks();
    FtpRanks(t, regs, at);
    LookupRegistered(t, regs, ALPROTO_FTP, at.Fields(), FTP_FIELD_REQUEST_LINE);
    LookupRegistered(t, regs, ALPROTO_FTP, at.Fields(), FTP_FIELD_REQUEST_COMMAND);
    LookupRegistered(t, regs, ALPROTO_FTP, at.Fields(), FTP_FIELD_RESPONSE_LINE);
    forall i, a, ps, d, room: nat | i in rank
      ensures Fits(t, rank, i, room, t.parsers[i](a, ps, d, room).fields)
    {
    }
  }

  // ---- one message ----

  // What the run of a request leaves: the line, if one was cut, is executed.
  ghost predicate Executes(s: Ftp, ps: PState, input: Data, room: nat, e: Ended<Ftp>) {
    var c := CutByDelimiter(ps.store, ps.eof, CRLF, input);
    var r := Code(c, room);
    && e.ok && e.app == (if r == FOUND then ExecWithin(s, c.emitted.value, room - 1) else s)
    && e.ps == PState(0, ps.eof && r != FOUND,
                      if r == ERROR then KeptByDelimiter(ps.store, CRLF, input) else c.store, ps.marks)
  }

  lemma CommandLineRuns(t: Table<Ftp>, regs: seq<Parser>, at: Places, room: nat, s: Ftp, ps: PState, line: Data)
    requires FtpTable(t, regs, at) && Usable(t, at.Ranks(), at.EntryPoints())
    requires ps.parseField == 0 && ps.eof && ps.store == []
    ensures at.commandLine in at.Ranks()
    ensures Run(t, at.Ranks(), room, s, ps, line, at.commandLine) == Ended(ExecWithin(s, line, room), ps, true)
  {
    FtpRanks(t, regs, at);
    LookupRegistered(t, regs, ALPROTO_FTP, at.Fields(), FTP_FIELD_REQUEST_COMMAND);
    WholeLineIsExecuted(s, ps, line, room);
    var o := ParseCommandLine(s, ps, line, room);
    assert t.parsers[at.commandLine](s, ps, line, room) == o;
    RunsOneField(t, at.Ranks(), room, s, ps, line, at.commandLine);
  }

  lemma RequestRuns(t: Table<Ftp>, regs: seq<Parser>, at: Places, room: nat, s: Ftp, ps: PState, input: Data)
    requires FtpTable(t, regs, at) && Usable(t, at.Ranks(), at.EntryPoints())
    ensures at.request in at.Ranks() && Executes(s, ps, input, room, Run(t, at.Ranks(), room, s, ps, input, at.request))
  {
    FtpRanks(t, regs, at);
    LookupRegistered(t, regs, ALPROTO_FTP, at.Fields(), FTP_FIELD_REQUEST_LINE);
    var o := ParseRequest(s, ps, input, room);
    assert t.parsers[at.request](s, ps, input, room) == o;
    RunsOneField(t, at.Ranks(), room, s, ps, input, at.request);
    if o.fields != [] {
      CommandLineRuns(t, regs, at, room - 1, s, o.ps.(parseField := 0, eof := true), o.fields[0].data);
    }
  }

  lemma ResponseRuns(t: Table<Ftp>, regs: seq<Parser>, at: Places, room: nat, s: Ftp, ps: PState, input: Data)
    requires FtpTable(t, regs, at) && Usable(t, at.Ranks(), at.EntryPoints())
    ensures at.response in at.Ranks()
    ensures var e := Run(t, at.Ranks(), room, s, ps, input, at.response); e.ok && e.app == s && e.ps.marks == ps.marks
  {
    FtpRanks(t, regs, at);
    LookupRegistered(t, regs, ALPROTO_FTP, at.Fields(), FTP_FIELD_RESPONSE_LINE);
    var o := ParseResponse(s, ps, input, room);
    assert t.parsers[at.response](s, ps, input, room) == o;
    RunsOneField(t, at.Ranks(), room, s, ps, input, at.response);
  }

  // A message of the server leaves the protocol's state alone, one of the client
  // executes the line it completes, and neither closes the flow.
  lemma ParseExecutes(t: Table<Ftp>, regs: seq<Parser>, at: Places, room: nat, c: Conn<Ftp>, m: Msg)
    requires FtpTable(t, regs, at) && Usable(t, at.Ranks(), at.EntryPoints())
    requires !m.gap && !c.Own(m.dir).marks.done && !c.Own(m.dir).marks.noInspection
    ensures var p := Parse(t, at.Ranks(), at.EntryPoints(), room, c, m);
      && p.r == 0 && p.conn.closed == c.closed && p.conn.Own(m.dir).marks == c.Own(m.dir).marks
      && if m.dir == ToClient then p.conn.app == c.app && p.conn.toServer == c.toServer
         else
           && p.conn.toClient == c.toClient
           && if m.input == [] then p.conn.app == c.app && p.conn.toServer == Opened(c, m)
              else Executes(c.app, Opened(c, m), m.input, room, Ended(p.conn.app, p.conn.toServer, true))
  {
    FtpRanks(t, regs, at);
    if m.dir == ToServer {
      RequestRuns(t, regs, at, room, c.app, Opened(c, m), m.input);
    } else {
      ResponseRuns(t, regs, at, room, c.app, Opened(c, m), m.input);
    }
  }

  // ---- whole runs ----

  // The chunks of the client's stream, in order.
  function ClientChunks(ms: seq<Msg>): seq<Data>
    decreases |ms|
  {
    if ms == [] then []
    else
      var m := ms[|ms| - 1];
      ClientChunks(ms[..|ms| - 1]) + if m.dir == ToServer && m.input != [] then [m.input] else []
  }

  // The client's stream has ended.
  predicate Over(ms: seq<Msg>)
    decreases |ms|
  {
    ms != [] && (Over(ms[..|ms| - 1]) || (ms[|ms| - 1].dir == ToServer && ms[|ms| - 1].eof))
  }

  // No bytes are missing, and nothing comes from the client behind the end of its
  // stream.
  predicate Complete(ms: seq<Msg>)
    decreases |ms|
  {
    ms == [] ||
    (var front, m := ms[..|ms| - 1], ms[|ms| - 1];
     Complete(front) && !m.gap && (m.dir == ToServer ==> !Over(front)))
  }

  // The flow has executed the lines cut so far.
  ghost predicate Caught(c: Conn<Ftp>, cut: Split, over: bool) {
    && !c.closed && c.toServer.marks == c.toClient.marks == UNMARKED && c.app == ExecAll(NEW_FTP, cut.lines)
    && (!over ==> c.toServer == PState(0, false, cut.rest, UNMARKED))
  }

  lemma OneMoreCaught(c: Conn<Ftp>, chunks: seq<Data>, input: Data, eof: bool, room: nat, d: Conn<Ftp>)
    requires Caught(c, CutAll([], chunks), false) && room >= 2
    requires Executes(c.app, c.toServer.(eof := eof), input, room, Ended(d.app, d.toServer, true))
    requires !d.closed && d.toClient.marks == UNMARKED
    ensures Caught(d, CutAll([], chunks + [input]), eof)
  {
    var cut := CutAll([], chunks);
    var x := CutByDelimiter(cut.rest, false, CRLF, input);
    assert CutByDelimiter(cut.rest, eof, CRLF, input).emitted == x.emitted;
    CutOneMore([], chunks, input);
    ExecAppend(NEW_FTP, cut.lines, Lines(x));
    if x.emitted.Some? {
      assert Lines(x)[..0] == [] && Lines(x)[0] == x.emitted.value;
    }
  }

  // In every interleaving of client and server messages, the lines cut from the
  // client's stream have been executed in order, up to its end.
  lemma {:induction false} RunExecutesTheLines(t: Table<Ftp>, regs: seq<Parser>, at: Places, room: nat, ms: seq<Msg>)
    requires FtpTable(t, regs, at) && Usable(t, at.Ranks(), at.EntryPoints())
    requires room >= 2 && Complete(ms)
    ensures Caught(FeedAll(t, at.Ranks(), at.EntryPoints(), room, NewConn(NEW_FTP), ms),
                   CutAll([], ClientChunks(ms)), Over(ms))
    decreases |ms|
  {
    if ms != [] {
      var front, m := ms[..|ms| - 1], ms[|ms| - 1];
      var c := FeedAll(t, at.Ranks(), at.EntryPoints(), room, NewConn(NEW_FTP), front);
      RunExecutesTheLines(t, regs, at, room, front);
      ParseExecutes(t, regs, at, room, c, m);
      var d := Parse(t, at.Ranks(), at.EntryPoints(), room, c, m).conn;
      if m.dir == ToServer && m.input != [] {
        OneMoreCaught(c, ClientChunks(front), m.input, m.eof, room, d);
      } else {
        assert ClientChunks(front) + [] == ClientChunks(front);
      }
    }
  }

  // So whenever the client's chunks each complete at most one line, the protocol
  // state is that of the stream's own lines.
  lemma FlowExecutesTheStream(t: Table<Ftp>, regs: seq<Parser>, at: Places, room: nat, ms: seq<Msg>)
    requires FtpTable(t, regs, at) && room >= 2 && Complete(ms)
    requires OneLineAtATime([], ClientChunks(ms))
    ensures Usable(t, at.Ranks(), at.EntryPoints())
    ensures FeedAll(t, at.Ranks(), at.EntryPoints(), room, NewConn(NEW_FTP), ms).app
      == ExecAll(NEW_FTP, SplitLines(Flatten(ClientChunks(ms))).lines)
  {
    FtpTableIsRanked(t, regs, at);
    RunExecutesTheLines(t, regs, at, room, ms);
    assert NoDelimiter([]);
    RunSplitsTheStream([], ClientChunks(ms));
    assert [] + Flatten(ClientChunks(ms)) == Flatten(ClientChunks(ms));
  }
}

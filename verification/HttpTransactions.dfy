// Transaction ids of an HTTP flow (app-layer-parser.c, app-layer-htp.c and
// log-httplog.c): the parser, the detection engine and a logger each advance
// one counter, cleanup releases transactions, and the response callback of the
// HTTP library destroys them.
module HttpTransactions {

  datatype Direction = ToServer | ToClient

  // What happened to which transaction, in order.
  datatype Event =
    | Inspected(dir: Direction)
    | Advanced(id: nat)
    | Logged(id: nat)
    | Freed(id: nat)
    | Destroyed(id: nat)

  // The id counters of the state store and the HTTP state are 16 bits wide.
  const WIDTH := 0x1_0000

  function Wrap(n: int): nat {
    n % WIDTH
  }

  datatype Flow = Flow(
    logger: bool,
    inspectId: nat, loggedId: nat, availId: nat, baseId: nat,
    eof: bool, serverSeen: bool, clientSeen: bool,
    newRequest: bool, transactionCnt: nat, transactionDone: nat,
    created: nat, completed: nat, destroyed: set<nat>,
    events: seq<Event>)

  function NewFlow(logger: bool): Flow {
    Flow(logger, 0, 0, 1, 0, false, false, false, false, 0, 0, 0, 0, {}, [])
  }

  predicate Present(f: Flow, id: nat) {
    id < f.created && id !in f.destroyed
  }

  function Note(f: Flow, e: Event): Flow {
    f.(events := f.events + [e])
  }

  // ---- the HTTP library and its callbacks ----

  // What the library reports while it is fed data. It completes requests only
  // on transactions it has created.
  datatype LibEvent = TxCreated | RequestDone | ResponseDone

  function DestroyOne(f: Flow, idx: nat): Flow {
    Note(f.(destroyed := f.destroyed + {idx}), Destroyed(idx))
  }

  // The response callback destroys every transaction below the mark.
  function DestroyFrom(f: Flow, idx: nat): (g: Flow)
    ensures g == f.(destroyed := g.destroyed, events := g.events)
    decreases f.transactionDone - idx
  {
    if idx >= f.transactionDone then f
    else if Present(f, idx) then
      DestroyFrom(DestroyOne(f, idx), idx + 1)
    else DestroyFrom(f, idx + 1)
  }

  function Callback(f: Flow, e: LibEvent): (g: Flow)
    ensures g == f.(created := g.created, completed := g.completed, newRequest := g.newRequest,
                    destroyed := g.destroyed, events := g.events)
    ensures f.completed <= g.completed
  {
    match e
    case TxCreated => f.(created := f.created + 1)
    case RequestDone =>
      if f.completed < f.created then f.(completed := f.completed + 1, newRequest := true) else f
    case ResponseDone => DestroyFrom(f, 0)
  }

  function Callbacks(f: Flow, es: seq<LibEvent>): (g: Flow)
    ensures g == f.(created := g.created, completed := g.completed, newRequest := g.newRequest,
                    destroyed := g.destroyed, events := g.events)
    ensures f.completed <= g.completed
    decreases |es|
  {
    if es == [] then f else Callbacks(Callback(f, es[0]), es[1..])
  }

  // ---- the id counters ----

  function UpdateAvail(f: Flow): Flow {
    if f.transactionCnt + 1 > f.availId then f.(availId := Wrap(f.transactionCnt + 1)) else f
  }

  function FreeOne(f: Flow): Flow {
    Note(f.(transactionDone := f.baseId, baseId := Wrap(f.baseId + 1)), Freed(f.baseId))
  }

  function FreeMany(f: Flow, n: nat): (g: Flow)
    ensures g == f.(baseId := g.baseId, transactionDone := g.transactionDone, events := g.events)
    decreases n
  {
    if n == 0 then f else FreeMany(FreeOne(f), n - 1)
  }

  function Min(a: nat, b: nat): nat {
    if a < b then a else b
  }

  function Cleanup(f: Flow): Flow {
    FreeMany(f, Wrap((if f.logger then Min(f.loggedId, f.inspectId) else f.inspectId) - f.baseId))
  }

  // Seeing the ids through after a chunk was parsed without an error.
  function Finish(f: Flow, eof: bool): (g: Flow)
    ensures g.completed == f.completed && g.logger == f.logger
  {
    var g := Cleanup(UpdateAvail(f));
    g.(eof := g.eof || eof)
  }

  function MarkSeen(f: Flow, dir: Direction): Flow {
    Note(if dir == ToServer then f.(serverSeen := true) else f.(clientSeen := true), Inspected(dir))
  }

  predicate CanAdvance(f: Flow) {
    f.inspectId + 1 < f.availId && f.clientSeen && f.serverSeen
  }

  function Advance(f: Flow): Flow {
    Note(f.(clientSeen := false, serverSeen := false, inspectId := Wrap(f.inspectId + 1)), Advanced(f.inspectId))
  }

  function Inspect(f: Flow, dir: Direction): Flow {
    var g := MarkSeen(f, dir);
    if CanAdvance(g) then Advance(g) else g
  }

  function Loggable(f: Flow): int {
    if f.eof then f.availId else f.availId - 1
  }

  function LogOne(f: Flow, idx: nat): Flow {
    Note(f.(loggedId := Wrap(f.loggedId + 1)), Logged(idx))
  }

  // The logger walks from the logged id to the loggable id as they were when
  // it started, and skips transactions that are gone.
  function LogFrom(f: Flow, idx: nat, loggable: int): (g: Flow)
    ensures g == f.(loggedId := g.loggedId, events := g.events)
    decreases loggable - idx
  {
    if idx >= loggable then f
    else if Present(f, idx) then
      LogFrom(LogOne(f, idx), idx + 1, loggable)
    else LogFrom(f, idx + 1, loggable)
  }

  // ---- steps ----

  datatype Outcome = Parsed | AlreadyInError | LibraryError

  datatype Op =
    | Request(es: seq<LibEvent>, outcome: Outcome, eof: bool)
    | Response(es: seq<LibEvent>, outcome: Outcome, eof: bool)
    | Detect(dir: Direction)
    | Log

  // A request chunk counts the transaction of the previously completed request.
  function CountRequest(f: Flow): Flow {
    if f.newRequest then f.(newRequest := false, transactionCnt := Wrap(f.transactionCnt + 1)) else f
  }

  function Step(f: Flow, op: Op): (g: Flow)
    ensures f.completed <= g.completed && g.logger == f.logger
  {
    match op
    case Request(es, outcome, eof) =>
      var g := CountRequest(f);
      if outcome == AlreadyInError then g
      else if outcome == LibraryError then Callbacks(g, es)
      else Finish(Callbacks(g, es), eof)
    case Response(es, outcome, eof) =>
      if outcome == AlreadyInError then f
      else if outcome == LibraryError then Callbacks(f, es).(newRequest := false)
      else Finish(Callbacks(f, es), eof)
    case Detect(dir) => Inspect(f, dir)
    // the logger runs only where it has registered itself
    case Log => if f.logger then LogFrom(f, f.loggedId, Loggable(f)) else f
  }

  function Run(f: Flow, ops: seq<Op>): Flow
    decreases |ops|
  {
    if ops == [] then f else Step(Run(f, ops[..|ops| - 1]), ops[|ops| - 1])
  }

  // ---- what a lawful history is ----

  function Frees(es: seq<Event>): nat
    decreases |es|
  {
    if es == [] then 0 else Frees(es[..|es| - 1]) + if es[|es| - 1].Freed? then 1 else 0
  }

  function Advances(es: seq<Event>): nat
    decreases |es|
  {
    if es == [] then 0 else Advances(es[..|es| - 1]) + if es[|es| - 1].Advanced? then 1 else 0
  }

  function Logs(es: seq<Event>): nat
    decreases |es|
  {
    if es == [] then 0 else Logs(es[..|es| - 1]) + if es[|es| - 1].Logged? then 1 else 0
  }

  // Was there an inspection in that direction since the last advance?
  predicate InspectedSince(es: seq<Event>, dir: Direction)
    decreases |es|
  {
    && es != []
    && !es[|es| - 1].Advanced?
    && (es[|es| - 1] == Inspected(dir) || InspectedSince(es[..|es| - 1], dir))
  }

  // Ids advance, are logged and are freed one by one in ascending order; an id
  // advances only after an inspection in each direction; it is freed only once
  // it has advanced and, with a logger, has been logged; a transaction is
  // destroyed at most once, and only after it and its successor were freed.
  predicate LawfulEvent(logger: bool, before: seq<Event>, e: Event) {
    match e
    case Inspected(_) => true
    case Advanced(id) => id == Advances(before) && InspectedSince(before, ToServer) && InspectedSince(before, ToClient)
    case Logged(id) => id == Logs(before)
    case Freed(id) => id == Frees(before) && Advanced(id) in before && (logger ==> Logged(id) in before)
    case Destroyed(id) => Freed(id) in before && Freed(id + 1) in before && Destroyed(id) !in before
  }

  predicate Lawful(logger: bool, es: seq<Event>)
    decreases |es|
  {
    es == [] || (Lawful(logger, es[..|es| - 1]) && LawfulEvent(logger, es[..|es| - 1], es[|es| - 1]))
  }

  // ---- the invariant of every run ----

  function Gone(es: seq<Event>): set<nat>
    decreases |es|
  {
    if es == [] then {} else Gone(es[..|es| - 1]) + if es[|es| - 1].Destroyed? then {es[|es| - 1].id} else {}
  }

  ghost predicate HistoryMatches(f: Flow) {
    && Frees(f.events) == f.baseId && Advances(f.events) == f.inspectId && Logs(f.events) == f.loggedId
    && Gone(f.events) == f.destroyed
    && f.serverSeen == InspectedSince(f.events, ToServer)
    && f.clientSeen == InspectedSince(f.events, ToClient)
    && Lawful(f.logger, f.events)
  }

  ghost predicate Counters(f: Flow) {
    && f.baseId <= f.inspectId < f.availId <= f.transactionCnt + 1
    && f.availId < WIDTH && f.transactionCnt < WIDTH
    && f.transactionCnt + (if f.newRequest then 1 else 0) <= f.completed <= f.created
    && f.loggedId <= f.availId && (f.logger ==> f.baseId <= f.loggedId)
    && f.transactionDone == (if f.baseId == 0 then 0 else f.baseId - 1)
    && (forall i <- f.destroyed :: i < f.transactionDone)
  }

  ghost predicate Inv(f: Flow) {
    Counters(f) && HistoryMatches(f)
  }

  // The counters say which events a lawful history contains.
  lemma {:induction false} HistoryContains(logger: bool, es: seq<Event>)
    requires Lawful(logger, es)
    ensures forall i: nat :: i < Frees(es) ==> Freed(i) in es
    ensures forall i: nat :: i < Advances(es) ==> Advanced(i) in es
    ensures forall i: nat :: i < Logs(es) ==> Logged(i) in es
    ensures forall i: nat :: i in Gone(es) <==> Destroyed(i) in es
    decreases |es|
  {
    if es != [] {
      HistoryContains(logger, es[..|es| - 1]);
      assert es == es[..|es| - 1] + [es[|es| - 1]];
    }
  }

  lemma Snoc(logger: bool, es: seq<Event>, e: Event)
    ensures Frees(es + [e]) == Frees(es) + if e.Freed? then 1 else 0
    ensures Advances(es + [e]) == Advances(es) + if e.Advanced? then 1 else 0
    ensures Logs(es + [e]) == Logs(es) + if e.Logged? then 1 else 0
    ensures Gone(es + [e]) == Gone(es) + if e.Destroyed? then {e.id} else {}
    ensures forall d :: InspectedSince(es + [e], d) <==> !e.Advanced? && (e == Inspected(d) || InspectedSince(es, d))
    ensures Lawful(logger, es + [e]) <==> Lawful(logger, es) && LawfulEvent(logger, es, e)
  {
    assert (es + [e])[..|es + [e]| - 1] == es;
  }

  lemma FreeOneKeeps(f: Flow)
    requires Inv(f) && f.baseId < f.inspectId && (f.logger ==> f.baseId < f.loggedId)
    ensures Inv(FreeOne(f)) && FreeOne(f).baseId == f.baseId + 1
  {
    HistoryContains(f.logger, f.events);
    Snoc(f.logger, f.events, Freed(f.baseId));
  }

  lemma {:induction false} FreeManyKeeps(f: Flow, n: nat)
    requires Inv(f) && f.baseId + n <= f.inspectId && (f.logger ==> f.baseId + n <= f.loggedId)
    ensures Inv(FreeMany(f, n)) && FreeMany(f, n).baseId == f.baseId + n
    decreases n
  {
    if n > 0 {
      FreeOneKeeps(f);
      FreeManyKeeps(FreeOne(f), n - 1);
    }
  }

  lemma CleanupKeeps(f: Flow)
    requires Inv(f)
    ensures Inv(Cleanup(f))
  {
    var low := if f.logger then Min(f.loggedId, f.inspectId) else f.inspectId;
    assert Wrap(low - f.baseId) == low - f.baseId;
    FreeManyKeeps(f, low - f.baseId);
  }

  lemma AvailKeeps(f: Flow)
    requires Inv(f) && f.transactionCnt < WIDTH - 1
    ensures Inv(UpdateAvail(f))
  {
    assert Wrap(f.transactionCnt + 1) == f.transactionCnt + 1;
  }

  // After a parsed chunk the ids are in order again exactly when the 16-bit
  // transaction count has room for the next id.
  lemma FinishKeeps(f: Flow, eof: bool)
    requires Inv(f)
    ensures f.transactionCnt < WIDTH - 1 ==> Inv(Finish(f, eof))
    ensures Finish(f, eof).inspectId < Finish(f, eof).availId <==> f.transactionCnt < WIDTH - 1
  {
    if f.transactionCnt < WIDTH - 1 {
      AvailKeeps(f);
      CleanupKeeps(UpdateAvail(f));
    } else {
      assert UpdateAvail(f).availId == 0;
    }
  }

  lemma DestroyOneKeeps(f: Flow, idx: nat)
    requires Inv(f) && idx < f.transactionDone && Present(f, idx)
    ensures Inv(DestroyOne(f, idx))
  {
    HistoryContains(f.logger, f.events);
    Snoc(f.logger, f.events, Destroyed(idx));
  }

  lemma {:induction false} DestroyFromKeeps(f: Flow, idx: nat)
    requires Inv(f)
    ensures Inv(DestroyFrom(f, idx))
    decreases f.transactionDone - idx
  {
    if idx < f.transactionDone {
      if Present(f, idx) {
        DestroyOneKeeps(f, idx);
        DestroyFromKeeps(DestroyOne(f, idx), idx + 1);
      } else {
        DestroyFromKeeps(f, idx + 1);
      }
    }
  }

  lemma CallbackKeeps(f: Flow, e: LibEvent)
    requires Inv(f)
    ensures Inv(Callback(f, e))
  {
    if e == ResponseDone {
      DestroyFromKeeps(f, 0);
    }
  }

  lemma {:induction false} CallbacksKeep(f: Flow, es: seq<LibEvent>)
    requires Inv(f)
    ensures Inv(Callbacks(f, es))
    decreases |es|
  {
    if es != [] {
      CallbackKeeps(f, es[0]);
      CallbacksKeep(Callback(f, es[0]), es[1..]);
    }
  }

  lemma MarkSeenKeeps(f: Flow, dir: Direction)
    requires Inv(f)
    ensures Inv(MarkSeen(f, dir))
  {
    Snoc(f.logger, f.events, Inspected(dir));
  }

  lemma AdvanceKeeps(f: Flow)
    requires Inv(f) && CanAdvance(f)
    ensures Inv(Advance(f))
  {
    Snoc(f.logger, f.events, Advanced(f.inspectId));
  }

  lemma LogOneKeeps(f: Flow)
    requires Inv(f) && f.loggedId < f.availId
    ensures Inv(LogOne(f, f.loggedId)) && LogOne(f, f.loggedId).loggedId == f.loggedId + 1
  {
    Snoc(f.logger, f.events, Logged(f.loggedId));
  }

  // Only the transaction in progress can be missing, and nothing follows it.
  lemma MissingIsLast(f: Flow)
    requires Inv(f) && f.logger && f.loggedId < f.availId && !Present(f, f.loggedId)
    ensures f.loggedId + 1 == f.availId
  {
  }

  lemma {:induction false} LogFromKeeps(f: Flow, loggable: int)
    requires Inv(f) && f.logger && loggable <= f.availId
    ensures Inv(LogFrom(f, f.loggedId, loggable))
    decreases loggable - f.loggedId
  {
    if f.loggedId < loggable {
      if Present(f, f.loggedId) {
        LogOneKeeps(f);
        LogFromKeeps(LogOne(f, f.loggedId), loggable);
      } else {
        MissingIsLast(f);
        assert LogFrom(f, f.loggedId + 1, loggable) == f;
      }
    }
  }

  lemma CountRequestKeeps(f: Flow)
    requires Inv(f) && f.completed < WIDTH - 1
    ensures Inv(CountRequest(f)) && CountRequest(f).transactionCnt < WIDTH - 1
  {
  }

  lemma ParsedKeeps(f: Flow, es: seq<LibEvent>, eof: bool)
    requires Inv(f) && f.transactionCnt < WIDTH - 1
    ensures Inv(Callbacks(f, es)) && Inv(Finish(Callbacks(f, es), eof))
  {
    CallbacksKeep(f, es);
    FinishKeeps(Callbacks(f, es), eof);
  }

  lemma StepKeeps(f: Flow, op: Op)
    requires Inv(f) && Step(f, op).completed < WIDTH - 1
    ensures Inv(Step(f, op))
  {
    match op
    case Request(es, _, eof) =>
      CountRequestKeeps(f);
      ParsedKeeps(CountRequest(f), es, eof);
    case Response(es, _, eof) =>
      ParsedKeeps(f, es, eof);
    case Detect(dir) =>
      MarkSeenKeeps(f, dir);
      if CanAdvance(MarkSeen(f, dir)) {
        AdvanceKeeps(MarkSeen(f, dir));
      }
    case Log =>
      if f.logger {
        LogFromKeeps(f, Loggable(f));
      }
  }

  // ---- every interleaving ----

  lemma {:induction false} EveryRunKeepsTheInvariant(logger: bool, ops: seq<Op>)
    requires Run(NewFlow(logger), ops).completed < WIDTH - 1
    ensures Inv(Run(NewFlow(logger), ops)) && Run(NewFlow(logger), ops).logger == logger
    decreases |ops|
  {
    if ops != [] {
      var f := Run(NewFlow(logger), ops[..|ops| - 1]);
      assert Step(f, ops[|ops| - 1]) == Run(NewFlow(logger), ops);
      EveryRunKeepsTheInvariant(logger, ops[..|ops| - 1]);
      StepKeeps(f, ops[|ops| - 1]);
    }
  }

  // The claim in the system's terms: with fewer than 65535 completed requests,
  // every interleaving of request chunks, response chunks, detection and
  // logging keeps the ids in order and its history lawful, and destroys only
  // transactions below the base id.
  lemma EveryInterleavingIsLawful(logger: bool, ops: seq<Op>)
    requires Run(NewFlow(logger), ops).completed < WIDTH - 1
    ensures var f := Run(NewFlow(logger), ops);
      && f.baseId <= f.inspectId < f.availId
      && Lawful(logger, f.events)
      && Frees(f.events) == f.baseId
      && (forall i: nat :: Destroyed(i) in f.events ==> i + 1 < f.baseId)
  {
    EveryRunKeepsTheInvariant(logger, ops);
    var f := Run(NewFlow(logger), ops);
    HistoryContains(logger, f.events);
  }
}

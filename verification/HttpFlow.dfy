// The flow object behind HttpTransactions: each routine changes the counters in
// place and is tied to the step function it carries out.
module HttpFlow {
  import opened HttpTransactions

  class State {
    const logger: bool
    var inspectId: nat
    var loggedId: nat
    var availId: nat
    var baseId: nat
    var eof: bool
    var serverSeen: bool
    var clientSeen: bool
    var newRequest: bool
    var transactionCnt: nat
    var transactionDone: nat
    // the library's transaction list: how many were created and completed, and
    // which entries have been destroyed
    var created: nat
    var completed: nat
    var destroyed: set<nat>
    ghost var events: seq<Event>

    ghost function Value(): Flow
      reads this
    {
      Flow(logger, inspectId, loggedId, availId, baseId, eof, serverSeen, clientSeen,
           newRequest, transactionCnt, transactionDone, created, completed, destroyed, events)
    }

    constructor (logger: bool)
      ensures Value() == NewFlow(logger)
    {
      this.logger := logger;
      inspectId, loggedId, availId, baseId := 0, 0, 1, 0;
      eof, serverSeen, clientSeen, newRequest := false, false, false, false;
      transactionCnt, transactionDone, created, completed := 0, 0, 0, 0;
      destroyed, events := {}, [];
    }

    method HTPStateUpdateTransactionId()
      modifies this
      ensures Value() == UpdateAvail(old(Value()))
    {
      if transactionCnt + 1 > availId {
        availId := Wrap(transactionCnt + 1);
      }
    }

    method HTPStateTransactionFree(id: nat)
      modifies this
      ensures Value() == Note(old(Value()).(transactionDone := id), Freed(id))
    {
      transactionDone := id;
      events := events + [Freed(id)];
    }

    method AppLayerTransactionsCleanup()
      modifies this
      ensures Value() == Cleanup(old(Value()))
    {
      var obsolete: nat;
      if logger {
        var low := if loggedId < inspectId then loggedId else inspectId;
        obsolete := Wrap(low - baseId);
      } else {
        obsolete := Wrap(inspectId - baseId);
      }
      while obsolete > 0
        invariant FreeMany(Value(), obsolete) == Cleanup(old(Value()))
      {
        obsolete := obsolete - 1;
        HTPStateTransactionFree(baseId);
        baseId := Wrap(baseId + 1);
      }
    }

    method HTPCallbackRequest()
      modifies this
      ensures Value() == Callback(old(Value()), RequestDone)
    {
      if completed < created {
        completed := completed + 1;
        newRequest := true;
      }
    }

    method HTPCallbackResponse()
      modifies this
      ensures Value() == Callback(old(Value()), ResponseDone)
    {
      var idx := 0;
      while idx < transactionDone
        invariant 0 <= idx
        invariant DestroyFrom(Value(), idx) == DestroyFrom(old(Value()), 0)
        decreases transactionDone - idx
      {
        if idx < created && idx !in destroyed {
          destroyed := destroyed + {idx};
          events := events + [Destroyed(idx)];
        }
        idx := idx + 1;
      }
    }

    // Feeding the library: it calls back for each thing it recognises.
    method Feed(es: seq<LibEvent>)
      modifies this
      ensures Value() == Callbacks(old(Value()), es)
    {
      var i := 0;
      while i < |es|
        invariant 0 <= i <= |es|
        invariant Callbacks(Value(), es[i..]) == Callbacks(old(Value()), es)
      {
        assert es[i..][1..] == es[i + 1..];
        match es[i] {
          case TxCreated => created := created + 1;
          case RequestDone => HTPCallbackRequest();
          case ResponseDone => HTPCallbackResponse();
        }
        i := i + 1;
      }
    }

    method HTPHandleRequestData(es: seq<LibEvent>, outcome: Outcome) returns (r: int)
      modifies this
      ensures r == if outcome == Parsed then 1 else -1
      ensures var g := CountRequest(old(Value()));
        Value() == if outcome == AlreadyInError then g else Callbacks(g, es)
    {
      if newRequest {
        newRequest := false;
        transactionCnt := Wrap(transactionCnt + 1);
      }
      if outcome == AlreadyInError {
        return -1;
      }
      Feed(es);
      return if outcome == Parsed then 1 else -1;
    }

    method HTPHandleResponseData(es: seq<LibEvent>, outcome: Outcome) returns (r: int)
      modifies this
      ensures r == if outcome == Parsed then 1 else -1
      ensures var f := old(Value());
        Value() == match outcome
                   case AlreadyInError => f
                   case LibraryError => Callbacks(f, es).(newRequest := false)
                   case Parsed => Callbacks(f, es)
    {
      if outcome == AlreadyInError {
        return -1;
      }
      Feed(es);
      if outcome == LibraryError {
        // the flags are overwritten, not masked
        newRequest := false;
        return -1;
      }
      return 1;
    }

    method AppLayerParse(dir: Direction, es: seq<LibEvent>, outcome: Outcome, streamEof: bool) returns (r: int)
      modifies this
      ensures Value() == Step(old(Value()),
        if dir == ToServer then Request(es, outcome, streamEof) else Response(es, outcome, streamEof))
    {
      if dir == ToServer {
        r := HTPHandleRequestData(es, outcome);
      } else {
        r := HTPHandleResponseData(es, outcome);
      }
      if r < 0 {
        return -1;
      }
      HTPStateUpdateTransactionId();
      AppLayerTransactionsCleanup();
      if streamEof {
        eof := true;
      }
      return 0;
    }

    // The available id is a 16-bit field. The header promises 1 for "done but no more available"; the guard on the
    // next id rules that out, so the answer is 2 or 0.
    method AppLayerTransactionUpdateInspectId(dir: Direction) returns (r: int)
      requires availId < WIDTH
      modifies this
      ensures Value() == Step(old(Value()), Detect(dir))
      ensures r == if CanAdvance(MarkSeen(old(Value()), dir)) then 2 else 0
    {
      r := 0;
      if dir == ToServer {
        serverSeen := true;
      } else {
        clientSeen := true;
      }
      events := events + [Inspected(dir)];
      if inspectId + 1 < availId && clientSeen && serverSeen {
        clientSeen := false;
        serverSeen := false;
        events := events + [Advanced(inspectId)];
        inspectId := Wrap(inspectId + 1);
        r := if inspectId < availId then 2 else 1;
      }
    }

    method LogHttpLog()
      modifies this
      ensures Value() == Step(old(Value()), Log)
    {
      if !logger {
        return;
      }
      var idx := loggedId;
      var loggable := if eof then availId else availId - 1;
      while idx < loggable
        invariant LogFrom(Value(), idx, loggable) == Step(old(Value()), Log)
        decreases loggable - idx
      {
        if idx < created && idx !in destroyed {
          events := events + [Logged(idx)];
          loggedId := Wrap(loggedId + 1);
        }
        idx := idx + 1;
      }
    }
  }
}

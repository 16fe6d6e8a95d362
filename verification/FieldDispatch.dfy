// Handing the fields a parser outputs to the parsers registered for them,
// recursively (AppLayerDoParse in app-layer-parser.c).
module FieldDispatch {
  import opened Bytes
  import opened FieldParser
  import opened FieldMap
  import opened ResultPool

  // What one parser does: the fields it outputs, the states it leaves and
  // whether it succeeds. It is told how many result elements it can get.
  datatype Outcome<A> = Outcome(fields: seq<Field>, app: A, ps: PState, ok: bool)

  type ParserFn<!A> = (A, PState, Data, nat) -> Outcome<A>

  datatype Table<!A> = Table(parsers: seq<ParserFn<A>>, local: Proto)

  // Every field leads to a ranked parser of a lower level or to none.
  ghost predicate Below<A>(t: Table<A>, rank: map<nat, nat>, level: nat, fields: seq<Field>)
    requires |t.local.fields| == t.local.mapSize
  {
    forall f <- fields :: var p := Lookup(t.local, f.idx); p.Some? ==> p.value in rank && rank[p.value] < level
  }

  // No parser gets more elements than there are.
  ghost predicate Fits<A>(t: Table<A>, rank: map<nat, nat>, i: nat, room: nat, fields: seq<Field>)
    requires i in rank && |t.local.fields| == t.local.mapSize
  {
    |fields| <= room && Below(t, rank, rank[i], fields)
  }

  // Some of the parsers in the table have ranks, and none of these leads outside
  // them or back up. The other parsers may do what they like.
  ghost predicate Ranked<A(!new)>(t: Table<A>, rank: map<nat, nat>) {
    && (forall i <- rank :: i < |t.parsers|) && |t.local.fields| == t.local.mapSize
    && forall i, a, ps, d, room: nat | i in rank :: Fits(t, rank, i, room, t.parsers[i](a, ps, d, room).fields)
  }

  // ---- the dispatch as a function ----

  datatype Ended<A> = Ended(app: A, ps: PState, ok: bool)

  ghost function Run<A(!new)>(t: Table<A>, rank: map<nat, nat>, room: nat, app: A, ps: PState, input: Data,
                              idx: nat): Ended<A>
    requires Ranked(t, rank) && idx in rank
    decreases rank[idx], 1, 0
  {
    var o := t.parsers[idx](app, ps, input, room);
    assert Fits(t, rank, idx, room, o.fields);
    if !o.ok then Ended(o.app, o.ps, false)
    else Dispatch(t, rank, room - |o.fields|, o.app, o.ps, o.fields, rank[idx])
  }

  // The fields in order; the inner parser starts on its first field with the
  // input at its end, and the outer position is put back.
  ghost function Dispatch<A(!new)>(t: Table<A>, rank: map<nat, nat>, room: nat, app: A, ps: PState, fields: seq<Field>,
                                   level: nat)
    : Ended<A>
    requires Ranked(t, rank) && Below(t, rank, level, fields)
    decreases level, 0, |fields|
  {
    if fields == [] then Ended(app, ps, true)
    else
      assert fields[0] in fields;
      match Lookup(t.local, fields[0].idx)
      case None => Dispatch(t, rank, room, app, ps, fields[1..], level)
      case Some(p) =>
        var inner := Run(t, rank, room, app, ps.(parseField := 0, eof := true), fields[0].data, p);
        var back := inner.ps.(parseField := ps.parseField, eof := false);
        if !inner.ok then Ended(inner.app, back, false)
        else Dispatch(t, rank, room, inner.app, back, fields[1..], level)
  }

  // ---- the code ----

  class Context<!A> {
    var app: A
    var ps: PState

    constructor (app: A, ps: PState)
      ensures this.app == app && this.ps == ps
    {
      this.app, this.ps := app, ps;
    }
  }

  // The parser runs and its fields are put on the list.
  method Invoke<A(!new)>(pool: Pool, session: Context<A>, result: Result, t: Table<A>, ghost rank: map<nat, nat>,
                         input: Data, idx: nat)
    returns (ok: bool)
    requires pool.Valid() && result.Valid() && result.held == {} && Ranked(t, rank) && idx in rank
    modifies pool, pool.free, session, result
    ensures pool.Valid() && result.Valid()
    ensures Below(t, rank, rank[idx], result.Fields()) && pool.Room() >= 0
    ensures Run(t, rank, old(pool.Room()) as nat, old(session.app), old(session.ps), input, idx)
      == if ok then Dispatch(t, rank, pool.Room() as nat, session.app, session.ps, result.Fields(), rank[idx])
         else Ended(session.app, session.ps, false)
    ensures pool.out == old(pool.out) + result.held && pool.free <= old(pool.free)
    ensures result.held !! old(pool.out) && fresh(result.held - old(pool.free))
  {
    var o := t.parsers[idx](session.app, session.ps, input, pool.maxBuckets - pool.outstanding);
    assert Fits(t, rank, idx, pool.maxBuckets - pool.outstanding, o.fields);
    session.app, session.ps := o.app, o.ps;
    StoreFields(pool, result, o.fields);
    ok := o.ok;
  }

  // On every path each element taken from the pool is given back, what the
  // enclosing calls hold is not touched, and the states and the result are
  // those of the dispatch function.
  method AppLayerDoParse<A(!new)>(pool: Pool, session: Context<A>, t: Table<A>, ghost rank: map<nat, nat>, input: Data,
                                  idx: nat)
    returns (ok: bool)
    requires pool.Valid() && Ranked(t, rank) && idx in rank
    modifies pool, pool.free, session
    ensures pool.Valid() && pool.out == old(pool.out) && fresh(pool.free - old(pool.free))
    ensures Ended(session.app, session.ps, ok)
      == Run(t, rank, old(pool.Room()) as nat, old(session.app), old(session.ps), input, idx)
    decreases rank[idx], 4
  {
    var result := new Result();
    ok := RunParser(pool, session, result, t, rank, input, idx);
    TakenAndReturned(old(pool.out), result.held, pool.free, old(pool.free));
    result.AppLayerParserResultCleanup(pool);
  }

  lemma TakenAndReturned(out: set<Elmt>, held: set<Elmt>, free: set<Elmt>, free0: set<Elmt>)
    ensures held !! out ==> (out + held) - held == out
    ensures (free + held) - free0 == (free - free0) + (held - free0)
  {
  }

  // The parser and, if it succeeds, the fields it output.
  method RunParser<A(!new)>(pool: Pool, session: Context<A>, result: Result, t: Table<A>, ghost rank: map<nat, nat>,
                            input: Data, idx: nat)
    returns (ok: bool)
    requires pool.Valid() && result.Valid() && result.held == {} && Ranked(t, rank) && idx in rank
    modifies pool, pool.free, session, result
    ensures pool.Valid() && result.Valid() && pool.out == old(pool.out) + result.held && result.held !! old(pool.out)
    ensures fresh(result.held - old(pool.free)) && fresh(pool.free - old(pool.free))
    ensures Ended(session.app, session.ps, ok)
      == Run(t, rank, old(pool.Room()) as nat, old(session.app), old(session.ps), input, idx)
    decreases rank[idx], 3
  {
    ok := Invoke(pool, session, result, t, rank, input, idx);
    if ok {
      label before:
      ok := DispatchAll(pool, session, result, t, rank, rank[idx]);
      forall i | 0 <= i < |result.list| ensures unchanged@before(result.list[i]) {
        assert result.list[i] in result.held;
      }
      assert forall i | 0 <= i < |result.list| :: old@before(Link(result.list, i));
    }
  }

  // One field: its parser, if it has one, on its data alone; then the next one.
  method DispatchOne<A(!new)>(pool: Pool, session: Context<A>, t: Table<A>, ghost rank: map<nat, nat>, e: Elmt,
                              ghost rest: seq<Field>, ghost level: nat, ghost room: nat, ghost goal: Ended<A>)
    returns (ok: bool, next: Elmt?)
    requires pool.Valid() && pool.Room() == room && e !in pool.free && Ranked(t, rank)
    requires Below(t, rank, level, [FieldOf(e)] + rest)
    requires LeadsTo(goal, t, rank, room, Ended(session.app, session.ps, true), [FieldOf(e)] + rest, level)
    modifies pool, pool.free, session
    ensures pool.Valid() && pool.out == old(pool.out) && fresh(pool.free - old(pool.free))
    ensures pool.Room() == room && Below(t, rank, level, rest)
    ensures LeadsTo(goal, t, rank, room, Ended(session.app, session.ps, ok), rest, level)
    ensures next == old(e.next)
    decreases level, 0
  {
    ok := true;
    ghost var fields := [FieldOf(e)] + rest;
    assert fields[0] in fields && fields[1..] == rest && forall f <- rest :: f in fields;
    var p := Lookup(t.local, e.nameIdx);
    if p.Some? {
      var tmp := session.ps.parseField;
      session.ps := session.ps.(parseField := 0, eof := true);
      ok := AppLayerDoParse(pool, session, t, rank, e.data, p.value);
      session.ps := session.ps.(parseField := tmp, eof := false);
    }
    next := e.next;
  }

  // What is left to dispatch, if nothing failed, leads to a given end.
  ghost predicate LeadsTo<A(!new)>(goal: Ended<A>, t: Table<A>, rank: map<nat, nat>, room: nat, now: Ended<A>,
                                   fields: seq<Field>, level: nat)
    requires Ranked(t, rank) && Below(t, rank, level, fields)
  {
    goal == if now.ok then Dispatch(t, rank, room, now.app, now.ps, fields, level) else now
  }

  // The element at hand is the first of the fields left.
  ghost predicate At(list: seq<Elmt>, fields: seq<Field>, k: nat, e: Elmt?, rest: seq<Field>) {
    k <= |list| == |fields| && rest == fields[k..] && e == if k < |list| then list[k] else null
  }

  lemma AtNext(list: seq<Elmt>, fields: seq<Field>, k: nat, e: Elmt?, rest: seq<Field>)
    requires At(list, fields, k, e, rest) && e != null
    ensures k < |list| && e == list[k] && rest != [] && rest == [fields[k]] + rest[1..]
    ensures At(list, fields, k + 1, if k + 1 < |list| then list[k + 1] else null, rest[1..])
  {
  }

  // A list of elements that are out, and their fields.
  ghost predicate Holds(pool: Pool, list: seq<Elmt>, fields: seq<Field>)
    reads pool, list
  {
    |list| == |fields| && forall i | 0 <= i < |list| :: Held(pool, list, fields, i)
  }

  ghost predicate Held(pool: Pool, list: seq<Elmt>, fields: seq<Field>, i: nat)
    requires i < |list| == |fields|
    reads pool, list[i]
  {
    fields[i] == FieldOf(list[i]) && list[i] in pool.out && Link(list, i)
  }

  lemma ListIsHeld(pool: Pool, result: Result)
    requires pool.Valid() && result.Valid() && result.held <= pool.out
    ensures Holds(pool, result.list, result.Fields())
  {
    FieldsLength(result.list);
    forall i | 0 <= i < |result.list| ensures Held(pool, result.list, result.Fields(), i) {
      FieldsAt(result.list, i);
      assert result.list[i] in result.held;
    }
  }

  method DispatchAll<A(!new)>(pool: Pool, session: Context<A>, result: Result, t: Table<A>, ghost rank: map<nat, nat>,
                              ghost level: nat)
    returns (ok: bool)
    requires pool.Valid() && result.Valid() && result.held <= pool.out && Ranked(t, rank)
    requires Below(t, rank, level, result.Fields())
    modifies pool, pool.free, session
    ensures pool.Valid() && pool.out == old(pool.out) && fresh(pool.free - old(pool.free))
    ensures Ended(session.app, session.ps, ok)
      == Dispatch(t, rank, old(pool.Room()) as nat, old(session.app), old(session.ps), old(result.Fields()), level)
    decreases level, 2
  {
    ghost var fields, room: nat := result.Fields(), pool.Room();
    ghost var goal := Dispatch(t, rank, room, session.app, session.ps, fields, level);
    ListIsHeld(pool, result);
    ok := DispatchList(pool, session, result.head, t, rank, result.list, fields, level, room, goal);
  }

  // The loop over a result list.
  method DispatchList<A(!new)>(pool: Pool, session: Context<A>, head: Elmt?, t: Table<A>, ghost rank: map<nat, nat>,
                               ghost list: seq<Elmt>, ghost fields: seq<Field>, ghost level: nat, ghost room: nat,
                               ghost goal: Ended<A>)
    returns (ok: bool)
    requires pool.Valid() && pool.Room() == room && Holds(pool, list, fields) && At(list, fields, 0, head, fields)
    requires Ranked(t, rank) && Below(t, rank, level, fields)
    requires LeadsTo(goal, t, rank, room, Ended(session.app, session.ps, true), fields, level)
    modifies pool, pool.free, session
    ensures pool.Valid() && pool.out == old(pool.out) && fresh(pool.free - old(pool.free))
    ensures goal == Ended(session.app, session.ps, ok)
    decreases level, 1
  {
    ghost var k, rest := 0, fields;
    ok := true;
    var e := head;
    while ok && e != null
      invariant At(list, fields, k, e, rest)
      invariant pool.Valid() && pool.out == old(pool.out) && fresh(pool.free - old(pool.free)) && pool.Room() == room
      invariant Below(t, rank, level, rest)
      invariant LeadsTo(goal, t, rank, room, Ended(session.app, session.ps, ok), rest, level)
      decreases |list| - k
    {
      AtNext(list, fields, k, e, rest);
      assert old(Held(pool, list, fields, k)) && unchanged(e);
      rest := rest[1..];
      ok, e := DispatchOne(pool, session, t, rank, e, rest, level, room, goal);
      k := k + 1;
    }
  }
}

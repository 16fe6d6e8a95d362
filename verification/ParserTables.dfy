// What the recursive dispatch of fields keeps, and which parsers it leads to in
// a table that holds the registrations of all protocols (app-layer-parser.c).
module ParserTables {
  import opened Bytes
  import opened FieldParser
  import opened FieldMap
  import opened FieldDispatch

  // Whatever the inner parsers do, the outer parser's position survives, and no
  // end-of-input mark of theirs is left behind.
  lemma {:induction false} DispatchKeepsPosition<A(!new)>(t: Table<A>, rank: map<nat, nat>, room: nat, app: A,
                                                          ps: PState, fields: seq<Field>, level: nat)
    requires Ranked(t, rank) && Below(t, rank, level, fields)
    ensures var after := Dispatch(t, rank, room, app, ps, fields, level).ps;
      after.parseField == ps.parseField && (!ps.eof ==> !after.eof)
    decreases |fields|
  {
    if fields != [] {
      assert fields[0] in fields;
      match Lookup(t.local, fields[0].idx)
      case None => DispatchKeepsPosition(t, rank, room, app, ps, fields[1..], level);
      case Some(p) =>
        var inner := Run(t, rank, room, app, ps.(parseField := 0, eof := true), fields[0].data, p);
        if inner.ok {
          var back := inner.ps.(parseField := ps.parseField, eof := false);
          DispatchKeepsPosition(t, rank, room, inner.app, back, fields[1..], level);
        }
    }
  }

  // A parser that outputs one field, or none.
  lemma RunsOneField<A(!new)>(t: Table<A>, rank: map<nat, nat>, room: nat, app: A, ps: PState, input: Data, idx: nat)
    requires Ranked(t, rank) && idx in rank
    requires var o := t.parsers[idx](app, ps, input, room); o.ok && |o.fields| <= 1
    ensures var o := t.parsers[idx](app, ps, input, room);
      Run(t, rank, room, app, ps, input, idx) ==
        if o.fields == [] then Ended(o.app, o.ps, true)
        else match Lookup(t.local, o.fields[0].idx)
          case None => Ended(o.app, o.ps, true)
          case Some(p) =>
            var e := Run(t, rank, room - 1, o.app, o.ps.(parseField := 0, eof := true), o.fields[0].data, p);
            Ended(e.app, e.ps.(parseField := o.ps.parseField, eof := false), e.ok)
  {
    var o := t.parsers[idx](app, ps, input, room);
    assert Fits(t, rank, idx, room, o.fields);
    if o.fields != [] {
      assert o.fields[0] in o.fields;
      DispatchesOneField(t, rank, room - 1, o.app, o.ps, o.fields, rank[idx]);
    }
  }

  lemma DispatchesOneField<A(!new)>(t: Table<A>, rank: map<nat, nat>, room: nat, app: A, ps: PState, fields: seq<Field>,
                                    level: nat)
    requires Ranked(t, rank) && Below(t, rank, level, fields) && |fields| == 1
    ensures fields[0] in fields
    ensures Dispatch(t, rank, room, app, ps, fields, level) ==
      match Lookup(t.local, fields[0].idx)
      case None => Ended(app, ps, true)
      case Some(p) =>
        var e := Run(t, rank, room, app, ps.(parseField := 0, eof := true), fields[0].data, p);
        Ended(e.app, e.ps.(parseField := ps.parseField, eof := false), e.ok)
  {
    assert fields[1..] == [];
  }

  // The field parsers of a protocol among any other registrations: each field id
  // of the map is registered at its index, and the protocol has no others.
  ghost predicate Registers<A>(t: Table<A>, regs: seq<Parser>, proto: nat, fields: map<nat, nat>) {
    && |t.parsers| == |regs| > 0 && Built(t.local, regs, proto, |regs| - 1)
    && (forall q <- regs :: q.localId <= MAX_ID) && MAX_ID !in fields
    && (forall id <- fields :: id != 0 && 1 <= fields[id] < |regs| && regs[fields[id]] == Parser(proto, id))
    && forall u | 1 <= u < |regs| && regs[u].proto == proto && regs[u].localId != 0 ::
         regs[u].localId in fields && fields[regs[u].localId] == u
  }

  // The map then leads exactly from these ids to these parsers.
  lemma LookupRegistered<A>(t: Table<A>, regs: seq<Parser>, proto: nat, fields: map<nat, nat>, id: nat)
    requires Registers(t, regs, proto, fields)
    ensures |t.local.fields| == t.local.mapSize
    ensures Lookup(t.local, id) == if id in fields then Some(fields[id]) else None
  {
    LookupIsLastRegistered(t.local, regs, proto, |regs| - 1);
    assert Last(regs, proto, MAX_ID, |regs| - 1).None?;
    var last := Last(regs, proto, id, |regs| - 1);
    if id in fields {
      assert last.Some? by {
        assert regs[fields[id]] == Parser(proto, id);
      }
    }
  }
}

// The tables of registered parsers (app-layer-parser.c): how the map from a
// protocol's field ids to parsers is built, and what a lookup in it gives.
module FieldMap {
  import opened Bytes

  const MAX_PARSERS := 100
  const ALPROTO_MAX := 14
  const MAX_ID := 0xFFFF

  // A registered parser; local id 0 means it parses no field.
  datatype Parser = Parser(proto: nat, localId: nat)

  // A protocol's map; one that was never allocated is empty.
  datatype Proto = Proto(mapSize: nat, fields: seq<Option<nat>>)

  // The last of the parsers 1 to n registered for a field.
  function Last(parsers: seq<Parser>, proto: nat, id: nat, n: nat): (r: Option<nat>)
    requires n < |parsers|
    ensures r.Some? ==> 1 <= r.value <= n && parsers[r.value] == Parser(proto, id) && id != 0
    ensures r.None? ==> id == 0 || forall u | 1 <= u <= n :: parsers[u] != Parser(proto, id)
    decreases n
  {
    if n == 0 || id == 0 then None
    else if parsers[n] == Parser(proto, id) then Some(n)
    else Last(parsers, proto, id, n - 1)
  }

  // The largest field id among the parsers 1 to n of a protocol.
  function MaxLocal(parsers: seq<Parser>, proto: nat, n: nat): nat
    requires n < |parsers|
    decreases n
  {
    if n == 0 then 0
    else
      var m := MaxLocal(parsers, proto, n - 1);
      if parsers[n].proto == proto && parsers[n].localId > m then parsers[n].localId else m
  }

  lemma {:induction false} LastIsAtMostMax(parsers: seq<Parser>, proto: nat, id: nat, n: nat)
    requires n < |parsers|
    ensures Last(parsers, proto, id, n).Some? ==> id <= MaxLocal(parsers, proto, n)
    decreases n
  {
    if n > 0 {
      LastIsAtMostMax(parsers, proto, id, n - 1);
    }
  }

  lemma {:induction false} MaxIsRegistered(parsers: seq<Parser>, proto: nat, n: nat)
    requires n < |parsers|
    ensures var m := MaxLocal(parsers, proto, n); m > 0 ==> Last(parsers, proto, m, n).Some?
    decreases n
  {
    if n > 0 {
      MaxIsRegistered(parsers, proto, n - 1);
    }
  }

  // The size of the map is a 16-bit number one above the largest id.
  function MapSize(max: nat): nat {
    if max == 0 then 0 else (max + 1) % (MAX_ID + 1)
  }

  ghost predicate Filled(fields: seq<Option<nat>>, parsers: seq<Parser>, proto: nat, n: nat)
    requires n < |parsers|
  {
    forall id | 0 <= id < |fields| :: fields[id] == Last(parsers, proto, id, n)
  }

  ghost predicate Built(p: Proto, parsers: seq<Parser>, proto: nat, n: nat)
    requires n < |parsers|
  {
    && p.mapSize == MapSize(MaxLocal(parsers, proto, n)) && |p.fields| == p.mapSize
    && Filled(p.fields, parsers, proto, n)
  }

  // The lookup of a field's parser: bounds first, then the entry.
  function Lookup(p: Proto, id: nat): Option<nat>
    requires |p.fields| == p.mapSize
  {
    if id >= p.mapSize || p.fields[id].None? then None else p.fields[id]
  }

  // Every lookup gives the last parser registered for the field, and none
  // exactly if none was, unless a parser uses the largest field id there is:
  // then the size wraps to 0 and no field has a parser.
  lemma LookupIsLastRegistered(p: Proto, parsers: seq<Parser>, proto: nat, n: nat)
    requires n < |parsers| && Built(p, parsers, proto, n) && (forall q <- parsers :: q.localId <= MAX_ID)
    ensures (forall id: nat :: Lookup(p, id) == Last(parsers, proto, id, n)) <==> Last(parsers, proto, MAX_ID, n).None?
  {
    var m := MaxLocal(parsers, proto, n);
    MaxIsRegistered(parsers, proto, n);
    LastIsAtMostMax(parsers, proto, MAX_ID, n);
    if Last(parsers, proto, MAX_ID, n).None? {
      assert m < MAX_ID by {
        if m > 0 {
          var u := Last(parsers, proto, m, n).value;
          assert parsers[u] in parsers;
        }
      }
      forall id: nat ensures Lookup(p, id) == Last(parsers, proto, id, n) {
        LastIsAtMostMax(parsers, proto, id, n);
      }
    } else {
      assert m == MAX_ID by {
        var u := Last(parsers, proto, m, n).value;
        assert parsers[u] in parsers;
      }
      assert Lookup(p, MAX_ID) != Last(parsers, proto, MAX_ID, n);
    }
  }

  // One parser with the largest id takes every other field's parser away.
  lemma LargestIdEmptiesTheMap(p: Proto)
    requires Built(p, [Parser(0, 0), Parser(1, 1), Parser(1, MAX_ID)], 1, 2)
    ensures Last([Parser(0, 0), Parser(1, 1), Parser(1, MAX_ID)], 1, 1, 2) == Some(1) && Lookup(p, 1) == None
  {
    var parsers := [Parser(0, 0), Parser(1, 1), Parser(1, MAX_ID)];
    assert MaxLocal(parsers, 1, 1) == 1;
    assert Last(parsers, 1, 1, 1) == Some(1);
  }

  class Registry {
    const parserTable: array<Parser>
    const protoTable: array<Proto>
    var maxParsers: nat

    ghost predicate Valid()
      reads this, parserTable
    {
      && parserTable.Length == MAX_PARSERS && protoTable.Length == ALPROTO_MAX && maxParsers < MAX_PARSERS
      && forall u | 1 <= u <= maxParsers :: parserTable[u].localId <= MAX_ID && parserTable[u].proto < ALPROTO_MAX
    }

    ghost predicate Unmapped()
      reads this, protoTable
    {
      forall q | 0 <= q < protoTable.Length :: protoTable[q] == Proto(0, [])
    }

    constructor ()
      ensures Valid() && Unmapped() && maxParsers == 0 && fresh(parserTable) && fresh(protoTable)
    {
      parserTable := new Parser[MAX_PARSERS](_ => Parser(0, 0));
      protoTable := new Proto[ALPROTO_MAX](_ => Proto(0, []));
      maxParsers := 0;
    }

    // The program ends when the table is full.
    method AppLayerRegisterParser(proto: nat, parserId: nat) returns (ok: bool)
      requires Valid() && proto < ALPROTO_MAX && parserId <= MAX_ID
      modifies this`maxParsers, parserTable
      ensures ok == (old(maxParsers) + 1 < MAX_PARSERS)
      ensures ok ==> Valid() && maxParsers == old(maxParsers) + 1
      ensures ok ==> parserTable[..] == old(parserTable[..])[maxParsers := Parser(proto, parserId)]
    {
      if maxParsers + 1 >= MAX_PARSERS {
        return false;
      }
      maxParsers := maxParsers + 1;
      parserTable[maxParsers] := Parser(proto, parserId);
      ok := true;
    }

    // For every protocol, a map in which each field leads to the last parser
    // registered for it.
    method AppLayerParsersInitPostProcess()
      requires Valid() && Unmapped()
      modifies protoTable
      ensures Valid()
      ensures forall q | 0 <= q < ALPROTO_MAX :: Built(protoTable[q], parserTable[..], q, maxParsers)
    {
      SizeMaps();
      var q := 0;
      while q < ALPROTO_MAX
        invariant 0 <= q <= ALPROTO_MAX
        invariant forall p | 0 <= p < q :: Built(protoTable[p], parserTable[..], p, maxParsers)
        invariant forall p | q <= p < ALPROTO_MAX ::
          protoTable[p] == Proto(MaxLocal(parserTable[..], p, maxParsers), [])
      {
        if protoTable[q].mapSize != 0 {
          FillMap(q);
        }
        q := q + 1;
      }
    }

    // The largest field id of every protocol.
    method SizeMaps()
      requires Valid() && Unmapped()
      modifies protoTable
      ensures forall p | 0 <= p < ALPROTO_MAX :: protoTable[p] == Proto(MaxLocal(parserTable[..], p, maxParsers), [])
    {
      var u := 1;
      while u <= maxParsers
        invariant 1 <= u <= maxParsers + 1
        invariant forall p | 0 <= p < ALPROTO_MAX :: protoTable[p] == Proto(MaxLocal(parserTable[..], p, u - 1), [])
      {
        var e := parserTable[u];
        if e.localId != 0 && e.localId > protoTable[e.proto].mapSize {
          protoTable[e.proto] := Proto(e.localId, []);
        }
        u := u + 1;
      }
    }

    method FillMap(q: nat)
      requires Valid() && q < ALPROTO_MAX && protoTable[q] == Proto(MaxLocal(parserTable[..], q, maxParsers), [])
      requires protoTable[q].mapSize != 0
      modifies protoTable
      ensures Built(protoTable[q], parserTable[..], q, maxParsers)
      ensures forall p | 0 <= p < ALPROTO_MAX && p != q :: protoTable[p] == old(protoTable[p])
    {
      var size := (protoTable[q].mapSize + 1) % (MAX_ID + 1);
      var fields: seq<Option<nat>> := seq(size, _ => None);
      var u := 1;
      while u <= maxParsers
        invariant 1 <= u <= maxParsers + 1 && |fields| == size
        invariant Filled(fields, parserTable[..], q, u - 1)
      {
        var e := parserTable[u];
        if e.localId != 0 && e.proto == q && e.localId < size {
          fields := fields[e.localId := Some(u)];
        }
        u := u + 1;
      }
      protoTable[q] := Proto(size, fields);
    }
  }
}

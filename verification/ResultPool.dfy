// The pool of result elements and the result lists drawn from it
// (app-layer-parser.c, util-pool.c).
module ResultPool {
  import opened Bytes
  import opened FieldParser

  class Elmt {
    var alloc: bool
    var nameIdx: nat
    var data: Data
    var next: Elmt?

    constructor () {
      alloc, nameIdx, data, next := false, 0, [], null;
    }
  }

  ghost predicate NoDup(s: seq<Elmt>) {
    forall i, j | 0 <= i < j < |s| :: s[i] != s[j]
  }

  // The elements of a stack: no two are the same, and these are all.
  ghost predicate Stacked(s: seq<Elmt>, elements: set<Elmt>)
    decreases |s|
  {
    if s == [] then elements == {} else s[0] in elements && Stacked(s[1..], elements - {s[0]})
  }

  // A pool with a fixed number of buckets: the elements at hand, first one
  // first, the number of buckets without one, and who has been given out.
  class Pool {
    const maxBuckets: nat
    var available: seq<Elmt>
    var empty: nat
    var created: nat
    var outstanding: nat
    ghost var free: set<Elmt>
    ghost var out: set<Elmt>

    ghost predicate Valid()
      reads this
    {
      && Stacked(available, free) && free !! out
      && |available| + empty == maxBuckets
      && outstanding == |out| && created == |available| + outstanding && created <= maxBuckets
    }

    // How many elements can still be had.
    ghost function Room(): int
      reads this
    {
      maxBuckets - outstanding
    }

    constructor (size: nat, preallocated: nat)
      requires preallocated <= size
      ensures Valid() && out == {} && maxBuckets == size && fresh(free)
    {
      maxBuckets, empty, created, outstanding := size, size, 0, 0;
      available, free, out := [], {}, {};
      new;
      while created < preallocated
        invariant Valid() && out == {} && fresh(free) && created <= preallocated
      {
        var e := new Elmt();
        available := [e] + available;
        free := free + {e};
        empty := empty - 1;
        created := created + 1;
      }
    }

    method PoolGet() returns (e: Elmt?)
      requires Valid()
      modifies this
      ensures Valid() && (e == null <==> old(Room()) == 0)
      ensures e == null ==> out == old(out) && free == old(free)
      ensures e != null ==> out == old(out) + {e} && e !in old(out) && (e in old(free) || fresh(e))
      ensures e != null ==> free == old(free) - {e}
    {
      if available != [] {
        e := available[0];
        assert available == [e] + available[1..];
        available := available[1..];
        free := free - {e};
        empty := empty + 1;
      } else {
        if created >= maxBuckets {
          return null;
        }
        created := created + 1;
        e := new Elmt();
      }
      outstanding := outstanding + 1;
      out := out + {e};
    }

    // There is always an empty bucket for an element that was given out.
    method PoolReturn(e: Elmt)
      requires Valid() && e in out
      modifies this
      ensures Valid() && out == old(out) - {e} && free == old(free) + {e}
    {
      assert out == (out - {e}) + {e};
      assert empty > 0;
      free := free + {e};
      empty := empty - 1;
      available := [e] + available;
      outstanding := outstanding - 1;
      out := out - {e};
    }
  }

  // An element out of the pool, filled in.
  method AlpGetResultElmt(pool: Pool, idx: nat, data: Data, alloc: bool) returns (e: Elmt?, ghost got: set<Elmt>)
    requires pool.Valid()
    modifies pool, pool.free
    ensures pool.Valid() && (e == null <==> old(pool.Room()) == 0)
    ensures pool.Room() == if e == null then old(pool.Room()) else old(pool.Room()) - 1
    ensures pool.out == old(pool.out) + got && pool.free == old(pool.free) - got
    ensures got !! old(pool.out) && fresh(got - old(pool.free))
    ensures if e == null then got == {} else got == {e} && e.next == null && FieldOf(e) == Field(idx, data)
  {
    e := pool.PoolGet();
    if e == null {
      return null, {};
    }
    got := {e};
    e.next := null;
    if alloc {
      e.alloc := true;
    }
    e.nameIdx := idx;
    e.data := data;
  }

  method AlpReturnResultElmt(pool: Pool, e: Elmt)
    requires pool.Valid() && e in pool.out
    modifies pool, e
    ensures pool.Valid() && pool.out == old(pool.out) - {e} && pool.free == old(pool.free) + {e}
  {
    e.alloc, e.data, e.next := false, [], null;
    pool.PoolReturn(e);
  }

  // ---- result lists ----

  ghost predicate Link(list: seq<Elmt>, i: nat)
    requires i < |list|
    reads list[i]
  {
    list[i].next == if i + 1 < |list| then list[i + 1] else null
  }

  function FieldOf(e: Elmt): Field
    reads e
  {
    Field(e.nameIdx, e.data)
  }

  function FieldsOf(list: seq<Elmt>): seq<Field>
    reads list
    decreases |list|
  {
    if list == [] then [] else FieldsOf(list[..|list| - 1]) + [FieldOf(list[|list| - 1])]
  }

  lemma {:induction false} FieldsAt(list: seq<Elmt>, i: nat)
    requires i < |list|
    ensures |FieldsOf(list)| == |list| && FieldsOf(list)[i] == FieldOf(list[i])
    decreases |list|
  {
    FieldsLength(list);
    if i < |list| - 1 {
      FieldsAt(list[..|list| - 1], i);
    }
  }

  lemma {:induction false} FieldsLength(list: seq<Elmt>)
    ensures |FieldsOf(list)| == |list|
    decreases |list|
  {
    if list != [] {
      FieldsLength(list[..|list| - 1]);
    }
  }

  lemma OneMoreBack(out: set<Elmt>, free: set<Elmt>, held: set<Elmt>, returned: set<Elmt>, e: Elmt)
    requires e in held
    ensures out - returned - {e} == out - (returned + {e})
    ensures (free + returned) + {e} == free + (returned + {e})
    ensures (held - {e}) + (returned + {e}) == held + returned
  {
  }

  class Result {
    var head: Elmt?
    var tail: Elmt?
    var cnt: nat
    ghost var list: seq<Elmt>
    ghost var held: set<Elmt>

    // One list from head to tail, as long as the count says.
    ghost predicate Valid()
      reads this, held
    {
      && cnt == |list| == |held| && NoDup(list) && (forall i | 0 <= i < |list| :: list[i] in held)
      && (if list == [] then head == null && tail == null else head == list[0] && tail == list[|list| - 1])
      && (forall i | 0 <= i < |list| :: Link(list, i))
    }

    ghost function Fields(): seq<Field>
      requires Valid()
      reads this, held
    {
      FieldsOf(list)
    }

    constructor ()
      ensures Valid() && list == [] && held == {}
    {
      head, tail, cnt, list, held := null, null, 0, [], {};
    }

    method AlpAppendResultElmt(e: Elmt)
      requires Valid() && e !in held && e.next == null
      modifies this, held
      ensures Valid() && list == old(list) + [e] && held == old(held) + {e}
      ensures Fields() == old(Fields()) + [old(FieldOf(e))]
    {
      ghost var before := list;
      ghost var fields := FieldsOf(list);
      FieldsLength(list);
      forall i | 0 <= i < |list| ensures FieldOf(list[i]) == fields[i] {
        FieldsAt(list, i);
      }
      if head == null {
        head := e;
        tail := e;
        cnt := 1;
      } else {
        label linking:
        tail.next := e;
        tail := e;
        cnt := cnt + 1;
        forall i | 0 <= i < |before| - 1 ensures before[i].next == before[i + 1] {
          assert old@linking(Link(before, i));
        }
      }
      list := before + [e];
      held := held + {e};
      forall i | 0 <= i < |list| ensures Link(list, i) {
      }
      SameFields(before, fields);
      assert list[..|list| - 1] == before;
    }

    // Storing a field fails exactly when the pool has no element left.
    method AlpStoreField(pool: Pool, idx: nat, data: Data, alloc: bool) returns (r: int, ghost got: set<Elmt>)
      requires pool.Valid() && Valid() && held <= pool.out
      modifies pool, pool.free, this, held
      ensures pool.Valid() && Valid() && held <= pool.out
      ensures r == if old(pool.Room()) == 0 then -1 else 0
      ensures pool.Room() == if r == -1 then old(pool.Room()) else old(pool.Room()) - 1
      ensures Fields() == old(Fields()) + if r == 0 then [Field(idx, data)] else []
      ensures held == old(held) + got && pool.out == old(pool.out) + got && pool.free == old(pool.free) - got
      ensures got !! old(pool.out) && fresh(got - old(pool.free))
    {
      var e;
      e, got := AlpGetResultElmt(pool, idx, data, alloc);
      forall i | 0 <= i < |list| ensures unchanged(list[i]) {
        assert list[i] in held;
      }
      assert FieldsOf(list) == old(FieldsOf(list));
      assert forall i | 0 <= i < |list| :: old(Link(list, i));
      if e == null {
        return -1, got;
      }
      AlpAppendResultElmt(e);
      r := 0;
    }

    // The first element taken off and given back.
    method ReturnFirst(pool: Pool) returns (e: Elmt)
      requires pool.Valid() && Valid() && list != [] && held <= pool.out
      modifies pool, this, held
      ensures pool.Valid() && Valid() && list == old(list)[1..]
      ensures e in old(held) && held == old(held) - {e} && held <= pool.out
      ensures pool.out == old(pool.out) - {e} && pool.free == old(pool.free) + {e}
    {
      e := head;
      assert Link(list, 0);
      var next := e.next;
      head := next;
      if next == null {
        tail := null;
      }
      cnt := cnt - 1;
      ghost var rest := list[1..];
      assert list == [e] + rest;
      forall i | 0 <= i < |rest| ensures Link(rest, i) && rest[i] != e && rest[i] in held {
        assert Link(list, i + 1) && list[i + 1] in held;
      }
      label returning:
      AlpReturnResultElmt(pool, e);
      list := rest;
      held := held - {e};
      forall i | 0 <= i < |list| ensures Link(list, i) {
        assert old@returning(Link(rest, i));
      }
    }

    // Every element goes back to the pool, once.
    method AppLayerParserResultCleanup(pool: Pool)
      requires pool.Valid() && Valid() && held <= pool.out
      modifies pool, this, held
      ensures pool.Valid() && Valid() && list == []
      ensures pool.out == old(pool.out) - old(held) && pool.free == old(pool.free) + old(held)
    {
      ghost var returned: set<Elmt> := {};
      while head != null
        invariant pool.Valid() && Valid() && held <= pool.out && held + returned == old(held)
        invariant pool.out == old(pool.out) - returned && pool.free == old(pool.free) + returned
        decreases |list|
      {
        ghost var before := held;
        var e := ReturnFirst(pool);
        OneMoreBack(old(pool.out), old(pool.free), before, returned, e);
        returned := returned + {e};
      }
    }
  }

  // Fields that were read off a list before are still the list's.
  lemma {:induction false} SameFields(list: seq<Elmt>, fields: seq<Field>)
    requires |fields| == |list| && forall i | 0 <= i < |list| :: FieldOf(list[i]) == fields[i]
    ensures FieldsOf(list) == fields
    decreases |list|
  {
    if list != [] {
      SameFields(list[..|list| - 1], fields[..|fields| - 1]);
      assert fields == fields[..|fields| - 1] + [fields[|fields| - 1]];
    }
  }

  // A parser storing all its fields.
  lemma TakeOneMore(fields: seq<Field>, k: nat)
    requires k < |fields|
    ensures fields[..k + 1] == fields[..k] + [Field(fields[k].idx, fields[k].data)]
  {
  }

  lemma HoldOneMore(out: set<Elmt>, free: set<Elmt>, held: set<Elmt>, got: set<Elmt>)
    ensures (out + held) + got == out + (held + got)
    ensures held + got - free <= (held - free) + (got - free)
    ensures held !! out && got !! out + held ==> held + got !! out
  {
  }

  method StoreFields(pool: Pool, result: Result, fields: seq<Field>)
    requires pool.Valid() && result.Valid() && result.held == {} && |fields| <= pool.Room()
    modifies pool, pool.free, result
    ensures pool.Valid() && result.Valid() && result.Fields() == fields && pool.Room() == old(pool.Room()) - |fields|
    ensures pool.out == old(pool.out) + result.held && pool.free <= old(pool.free)
    ensures result.held !! old(pool.out) && fresh(result.held - old(pool.free))
  {
    var k := 0;
    ghost var out, free := pool.out, pool.free;
    while k < |fields|
      invariant 0 <= k <= |fields| && pool.Valid() && result.Valid()
      invariant result.Fields() == fields[..k] && pool.Room() == old(pool.Room()) - k
      invariant pool.out == out + result.held && pool.free <= free && result.held !! out
      invariant fresh(result.held - free)
    {
      TakeOneMore(fields, k);
      ghost var held := result.held;
      var r, got := result.AlpStoreField(pool, fields[k].idx, fields[k].data, false);
      HoldOneMore(out, free, held, got);
      k := k + 1;
    }
    assert fields[..|fields|] == fields;
  }
}

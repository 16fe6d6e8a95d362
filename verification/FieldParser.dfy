// Cutting fields out of a byte stream that arrives in chunks: the parser state
// kept per direction, the list of fields a parser outputs, and the by-size,
// by-end-of-stream and by-delimiter cutters (app-layer-parser.c).
module FieldParser {
  import opened Bytes

  datatype Direction = ToServer | ToClient

  datatype Field = Field(idx: nat, data: Data)

  // Return codes of the cutters.
  const FOUND := 1
  const IN_PROGRESS := 0
  const ERROR := -1

  // How many result elements there are.
  const POOL_SIZE := 1000

  // The flags of a parser state that outlive a call, and the whole state.
  datatype Marks = Marks(done: bool, noInspection: bool, noReassembly: bool)

  const UNMARKED := Marks(false, false, false)

  datatype PState = PState(parseField: nat, eof: bool, store: Data, marks: Marks)

  const NEW_PSTATE := PState(0, false, [], UNMARKED)

  // The per-direction parser state; the flag byte is split into its bits.
  class ParserState {
    var eof: bool
    var done: bool
    var noInspection: bool
    var noReassembly: bool
    var store: Data
    var parseField: nat

    ghost function Value(): PState
      reads this
    {
      PState(parseField, eof, store, Marks(done, noInspection, noReassembly))
    }

    constructor ()
      ensures Value() == NEW_PSTATE
    {
      eof, done, noInspection, noReassembly := false, false, false, false;
      store, parseField := [], 0;
    }
  }

  // The fields a parser outputs, each of which takes one of the result elements
  // still to be had.
  class Output {
    var fields: seq<Field>
    var room: nat

    constructor (room: nat)
      ensures fields == [] && this.room == room
    {
      fields, this.room := [], room;
    }

    method AlpStoreField(idx: nat, data: Data) returns (r: int)
      modifies this
      ensures r == if old(room) == 0 then ERROR else 0
      ensures r == ERROR ==> fields == old(fields) && room == 0
      ensures r != ERROR ==> fields == old(fields) + [Field(idx, data)] && room == old(room) - 1
    {
      if room == 0 {
        return ERROR;
      }
      fields, room := fields + [Field(idx, data)], room - 1;
      r := 0;
    }
  }

  // What one call of a cutter leaves behind: the stored bytes, the field it
  // emitted if any, and by how much it moved the caller's offset.
  datatype Cut = Cut(store: Data, emitted: Option<Data>, consumed: nat)

  function Emitted(idx: nat, c: Cut): seq<Field> {
    if c.emitted.Some? then [Field(idx, c.emitted.value)] else []
  }

  function Code(c: Cut, room: nat): int {
    if c.emitted.None? then IN_PROGRESS else if room == 0 then ERROR else FOUND
  }

  // A field that cannot be stored stays behind in the store, unless nothing was
  // there before.
  function Kept(store: Data, all: Data): Data {
    if store == [] then [] else all
  }

  // What a cutter leaves in the store, and what it adds to the output.
  twostate predicate Cuts(output: Output, fieldIdx: nat, c: Cut, kept: Data, store: Data, r: int)
    reads output
  {
    && r == Code(c, old(output.room))
    && store == (if r == ERROR then kept else c.store)
    && output.fields == old(output.fields) + (if r == FOUND then Emitted(fieldIdx, c) else [])
    && output.room == old(output.room) - (if r == FOUND then 1 else 0)
  }

  // ---- fields of a known size ----

  function CutBySize(store: Data, size: nat, data: Data): Cut
    requires |store| <= size
  {
    if |store| + |data| < size then Cut(store + data, None, 0)
    else Cut([], Some((store + data)[..size]), size - |store|)
  }

  // A stored prefix longer than the field would make the remaining length
  // negative, so a caller must resume with the field it stored for.
  method AlpParseFieldBySize(output: Output, pstate: ParserState, fieldIdx: nat, size: nat, data: Data)
    returns (r: int, consumed: nat)
    requires |pstate.store| <= size
    modifies output, pstate`store
    ensures var c := CutBySize(old(pstate.store), size, data);
      && Cuts(output, fieldIdx, c, Kept(old(pstate.store), old(pstate.store) + data[..c.consumed]), pstate.store, r)
      && consumed == if r == ERROR then 0 else c.consumed
  {
    consumed := 0;
    if |pstate.store| + |data| < size {
      if |pstate.store| == 0 {
        pstate.store := data;
        assert old(pstate.store) + data == data;
      } else {
        pstate.store := pstate.store + data;
      }
    } else {
      if |pstate.store| == 0 {
        assert old(pstate.store) + data == data;
        r := output.AlpStoreField(fieldIdx, data[..size]);
        if r == ERROR {
          return;
        }
        consumed := size;
        return FOUND, consumed;
      } else {
        var diff := size - |pstate.store|;
        assert pstate.store + data[..diff] == (pstate.store + data)[..size];
        pstate.store := pstate.store + data[..diff];
        r := output.AlpStoreField(fieldIdx, pstate.store);
        if r == ERROR {
          return;
        }
        consumed := diff;
        pstate.store := [];
        return FOUND, consumed;
      }
    }
    return IN_PROGRESS, consumed;
  }

  // Feeding chunks until a field is cut: the field and the unconsumed input.
  datatype Fed = Pending(store: Data) | Done(field: Data, rest: Data)

  function FeedBySize(store: Data, size: nat, chunks: seq<Data>): Fed
    requires |store| <= size
    decreases |chunks|
  {
    if chunks == [] then Pending(store)
    else
      var c := CutBySize(store, size, chunks[0]);
      if c.emitted.Some? then Done(c.emitted.value, chunks[0][c.consumed..] + Flatten(chunks[1..]))
      else FeedBySize(c.store, size, chunks[1..])
  }

  // Whatever the chunking, the field is the first `size` bytes of the stream
  // and exactly the bytes after it stay unconsumed.
  lemma {:induction false} BySizeIgnoresChunking(store: Data, size: nat, chunks: seq<Data>)
    requires |store| < size
    ensures var stream := store + Flatten(chunks);
      FeedBySize(store, size, chunks) ==
        if |stream| < size then Pending(stream) else Done(stream[..size], stream[size..])
    decreases |chunks|
  {
    if chunks == [] {
      assert store + Flatten(chunks) == store;
    } else {
      var stream := store + Flatten(chunks);
      assert stream == (store + chunks[0]) + Flatten(chunks[1..]);
      if |store| + |chunks[0]| < size {
        BySizeIgnoresChunking(store + chunks[0], size, chunks[1..]);
      } else {
        assert stream[..size] == (store + chunks[0])[..size];
        assert stream[size..] == chunks[0][size - |store|..] + Flatten(chunks[1..]);
      }
    }
  }

  // ---- fields that run to the end of the stream ----

  function CutByEof(store: Data, eof: bool, data: Data): Cut {
    if eof then Cut([], Some(store + data), 0) else Cut(store + data, None, 0)
  }

  method AlpParseFieldByEOF(output: Output, pstate: ParserState, fieldIdx: nat, data: Data)
    returns (r: int)
    modifies output, pstate`store
    ensures var c := CutByEof(old(pstate.store), pstate.eof, data);
      Cuts(output, fieldIdx, c, Kept(old(pstate.store), old(pstate.store) + data), pstate.store, r)
  {
    if |pstate.store| == 0 {
      assert pstate.store + data == data;
      if pstate.eof {
        r := output.AlpStoreField(fieldIdx, data);
        return if r == ERROR then ERROR else FOUND;
      }
      pstate.store := data;
    } else if pstate.eof {
      pstate.store := pstate.store + data;
      r := output.AlpStoreField(fieldIdx, pstate.store);
      if r == ERROR {
        return;
      }
      pstate.store := [];
      return FOUND;
    } else {
      pstate.store := pstate.store + data;
    }
    return IN_PROGRESS;
  }

  // All chunks of a direction, the last one flagged as end of stream.
  function FeedByEof(store: Data, chunks: seq<Data>, last: Data): Cut
    decreases |chunks|
  {
    if chunks == [] then CutByEof(store, true, last)
    else FeedByEof(CutByEof(store, false, chunks[0]).store, chunks[1..], last)
  }

  lemma {:induction false} ByEofEmitsTheWholeStream(store: Data, chunks: seq<Data>, last: Data)
    ensures FeedByEof(store, chunks, last) == Cut([], Some(store + Flatten(chunks + [last])), 0)
    decreases |chunks|
  {
    FlattenAppend(chunks, [last]);
    assert Flatten([last]) == last + Flatten<byte>([]) == last;
    if chunks == [] {
      assert Flatten(chunks) == [] && store + ([] + last) == store + last;
      assert chunks + [last] == [last];
    } else {
      ByEofEmitsTheWholeStream(store + chunks[0], chunks[1..], last);
      FlattenAppend(chunks[1..], [last]);
      assert store + (Flatten(chunks) + last) == (store + chunks[0]) + (Flatten(chunks[1..]) + last);
    }
  }

  // ---- fields that end at a delimiter ----

  // The cutter as written: the chunk alone is searched first, and the stored
  // bytes are searched only when the chunk is shorter than the delimiter.
  function CutByDelimiter(store: Data, eof: bool, delim: Data, data: Data): Cut
  {
    var inChunk := Find(data, delim);
    if inChunk.Some? then
      Cut([], Some(store + data[..inChunk.value]), inChunk.value + |delim|)
    else if store == [] && eof then
      Cut([], None, 0)
    else if store == [] then
      Cut(data, None, 0)
    else
      var joined := store + data;
      var inStore := if |data| < |delim| then Find(joined, delim) else None;
      if inStore.Some? then Cut([], Some(joined[..inStore.value]), |data|)
      else if eof then Cut([], None, 0)
      else Cut(joined, None, 0)
  }

  // Behind a delimiter of the chunk the store is left without the delimiter.
  function KeptByDelimiter(store: Data, delim: Data, data: Data): Data {
    var inChunk := Find(data, delim);
    Kept(store, store + if inChunk.Some? then data[..inChunk.value] else data)
  }

  method AlpParseFieldByDelimiter(output: Output, pstate: ParserState, fieldIdx: nat, delim: Data, data: Data)
    returns (r: int, consumed: nat)
    modifies output, pstate`store
    ensures var c := CutByDelimiter(old(pstate.store), pstate.eof, delim, data);
      && Cuts(output, fieldIdx, c, KeptByDelimiter(old(pstate.store), delim, data), pstate.store, r)
      && consumed == if r == ERROR then 0 else c.consumed
  {
    consumed := 0;
    var ptr := Find(data, delim);
    if |pstate.store| == 0 {
      if ptr.Some? {
        var len := ptr.value;
        assert pstate.store + data[..len] == data[..len];
        r := output.AlpStoreField(fieldIdx, data[..len]);
        if r == ERROR {
          return;
        }
        consumed := len + |delim|;
        return FOUND, consumed;
      }
      if pstate.eof {
        return IN_PROGRESS, consumed;
      }
      pstate.store := data;
    } else if ptr.Some? {
      var len := ptr.value;
      pstate.store := pstate.store + data[..len];
      r := output.AlpStoreField(fieldIdx, pstate.store);
      if r == ERROR {
        return;
      }
      pstate.store := [];
      consumed := len + |delim|;
      return FOUND, consumed;
    } else if pstate.eof {
      if |delim| > |data| {
        pstate.store := pstate.store + data;
        if |pstate.store| >= |delim| {
          ptr := Find(pstate.store, delim);
          if ptr.Some? {
            r := output.AlpStoreField(fieldIdx, pstate.store[..ptr.value]);
            if r == ERROR {
              return;
            }
            pstate.store := [];
            consumed := |data|;
            return FOUND, consumed;
          }
        }
      }
      pstate.store := [];
      return IN_PROGRESS, consumed;
    } else {
      pstate.store := pstate.store + data;
      if |delim| > |data| && |delim| <= |pstate.store| {
        ptr := Find(pstate.store, delim);
        if ptr.Some? {
          r := output.AlpStoreField(fieldIdx, pstate.store[..ptr.value]);
          if r == ERROR {
            return;
          }
          pstate.store := [];
          consumed := |data|;
          return FOUND, consumed;
        }
      }
    }
    return IN_PROGRESS, consumed;
  }
}

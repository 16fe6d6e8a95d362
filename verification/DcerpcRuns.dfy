// Runs that mix data PDUs with BINDs and BIND_ACKs (app-layer-dcerpc.c): what
// they leave, and that what follows a PDU in its chunk is never read.
module DcerpcRuns {
  import opened Bytes
  import opened DcerpcStub
  import opened DcerpcBind
  import opened DcerpcParser

  // ---- what follows a PDU in its chunk ----

  // The last piece of a data PDU, with more behind it.
  lemma PieceTailIsDropped(s: State, piece: Data, tail: Data)
    requires 0 < s.bytes < s.hdr.frag && s.bytes + |piece| == s.hdr.frag
    ensures Call(s, piece + tail) == Call(s, piece)
  {
    assert (piece + tail)[..|piece|] == piece == piece[..|piece|];
  }

  lemma SameStart(pdu: Data, tail: Data)
    requires |pdu| >= HDR_LEN
    ensures |pdu + tail| >= |pdu| && HdrOf(pdu + tail) == HdrOf(pdu) && VersionOk(pdu + tail) == VersionOk(pdu)
    ensures forall i | 0 <= i < |pdu| :: (pdu + tail)[i] == pdu[i]
  {
    assert (pdu + tail)[8] == pdu[8] && (pdu + tail)[9] == pdu[9];
  }

  lemma SameItem(pdu: Data, tail: Data, i: nat)
    requires IsBind(pdu) && IsBind(pdu + tail) && NumItems(pdu + tail) == NumItems(pdu) && i < NumItems(pdu)
    ensures Item(pdu + tail, i) == Item(pdu, i)
  {
    var at := BIND_ITEMS + BIND_ITEM_LEN * i;
    SameStart(pdu, tail);
    assert (pdu + tail)[at + 12..at + 20] == pdu[at + 12..at + 20];
    assert UuidAt(pdu + tail, at) == UuidAt(pdu, at);
  }

  ghost predicate SameItems(a: Data, b: Data) {
    && IsBind(a) && IsBind(b) && NumItems(a) == NumItems(b)
    && forall i | 0 <= i < NumItems(a) :: Item(a, i) == Item(b, i)
  }

  ghost predicate OrderedAlike(a: Data, b: Data, k: nat) {
    IsBind(a) && IsBind(b) && k <= NumItems(a) == NumItems(b) && InOrder(a, k) == InOrder(b, k)
  }

  lemma OrderedAlikeOn(a: Data, b: Data, k: nat)
    requires OrderedAlike(a, b, k + 1) && Item(a, k).ctxid == Item(b, k).ctxid
    ensures OrderedAlike(a, b, k)
  {
  }

  lemma {:induction false} SameOrder(a: Data, b: Data, k: nat)
    requires SameItems(a, b) && k <= NumItems(a)
    ensures OrderedAlike(a, b, k)
    decreases NumItems(a) - k
  {
    if k < NumItems(a) {
      assert Item(a, k) == Item(b, k);
      SameOrder(a, b, k + 1);
      OrderedAlikeOn(a, b, k);
    }
  }

  ghost predicate OfferedAlike(a: Data, b: Data, n: nat) {
    IsBind(a) && IsBind(b) && n <= NumItems(a) == NumItems(b) && Offered(a, n) == Offered(b, n)
  }

  lemma OfferedAlikeOn(a: Data, b: Data, n: nat)
    requires OfferedAlike(a, b, n) && n < NumItems(a) && Item(a, n) == Item(b, n)
    ensures OfferedAlike(a, b, n + 1)
  {
  }

  lemma {:induction false} SameOffers(a: Data, b: Data, n: nat)
    requires SameItems(a, b) && n <= NumItems(a)
    ensures OfferedAlike(a, b, n)
    decreases n
  {
    if n > 0 {
      var k := n - 1;
      assert Item(a, k) == Item(b, k);
      SameOffers(a, b, k);
      OfferedAlikeOn(a, b, k);
    }
  }

  lemma SameBind(s: State, a: Data, b: Data)
    requires SameItems(a, b) && HdrOf(a) == HdrOf(b)
    ensures BindCall(s, a) == BindCall(s, b)
  {
    SameOrder(a, b, 0);
    SameOffers(a, b, InOrder(a, 0));
  }

  lemma BindTailIsDropped(s: State, pdu: Data, tail: Data)
    requires IsBind(pdu)
    ensures IsBind(pdu + tail) && BindCall(s, pdu + tail) == BindCall(s, pdu)
  {
    SameStart(pdu, tail);
    assert IsBind(pdu + tail) && NumItems(pdu + tail) == NumItems(pdu);
    forall i | 0 <= i < NumItems(pdu + tail) ensures Item(pdu + tail, i) == Item(pdu, i) {
      SameItem(pdu, tail, i);
    }
    SameBind(s, pdu + tail, pdu);
  }

  lemma {:induction false} SameAnswers(uuids: seq<Entry>, items: Data, tail: Data, k: nat)
    requires ACK_ITEM_LEN * k <= |items|
    ensures AssignFirst(uuids, items + tail, k) == AssignFirst(uuids, items, k)
    decreases k
  {
    if k > 0 {
      SameAnswers(uuids, items, tail, k - 1);
    }
  }

  lemma SameResults(pdu: Data, tail: Data)
    requires IsAck(pdu) && |pdu + tail| < 0x1_0000
    ensures IsAck(pdu + tail) && AddrLen(pdu + tail) == AddrLen(pdu) && NumResults(pdu + tail) == NumResults(pdu)
    ensures ItemsOf(pdu + tail) == ItemsOf(pdu) + tail
  {
    SameStart(pdu, tail);
    assert AddrLen(pdu + tail) == AddrLen(pdu) && ResultsAt(pdu + tail) == ResultsAt(pdu);
  }

  lemma SameResult(pdu: Data, tail: Data, k: nat)
    requires IsAck(pdu) && IsAck(pdu + tail) && k < NumResults(pdu) == NumResults(pdu + tail)
    requires ItemsOf(pdu + tail) == ItemsOf(pdu) + tail
    ensures Result(pdu + tail, k) == Result(pdu, k)
  {
  }

  lemma SameFound(s: State, pdu: Data, tail: Data)
    requires IsAck(pdu) && |pdu + tail| < 0x1_0000
    ensures IsAck(pdu + tail) && AckFound(s, pdu + tail) == AckFound(s, pdu)
  {
    SameResults(pdu, tail);
    SameStart(pdu, tail);
    SameAnswers(s.contexts.uuids, ItemsOf(pdu), tail, NumResults(pdu));
    if NumResults(pdu) > 0 {
      SameResult(pdu, tail, NumResults(pdu) - 1);
    }
  }

  // With the padding found, nothing behind a BIND_ACK matters.
  lemma AckTailIsDropped(s: State, pdu: Data, tail: Data)
    requires IsAck(pdu) && |pdu + tail| < 0x1_0000 && s.contexts.ctxBytes == 0 && FindsResults(s, pdu)
    ensures IsAck(pdu + tail) && AckCall(s, pdu + tail) == AckCall(s, pdu)
  {
    SameFound(s, pdu, tail);
    SameResults(pdu, tail);
    EveryResultIsRead(s, pdu);
    EveryResultIsRead(s, pdu + tail);
  }

  // ---- mixed runs ----

  // A PDU as it arrives, and what follows it in its last chunk.
  datatype Arrival =
    | DataArrival(data: Delivery, tail: Data)
    | BindArrival(pdu: Data, tail: Data)
    | AckArrival(pdu: Data, tail: Data)

  function PiecesOf(a: Arrival): (pieces: seq<Data>)
    ensures pieces != []
  {
    match a
    case DataArrival(d, _) => [d.head] + d.rest
    case BindArrival(pdu, _) => [pdu]
    case AckArrival(pdu, _) => [pdu]
  }

  // The chunks of a PDU, with what follows it.
  function ChunksOf(a: Arrival): seq<Data> {
    var pieces := PiecesOf(a);
    pieces[..|pieces| - 1] + [pieces[|pieces| - 1] + a.tail]
  }

  function ChunksOfAll(run: seq<Arrival>): seq<Data>
    decreases |run|
  {
    if run == [] then [] else ChunksOfAll(run[..|run| - 1]) + ChunksOf(run[|run| - 1])
  }

  // The parser copes with it: a first fragment brings its stub in one chunk, the
  // items of a BIND are in order, and the padding of a BIND_ACK is found.
  ghost predicate Readable(s: State, a: Arrival) {
    match a
    case DataArrival(d, _) => Proper(d)
    case BindArrival(pdu, _) => IsBind(pdu) && forall i | 0 <= i < NumItems(pdu) :: Item(pdu, i).ctxid == i
    case AckArrival(pdu, tail) => IsAck(pdu) && |pdu + tail| < 0x1_0000 && FindsResults(s, pdu)
  }

  // What a PDU means for the state, without what follows it.
  ghost function Arrive(s: State, a: Arrival): State {
    match a
    case DataArrival(d, _) => Deliver(s, d)
    case BindArrival(pdu, _) => if IsBind(pdu) then BindCall(s, pdu) else s
    case AckArrival(pdu, _) => if IsAck(pdu) && s.contexts.ctxBytes == 0 then AckCall(s, pdu) else s
  }

  ghost function ArriveAll(s: State, run: seq<Arrival>): State
    decreases |run|
  {
    if run == [] then s else Arrive(ArriveAll(s, run[..|run| - 1]), run[|run| - 1])
  }

  ghost predicate AllReadable(s: State, run: seq<Arrival>)
    decreases |run|
  {
    run == [] ||
    (AllReadable(s, run[..|run| - 1]) && Readable(ArriveAll(s, run[..|run| - 1]), run[|run| - 1]))
  }

  function DataOf(run: seq<Arrival>): seq<Delivery>
    decreases |run|
  {
    if run == [] then []
    else DataOf(run[..|run| - 1]) + if run[|run| - 1].DataArrival? then [run[|run| - 1].data] else []
  }

  lemma {:induction false} ParsedAllAppend(s: State, a: seq<Data>, b: seq<Data>)
    ensures ParsedAll(s, a + b) == ParsedAll(ParsedAll(s, a), b)
    ensures AllCovered(s, a) && AllCovered(ParsedAll(s, a), b) ==> AllCovered(s, a + b)
    decreases |b|
  {
    if b == [] {
      assert a + b == a;
    } else {
      assert (a + b)[..|a + b| - 1] == a + b[..|b| - 1];
      ParsedAllAppend(s, a, b[..|b| - 1]);
    }
  }

  // One more chunk, which is read as another one would be.
  lemma OneMoreParsed(s: State, front: seq<Data>, last: Data)
    requires AllCovered(s, front) && Covered(ParsedAll(s, front), last)
    ensures AllCovered(s, front + [last]) && ParsedAll(s, front + [last]) == Parsed(ParsedAll(s, front), last)
  {
    assert (front + [last])[..|front|] == front;
  }

  // Before its last piece a data PDU is under way or not yet begun.
  lemma LastPieceIsDue(s: State, d: Delivery)
    requires s.bytes == 0 && Proper(d) && d.rest != []
    ensures var t := CallAll(s, [d.head] + d.rest[..|d.rest| - 1]);
      0 < t.bytes < t.hdr.frag && t.bytes + |d.rest[|d.rest| - 1]| == t.hdr.frag
  {
    var before, c := d.rest[..|d.rest| - 1], d.rest[|d.rest| - 1];
    assert before + [c] == d.rest;
    LastApart(d.head, before, c);
    PieceByPiece(s, d.head, before, Whole(d));
  }

  lemma DataIsParsed(s: State, d: Delivery, tail: Data)
    requires s.bytes == 0 && s.contexts.ctxBytes == 0 && Proper(d)
    ensures var chunks := ChunksOf(DataArrival(d, tail));
      AllCovered(s, chunks) && ParsedAll(s, chunks) == Deliver(s, d) && Deliver(s, d).contexts.ctxBytes == 0
  {
    var pieces := [d.head] + d.rest;
    var front, last := pieces[..|pieces| - 1], pieces[|pieces| - 1];
    assert front + [last] == pieces;
    PiecesAreADataRun(s, d.head, d.rest, Whole(d));
    DataRunsAreCovered(s, pieces);
    DataRunsAreCovered(s, front);
    CallSnoc(s, front, last);
    var t := CallAll(s, front);
    if d.rest == [] {
      assert front == [] && last == d.head && Whole(d) == d.head + Flatten<byte>([]) == d.head;
      SameHeader(last, last + tail);
      TailIsDropped(s, last, tail);
    } else {
      assert front == [d.head] + d.rest[..|d.rest| - 1] && last == d.rest[|d.rest| - 1];
      LastPieceIsDue(s, d);
      PieceTailIsDropped(t, last, tail);
    }
    OneMoreParsed(s, front, last + tail);
  }

  lemma BindIsParsed(s: State, pdu: Data, tail: Data)
    requires s.bytes == 0 && s.contexts.ctxBytes == 0 && IsBind(pdu)
    ensures Covered(s, pdu + tail) && Parsed(s, pdu + tail) == BindCall(s, pdu)
  {
    BindTailIsDropped(s, pdu, tail);
    SameStart(pdu, tail);
  }

  lemma AckIsParsed(s: State, pdu: Data, tail: Data)
    requires s.bytes == 0 && s.contexts.ctxBytes == 0
    requires IsAck(pdu) && |pdu + tail| < 0x1_0000 && FindsResults(s, pdu)
    ensures Covered(s, pdu + tail) && Parsed(s, pdu + tail) == AckCall(s, pdu)
  {
    AckTailIsDropped(s, pdu, tail);
    SameStart(pdu, tail);
  }

  // One PDU, read as if nothing followed it.
  lemma ArrivalIsParsed(s: State, a: Arrival)
    requires s.bytes == 0 && s.contexts.ctxBytes == 0 && Readable(s, a)
    ensures AllCovered(s, ChunksOf(a)) && ParsedAll(s, ChunksOf(a)) == Arrive(s, a)
  {
    match a
    case DataArrival(d, tail) =>
      DataIsParsed(s, d, tail);
    case BindArrival(pdu, tail) =>
      BindIsParsed(s, pdu, tail);
      OneMoreParsed(s, [], pdu + tail);
      assert ChunksOf(a) == [] + [pdu + tail];
    case AckArrival(pdu, tail) =>
      AckIsParsed(s, pdu, tail);
      OneMoreParsed(s, [], pdu + tail);
      assert ChunksOf(a) == [] + [pdu + tail];
  }

  // It ends where the next one may begin, and only data reaches the buffers.
  lemma ArrivalEnds(s: State, a: Arrival)
    requires s.bytes == 0 && s.contexts.ctxBytes == 0 && Readable(s, a)
    ensures Arrive(s, a).bytes == 0 && Arrive(s, a).contexts.ctxBytes == 0
    ensures !a.DataArrival? ==> Arrive(s, a).request == s.request && Arrive(s, a).response == s.response
  {
    match a
    case DataArrival(d, tail) =>
      DataIsParsed(s, d, tail);
      OneDelivery(s, d);
    case BindArrival(pdu, tail) =>
      BindListsItsContexts(s, pdu);
    case AckArrival(pdu, tail) =>
      EveryResultIsRead(s, pdu);
  }

  // The buffers are those of some data PDUs.
  ghost predicate BuffersOf(s: State, t: State, ds: seq<Delivery>) {
    AllProper(ds)
    && t.request == SinceFirst(REQUEST, s.request, ds)
    && t.response == SinceFirst(RESPONSE, s.response, ds)
  }

  lemma BuffersOn(s: State, t: State, ds: seq<Delivery>, a: Arrival)
    requires t.bytes == 0 && t.contexts.ctxBytes == 0 && Readable(t, a) && BuffersOf(s, t, ds)
    ensures BuffersOf(s, Arrive(t, a), ds + if a.DataArrival? then [a.data] else [])
  {
    if a.DataArrival? {
      OneDelivery(t, a.data);
      assert (ds + [a.data])[..|ds|] == ds;
    } else {
      ArrivalEnds(t, a);
      assert ds + [] == ds;
    }
  }

  // In every run of data PDUs, BINDs and BIND_ACKs the parser copes with, whatever
  // follows a PDU in its chunk is never read, and the buffers are those of the
  // data PDUs alone.
  lemma {:induction false} MixedRunsAreRead(s: State, run: seq<Arrival>)
    requires s.bytes == 0 && s.contexts.ctxBytes == 0 && AllReadable(s, run)
    ensures AllCovered(s, ChunksOfAll(run)) && ParsedAll(s, ChunksOfAll(run)) == ArriveAll(s, run)
    ensures var t := ArriveAll(s, run); t.bytes == 0 && t.contexts.ctxBytes == 0 && BuffersOf(s, t, DataOf(run))
    decreases |run|
  {
    if run != [] {
      var front, a := run[..|run| - 1], run[|run| - 1];
      MixedRunsAreRead(s, front);
      var t := ArriveAll(s, front);
      ArrivalIsParsed(t, a);
      ArrivalEnds(t, a);
      ParsedAllAppend(s, ChunksOfAll(front), ChunksOf(a));
      BuffersOn(s, t, DataOf(front), a);
    }
  }
}

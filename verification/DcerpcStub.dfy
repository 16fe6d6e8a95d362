// DCERPC PDUs over TCP (app-layer-dcerpc.c): the state of the parser, what a
// chunk of a REQUEST or RESPONSE does to it, and how stub data is put together
// again from fragments (C706, section 12.6.4.9).
module DcerpcStub {
  import opened Bytes

  const REQUEST: byte := 0
  const RESPONSE: byte := 2
  const BIND: byte := 11
  const BIND_ACK: byte := 12
  const ALTER_CONTEXT: byte := 14
  const ALTER_CONTEXT_RESP: byte := 15
  const HDR_LEN := 16
  const DATA_HDR_LEN := 24
  const LITTLE_ENDIAN: byte := 0x10

  function Le16(lo: byte, hi: byte): (n: nat)
    ensures n < 0x1_0000
  {
    lo as int + 256 * (hi as int)
  }

  // A 16-bit number in the byte order a header announces.
  function Num16(drep: byte, a: byte, b: byte): (n: nat)
    ensures n < 0x1_0000
  {
    if drep == LITTLE_ENDIAN then Le16(a, b) else Le16(b, a)
  }

  function SubUint16(n: nat, k: nat): nat {
    (n - k) % 0x1_0000
  }

  // Type, flags, byte order and length of a PDU.
  datatype Hdr = Hdr(ptype: byte, flags: byte, drep: byte, frag: nat)

  function HdrOf(pdu: Data): Hdr
    requires |pdu| >= HDR_LEN
  {
    Hdr(pdu[2], pdu[3], pdu[4], Num16(pdu[4], pdu[8], pdu[9]))
  }

  predicate VersionOk(pdu: Data)
    requires |pdu| >= HDR_LEN
  {
    pdu[0] == 5 && (pdu[1] == 0 || pdu[1] == 1)
  }

  // A header on the wire, in the byte order it announces.
  function EncodeHdr(h: Hdr, auth: Data, callId: Data): Data
    requires h.frag < 0x1_0000 && |auth| == 2 && |callId| == 4
  {
    [5, 0, h.ptype, h.flags, h.drep, 0, 0, 0]
    + (if h.drep == LITTLE_ENDIAN then [h.frag % 256, h.frag / 256] else [h.frag / 256, h.frag % 256]) + auth + callId
  }

  lemma HdrRoundTrip(h: Hdr, auth: Data, callId: Data, rest: Data)
    requires h.frag < 0x1_0000 && |auth| == 2 && |callId| == 4
    ensures var pdu := EncodeHdr(h, auth, callId) + rest;
      VersionOk(pdu) && HdrOf(pdu) == h
  {
    var pdu := EncodeHdr(h, auth, callId) + rest;
    assert pdu[0] == 5 && pdu[1] == 0 && pdu[2] == h.ptype && pdu[3] == h.flags && pdu[4] == h.drep;
  }

  predicate IsFirstFrag(flags: byte) {
    flags % 2 == 1
  }

  // An interface offered in a BIND, with the answer to it.
  datatype Entry = Entry(ctxid: nat, uuid: Data, version: nat, minor: nat, result: nat)

  datatype Contexts = Contexts(num: nat, left: nat, ctxBytes: nat, uuids: seq<Entry>, addrLen: nat, addrLeft: nat,
                               result: nat)

  datatype State = State(hdr: Hdr, bytes: nat, pad: nat, padleft: nat, contexts: Contexts, opnum: nat,
                         request: Data, response: Data, transactionId: nat)

  const NEW_STATE := State(Hdr(0, 0, 0, 0), 0, 0, 0, Contexts(0, 0, 0, [], 0, 0, 0), 0, [], [], 1)

  // ---- one chunk of a data PDU ----

  function Buffer(s: State): Data {
    if s.hdr.ptype == REQUEST then s.request else s.response
  }

  function WithBuffer(s: State, b: Data): State {
    if s.hdr.ptype == REQUEST then s.(request := b) else s.(response := b)
  }

  // Stub bytes taken from the input; a first fragment starts the buffer anew
  // every time some of its bytes arrive.
  function TakeStub(s: State, input: Data): State
    requires s.bytes <= s.hdr.frag
  {
    var n := if s.hdr.frag - s.bytes < |input| then s.hdr.frag - s.bytes else |input|;
    if n == 0 then s
    else
      var kept := if IsFirstFrag(s.hdr.flags) then [] else Buffer(s);
      WithBuffer(s, kept + input[..n]).(bytes := s.bytes + n, padleft := s.hdr.frag - s.bytes - n)
  }

  function EndOfCall(s: State): State {
    var t := if s.bytes == s.hdr.frag then s.(bytes := 0) else s;
    if s.hdr.ptype == RESPONSE then t.(transactionId := (s.transactionId + 1) % 0x1_0000) else t
  }

  // The eight bytes after the header of a PDU that is longer than its header.
  function OpenData(s: State, input: Data): State
    requires |input| >= DATA_HDR_LEN
  {
    var h := HdrOf(input);
    if h.frag <= HDR_LEN then s.(hdr := h, bytes := HDR_LEN)
    else
      s.(hdr := h, bytes := DATA_HDR_LEN, padleft := SubUint16(h.frag, DATA_HDR_LEN),
         contexts := s.contexts.(num := 0),
         opnum := if h.ptype == REQUEST then Num16(h.drep, input[22], input[23]) else s.opnum)
  }

  predicate IsData(ptype: byte) {
    ptype == REQUEST || ptype == RESPONSE
  }

  // Between calls a data PDU is either over, under way with the rest of its
  // length noted, or shorter than the part of it that was read.
  ghost predicate Between(s: State) {
    s.bytes != 0 ==>
      && IsData(s.hdr.ptype) && s.bytes >= HDR_LEN && s.bytes != s.hdr.frag
      && (s.bytes < s.hdr.frag ==> s.bytes >= DATA_HDR_LEN && s.padleft == s.hdr.frag - s.bytes)
  }

  // The chunk starts a data PDU and holds its first 24 bytes.
  predicate Opens(input: Data) {
    |input| >= DATA_HDR_LEN && VersionOk(input) && IsData(input[2])
  }

  // A header that arrives in pieces is not part of this model.
  function Call(s: State, input: Data): State {
    if s.bytes == 0 then
      if !Opens(input) then s
      else
        var o := OpenData(s, input);
        EndOfCall(if o.bytes <= o.hdr.frag then TakeStub(o, input[DATA_HDR_LEN..]) else o)
    else if s.bytes < s.hdr.frag then EndOfCall(TakeStub(s, input))
    else EndOfCall(s)
  }

  lemma StubKeepsBetween(s: State, input: Data)
    requires IsData(s.hdr.ptype) && HDR_LEN <= s.bytes <= s.hdr.frag
    requires s.bytes < s.hdr.frag ==> s.bytes >= DATA_HDR_LEN && s.padleft == s.hdr.frag - s.bytes
    ensures Between(EndOfCall(TakeStub(s, input)))
  {
  }

  lemma CallKeepsBetween(s: State, input: Data)
    requires Between(s)
    ensures Between(Call(s, input))
  {
    if s.bytes == 0 && Opens(input) {
      var o := OpenData(s, input);
      if o.bytes <= o.hdr.frag {
        StubKeepsBetween(o, input[DATA_HDR_LEN..]);
      }
    } else if s.bytes != 0 && s.bytes < s.hdr.frag {
      StubKeepsBetween(s, input);
    }
  }

  function CallAll(s: State, chunks: seq<Data>): State
    decreases |chunks|
  {
    if chunks == [] then s else Call(CallAll(s, chunks[..|chunks| - 1]), chunks[|chunks| - 1])
  }

  // ---- one PDU in pieces ----

  predicate IsDataPdu(pdu: Data) {
    |pdu| >= DATA_HDR_LEN && VersionOk(pdu) && IsData(pdu[2]) && HdrOf(pdu).frag == |pdu|
  }

  function Stub(pdu: Data): Data
    requires |pdu| >= DATA_HDR_LEN
  {
    pdu[DATA_HDR_LEN..]
  }

  // The buffer after pieces of a stub.
  function Reassemble(first: bool, buffer: Data, pieces: seq<Data>): Data
    decreases |pieces|
  {
    if pieces == [] then buffer
    else
      var before, piece := Reassemble(first, buffer, pieces[..|pieces| - 1]), pieces[|pieces| - 1];
      if piece == [] then before else (if first then [] else before) + piece
  }

  function Buffered(s: State, ptype: byte): Data {
    if ptype == REQUEST then s.request else s.response
  }

  // The header as far as calls look at it is in the first 24 bytes.
  lemma SameHeader(a: Data, b: Data)
    requires |a| >= DATA_HDR_LEN && a <= b
    ensures HdrOf(a) == HdrOf(b) && VersionOk(a) == VersionOk(b) && a[2] == b[2]
  {
    assert forall i | 0 <= i < DATA_HDR_LEN :: a[i] == b[i];
  }

  // With n bytes of a PDU in, the parser has counted them, back at zero exactly
  // when it is complete; its buffer is what the pieces make of it.
  ghost predicate Arrived(s: State, t: State, pdu: Data, n: nat, pieces: seq<Data>)
    requires IsDataPdu(pdu)
  {
    && t.hdr == HdrOf(pdu) && n <= |pdu| && t.bytes == (if n == |pdu| then 0 else n)
    && (n < |pdu| ==> t.padleft == |pdu| - n)
    && Buffered(t, pdu[2]) == Reassemble(IsFirstFrag(pdu[3]), Buffered(s, pdu[2]), pieces)
    && (if pdu[2] == REQUEST then t.response == s.response else t.request == s.request)
  }

  lemma FirstPiece(s: State, head: Data, pdu: Data)
    requires s.bytes == 0 && IsDataPdu(pdu) && |head| >= DATA_HDR_LEN && head <= pdu
    ensures Arrived(s, Call(s, head), pdu, |head|, [head[DATA_HDR_LEN..]])
  {
    SameHeader(head, pdu);
    var piece := head[DATA_HDR_LEN..];
    var pieces := [piece];
    assert pieces[..0] == [] && piece[..|piece|] == piece;
  }

  lemma NextPiece(s: State, t: State, pdu: Data, n: nat, pieces: seq<Data>, c: Data)
    requires IsDataPdu(pdu) && Arrived(s, t, pdu, n, pieces) && c != [] && DATA_HDR_LEN <= n && n + |c| <= |pdu|
    ensures Arrived(s, Call(t, c), pdu, n + |c|, pieces + [c])
  {
    assert (pieces + [c])[..|pieces|] == pieces && c[..|c|] == c;
  }

  predicate NoneEmpty(pieces: seq<Data>)
    decreases |pieces|
  {
    pieces == [] || (pieces[|pieces| - 1] != [] && NoneEmpty(pieces[..|pieces| - 1]))
  }

  // Whatever the pieces after the first 24 bytes, this holds after each.
  lemma {:induction false} PieceByPiece(s: State, head: Data, rest: seq<Data>, pdu: Data)
    requires s.bytes == 0 && IsDataPdu(pdu) && |head| >= DATA_HDR_LEN && head + Flatten(rest) <= pdu
    requires NoneEmpty(rest)
    ensures Arrived(s, CallAll(s, [head] + rest), pdu, |head| + |Flatten(rest)|, [head[DATA_HDR_LEN..]] + rest)
    decreases |rest|
  {
    var piece := head[DATA_HDR_LEN..];
    if rest == [] {
      assert [head] + rest == [head] && [piece] + rest == [piece] && head + Flatten(rest) == head;
      CallOne(s, head);
      FirstPiece(s, head, pdu);
    } else {
      var before, c := rest[..|rest| - 1], rest[|rest| - 1];
      assert before + [c] == rest;
      LastApart(head, before, c);
      PieceByPiece(s, head, before, pdu);
      NextPiece(s, CallAll(s, [head] + before), pdu, |head| + |Flatten(before)|, [piece] + before, c);
      CallSnoc(s, [head] + before, c);
      ConcatAssociative([head], before, [c]);
      ConcatAssociative([piece], before, [c]);
    }
  }

  lemma CallSnoc(s: State, chunks: seq<Data>, c: Data)
    ensures CallAll(s, chunks + [c]) == Call(CallAll(s, chunks), c)
  {
    assert (chunks + [c])[..|chunks|] == chunks;
  }

  lemma CallOne(s: State, c: Data)
    ensures CallAll(s, [c]) == Call(s, c)
  {
    CallSnoc(s, [], c);
    assert [] + [c] == [c];
  }

  lemma LastApart(head: Data, before: seq<Data>, c: Data)
    ensures Flatten(before + [c]) == Flatten(before) + c
    ensures head + Flatten(before) <= head + Flatten(before + [c])
  {
    FlattenAppend(before, [c]);
    assert Flatten([c]) == c + Flatten<byte>([]) == c;
  }

  // ---- which pieces are kept ----

  // A later fragment is appended whatever its pieces are.
  lemma {:induction false} LaterFragmentIsAppended(buffer: Data, pieces: seq<Data>)
    ensures Reassemble(false, buffer, pieces) == buffer + Flatten(pieces)
    decreases |pieces|
  {
    if pieces == [] {
      assert buffer + Flatten<byte>([]) == buffer;
    } else {
      var before, c := pieces[..|pieces| - 1], pieces[|pieces| - 1];
      LaterFragmentIsAppended(buffer, before);
      assert pieces == before + [c];
      LastApart([], before, c);
      ConcatAssociative(buffer, Flatten(before), c);
    }
  }

  // How many pieces carry bytes.
  function Carrying(pieces: seq<Data>): nat
    decreases |pieces|
  {
    if pieces == [] then 0 else Carrying(pieces[..|pieces| - 1]) + if pieces[|pieces| - 1] == [] then 0 else 1
  }

  lemma {:induction false} NothingCarried(buffer: Data, pieces: seq<Data>)
    ensures Carrying(pieces) == 0 <==> Flatten(pieces) == []
    ensures Carrying(pieces) == 0 ==> Reassemble(true, buffer, pieces) == buffer
    decreases |pieces|
  {
    if pieces != [] {
      var before, c := pieces[..|pieces| - 1], pieces[|pieces| - 1];
      NothingCarried(buffer, before);
      assert pieces == before + [c];
      LastApart([], before, c);
    }
  }

  // A first fragment keeps only its last piece: it is kept whole exactly when
  // one piece carries all of its stub. (With no stub at all the old buffer
  // stays, which is right only if there was none.)
  lemma {:induction false} FirstFragmentKeptWhole(buffer: Data, pieces: seq<Data>)
    ensures Reassemble(true, buffer, pieces) == Flatten(pieces)
      <==> Carrying(pieces) == 1 || (Carrying(pieces) == 0 && buffer == [])
    decreases |pieces|
  {
    NothingCarried(buffer, pieces);
    if pieces != [] {
      var before, c := pieces[..|pieces| - 1], pieces[|pieces| - 1];
      FirstFragmentKeptWhole(buffer, before);
      NothingCarried(buffer, before);
      assert pieces == before + [c];
      LastApart([], before, c);
      if c == [] {
        assert Flatten(before) + c == Flatten(before);
      } else {
        assert Flatten(before) == [] ==> Flatten(before) + c == c;
        assert |Flatten(before) + c| == |Flatten(before)| + |c|;
      }
    }
  }

  // In two pieces, the first is lost.
  lemma SplitFirstFragmentLosesBytes(buffer: Data, a: Data, b: Data)
    requires a != [] && b != []
    ensures Reassemble(true, buffer, [a, b]) == b && Flatten([a, b]) == a + b != b
  {
    var pieces := [a, b];
    assert pieces[..1] == [a] && pieces[1..] == [b] && [] + b == b;
    assert Flatten([b]) == b + Flatten<byte>([]) == b;
    assert |a + b| > |b|;
  }

  // ---- runs of PDUs ----

  // A PDU as it arrives: a chunk with at least its first 24 bytes and the
  // chunks after that.
  datatype Delivery = Delivery(head: Data, rest: seq<Data>)

  function Whole(d: Delivery): Data {
    d.head + Flatten(d.rest)
  }

  function Pieces(d: Delivery): seq<Data>
    requires |d.head| >= DATA_HDR_LEN
  {
    [d.head[DATA_HDR_LEN..]] + d.rest
  }

  // First fragments bring all of their stub in one chunk.
  ghost predicate Proper(d: Delivery) {
    && |d.head| >= DATA_HDR_LEN && IsDataPdu(Whole(d)) && NoneEmpty(d.rest)
    && Stub(Whole(d)) != []
    && (IsFirstFrag(Whole(d)[3]) ==> Carrying(Pieces(d)) == 1)
  }

  ghost predicate AllProper(ds: seq<Delivery>)
    decreases |ds|
  {
    ds == [] || (Proper(ds[|ds| - 1]) && AllProper(ds[..|ds| - 1]))
  }

  function Deliver(s: State, d: Delivery): State {
    CallAll(s, [d.head] + d.rest)
  }

  function DeliverAll(s: State, ds: seq<Delivery>): State
    decreases |ds|
  {
    if ds == [] then s else Deliver(DeliverAll(s, ds[..|ds| - 1]), ds[|ds| - 1])
  }

  // The stub bytes since the most recent first fragment of a type.
  ghost function SinceFirst(ptype: byte, buffer: Data, ds: seq<Delivery>): Data
    requires AllProper(ds)
    decreases |ds|
  {
    if ds == [] then buffer
    else
      var before, pdu := SinceFirst(ptype, buffer, ds[..|ds| - 1]), Whole(ds[|ds| - 1]);
      if pdu[2] != ptype then before
      else if IsFirstFrag(pdu[3]) then Stub(pdu)
      else before + Stub(pdu)
  }

  lemma StubOfPieces(d: Delivery)
    requires |d.head| >= DATA_HDR_LEN
    ensures Flatten(Pieces(d)) == Stub(Whole(d))
  {
    assert Pieces(d)[0] == d.head[DATA_HDR_LEN..] && Pieces(d)[1..] == d.rest;
  }

  lemma OneDelivery(s: State, d: Delivery)
    requires s.bytes == 0 && Proper(d)
    ensures var t, pdu := Deliver(s, d), Whole(d);
      && t.bytes == 0
      && Buffered(t, pdu[2]) == (if IsFirstFrag(pdu[3]) then Stub(pdu) else Buffered(s, pdu[2]) + Stub(pdu))
      && (if pdu[2] == REQUEST then t.response == s.response else t.request == s.request)
  {
    PieceByPiece(s, d.head, d.rest, Whole(d));
    StubOfPieces(d);
    FirstFragmentKeptWhole(Buffered(s, Whole(d)[2]), Pieces(d));
    LaterFragmentIsAppended(Buffered(s, Whole(d)[2]), Pieces(d));
  }

  // In every run of requests and responses each buffer holds exactly the stub
  // bytes since the last first fragment of its direction, and between PDUs no
  // byte is counted.
  lemma {:induction false} RunsReassemble(s: State, ds: seq<Delivery>)
    requires s.bytes == 0 && AllProper(ds)
    ensures var t := DeliverAll(s, ds);
      && t.bytes == 0
      && t.request == SinceFirst(REQUEST, s.request, ds) && t.response == SinceFirst(RESPONSE, s.response, ds)
    decreases |ds|
  {
    if ds != [] {
      var before, d := ds[..|ds| - 1], ds[|ds| - 1];
      RunsReassemble(s, before);
      OneDelivery(DeliverAll(s, before), d);
    }
  }

  // ---- PDUs shorter than the part of them that is read ----

  // The parser is stuck when it has counted more bytes than the PDU has.
  ghost predicate Stuck(s: State) {
    IsData(s.hdr.ptype) && s.bytes > s.hdr.frag && s.bytes >= HDR_LEN
  }

  lemma {:induction false} StuckForGood(s: State, chunks: seq<Data>)
    requires Stuck(s)
    ensures var t := CallAll(s, chunks);
      Stuck(t) && t.bytes == s.bytes && t.request == s.request && t.response == s.response
    decreases |chunks|
  {
    if chunks != [] {
      StuckForGood(s, chunks[..|chunks| - 1]);
    }
  }

  // A REQUEST that announces 20 bytes.
  lemma TwentyBytesAreTooFew()
    ensures var pdu: Data := [5, 0, REQUEST, 3, LITTLE_ENDIAN, 0, 0, 0, 20, 0, 0, 0,
                             0, 0, 0, 0, 0, 0, 0, 0, 0, 0, 0, 0];
      Opens(pdu) && Stuck(Call(NEW_STATE, pdu))
  {
    var pdu: Data := [5, 0, REQUEST, 3, LITTLE_ENDIAN, 0, 0, 0, 20, 0, 0, 0, 0, 0, 0, 0, 0, 0, 0, 0, 0, 0, 0, 0];
    CompleteUnlessTooShort(NEW_STATE, pdu);
  }

  // A chunk with as many bytes as its PDU announces completes the PDU exactly
  // when the announced length is 16 or at least 24; any other length leaves
  // the parser stuck.
  lemma CompleteUnlessTooShort(s: State, input: Data)
    requires s.bytes == 0 && Opens(input) && |input| >= HdrOf(input).frag
    ensures Call(s, input).bytes == 0 <==> HdrOf(input).frag == HDR_LEN || HdrOf(input).frag >= DATA_HDR_LEN
    ensures Call(s, input).bytes != 0 ==> Stuck(Call(s, input))
  {
  }
}

// The DCERPC parser (app-layer-dcerpc.c): one call with one chunk, tied to what
// the chunk does to the state.
module DcerpcParser {
  import opened Bytes
  import opened DcerpcStub
  import opened DcerpcBind

  // What the data branch does from behind the header.
  function DataBranch(s: State, input: Data): State
    requires s.bytes == HDR_LEN && s.hdr.frag > HDR_LEN ==> |input| >= 8
  {
    if s.bytes == HDR_LEN && s.hdr.frag > HDR_LEN then
      var o := s.(bytes := DATA_HDR_LEN, padleft := SubUint16(s.hdr.frag, DATA_HDR_LEN),
                 contexts := s.contexts.(num := 0),
                  opnum := if s.hdr.ptype == REQUEST then Num16(s.hdr.drep, input[6], input[7]) else s.opnum);
      EndOfCall(if o.bytes <= o.hdr.frag then TakeStub(o, input[8..]) else o)
    else if s.bytes < s.hdr.frag then EndOfCall(TakeStub(s, input))
    else EndOfCall(s)
  }

  lemma DataBranchIsCall(s: State, input: Data)
    requires s.bytes == 0 && Opens(input)
    ensures Call(s, input) == DataBranch(s.(hdr := HdrOf(input), bytes := HDR_LEN), input[HDR_LEN..])
  {
    assert input[HDR_LEN..][8..] == input[DATA_HDR_LEN..];
  }

  // The chunks this model covers: those of data PDUs once the first 24 bytes
  // are in, and whole BINDs and BIND_ACKs.
  ghost predicate Covered(s: State, input: Data) {
    if s.bytes == 0 then
      |input| >= HDR_LEN && s.contexts.ctxBytes == 0
      && (VersionOk(input) ==>
        if IsData(input[2]) then |input| >= DATA_HDR_LEN
        else if IsBindType(input[2]) then IsBind(input)
        else if IsAckType(input[2]) then IsAck(input)
        else true)
    else
      Between(s)
  }

  // What a call does.
  ghost function Parsed(s: State, input: Data): State
    requires Covered(s, input)
  {
    if s.bytes != 0 then Call(s, input)
    else if !VersionOk(input) then s
    else if IsData(input[2]) then Call(s, input)
    else if IsBindType(input[2]) then BindCall(s, input)
    else if IsAckType(input[2]) then AckCall(s, input)
    else s.(hdr := HdrOf(input))
  }

  // ---- runs of data chunks ----

  // Whenever a PDU has ended, the next chunk starts a data PDU.
  ghost predicate DataRun(s: State, chunks: seq<Data>)
    decreases |chunks|
  {
    chunks == [] ||
    (var front := chunks[..|chunks| - 1];
     DataRun(s, front) && (CallAll(s, front).bytes == 0 ==> Opens(chunks[|chunks| - 1])))
  }

  // All calls on some chunks, as far as this model covers them.
  ghost function ParsedAll(s: State, chunks: seq<Data>): State
    decreases |chunks|
  {
    if chunks == [] then s
    else
      var t, last := ParsedAll(s, chunks[..|chunks| - 1]), chunks[|chunks| - 1];
      if Covered(t, last) then Parsed(t, last) else t
  }

  ghost predicate AllCovered(s: State, chunks: seq<Data>)
    decreases |chunks|
  {
    chunks == [] ||
    (var front := chunks[..|chunks| - 1];
     AllCovered(s, front) && Covered(ParsedAll(s, front), chunks[|chunks| - 1]))
  }

  // Call by call the parser then does what is said of such runs.
  lemma {:induction false} DataRunsAreCovered(s: State, chunks: seq<Data>)
    requires Between(s) && s.contexts.ctxBytes == 0 && DataRun(s, chunks)
    ensures AllCovered(s, chunks) && ParsedAll(s, chunks) == CallAll(s, chunks)
    ensures Between(CallAll(s, chunks)) && CallAll(s, chunks).contexts.ctxBytes == 0
    decreases |chunks|
  {
    if chunks != [] {
      var front, last := chunks[..|chunks| - 1], chunks[|chunks| - 1];
      DataRunsAreCovered(s, front);
      CallKeepsBetween(CallAll(s, front), last);
    }
  }

  // A data PDU that arrives in pieces behind its first 24 bytes is such a run.
  lemma {:induction false} PiecesAreADataRun(s: State, head: Data, rest: seq<Data>, pdu: Data)
    requires s.bytes == 0 && IsDataPdu(pdu) && |head| >= DATA_HDR_LEN && head + Flatten(rest) <= pdu
    requires NoneEmpty(rest)
    ensures DataRun(s, [head] + rest)
    decreases |rest|
  {
    if rest == [] {
      var chunks := [head] + rest;
      assert chunks[..|chunks| - 1] == [] && chunks[|chunks| - 1] == head && head + Flatten(rest) == head;
      SameHeader(head, pdu);
      assert DataRun(s, chunks[..|chunks| - 1]) && Opens(head);
    } else {
      var before, c := rest[..|rest| - 1], rest[|rest| - 1];
      assert before + [c] == rest && ([head] + rest)[..|rest|] == [head] + before;
      LastApart(head, before, c);
      PiecesAreADataRun(s, head, before, pdu);
      PieceByPiece(s, head, before, pdu);
    }
  }

  lemma {:induction false} CallAllAppend(s: State, a: seq<Data>, b: seq<Data>)
    ensures CallAll(s, a + b) == CallAll(CallAll(s, a), b)
    decreases |b|
  {
    if b == [] {
      assert a + b == a;
    } else {
      assert (a + b)[..|a + b| - 1] == a + b[..|b| - 1];
      CallAllAppend(s, a, b[..|b| - 1]);
    }
  }

  lemma {:induction false} DataRunAppend(s: State, a: seq<Data>, b: seq<Data>)
    requires DataRun(s, a) && DataRun(CallAll(s, a), b)
    ensures DataRun(s, a + b)
    decreases |b|
  {
    if b == [] {
      assert a + b == a;
    } else {
      assert (a + b)[..|a + b| - 1] == a + b[..|b| - 1];
      DataRunAppend(s, a, b[..|b| - 1]);
      CallAllAppend(s, a, b[..|b| - 1]);
    }
  }

  // The chunks of all deliveries, in order.
  function Chunks(ds: seq<Delivery>): seq<Data>
    decreases |ds|
  {
    if ds == [] then [] else Chunks(ds[..|ds| - 1]) + ([ds[|ds| - 1].head] + ds[|ds| - 1].rest)
  }

  // Every run of proper deliveries is such a run of chunks, so that call by call
  // the parser does what is said of the run.
  lemma {:induction false} DeliveriesAreADataRun(s: State, ds: seq<Delivery>)
    requires s.bytes == 0 && AllProper(ds)
    ensures DataRun(s, Chunks(ds)) && CallAll(s, Chunks(ds)) == DeliverAll(s, ds)
    decreases |ds|
  {
    if ds != [] {
      var front, d := ds[..|ds| - 1], ds[|ds| - 1];
      DeliveriesAreADataRun(s, front);
      RunsReassemble(s, front);
      PiecesAreADataRun(DeliverAll(s, front), d.head, d.rest, Whole(d));
      DataRunAppend(s, Chunks(front), [d.head] + d.rest);
      CallAllAppend(s, Chunks(front), [d.head] + d.rest);
    }
  }

  lemma RunsAreParsed(s: State, ds: seq<Delivery>)
    requires s.bytes == 0 && s.contexts.ctxBytes == 0 && AllProper(ds)
    ensures AllCovered(s, Chunks(ds)) && ParsedAll(s, Chunks(ds)) == DeliverAll(s, ds)
  {
    DeliveriesAreADataRun(s, ds);
    DataRunsAreCovered(s, Chunks(ds));
  }

  // What follows a complete PDU in its chunk is dropped.
  lemma TailIsDropped(s: State, pdu: Data, tail: Data)
    requires s.bytes == 0 && IsDataPdu(pdu)
    ensures Call(s, pdu + tail) == Call(s, pdu)
  {
    SameHeader(pdu, pdu + tail);
    assert (pdu + tail)[22] == pdu[22] && (pdu + tail)[23] == pdu[23];
    var n := |pdu| - DATA_HDR_LEN;
    assert (pdu + tail)[DATA_HDR_LEN..][..n] == pdu[DATA_HDR_LEN..] == pdu[DATA_HDR_LEN..][..n];
  }

  class Dcerpc {
    var ptype: byte
    var flags: byte
    var drep: byte
    var frag: nat
    var bytesProcessed: nat
    var pad: nat
    var padleft: nat
    var numctxitems: nat
    var numctxitemsleft: nat
    var ctxbytesprocessed: nat
    var uuidList: seq<Entry>
    var secondaryaddrlen: nat
    var secondaryaddrlenleft: nat
    var result: nat
    var opnum: nat
    var requestStub: Data
    var responseStub: Data
    var transactionId: nat

    ghost function Value(): State
      reads this
    {
      State(Hdr(ptype, flags, drep, frag), bytesProcessed, pad, padleft,
            Contexts(numctxitems, numctxitemsleft, ctxbytesprocessed, uuidList, secondaryaddrlen,
                     secondaryaddrlenleft, result),
            opnum, requestStub, responseStub, transactionId)
    }

    ghost predicate Valid()
      reads this
    {
      frag < 0x1_0000 && padleft < 0x1_0000
    }

    constructor ()
      ensures Valid() && Value() == NEW_STATE
    {
      ptype, flags, drep, frag := 0, 0, 0, 0;
      bytesProcessed, pad, padleft := 0, 0, 0;
      numctxitems, numctxitemsleft, ctxbytesprocessed, uuidList := 0, 0, 0, [];
      secondaryaddrlen, secondaryaddrlenleft, result := 0, 0, 0;
      opnum, requestStub, responseStub, transactionId := 0, [], [], 1;
    }

    // The header in one piece.
    method DCERPCParseHeader(input: Data) returns (r: int)
      requires bytesProcessed == 0 && |input| >= HDR_LEN
      modifies this
      ensures if VersionOk(input) then r == 16 && Value() == old(Value()).(hdr := HdrOf(input), bytes := HDR_LEN)
              else r == -1 && Value() == old(Value())
      ensures r == 16 && old(Valid()) ==> Valid()
    {
      if input[0] != 5 || (input[1] != 0 && input[1] != 1) {
        return -1;
      }
      ptype := input[2];
      flags := input[3];
      drep := input[4];
      if drep == LITTLE_ENDIAN {
        frag := Le16(input[8], input[9]);
      } else {
        frag := Le16(input[9], input[8]);
      }
      bytesProcessed := HDR_LEN;
      return 16;
    }

    // ---- REQUEST and RESPONSE ----

    method DCERPCParseREQUEST(input: Data) returns (r: nat)
      requires bytesProcessed == HDR_LEN && |input| >= 8
      modifies this
      ensures r == 8
      ensures var s := old(Value());
        Value() == s.(bytes := DATA_HDR_LEN, contexts := s.contexts.(num := 0),
                      opnum := if s.hdr.ptype == REQUEST then Num16(s.hdr.drep, input[6], input[7]) else s.opnum)
    {
      numctxitems := 0;
      if ptype == REQUEST {
        if drep == LITTLE_ENDIAN {
          opnum := Le16(input[6], input[7]);
        } else {
          opnum := Le16(input[7], input[6]);
        }
      }
      bytesProcessed := bytesProcessed + 8;
      return 8;
    }

    method StubDataParser(input: Data) returns (stubLen: nat)
      requires bytesProcessed < frag && padleft == frag - bytesProcessed && input != []
      modifies this
      ensures Value() == TakeStub(old(Value()), input)
      ensures stubLen == if old(padleft) < |input| then old(padleft) else |input|
    {
      stubLen := if padleft < |input| then padleft else |input|;
      if ptype == REQUEST {
        if flags % 2 == 1 {
          requestStub := [];
        }
        requestStub := requestStub + input[..stubLen];
      } else {
        if flags % 2 == 1 {
          responseStub := [];
        }
        responseStub := responseStub + input[..stubLen];
      }
      padleft := padleft - stubLen;
      bytesProcessed := bytesProcessed + stubLen;
    }

    method ParseData(input0: Data)
      requires Valid() && (bytesProcessed == HDR_LEN && frag > HDR_LEN ==> |input0| >= 8)
      requires bytesProcessed != HDR_LEN && bytesProcessed < frag ==>
        bytesProcessed >= DATA_HDR_LEN && padleft == frag - bytesProcessed
      modifies this
      ensures Valid() && Value() == DataBranch(old(Value()), input0)
    {
      var input := input0;
      if bytesProcessed < HDR_LEN + 8 && bytesProcessed < frag && input != [] {
        var n := DCERPCParseREQUEST(input);
        input := input[n..];
        padleft := SubUint16(frag, bytesProcessed);
      }
      ReadStub(input);
      EndData();
    }

    // The stub bytes that are due, all at once.
    method ReadStub(input0: Data)
      requires Valid()
      requires bytesProcessed < frag ==> bytesProcessed >= DATA_HDR_LEN && padleft == frag - bytesProcessed
      modifies this
      ensures Valid()
      ensures Value() == if old(bytesProcessed) < old(frag) then TakeStub(old(Value()), input0) else old(Value())
    {
      var input := input0;
      ghost var start, taken := Value(), false;
      while bytesProcessed >= HDR_LEN + 8 && bytesProcessed < frag && padleft != 0 && input != []
        invariant Valid()
        invariant if taken then start.bytes < start.hdr.frag && Value() == TakeStub(start, input0)
                  else Value() == start && input == input0
        invariant taken ==> input == [] || bytesProcessed == frag
        decreases |input|
      {
        var n := StubDataParser(input);
        input := input[n..];
        taken := true;
      }
    }

    method EndData()
      requires Valid()
      modifies this
      ensures Valid() && Value() == EndOfCall(old(Value()))
    {
      if bytesProcessed == frag {
        bytesProcessed := 0;
      }
      if ptype == RESPONSE {
        transactionId := (transactionId + 1) % 0x1_0000;
      }
    }

    // ---- BIND and ALTER_CONTEXT ----

    method DCERPCParseBIND(input: Data) returns (r: nat)
      requires bytesProcessed == HDR_LEN && |input| >= 12
      modifies this
      ensures r == 12
      ensures var s := old(Value());
        Value() == s.(bytes := BIND_ITEMS, contexts := s.contexts.(num := input[8], left := input[8], uuids := []))
    {
      numctxitems := 0;
      uuidList := [];
      numctxitems := input[8];
      numctxitemsleft := numctxitems;
      bytesProcessed := bytesProcessed + 12;
      return 12;
    }

    // An item goes to the front of the list if it has the expected number.
    method DCERPCParseBINDCTXItem(input: Data) returns (r: nat)
      requires ctxbytesprocessed == 0 && |input| >= BIND_ITEM_LEN && 0 < numctxitemsleft <= numctxitems
      modifies this
      ensures var s, e := old(Value()), ItemAt(input, 0);
        if e.ctxid == s.contexts.num - s.contexts.left then
          && r == BIND_ITEM_LEN
          && Value() == s.(bytes := s.bytes + BIND_ITEM_LEN, contexts := s.contexts.(left := s.contexts.left - 1,
                           ctxBytes := BIND_ITEM_LEN, uuids := [e] + s.contexts.uuids))
        else r == 0 && Value() == s
    {
      var ctxid := Le16(input[0], input[1]);
      var uuid := [input[7], input[6], input[5], input[4], input[9], input[8], input[11], input[10]] + input[12..20];
      var version := Le16(input[20], input[21]);
      var versionminor := Le16(input[22], input[23]);
      if ctxid == numctxitems - numctxitemsleft {
        uuidList := [Entry(ctxid, uuid, version, versionminor, 0)] + uuidList;
        numctxitemsleft := numctxitemsleft - 1;
        bytesProcessed := bytesProcessed + BIND_ITEM_LEN;
        ctxbytesprocessed := ctxbytesprocessed + BIND_ITEM_LEN;
        return BIND_ITEM_LEN;
      }
      return 0;
    }

    // One round of the loop over the items; a bad item stops it.
    method ReadItem(input: Data, ghost pdu: Data, ghost s: State, ghost k: nat) returns (rest: Data)
      requires IsBind(pdu) && k < NumItems(pdu) && Reading(Value(), input, s, pdu, k)
      modifies this
      ensures if Item(pdu, k).ctxid == k then Reading(Value(), rest, s, pdu, k + 1) else AllRead(Value(), s, pdu)
    {
      ItemsAfter(pdu, k);
      var n := DCERPCParseBINDCTXItem(input);
      if n != 0 {
        if ctxbytesprocessed == BIND_ITEM_LEN {
          ctxbytesprocessed := 0;
        }
        rest := input[n..];
      } else {
        rest := [];
        numctxitemsleft := 0;
      }
    }

    // The items, up to the first one with a wrong number.
    method ReadItems(input0: Data, ghost pdu: Data, ghost s: State)
      requires Valid() && IsBind(pdu) && input0 == pdu[BIND_ITEMS..] && frag == HdrOf(pdu).frag
      requires s.hdr == HdrOf(pdu) && Value() == Midway(s, pdu, 0, NumItems(pdu))
      modifies this
      ensures Valid() && Value() == Midway(s, pdu, InOrder(pdu, 0), 0)
    {
      var input := input0;
      ghost var k, stopped := 0, false;
      while numctxitemsleft != 0 && bytesProcessed < frag && input != []
        invariant Valid() && k <= NumItems(pdu)
        invariant if stopped then AllRead(Value(), s, pdu) else Reading(Value(), input, s, pdu, k)
        decreases numctxitemsleft
      {
        ReadingHasMore(Value(), input, s, pdu, k);
        input := ReadItem(input, pdu, s, k);
        if Item(pdu, k).ctxid == k {
          k := k + 1;
        } else {
          stopped := true;
        }
      }
      if !stopped {
        ReadingHasMore(Value(), input, s, pdu, k);
      }
    }

    method ParseBind(input: Data, ghost pdu: Data)
      requires Valid() && IsBind(pdu) && input == pdu[HDR_LEN..] && ctxbytesprocessed == 0
      requires Value().hdr == HdrOf(pdu) && bytesProcessed == HDR_LEN
      modifies this
      ensures Valid() && Value() == BindCall(old(Value()), pdu)
    {
      ghost var s := Value();
      var n := DCERPCParseBIND(input);
      assert input[8] == pdu[24] && input[n..] == pdu[BIND_ITEMS..];
      ReadItems(input[n..], pdu, s);
      if bytesProcessed == frag {
        bytesProcessed := 0;
        ctxbytesprocessed := 0;
      }
    }

    // ---- BIND_ACK and ALTER_CONTEXT_RESP ----

    method DCERPCParseBINDACK(input: Data) returns (r: nat)
      requires bytesProcessed == HDR_LEN && |input| >= 10
      modifies this
      ensures r == 10
      ensures var s, len := old(Value()), Num16(old(drep), input[8], input[9]);
        Value() == s.(bytes := ACK_ADDR, contexts := s.contexts.(num := 0, addrLen := len, addrLeft := len))
    {
      numctxitems := 0;
      if drep == LITTLE_ENDIAN {
        secondaryaddrlen := Le16(input[8], input[9]);
      } else {
        secondaryaddrlen := Le16(input[9], input[8]);
      }
      secondaryaddrlenleft := secondaryaddrlen;
      bytesProcessed := bytesProcessed + 10;
      return 10;
    }

    // The counters are decremented once more than bytes are skipped.
    method DCERPCParseSecondaryAddr(input: Data) returns (p: nat)
      requires secondaryaddrlenleft <= 0xFFFF
      modifies this
      ensures p == Skipped(old(secondaryaddrlenleft), |input|)
      ensures var s := old(Value());
        Value() == s.(bytes := s.bytes + p,
                      contexts := s.contexts.(addrLeft := LeftAfter(s.contexts.addrLeft, |input|)))
    {
      p := 0;
      var inputLen := |input|;
      var more := true;
      ghost var left := secondaryaddrlenleft;
      while more
        invariant 0 <= p <= left && p <= |input|
        invariant more ==> inputLen == |input| - p && secondaryaddrlenleft == left - p
        invariant !more ==> p == Skipped(left, |input|) && secondaryaddrlenleft == LeftAfter(left, |input|)
        invariant Value() == old(Value()).(contexts := old(Value()).contexts.(addrLeft := secondaryaddrlenleft))
        decreases more, inputLen
      {
        more := secondaryaddrlenleft != 0;
        secondaryaddrlenleft := SubUint16(secondaryaddrlenleft, 1);
        if more {
          more := inputLen != 0;
          if more {
            inputLen := inputLen - 1;
            p := p + 1;
          }
        }
      }
      bytesProcessed := bytesProcessed + p;
    }

    method PaddingParser(input: Data) returns (p: nat)
      requires padleft <= 0xFFFF
      modifies this
      ensures p == Skipped(old(padleft), |input|)
      ensures Value() == old(Value()).(bytes := old(bytesProcessed) + p, padleft := LeftAfter(old(padleft), |input|))
    {
      p := 0;
      var inputLen := |input|;
      var more := true;
      ghost var left := padleft;
      while more
        invariant 0 <= p <= left && p <= |input|
        invariant more ==> inputLen == |input| - p && padleft == left - p
        invariant !more ==> p == Skipped(left, |input|) && padleft == LeftAfter(left, |input|)
        invariant Value() == old(Value()).(padleft := padleft)
        decreases more, inputLen
      {
        more := padleft != 0;
        padleft := SubUint16(padleft, 1);
        if more {
          more := inputLen != 0;
          if more {
            inputLen := inputLen - 1;
            p := p + 1;
          }
        }
      }
      bytesProcessed := bytesProcessed + p;
    }

    // The count is the first of four bytes; the call starts at the first.
    method DCERPCGetCTXItems(input: Data) returns (r: nat)
      requires ctxbytesprocessed == 0 && input != []
      modifies this
      ensures r == Skipped(4, |input|)
      ensures var s := old(Value());
        Value() == s.(bytes := s.bytes + r, contexts := s.contexts.(num := input[0], left := input[0], ctxBytes := r))
    {
      if |input| >= 4 {
        numctxitems := input[0];
        numctxitemsleft := numctxitems;
        ctxbytesprocessed := ctxbytesprocessed + 4;
        bytesProcessed := bytesProcessed + 4;
        return 4;
      }
      numctxitems := input[0];
      numctxitemsleft := numctxitems;
      r := 1;
      while r < 4 && r < |input|
        invariant 1 <= r <= |input| < 4
      {
        r := r + 1;
      }
      ctxbytesprocessed := ctxbytesprocessed + r;
      bytesProcessed := bytesProcessed + r;
    }

    // An item at once, or byte by byte from the byte at hand on.
    method DCERPCParseBINDACKCTXItem(input: Data) returns (r: nat)
      requires ctxbytesprocessed < ACK_ITEM_LEN && ctxbytesprocessed != 1 && input != [] && numctxitemsleft > 0
      modifies this
      ensures 0 < r == Skipped(ACK_ITEM_LEN - old(ctxbytesprocessed), |input|)
      ensures ctxbytesprocessed == old(ctxbytesprocessed) + r
      ensures var ctxBytes := if ctxbytesprocessed == ACK_ITEM_LEN then 0 else ctxbytesprocessed;
        Value().(contexts := Value().contexts.(ctxBytes := ctxBytes)) == TakeResult(old(Value()), input).state
    {
      if ctxbytesprocessed == 0 && |input| >= ACK_ITEM_LEN {
        WholeItem(input);
        r := ACK_ITEM_LEN;
      } else {
        r := ItemBytes(input);
      }
      ctxbytesprocessed := ctxbytesprocessed + r;
      bytesProcessed := bytesProcessed + r;
    }

    method WholeItem(input: Data)
      requires |input| >= ACK_ITEM_LEN && numctxitemsleft > 0
      modifies this`result, this`numctxitemsleft, this`uuidList
      ensures result == Le16(input[0], input[1]) && numctxitemsleft == old(numctxitemsleft) - 1
      ensures uuidList == Assign(old(uuidList), numctxitems - old(numctxitemsleft), result)
    {
      result := Le16(input[0], input[1]);
      AssignResult(numctxitems - numctxitemsleft, result);
      numctxitemsleft := numctxitemsleft - 1;
    }

    method ItemBytes(input: Data) returns (r: nat)
      requires ctxbytesprocessed < ACK_ITEM_LEN && ctxbytesprocessed != 1 && input != [] && numctxitemsleft > 0
      modifies this`result, this`numctxitemsleft, this`uuidList
      ensures r == Skipped(ACK_ITEM_LEN - ctxbytesprocessed, |input|)
      ensures ctxbytesprocessed == 0 ==> result == Le16(input[0], if |input| > 1 then input[1] else 0)
      ensures ctxbytesprocessed != 0 ==> result == old(result)
      ensures if ctxbytesprocessed + r == ACK_ITEM_LEN then
                uuidList == Assign(old(uuidList), numctxitems - old(numctxitemsleft), result)
                && numctxitemsleft == old(numctxitemsleft) - 1
              else uuidList == old(uuidList) && numctxitemsleft == old(numctxitemsleft)
    {
      var c := ctxbytesprocessed;
      r := 0;
      while c < ACK_ITEM_LEN && r < |input|
        invariant c == ctxbytesprocessed + r <= ACK_ITEM_LEN && r <= |input|
        invariant result == if ctxbytesprocessed != 0 || r == 0 then old(result)
                            else Le16(input[0], if r > 1 then input[1] else 0)
        invariant if c == ACK_ITEM_LEN then
                    uuidList == Assign(old(uuidList), numctxitems - old(numctxitemsleft), result)
                    && numctxitemsleft == old(numctxitemsleft) - 1
                  else uuidList == old(uuidList) && numctxitemsleft == old(numctxitemsleft)
      {
        if c == 0 {
          result := input[0];
        } else if c == 1 {
          result := result + 256 * (input[r] as int);
        } else if c == ACK_ITEM_LEN - 1 {
          AssignResult(numctxitems - numctxitemsleft, result);
          numctxitemsleft := numctxitemsleft - 1;
        }
        c, r := c + 1, r + 1;
      }
    }

    // The first entry of the context is looked for.
    method AssignResult(ctxid: int, result: nat)
      modifies this`uuidList
      ensures uuidList == Assign(old(uuidList), ctxid, result)
    {
      var i := 0;
      while i < |uuidList| && uuidList[i].ctxid != ctxid
        invariant 0 <= i <= |uuidList| && uuidList == old(uuidList)
        invariant Assign(uuidList, ctxid, result) == uuidList[..i] + Assign(uuidList[i..], ctxid, result)
      {
        AssignStep(uuidList, i, ctxid, result);
        i := i + 1;
      }
      if i < |uuidList| {
        AssignStep(uuidList, i, ctxid, result);
        uuidList := uuidList[i := uuidList[i].(result := result)];
      }
    }

    method ReadAddr(input0: Data, ghost pdu: Data) returns (input: Data)
      requires Valid() && IsAck(pdu) && input0 == pdu[HDR_LEN..]
      requires Value().hdr == HdrOf(pdu) && bytesProcessed == HDR_LEN
      modifies this
      ensures Valid() && Value() == AckOpens(old(Value()), pdu) && input == pdu[ACK_ADDR + AddrLen(pdu)..]
    {
      var n := DCERPCParseBINDACK(input0);
      input := input0[n..];
      assert input0[8] == pdu[24] && input0[9] == pdu[25] && input == pdu[ACK_ADDR..];
      if bytesProcessed < HDR_LEN + 10 + secondaryaddrlen && bytesProcessed < frag && input != [] {
        n := DCERPCParseSecondaryAddr(input);
        input := input[n..];
      }
    }

    method SetPad()
      requires bytesProcessed == HDR_LEN + 10 + secondaryaddrlen
      modifies this`pad, this`padleft
      ensures Value() == SetPadding(old(Value()))
    {
      if bytesProcessed % 4 != 0 {
        pad := 4 - bytesProcessed % 4;
        padleft := pad;
      }
    }

    // Padding is skipped in as many calls as it takes; one that skips nothing
    // drops the input.
    method ReadPadding(input0: Data) returns (input: Data)
      requires Valid()
      modifies this
      ensures Valid() && On(Value(), input) == SkipPadding(old(Value()), input0)
    {
      input := input0;
      while bytesProcessed < HDR_LEN + 10 + secondaryaddrlen + pad && bytesProcessed < frag && input != []
        invariant Valid() && SkipPadding(Value(), input) == SkipPadding(old(Value()), input0)
        decreases |input|
      {
        var n := PaddingParser(input);
        if n != 0 {
          input := input[n..];
        } else {
          input := [];
        }
      }
    }

    // The count is read at most once: either four bytes are counted or the input
    // ends.
    method ReadCount(input0: Data) returns (input: Data)
      requires Valid() && ctxbytesprocessed == 0
      modifies this
      ensures Valid() && On(Value(), input) == TakeCount(old(Value()), input0)
      ensures ctxbytesprocessed == 0 || ctxbytesprocessed == 4 || input == []
      ensures ctxbytesprocessed <= 4
    {
      input := input0;
      if HDR_LEN + 10 + pad + secondaryaddrlen <= bytesProcessed < HDR_LEN + 14 + pad + secondaryaddrlen
        && bytesProcessed < frag && input != []
      {
        var n := DCERPCGetCTXItems(input);
        input := input[n..];
      }
    }

    method ReadResult(input: Data) returns (rest: Data)
      requires Valid() && ctxbytesprocessed < ACK_ITEM_LEN
      requires ctxbytesprocessed != 1 && input != [] && numctxitemsleft > 0
      modifies this
      ensures Valid() && On(Value(), rest) == TakeResult(old(Value()), input)
      ensures ctxbytesprocessed == 0 || rest == []
    {
      var n := DCERPCParseBINDACKCTXItem(input);
      if ctxbytesprocessed == ACK_ITEM_LEN {
        ctxbytesprocessed := 0;
      }
      rest := input[n..];
    }

    method ReadResults(input0: Data)
      requires Valid() && ctxbytesprocessed < ACK_ITEM_LEN && (ctxbytesprocessed != 1 || input0 == [])
      modifies this
      ensures Valid() && Value() == TakeResults(old(Value()), input0)
    {
      var input := input0;
      while numctxitemsleft != 0 && bytesProcessed < frag && input != []
        invariant Valid() && ctxbytesprocessed < ACK_ITEM_LEN && (ctxbytesprocessed != 1 || input == [])
        invariant TakeResults(Value(), input) == TakeResults(old(Value()), input0)
        decreases |input|
      {
        input := ReadResult(input);
      }
    }

    method ParseAck(input0: Data, ghost pdu: Data)
      requires Valid() && IsAck(pdu) && input0 == pdu[HDR_LEN..] && ctxbytesprocessed == 0
      requires Value().hdr == HdrOf(pdu) && bytesProcessed == HDR_LEN
      modifies this
      ensures Valid() && Value() == AckCall(old(Value()), pdu)
    {
      ReadAck(input0, pdu);
      EndAck();
    }

    method EndAck()
      requires Valid()
      modifies this
      ensures Valid() && Value() == if old(bytesProcessed) == old(frag) then AckEnds(old(Value())) else old(Value())
    {
      if bytesProcessed == frag {
        bytesProcessed := 0;
        ctxbytesprocessed := 0;
        if ptype == BIND_ACK {
          transactionId := (transactionId + 1) % 0x1_0000;
        }
      }
    }

    method ReadAck(input0: Data, ghost pdu: Data)
      requires Valid() && IsAck(pdu) && input0 == pdu[HDR_LEN..] && ctxbytesprocessed == 0
      requires Value().hdr == HdrOf(pdu) && bytesProcessed == HDR_LEN
      modifies this
      ensures Valid() && Value() == AckRead(old(Value()), pdu) && Value().hdr == HdrOf(pdu)
    {
      var input := ReadAddr(input0, pdu);
      SetPad();
      ReadRest(input);
    }

    method ReadRest(input0: Data)
      requires Valid() && ctxbytesprocessed == 0
      modifies this
      ensures Valid() && Value() == AckRest(old(Value()), input0)
    {
      var input := ReadPadding(input0);
      input := ReadCount(input);
      if bytesProcessed == HDR_LEN + 14 + pad + secondaryaddrlen {
        ctxbytesprocessed := 0;
      }
      ReadResults(input);
    }

    // One call. What is left of the chunk behind a complete PDU is dropped.
    method DCERPCParser(input: Data)
      requires Valid() && Covered(Value(), input)
      modifies this
      ensures Valid() && Value() == Parsed(old(Value()), input)
    {
      var rest := input;
      if bytesProcessed < HDR_LEN && input != [] {
        var r := DCERPCParseHeader(input);
        if r == -1 {
          return;
        }
        rest := input[HDR_LEN..];
      }
      if ptype == BIND || ptype == ALTER_CONTEXT {
        ParseBind(rest, input);
      } else if ptype == BIND_ACK || ptype == ALTER_CONTEXT_RESP {
        ParseAck(rest, input);
      } else if ptype == REQUEST || ptype == RESPONSE {
        if old(bytesProcessed) == 0 {
          DataBranchIsCall(old(Value()), input);
        }
        ParseData(rest);
      } else {
        bytesProcessed := 0;
      }
    }
  }

  // In a BIND with k items read.
  ghost function Midway(s: State, pdu: Data, k: nat, left: nat): State
    requires IsBind(pdu) && k <= NumItems(pdu)
  {
    s.(bytes := BIND_ITEMS + BIND_ITEM_LEN * k,
       contexts := s.contexts.(num := NumItems(pdu), left := left, ctxBytes := 0, uuids := Offered(pdu, k)))
  }

  // With k items in order and more to read.
  ghost predicate Reading(v: State, rest: Data, s: State, pdu: Data, k: nat)
    requires IsBind(pdu) && k <= NumItems(pdu)
  {
    && v == Midway(s, pdu, k, NumItems(pdu) - k) && InOrder(pdu, k) == InOrder(pdu, 0)
    && rest == pdu[BIND_ITEMS + BIND_ITEM_LEN * k..]
  }

  // Behind the last item in order.
  ghost predicate AllRead(v: State, s: State, pdu: Data)
    requires IsBind(pdu)
  {
    v == Midway(s, pdu, InOrder(pdu, 0), 0)
  }

  lemma ReadingHasMore(v: State, rest: Data, s: State, pdu: Data, k: nat)
    requires IsBind(pdu) && k <= NumItems(pdu) && Reading(v, rest, s, pdu, k)
    ensures v.contexts.left == NumItems(pdu) - k
    ensures if k < NumItems(pdu) then v.bytes < HdrOf(pdu).frag && rest != [] else AllRead(v, s, pdu)
  {
  }

  lemma AssignStep(uuids: seq<Entry>, i: nat, ctxid: int, result: nat)
    requires i < |uuids|
    ensures uuids[..i] + Assign(uuids[i..], ctxid, result)
      == if uuids[i].ctxid == ctxid then uuids[i := uuids[i].(result := result)]
         else uuids[..i + 1] + Assign(uuids[i + 1..], ctxid, result)
  {
    assert uuids[i..][1..] == uuids[i + 1..] && uuids[..i + 1] == uuids[..i] + [uuids[i]];
    ConcatAssociative(uuids[..i], [uuids[i]], Assign(uuids[i + 1..], ctxid, result));
    ConcatAssociative(uuids[..i], [uuids[i].(result := result)], uuids[i + 1..]);
  }

  lemma ItemsAfter(pdu: Data, k: nat)
    requires IsBind(pdu) && k < NumItems(pdu)
    ensures var rest := pdu[BIND_ITEMS + BIND_ITEM_LEN * k..];
      && |rest| >= BIND_ITEM_LEN && ItemAt(rest, 0) == Item(pdu, k)
      && rest[BIND_ITEM_LEN..] == pdu[BIND_ITEMS + BIND_ITEM_LEN * (k + 1)..]
    ensures InOrder(pdu, k) == if Item(pdu, k).ctxid == k then InOrder(pdu, k + 1) else k
  {
    var rest := pdu[BIND_ITEMS + BIND_ITEM_LEN * k..];
    assert rest[12..20] == pdu[BIND_ITEMS + BIND_ITEM_LEN * k + 12..BIND_ITEMS + BIND_ITEM_LEN * k + 20];
  }
}

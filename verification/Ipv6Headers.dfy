// The walk over IPv6 extension headers (decode-ipv6.c; RFC 2460, section 4).
module Ipv6Headers {
  import opened Bytes

  const HOPOPTS: byte := 0
  const TCP: byte := 6
  const UDP: byte := 17
  const ROUTING: byte := 43
  const FRAGMENT: byte := 44
  const ESP: byte := 50
  const AH: byte := 51
  const NO_NEXT: byte := 59
  const DSTOPTS: byte := 60

  // Size of the routing header structure, with room for 23 addresses.
  const ROUTE_HEADER_LEN := 376
  const FRAG_HEADER_LEN := 8
  const ESP_HEADER_LEN := 8
  const AUTH_HEADER_LEN := 12
  const MAX_RECORDED := 40

  // The size of a header of a kind, from its length byte; other kinds end the
  // chain.
  function Size(kind: byte, length: byte): Option<nat> {
    if kind == ROUTING then Some(ROUTE_HEADER_LEN + length * 8)
    else if kind == HOPOPTS || kind == DSTOPTS then Some((length + 1) * 8)
    else if kind == FRAGMENT then Some(FRAG_HEADER_LEN)
    else if kind == ESP then Some(ESP_HEADER_LEN)
    else if kind == AH then Some(AUTH_HEADER_LEN + length * 4)
    else None
  }

  // An extension header found at an offset.
  datatype Ext = Ext(kind: byte, next: byte, at: nat, size: nat)

  datatype End =
    | Short
    | Truncated(kind: byte)
    | RepeatedEsp
    | Transport(proto: byte)
    | NoTransport(proto: byte)

  // The headers of a chain, and where and why it ends.
  datatype Walked = Walked(exts: seq<Ext>, at: nat, end: End)

  function Walk(pkt: Data, kind: byte, at: nat, espSeen: bool): Walked
    requires at <= |pkt|
    decreases |pkt| - at
  {
    if |pkt| - at < 2 then Walked([], at, Short)
    else
      match Size(kind, pkt[at + 1])
      case None => Walked([], at, if kind == TCP || kind == UDP then Transport(kind) else NoTransport(kind))
      case Some(size) =>
        if size > |pkt| - at then Walked([], at, Truncated(kind))
        else
          var e := Ext(kind, if kind == ESP then NO_NEXT else pkt[at], at, size);
          if kind == ESP && espSeen then Walked([e], at, RepeatedEsp)
          else
            var w := Walk(pkt, e.next, at + size, espSeen || kind == ESP);
            Walked([e] + w.exts, w.at, w.end)
  }

  // ---- what a walk is, for any bytes ----

  // Each header starts where the one before ends and has the kind that one
  // announces, from a given start on.
  ghost predicate Chained(exts: seq<Ext>, kind: byte, at: nat)
    decreases |exts|
  {
    exts == [] || (exts[0].kind == kind && exts[0].at == at && Chained(exts[1..], exts[0].next, at + exts[0].size))
  }

  function Total(exts: seq<Ext>): nat
    decreases |exts|
  {
    if exts == [] then 0 else exts[0].size + Total(exts[1..])
  }

  function LastNext(exts: seq<Ext>, kind: byte): byte
    decreases |exts|
  {
    if exts == [] then kind else LastNext(exts[1..], exts[0].next)
  }

  // The header at an offset, if the walk goes on with it.
  ghost predicate GoesOn(pkt: Data, kind: byte, at: nat, espSeen: bool, e: Ext) {
    && at <= |pkt| - 2 && Size(kind, pkt[at + 1]) == Some(e.size) && e.size <= |pkt| - at
    && e == Ext(kind, if kind == ESP then NO_NEXT else pkt[at], at, e.size)
    && !(kind == ESP && espSeen)
  }

  lemma OneOn(pkt: Data, kind: byte, at: nat, espSeen: bool, e: Ext)
    requires GoesOn(pkt, kind, at, espSeen, e)
    ensures var rest := Walk(pkt, e.next, at + e.size, espSeen || kind == ESP);
      Walk(pkt, kind, at, espSeen) == Walked([e] + rest.exts, rest.at, rest.end)
  {
  }

  lemma {:induction false} ChainedOn(e: Ext, exts: seq<Ext>)
    ensures Chained([e] + exts, e.kind, e.at) <==> Chained(exts, e.next, e.at + e.size)
    ensures Total([e] + exts) == e.size + Total(exts)
    ensures LastNext([e] + exts, e.kind) == LastNext(exts, e.next)
  {
    assert ([e] + exts)[1..] == exts;
  }

  // The headers are chained from the start on, the walk stops right behind
  // them and inside the packet, and what follows is of the announced kind.
  ghost predicate WellWalked(pkt: Data, kind: byte, at: nat, w: Walked) {
    && Chained(w.exts, kind, at) && w.at <= |pkt|
    && (!w.end.RepeatedEsp? ==> w.at == at + Total(w.exts))
    && (w.end.Transport? || w.end.NoTransport? ==> w.end.proto == LastNext(w.exts, kind) && |pkt| - w.at >= 2)
    && (w.end.Transport? ==> w.end.proto == TCP || w.end.proto == UDP)
    && (w.end.Truncated? ==> w.end.kind == LastNext(w.exts, kind))
  }

  lemma WellWalkedOn(pkt: Data, e: Ext, w: Walked)
    requires WellWalked(pkt, e.next, e.at + e.size, w)
    ensures WellWalked(pkt, e.kind, e.at, Walked([e] + w.exts, w.at, w.end))
  {
    ChainedOn(e, w.exts);
  }

  lemma {:induction false} WalkIsChained(pkt: Data, kind: byte, at: nat, espSeen: bool)
    requires at <= |pkt|
    ensures WellWalked(pkt, kind, at, Walk(pkt, kind, at, espSeen))
    decreases |pkt| - at
  {
    if at <= |pkt| - 2 && Size(kind, pkt[at + 1]).Some? && Size(kind, pkt[at + 1]).value <= |pkt| - at {
      var size := Size(kind, pkt[at + 1]).value;
      var e := Ext(kind, if kind == ESP then NO_NEXT else pkt[at], at, size);
      if kind == ESP && espSeen {
        assert Walk(pkt, kind, at, espSeen) == Walked([e], at, RepeatedEsp);
        ChainedOn(e, []);
      } else {
        var rest := Walk(pkt, e.next, at + size, espSeen || kind == ESP);
        OneOn(pkt, kind, at, espSeen, e);
        WalkIsChained(pkt, e.next, at + size, espSeen || kind == ESP);
        WellWalkedOn(pkt, e, rest);
      }
    } else {
      StopsAtOnce(pkt, kind, at, espSeen);
    }
  }

  // No header, or one that is cut off.
  lemma StopsAtOnce(pkt: Data, kind: byte, at: nat, espSeen: bool)
    requires at <= |pkt|
    requires at > |pkt| - 2 || Size(kind, pkt[at + 1]).None? || Size(kind, pkt[at + 1]).value > |pkt| - at
    ensures WellWalked(pkt, kind, at, Walk(pkt, kind, at, espSeen))
  {
  }

  // Nothing follows an ESP header, so only one remembered from before can be
  // repeated.
  lemma {:induction false} EspIsLast(pkt: Data, kind: byte, at: nat, espSeen: bool)
    requires at <= |pkt|
    ensures Walk(pkt, kind, at, espSeen).end.RepeatedEsp? ==> espSeen
    decreases |pkt| - at
  {
    if at <= |pkt| - 2 && Size(kind, pkt[at + 1]).Some? {
      var size := Size(kind, pkt[at + 1]).value;
      var e := Ext(kind, if kind == ESP then NO_NEXT else pkt[at], at, size);
      if size <= |pkt| - at && !(kind == ESP && espSeen) {
        OneOn(pkt, kind, at, espSeen, e);
        if kind == ESP {
          assert Walk(pkt, NO_NEXT, at + size, true).exts == [];
        } else {
          EspIsLast(pkt, pkt[at], at + size, espSeen);
        }
      }
    }
  }

  // ---- chains as the standards write them ----

  // A header before its first byte, which names the next, is filled in.
  datatype Header = Header(kind: byte, length: byte, body: Data)

  // The sizes of RFC 2460, sections 4.3 to 4.6, and of RFC 4302, section 2.2.
  function StandardSize(kind: byte, length: byte): Option<nat> {
    if kind == HOPOPTS || kind == DSTOPTS || kind == ROUTING then Some((length + 1) * 8)
    else if kind == FRAGMENT then Some(8)
    else if kind == AH then Some((length + 2) * 4)
    else None
  }

  predicate WellFormed(h: Header) {
    StandardSize(h.kind, h.length) == Some(|h.body| + 2)
  }

  predicate AllWellFormed(hs: seq<Header>)
    decreases |hs|
  {
    hs == [] || (WellFormed(hs[0]) && AllWellFormed(hs[1..]))
  }

  // The kinds whose size the walk does not take from the standard.
  predicate Missized(kind: byte) {
    kind == ROUTING || kind == AH
  }

  function FirstKind(hs: seq<Header>, proto: byte): byte {
    if hs == [] then proto else hs[0].kind
  }

  function Encode(hs: seq<Header>, proto: byte, payload: Data): Data
    decreases |hs|
  {
    if hs == [] then payload
    else [FirstKind(hs[1..], proto), hs[0].length] + hs[0].body + Encode(hs[1..], proto, payload)
  }

  function Exts(hs: seq<Header>, proto: byte, at: nat): seq<Ext>
    decreases |hs|
  {
    if hs == [] then []
    else
      [Ext(hs[0].kind, FirstKind(hs[1..], proto), at, |hs[0].body| + 2)] + Exts(hs[1..], proto, at + |hs[0].body| + 2)
  }

  // The walk finds the headers as they were written, and then the payload.
  ghost predicate AsWritten(pkt: Data, w: Walked, hs: seq<Header>, proto: byte, payload: Data, at: nat) {
    w.exts == Exts(hs, proto, at) && w.end == Transport(proto) && w.at <= |pkt| && pkt[w.at..] == payload
  }

  predicate NoneMissized(hs: seq<Header>)
    decreases |hs|
  {
    hs == [] || (!Missized(hs[0].kind) && NoneMissized(hs[1..]))
  }

  // The walk takes a header and goes on behind it.
  ghost predicate WalksOn(pkt: Data, espSeen: bool, e: Ext) {
    && e.at + e.size <= |pkt|
    && (var rest := Walk(pkt, e.next, e.at + e.size, espSeen);
        Walk(pkt, e.kind, e.at, espSeen) == Walked([e] + rest.exts, rest.at, rest.end))
  }

  // The bytes of a chain's first header, what comes before and what behind.
  lemma FirstApart(prefix: Data, hs: seq<Header>, proto: byte, payload: Data)
    requires hs != []
    ensures var head := [FirstKind(hs[1..], proto), hs[0].length] + hs[0].body;
      prefix + Encode(hs, proto, payload) == (prefix + head) + Encode(hs[1..], proto, payload)
  {
    var head := [FirstKind(hs[1..], proto), hs[0].length] + hs[0].body;
    ConcatAssociative(prefix, head, Encode(hs[1..], proto, payload));
  }

  lemma FirstIsWalked(prefix: Data, hs: seq<Header>, proto: byte, payload: Data, espSeen: bool)
    requires hs != [] && WellFormed(hs[0]) && !Missized(hs[0].kind)
    ensures var next, tail := FirstKind(hs[1..], proto), Encode(hs[1..], proto, payload);
      var head := [next, hs[0].length] + hs[0].body;
      && prefix + Encode(hs, proto, payload) == (prefix + head) + tail && |prefix + head| == |prefix| + |hs[0].body| + 2
      && WalksOn((prefix + head) + tail, espSeen, Ext(hs[0].kind, next, |prefix|, |hs[0].body| + 2))
  {
    FirstApart(prefix, hs, proto, payload);
    FirstIsRead(prefix, hs[0], FirstKind(hs[1..], proto), Encode(hs[1..], proto, payload), espSeen);
  }

  ghost predicate WalkIs(pkt: Data, kind: byte, at: nat, espSeen: bool, w: Walked) {
    at <= |pkt| && Walk(pkt, kind, at, espSeen) == w
  }

  ghost predicate Finds(pkt: Data, kind: byte, at: nat, espSeen: bool, exts: seq<Ext>) {
    at <= |pkt| && Walk(pkt, kind, at, espSeen).exts == exts
  }

  lemma OneBefore(pkt: Data, espSeen: bool, e: Ext, w: Walked, exts: seq<Ext>)
    requires WalksOn(pkt, espSeen, e)
    ensures WalkIs(pkt, e.next, e.at + e.size, espSeen, w) ==>
      WalkIs(pkt, e.kind, e.at, espSeen, Walked([e] + w.exts, w.at, w.end))
    ensures !Finds(pkt, e.next, e.at + e.size, espSeen, exts) ==> !Finds(pkt, e.kind, e.at, espSeen, [e] + exts)
  {
    SameTail(e, Walk(pkt, e.next, e.at + e.size, espSeen).exts, exts);
  }

  lemma {:induction false} WalkedAsWritten(prefix: Data, hs: seq<Header>, proto: byte, payload: Data, espSeen: bool)
    requires AllWellFormed(hs) && NoneMissized(hs) && (proto == TCP || proto == UDP) && |payload| >= 2
    ensures |Encode(hs, proto, payload)| >= |payload|
    ensures var pkt := prefix + Encode(hs, proto, payload);
      WalkIs(pkt, FirstKind(hs, proto), |prefix|, espSeen,
             Walked(Exts(hs, proto, |prefix|), |pkt| - |payload|, Transport(proto)))
    decreases |hs|
  {
    if hs != [] {
      var head := [FirstKind(hs[1..], proto), hs[0].length] + hs[0].body;
      FirstIsWalked(prefix, hs, proto, payload, espSeen);
      WalkedAsWritten(prefix + head, hs[1..], proto, payload, espSeen);
      var pkt := prefix + Encode(hs, proto, payload);
      OneBefore(pkt, espSeen, Ext(hs[0].kind, FirstKind(hs[1..], proto), |prefix|, |hs[0].body| + 2),
                Walked(Exts(hs[1..], proto, |prefix + head|), |pkt| - |payload|, Transport(proto)), []);
    }
  }

  lemma {:induction false} PayloadIsLast(hs: seq<Header>, proto: byte, payload: Data)
    ensures var pkt := Encode(hs, proto, payload); |pkt| >= |payload| && pkt[|pkt| - |payload|..] == payload
    decreases |hs|
  {
    if hs != [] {
      PayloadIsLast(hs[1..], proto, payload);
    }
  }

  lemma {:induction false} NotWalkedAsWritten(prefix: Data, hs: seq<Header>, proto: byte, payload: Data, espSeen: bool)
    requires AllWellFormed(hs) && !NoneMissized(hs)
    ensures !Finds(prefix + Encode(hs, proto, payload), FirstKind(hs, proto),
                   |prefix|, espSeen, Exts(hs, proto, |prefix|))
    decreases |hs|
  {
    var next := FirstKind(hs[1..], proto);
    var head := [next, hs[0].length] + hs[0].body;
    if Missized(hs[0].kind) {
      MissizedIsNotAsWritten(prefix, hs[0], next, Encode(hs[1..], proto, payload), espSeen);
    } else {
      FirstIsWalked(prefix, hs, proto, payload, espSeen);
      NotWalkedAsWritten(prefix + head, hs[1..], proto, payload, espSeen);
      OneBefore(prefix + Encode(hs, proto, payload), espSeen, Ext(hs[0].kind, next, |prefix|, |hs[0].body| + 2),
                Walked([], 0, Short), Exts(hs[1..], proto, |prefix + head|));
    }
  }

  // A chain before a TCP or UDP payload is walked as it was written, up to the
  // payload, if and only if it holds no routing and no authentication header.
  lemma EncodedChainIsWalked(prefix: Data, hs: seq<Header>, proto: byte, payload: Data, espSeen: bool)
    requires AllWellFormed(hs) && (proto == TCP || proto == UDP) && |payload| >= 2
    ensures var pkt := prefix + Encode(hs, proto, payload);
      AsWritten(pkt, Walk(pkt, FirstKind(hs, proto), |prefix|, espSeen), hs, proto, payload, |prefix|)
      <==> forall h <- hs :: h.kind != ROUTING && h.kind != AH
  {
    NoneMissizedAtAll(hs);
    if NoneMissized(hs) {
      WalkedAsWritten(prefix, hs, proto, payload, espSeen);
      PayloadIsLast(hs, proto, payload);
    } else {
      NotWalkedAsWritten(prefix, hs, proto, payload, espSeen);
    }
  }

  lemma {:induction false} NoneMissizedAtAll(hs: seq<Header>)
    ensures NoneMissized(hs) <==> forall h <- hs :: h.kind != ROUTING && h.kind != AH
    decreases |hs|
  {
    if hs != [] {
      NoneMissizedAtAll(hs[1..]);
      assert hs == [hs[0]] + hs[1..];
    }
  }

  lemma SameTail(e: Ext, a: seq<Ext>, b: seq<Ext>)
    ensures [e] + a == [e] + b <==> a == b
  {
    assert ([e] + a)[1..] == a && ([e] + b)[1..] == b;
  }

  lemma FirstIsRead(prefix: Data, h: Header, next: byte, tail: Data, espSeen: bool)
    requires WellFormed(h) && !Missized(h.kind)
    ensures WalksOn((prefix + ([next, h.length] + h.body)) + tail, espSeen, Ext(h.kind, next, |prefix|, |h.body| + 2))
  {
    var pkt := (prefix + ([next, h.length] + h.body)) + tail;
    assert pkt[|prefix|] == next && pkt[|prefix| + 1] == h.length;
    OneOn(pkt, h.kind, |prefix|, espSeen, Ext(h.kind, next, |prefix|, |h.body| + 2));
  }

  // Such a header does not fit, or is taken to be longer than it is.
  lemma MissizedIsNotAsWritten(prefix: Data, h: Header, next: byte, tail: Data, espSeen: bool)
    requires WellFormed(h) && Missized(h.kind)
    ensures var w := Walk(prefix + ([next, h.length] + h.body + tail), h.kind, |prefix|, espSeen);
      w.exts == [] || w.exts[0].size > |h.body| + 2
  {
    var pkt := prefix + ([next, h.length] + h.body + tail);
    assert pkt[|prefix| + 1] == h.length;
    var size := Size(h.kind, h.length).value;
    if size <= |pkt| - |prefix| {
      OneOn(pkt, h.kind, |prefix|, espSeen, Ext(h.kind, pkt[|prefix|], |prefix|, size));
    }
  }

  function Zeros(n: nat): Data {
    seq(n, _ => 0)
  }

  // A routing header with one address before a TCP header: the code wants 392
  // bytes for it and reports it truncated.
  lemma RoutingHeaderIsTruncated()
    ensures var routing := Header(ROUTING, 2, Zeros(22));
      WellFormed(routing)
      && Walk(Encode([routing], TCP, Zeros(20)), ROUTING, 0, false) == Walked([], 0, Truncated(ROUTING))
  {
    var routing := Header(ROUTING, 2, Zeros(22));
    assert [routing][1..] == [];
  }

  // An authentication header of 24 bytes before a TCP header: the code takes 28,
  // and the transport decoder starts four bytes into the TCP header.
  lemma AuthHeaderSwallowsFourBytes()
    ensures var auth := Header(AH, 4, Zeros(22));
      WellFormed(auth)
      && Walk(Encode([auth], TCP, Zeros(20)), AH, 0, false) == Walked([Ext(AH, TCP, 0, 28)], 28, Transport(TCP))
  {
    var auth := Header(AH, 4, Zeros(22));
    assert [auth][1..] == [];
    var pkt := Encode([auth], TCP, Zeros(20));
    assert pkt == [TCP, 4] + Zeros(22) + Zeros(20) && |pkt| == 44;
    assert pkt[0] == TCP && pkt[1] == 4;
    OneOn(pkt, AH, 0, false, Ext(AH, TCP, 0, 28));
  }

  // ---- which header of each kind the packet remembers ----

  datatype Event = DuplRh | DuplHh | DuplDh | DuplFh | DuplEh | DuplAh | TruncExthdr | InvalidOptlen

  const MAX_EVENTS := 16

  function SetEvent(events: seq<Event>, e: Event): seq<Event> {
    if |events| < MAX_EVENTS then events + [e] else events
  }

  datatype Marks = Marks(rh: Option<nat>, hh: Option<nat>, dh1: Option<nat>, dh2: Option<nat>, fh: Option<nat>,
                         eh: Option<nat>, ah: Option<nat>, events: seq<Event>)

  const BLANK := Marks(None, None, None, None, None, None, None, [])

  // A header is remembered unless one of its kind is; of the destination
  // options the first two of the walk are.
  function Mark(m: Marks, dstOpts: nat, e: Ext): Marks {
    if e.kind == ROUTING then
      if m.rh.Some? then m.(events := SetEvent(m.events, DuplRh)) else m.(rh := Some(e.at))
    else if e.kind == HOPOPTS then
      if m.hh.Some? then m.(events := SetEvent(m.events, DuplHh)) else m.(hh := Some(e.at))
    else if e.kind == DSTOPTS then
      if dstOpts == 0 then m.(dh1 := Some(e.at))
      else if dstOpts == 1 then m.(dh2 := Some(e.at))
      else m.(events := SetEvent(m.events, DuplDh))
    else if e.kind == FRAGMENT then
      if m.fh.Some? then m.(events := SetEvent(m.events, DuplFh)) else m.(fh := Some(e.at))
    else if e.kind == ESP then
      if m.eh.Some? then m.(events := SetEvent(m.events, DuplEh)) else m.(eh := Some(e.at))
    else
      if m.ah.Some? then m.(events := SetEvent(m.events, DuplAh)) else m.(ah := Some(e.at))
  }

  function MarkAll(m: Marks, exts: seq<Ext>): Marks
    decreases |exts|
  {
    if exts == [] then m
    else
      var before := exts[..|exts| - 1];
      Mark(MarkAll(m, before), Count(before, DSTOPTS), exts[|exts| - 1])
  }

  // The offset of the n-th header of a kind.
  function Nth(exts: seq<Ext>, kind: byte, n: nat): Option<nat>
    decreases |exts|
  {
    if exts == [] then None
    else if exts[0].kind != kind then Nth(exts[1..], kind, n)
    else if n == 0 then Some(exts[0].at)
    else Nth(exts[1..], kind, n - 1)
  }

  function Count(exts: seq<Ext>, kind: byte): nat
    decreases |exts|
  {
    if exts == [] then 0 else (if exts[0].kind == kind then 1 else 0) + Count(exts[1..], kind)
  }

  lemma {:induction false} NthSnoc(exts: seq<Ext>, e: Ext, kind: byte, n: nat)
    ensures Count(exts + [e], kind) == Count(exts, kind) + if e.kind == kind then 1 else 0
    ensures Nth(exts, kind, n).Some? <==> n < Count(exts, kind)
    ensures Nth(exts + [e], kind, n)
      == if n < Count(exts, kind) then Nth(exts, kind, n)
         else if e.kind == kind && n == Count(exts, kind) then Some(e.at) else None
    decreases |exts|
  {
    if exts == [] {
      assert exts + [e] == [e];
    } else {
      assert (exts + [e])[1..] == exts[1..] + [e];
      NthSnoc(exts[1..], e, kind, if n > 0 && exts[0].kind == kind then n - 1 else n);
      NthSnoc(exts[1..], e, kind, n);
    }
  }

  function EventOf(kind: byte): Event {
    if kind == ROUTING then DuplRh
    else if kind == HOPOPTS then DuplHh
    else if kind == DSTOPTS then DuplDh
    else if kind == FRAGMENT then DuplFh
    else if kind == ESP then DuplEh
    else DuplAh
  }

  // One event for every header beyond those of its kind that are remembered.
  function Repeats(exts: seq<Ext>): seq<Event>
    decreases |exts|
  {
    if exts == [] then []
    else
      var before, e := exts[..|exts| - 1], exts[|exts| - 1];
      var kept := if e.kind == DSTOPTS then 2 else 1;
      Repeats(before) + if Count(before, e.kind) < kept then [] else [EventOf(e.kind)]
  }

  function Capped(events: seq<Event>): seq<Event> {
    if |events| <= MAX_EVENTS then events else events[..MAX_EVENTS]
  }

  ghost predicate KnownKinds(exts: seq<Ext>) {
    forall e <- exts :: Size(e.kind, 0).Some?
  }

  lemma {:induction false} WalkedKindsAreKnown(pkt: Data, kind: byte, at: nat, espSeen: bool)
    requires at <= |pkt|
    ensures KnownKinds(Walk(pkt, kind, at, espSeen).exts)
    decreases |pkt| - at
  {
    if at <= |pkt| - 2 && Size(kind, pkt[at + 1]).Some? {
      var size := Size(kind, pkt[at + 1]).value;
      var e := Ext(kind, if kind == ESP then NO_NEXT else pkt[at], at, size);
      if size <= |pkt| - at && !(kind == ESP && espSeen) {
        WalkedKindsAreKnown(pkt, e.next, at + size, espSeen || kind == ESP);
      }
    }
  }

  // A fresh packet ends up remembering the first header of every kind, the
  // first two destination options, and one event for each further one.
  lemma {:induction false} FirstOfEachKind(exts: seq<Ext>)
    requires KnownKinds(exts)
    ensures var m := MarkAll(BLANK, exts);
      && m.rh == Nth(exts, ROUTING, 0) && m.hh == Nth(exts, HOPOPTS, 0)
      && m.dh1 == Nth(exts, DSTOPTS, 0) && m.dh2 == Nth(exts, DSTOPTS, 1)
      && m.fh == Nth(exts, FRAGMENT, 0) && m.eh == Nth(exts, ESP, 0) && m.ah == Nth(exts, AH, 0)
      && m.events == Capped(Repeats(exts))
    decreases |exts|
  {
    if exts != [] {
      var before, e := exts[..|exts| - 1], exts[|exts| - 1];
      assert before + [e] == exts && e in exts;
      FirstOfEachKind(before);
      NthSnoc(before, e, ROUTING, 0);
      NthSnoc(before, e, HOPOPTS, 0);
      NthSnoc(before, e, DSTOPTS, 0);
      NthSnoc(before, e, DSTOPTS, 1);
      NthSnoc(before, e, FRAGMENT, 0);
      NthSnoc(before, e, ESP, 0);
      NthSnoc(before, e, AH, 0);
      CappedSnoc(Repeats(before), EventOf(e.kind));
    }
  }

  lemma CappedSnoc(events: seq<Event>, e: Event)
    ensures Capped(events + [e]) == SetEvent(Capped(events), e)
  {
  }
}

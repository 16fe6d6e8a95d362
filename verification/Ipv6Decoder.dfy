// Decoding IPv6 extension headers into a packet (decode-ipv6.c): the loop that
// updates the packet, tied to the walk and what it remembers.
module Ipv6Decoder {
  import opened Bytes
  import opened Ipv6Headers

  // The generic record of a header; its length is cut to a byte.
  datatype Entry = Entry(kind: byte, next: byte, len: byte, data: nat)

  function EntryOf(e: Ext): Entry {
    Entry(e.kind, e.next, e.size % 256, e.at + 2)
  }

  function Record(list: seq<Entry>, e: Ext): seq<Entry> {
    if |list| < MAX_RECORDED then list + [EntryOf(e)] else list
  }

  function RecordAll(list: seq<Entry>, exts: seq<Ext>): seq<Entry>
    decreases |exts|
  {
    if exts == [] then list else Record(RecordAll(list, exts[..|exts| - 1]), exts[|exts| - 1])
  }

  // The first forty headers are recorded, in order.
  lemma {:induction false} FirstFortyRecorded(exts: seq<Ext>)
    ensures var list := RecordAll([], exts);
      && |list| == (if |exts| <= MAX_RECORDED then |exts| else MAX_RECORDED)
      && forall i | 0 <= i < |list| :: list[i] == EntryOf(exts[i])
    decreases |exts|
  {
    if exts != [] {
      FirstFortyRecorded(exts[..|exts| - 1]);
    }
  }

  // Everything a packet keeps about its extension headers.
  datatype Kept = Kept(marks: Marks, recorded: seq<Entry>, fhOffset: nat, l4proto: byte, decoded: Option<(byte, Data)>)

  // After the headers of a walk; the fragment offset is that of the first
  // fragment header of the walk.
  function Progress(k: Kept, exts: seq<Ext>): Kept {
    k.(marks := MarkAll(k.marks, exts), recorded := RecordAll(k.recorded, exts),
       fhOffset := match Nth(exts, FRAGMENT, 0) case Some(at) => at case None => k.fhOffset)
  }

  // After a whole walk. A cut off fragment header still leaves its offset.
  function Decoded(k: Kept, pkt: Data, w: Walked): Kept
    requires w.at <= |pkt|
  {
    var p := Progress(k, w.exts);
    match w.end
    case Short => p
    case RepeatedEsp => p
    case Truncated(kind) =>
      var cut := if kind == FRAGMENT && Nth(w.exts, FRAGMENT, 0).None? then w.at else p.fhOffset;
      p.(marks := Truncate(p.marks), fhOffset := cut)
    case Transport(proto) => p.(l4proto := proto, decoded := Some((proto, pkt[w.at..])))
    case NoTransport(proto) => p.(l4proto := proto)
  }

  function Truncate(m: Marks): Marks {
    m.(events := SetEvent(m.events, TruncExthdr))
  }

  class Packet {
    const exthdrs: array<Entry>
    var cnt: nat
    var rh: Option<nat>
    var hh: Option<nat>
    var dh1: Option<nat>
    var dh2: Option<nat>
    var fh: Option<nat>
    var eh: Option<nat>
    var ah: Option<nat>
    var events: seq<Event>
    var fhOffset: nat
    var l4proto: byte
    // What was handed to the decoder of a transport protocol.
    var decoded: Option<(byte, Data)>

    ghost predicate Valid()
      reads this
    {
      exthdrs.Length == MAX_RECORDED && cnt <= MAX_RECORDED
    }

    ghost function Marked(): Marks
      reads this
    {
      Marks(rh, hh, dh1, dh2, fh, eh, ah, events)
    }

    ghost function Recorded(): seq<Entry>
      requires Valid()
      reads this, exthdrs
    {
      exthdrs[..cnt]
    }

    ghost function State(): Kept
      requires Valid()
      reads this, exthdrs
    {
      Kept(Marked(), Recorded(), fhOffset, l4proto, decoded)
    }

    constructor ()
      ensures Valid() && State() == Kept(BLANK, [], 0, 0, None) && fresh(exthdrs)
    {
      exthdrs := new Entry[MAX_RECORDED](_ => Entry(0, 0, 0, 0));
      cnt := 0;
      rh, hh, dh1, dh2, fh, eh, ah := None, None, None, None, None, None, None;
      events, fhOffset, l4proto, decoded := [], 0, 0, None;
    }

    method AddEvent(e: Event)
      modifies this`events
      ensures events == SetEvent(old(events), e)
    {
      if |events| < MAX_EVENTS {
        events := events + [e];
      }
    }

    method RecordHeader(nh: byte, next: byte, hdrextlen: nat, at: nat)
      requires Valid()
      modifies this`cnt, exthdrs
      ensures Valid() && Recorded() == Record(old(Recorded()), Ext(nh, next, at, hdrextlen))
    {
      if cnt < MAX_RECORDED {
        exthdrs[cnt] := Entry(nh, next, hdrextlen % 256, at + 2);
        cnt := cnt + 1;
      }
    }

    // One header of a kind: refused when it is cut off, otherwise recorded and
    // remembered or reported as a repetition.
    method TakeRouting(pkt: Data, at: nat, plen: nat) returns (taken: bool, hdrextlen: nat)
      requires Valid() && at <= |pkt| - 2 && plen == |pkt| - at
      modifies this`cnt, this`rh, this`events, exthdrs
      ensures Valid() && Some(hdrextlen) == Size(ROUTING, pkt[at + 1]) && taken == (hdrextlen <= plen)
      ensures var e := Ext(ROUTING, pkt[at], at, hdrextlen);
        && Marked() == (if taken then Mark(old(Marked()), 0, e) else Truncate(old(Marked())))
        && Recorded() == (if taken then Record(old(Recorded()), e) else old(Recorded()))
    {
      hdrextlen := ROUTE_HEADER_LEN;
      hdrextlen := hdrextlen + pkt[at + 1] as int * 8;
      if hdrextlen > plen {
        AddEvent(TruncExthdr);
        return false, hdrextlen;
      }
      RecordHeader(ROUTING, pkt[at], hdrextlen, at);
      if rh.Some? {
        AddEvent(DuplRh);
      } else {
        rh := Some(at);
      }
      return true, hdrextlen;
    }

    // Hop-by-hop and destination options. The options themselves, one byte
    // wide in their length, always fit, so no event is raised for them.
    method TakeOptions(pkt: Data, nh: byte, at: nat, plen: nat, dstopts: nat) returns (taken: bool, hdrextlen: nat)
      requires Valid() && at <= |pkt| - 2 && plen == |pkt| - at && (nh == HOPOPTS || nh == DSTOPTS)
      modifies this`cnt, this`hh, this`dh1, this`dh2, this`events, exthdrs
      ensures Valid() && Some(hdrextlen) == Size(nh, pkt[at + 1]) && taken == (hdrextlen <= plen)
      ensures var e := Ext(nh, pkt[at], at, hdrextlen);
        && Marked() == (if taken then Mark(old(Marked()), dstopts, e) else Truncate(old(Marked())))
        && Recorded() == (if taken then Record(old(Recorded()), e) else old(Recorded()))
    {
      hdrextlen := (pkt[at + 1] as int + 1) * 8;
      if hdrextlen > plen {
        AddEvent(TruncExthdr);
        return false, hdrextlen;
      }
      RecordHeader(nh, pkt[at], hdrextlen, at);
      var optslen := (hdrextlen - 2) % 256;
      assert optslen <= plen;
      if nh == HOPOPTS {
        if hh.Some? {
          AddEvent(DuplHh);
        } else {
          hh := Some(at);
        }
      } else if dstopts == 0 {
        dh1 := Some(at);
      } else if dstopts == 1 {
        dh2 := Some(at);
      } else {
        AddEvent(DuplDh);
      }
      return true, hdrextlen;
    }

    method TakeFragment(pkt: Data, at: nat, plen: nat) returns (taken: bool, hdrextlen: nat)
      requires Valid() && at <= |pkt| - 2 && plen == |pkt| - at
      modifies this`cnt, this`fh, this`events, exthdrs
      ensures Valid() && Some(hdrextlen) == Size(FRAGMENT, pkt[at + 1]) && taken == (hdrextlen <= plen)
      ensures var e := Ext(FRAGMENT, pkt[at], at, hdrextlen);
        && Marked() == (if taken then Mark(old(Marked()), 0, e) else Truncate(old(Marked())))
        && Recorded() == (if taken then Record(old(Recorded()), e) else old(Recorded()))
    {
      hdrextlen := FRAG_HEADER_LEN;
      if hdrextlen > plen {
        AddEvent(TruncExthdr);
        return false, hdrextlen;
      }
      RecordHeader(FRAGMENT, pkt[at], hdrextlen, at);
      if fh.Some? {
        AddEvent(DuplFh);
      } else {
        fh := Some(at);
      }
      return true, hdrextlen;
    }

    method TakeEsp(pkt: Data, at: nat, plen: nat) returns (taken: bool, hdrextlen: nat)
      requires Valid() && at <= |pkt| - 2 && plen == |pkt| - at
      modifies this`cnt, this`eh, this`events, exthdrs
      ensures Valid() && Some(hdrextlen) == Size(ESP, pkt[at + 1]) && taken == (hdrextlen <= plen)
      ensures var e := Ext(ESP, NO_NEXT, at, hdrextlen);
        && Marked() == (if taken then Mark(old(Marked()), 0, e) else Truncate(old(Marked())))
        && Recorded() == (if taken then Record(old(Recorded()), e) else old(Recorded()))
    {
      hdrextlen := ESP_HEADER_LEN;
      if hdrextlen > plen {
        AddEvent(TruncExthdr);
        return false, hdrextlen;
      }
      RecordHeader(ESP, NO_NEXT, hdrextlen, at);
      if eh.Some? {
        AddEvent(DuplEh);
      } else {
        eh := Some(at);
      }
      return true, hdrextlen;
    }

    method TakeAuth(pkt: Data, at: nat, plen: nat) returns (taken: bool, hdrextlen: nat)
      requires Valid() && at <= |pkt| - 2 && plen == |pkt| - at
      modifies this`cnt, this`ah, this`events, exthdrs
      ensures Valid() && Some(hdrextlen) == Size(AH, pkt[at + 1]) && taken == (hdrextlen <= plen)
      ensures var e := Ext(AH, pkt[at], at, hdrextlen);
        && Marked() == (if taken then Mark(old(Marked()), 0, e) else Truncate(old(Marked())))
        && Recorded() == (if taken then Record(old(Recorded()), e) else old(Recorded()))
    {
      hdrextlen := AUTH_HEADER_LEN;
      hdrextlen := hdrextlen + pkt[at + 1] as int * 4;
      if hdrextlen > plen {
        AddEvent(TruncExthdr);
        return false, hdrextlen;
      }
      RecordHeader(AH, pkt[at], hdrextlen, at);
      if ah.Some? {
        AddEvent(DuplAh);
      } else {
        ah := Some(at);
      }
      return true, hdrextlen;
    }

    // The header under the cursor, whatever its kind.
    method TakeHeader(pkt: Data, nh: byte, at: nat, plen: nat, dstopts: nat) returns (taken: bool, hdrextlen: nat)
      requires Valid() && at <= |pkt| - 2 && plen == |pkt| - at && Size(nh, pkt[at + 1]).Some?
      modifies this`cnt, this`rh, this`hh, this`dh1, this`dh2, this`fh, this`eh, this`ah, this`events, exthdrs
      ensures Valid() && Some(hdrextlen) == Size(nh, pkt[at + 1]) && taken == (hdrextlen <= plen)
      ensures var e := Ext(nh, if nh == ESP then NO_NEXT else pkt[at], at, hdrextlen);
        && Marked() == (if taken then Mark(old(Marked()), dstopts, e) else Truncate(old(Marked())))
        && Recorded() == (if taken then Record(old(Recorded()), e) else old(Recorded()))
    {
      if nh == ROUTING {
        taken, hdrextlen := TakeRouting(pkt, at, plen);
      } else if nh == HOPOPTS || nh == DSTOPTS {
        taken, hdrextlen := TakeOptions(pkt, nh, at, plen, dstopts);
      } else if nh == FRAGMENT {
        taken, hdrextlen := TakeFragment(pkt, at, plen);
      } else if nh == ESP {
        taken, hdrextlen := TakeEsp(pkt, at, plen);
      } else {
        taken, hdrextlen := TakeAuth(pkt, at, plen);
      }
    }

    // With the offset of the first fragment header kept first.
    method NoteAndTake(pkt: Data, nh: byte, at: nat, plen: nat, dstopts: nat, fragmentDone: bool)
      returns (taken: bool, hdrextlen: nat)
      requires Valid() && at <= |pkt| - 2 && plen == |pkt| - at && Size(nh, pkt[at + 1]).Some?
      modifies this, exthdrs
      ensures Valid() && Some(hdrextlen) == Size(nh, pkt[at + 1]) && taken == (hdrextlen <= plen)
      ensures State() == Take(old(State()), HeaderAt(pkt, nh, at), taken, dstopts, fragmentDone)
    {
      if nh == FRAGMENT && !fragmentDone {
        fhOffset := at;
      }
      taken, hdrextlen := TakeHeader(pkt, nh, at, plen, dstopts);
    }

    // One round of the loop with a header under the cursor.
    method TakeOne(pkt: Data, nh0: byte, at0: nat, plen0: nat, dstopts0: nat, fragmentDone0: bool,
                   ghost k0: Kept, ghost seen0: seq<Ext>, ghost goal: Walked)
      returns (more: bool, nh: byte, at: nat, plen: nat, dstopts: nat, fragmentDone: bool, ghost seen: seq<Ext>)
      requires Valid() && at0 <= |pkt| - 2 && plen0 == |pkt| - at0 && Size(nh0, pkt[at0 + 1]).Some?
      requires OnTrack(k0, State(), pkt, goal, seen0, nh0, at0, dstopts0, fragmentDone0)
      modifies this, exthdrs
      ensures Valid() && plen < plen0
      ensures !more ==> IsDecoded(k0, State(), pkt, goal)
      ensures more ==> plen == |pkt| - at && OnTrack(k0, State(), pkt, goal, seen, nh, at, dstopts, fragmentDone)
    {
      ghost var s, e := State(), HeaderAt(pkt, nh0, at0);
      nh, at, plen, dstopts, fragmentDone, seen := nh0, at0, 0, dstopts0, fragmentDone0 || nh0 == FRAGMENT, seen0 + [e];
      var repeated := nh0 == ESP && eh.Some?;
      var taken, hdrextlen := NoteAndTake(pkt, nh0, at0, plen0, dstopts0, fragmentDone0);
      if !taken {
        CutOff(k0, s, pkt, goal, seen0, nh0, at0, dstopts0, fragmentDone0);
        return false, nh, at, 0, dstopts, fragmentDone, seen;
      }
      if repeated {
        Repeated(k0, s, pkt, goal, seen0, nh0, at0, dstopts0, fragmentDone0);
        return false, nh, at, 0, dstopts, fragmentDone, seen;
      }
      Further(k0, s, pkt, goal, seen0, nh0, at0, dstopts0, fragmentDone0);
      if nh0 == DSTOPTS && dstopts0 < 2 {
        dstopts := dstopts0 + 1;
      }
      nh := if nh0 == ESP then NO_NEXT else pkt[at0];
      at := at0 + hdrextlen;
      plen := plen0 - hdrextlen;
      more := true;
    }

    // The end of the chain.
    method Stop(pkt: Data, nh: byte, at: nat, plen: nat, ghost k0: Kept, ghost seen: seq<Ext>, ghost goal: Walked,
                ghost dstopts: nat, ghost fragmentDone: bool)
      requires Valid() && plen == |pkt| - at && (plen >= 2 ==> Size(nh, pkt[at + 1]).None?)
      requires OnTrack(k0, State(), pkt, goal, seen, nh, at, dstopts, fragmentDone)
      modifies this`l4proto, this`decoded
      ensures Valid() && IsDecoded(k0, State(), pkt, goal)
    {
      StopsHere(goal, seen, Walk(pkt, nh, at, eh.Some?));
      if plen < 2 {
        return;
      }
      if nh == TCP || nh == UDP {
        l4proto := nh;
        decoded := Some((nh, pkt[at..]));
      } else {
        l4proto := nh;
      }
    }

    // Afterwards the packet remembers and has recorded exactly the headers of
    // the walk, and the transport decoder got the exact rest of the input.
    method DecodeIPV6ExtHdrs(pkt: Data, nh0: byte)
      requires Valid()
      modifies this, exthdrs
      ensures Valid() && Walk(pkt, nh0, 0, old(eh.Some?)).at <= |pkt|
      ensures State() == Decoded(old(State()), pkt, Walk(pkt, nh0, 0, old(eh.Some?)))
    {
      var nh: byte, at, plen := nh0, 0, |pkt|;
      var dstopts, fragmentDone := 0, false;
      ghost var k0, seen: seq<Ext>, goal := State(), [], Walk(pkt, nh0, 0, eh.Some?);
      var more := true;
      while more
        invariant Valid()
        invariant !more ==> IsDecoded(k0, State(), pkt, goal)
        invariant more ==> plen == |pkt| - at && OnTrack(k0, State(), pkt, goal, seen, nh, at, dstopts, fragmentDone)
        decreases more, plen
      {
        if plen < 2 || Size(nh, pkt[at + 1]).None? {
          Stop(pkt, nh, at, plen, k0, seen, goal, dstopts, fragmentDone);
          more := false;
        } else {
          more, nh, at, plen, dstopts, fragmentDone, seen :=
            TakeOne(pkt, nh, at, plen, dstopts, fragmentDone, k0, seen, goal);
        }
      }
    }
  }

  // The header at an offset, however long it is.
  function HeaderAt(pkt: Data, kind: byte, at: nat): Ext
    requires at <= |pkt| - 2 && Size(kind, pkt[at + 1]).Some?
  {
    Ext(kind, if kind == ESP then NO_NEXT else pkt[at], at, Size(kind, pkt[at + 1]).value)
  }

  // What one header leaves, taken or cut off.
  function Take(k: Kept, e: Ext, taken: bool, dstopts: nat, fragmentDone: bool): Kept {
    var p := k.(fhOffset := if e.kind == FRAGMENT && !fragmentDone then e.at else k.fhOffset);
    if taken then p.(marks := Mark(p.marks, dstopts, e), recorded := Record(p.recorded, e))
    else p.(marks := Truncate(p.marks))
  }

  // The loop's state: what has been seen is kept and counted, and what is still
  // to come from the cursor on completes the walk.
  ghost predicate OnTrack(k0: Kept, s: Kept, pkt: Data, goal: Walked, seen: seq<Ext>, nh: byte, at: nat,
                          dstopts: nat, fragmentDone: bool) {
    && at <= |pkt| && s == Progress(k0, seen) && Counted(seen, dstopts, fragmentDone)
    && Ahead(goal, seen, Walk(pkt, nh, at, s.marks.eh.Some?))
  }

  ghost predicate IsDecoded(k0: Kept, s: Kept, pkt: Data, goal: Walked) {
    goal.at <= |pkt| && s == Decoded(k0, pkt, goal)
  }

  // The local counters of the loop.
  ghost predicate Counted(seen: seq<Ext>, dstopts: nat, fragmentDone: bool) {
    && dstopts == (if Count(seen, DSTOPTS) <= 2 then Count(seen, DSTOPTS) else 2)
    && (fragmentDone <==> Nth(seen, FRAGMENT, 0).Some?)
  }

  lemma StopsHere(goal: Walked, seen: seq<Ext>, w: Walked)
    requires Ahead(goal, seen, w) && w.exts == []
    ensures goal == Walked(seen, w.at, w.end)
  {
  }

  lemma CutOff(k0: Kept, s: Kept, pkt: Data, goal: Walked, seen: seq<Ext>, nh: byte, at: nat,
               dstopts: nat, fragmentDone: bool)
    requires OnTrack(k0, s, pkt, goal, seen, nh, at, dstopts, fragmentDone)
    requires at <= |pkt| - 2 && Size(nh, pkt[at + 1]).Some? && HeaderAt(pkt, nh, at).size > |pkt| - at
    ensures IsDecoded(k0, Take(s, HeaderAt(pkt, nh, at), false, dstopts, fragmentDone), pkt, goal)
  {
    StopsHere(goal, seen, Walk(pkt, nh, at, s.marks.eh.Some?));
  }

  lemma Repeated(k0: Kept, s: Kept, pkt: Data, goal: Walked, seen: seq<Ext>, nh: byte, at: nat,
                 dstopts: nat, fragmentDone: bool)
    requires OnTrack(k0, s, pkt, goal, seen, nh, at, dstopts, fragmentDone)
    requires at <= |pkt| - 2 && nh == ESP && s.marks.eh.Some? && HeaderAt(pkt, nh, at).size <= |pkt| - at
    ensures IsDecoded(k0, Take(s, HeaderAt(pkt, nh, at), true, dstopts, fragmentDone), pkt, goal)
  {
    var e := HeaderAt(pkt, nh, at);
    assert Walk(pkt, nh, at, true) == Walked([e], at, RepeatedEsp);
    OneMore(k0, seen, e, dstopts);
  }

  lemma Further(k0: Kept, s: Kept, pkt: Data, goal: Walked, seen: seq<Ext>, nh: byte, at: nat,
                dstopts: nat, fragmentDone: bool)
    requires OnTrack(k0, s, pkt, goal, seen, nh, at, dstopts, fragmentDone)
    requires at <= |pkt| - 2 && Size(nh, pkt[at + 1]).Some? && HeaderAt(pkt, nh, at).size <= |pkt| - at
    requires !(nh == ESP && s.marks.eh.Some?)
    ensures var e := HeaderAt(pkt, nh, at);
      OnTrack(k0, Take(s, e, true, dstopts, fragmentDone), pkt, goal, seen + [e], e.next, at + e.size,
              if nh == DSTOPTS && dstopts < 2 then dstopts + 1 else dstopts, fragmentDone || nh == FRAGMENT)
  {
    var e, espSeen := HeaderAt(pkt, nh, at), s.marks.eh.Some?;
    AheadOn(goal, seen, pkt, nh, at, espSeen, e);
    TakenOn(k0, s, seen, e, dstopts, fragmentDone);
  }

  lemma TakenOn(k0: Kept, s: Kept, seen: seq<Ext>, e: Ext, dstopts: nat, fragmentDone: bool)
    requires s == Progress(k0, seen) && Counted(seen, dstopts, fragmentDone) && Size(e.kind, 0).Some?
    ensures var k := Take(s, e, true, dstopts, fragmentDone);
      && k == Progress(k0, seen + [e]) && (k.marks.eh.Some? <==> s.marks.eh.Some? || e.kind == ESP)
    ensures Counted(seen + [e], if e.kind == DSTOPTS && dstopts < 2 then dstopts + 1 else dstopts,
                    fragmentDone || e.kind == FRAGMENT)
  {
    OneMore(k0, seen, e, dstopts);
  }

  lemma AheadOn(goal: Walked, seen: seq<Ext>, pkt: Data, kind: byte, at: nat, espSeen: bool, e: Ext)
    requires GoesOn(pkt, kind, at, espSeen, e) && Ahead(goal, seen, Walk(pkt, kind, at, espSeen))
    ensures Ahead(goal, seen + [e], Walk(pkt, e.next, at + e.size, espSeen || kind == ESP))
  {
    OneOn(pkt, kind, at, espSeen, e);
    ConcatAssociative(seen, [e], Walk(pkt, e.next, at + e.size, espSeen || kind == ESP).exts);
  }

  lemma OneMore(k: Kept, seen: seq<Ext>, e: Ext, dstopts: nat)
    requires dstopts == if Count(seen, DSTOPTS) <= 2 then Count(seen, DSTOPTS) else 2
    ensures var p := Progress(k, seen);
      Progress(k, seen + [e]) == p.(marks := Mark(p.marks, dstopts, e), recorded := Record(p.recorded, e),
        fhOffset := if Nth(seen, FRAGMENT, 0).None? && e.kind == FRAGMENT then e.at else p.fhOffset)
    ensures Count(seen + [e], DSTOPTS) == Count(seen, DSTOPTS) + if e.kind == DSTOPTS then 1 else 0
    ensures Nth(seen + [e], FRAGMENT, 0).Some? <==> Nth(seen, FRAGMENT, 0).Some? || e.kind == FRAGMENT
  {
    assert (seen + [e])[..|seen|] == seen;
    NthSnoc(seen, e, DSTOPTS, 0);
    NthSnoc(seen, e, FRAGMENT, 0);
  }

  // What is still to come completes what has been seen.
  ghost predicate Ahead(goal: Walked, seen: seq<Ext>, w: Walked) {
    goal == Walked(seen + w.exts, w.at, w.end)
  }

  // ---- a fresh packet ----

  // One event for every header beyond those remembered, and one for a cut off one.
  function EventsOf(w: Walked): seq<Event> {
    Repeats(w.exts) + if w.end.Truncated? then [TruncExthdr] else []
  }

  // The first fragment header, cut off or not.
  function FragmentAt(w: Walked): nat {
    match Nth(w.exts, FRAGMENT, 0)
    case Some(at) => at
    case None => if w.end == Truncated(FRAGMENT) then w.at else 0
  }

  ghost predicate Remembers(m: Marks, w: Walked) {
    && m.rh == Nth(w.exts, ROUTING, 0) && m.hh == Nth(w.exts, HOPOPTS, 0)
    && m.dh1 == Nth(w.exts, DSTOPTS, 0) && m.dh2 == Nth(w.exts, DSTOPTS, 1)
    && m.fh == Nth(w.exts, FRAGMENT, 0) && m.eh == Nth(w.exts, ESP, 0) && m.ah == Nth(w.exts, AH, 0)
    && m.events == Capped(EventsOf(w))
  }

  ghost predicate RecordsFirst(list: seq<Entry>, exts: seq<Ext>) {
    && |list| == (if |exts| <= MAX_RECORDED then |exts| else MAX_RECORDED)
    && forall i | 0 <= i < |list| :: list[i] == EntryOf(exts[i])
  }

  // For any bytes, a fresh packet ends up remembering the first header of every
  // kind of the walk, the first two destination options and the events, having
  // recorded the first forty headers, and with the exact rest for the transport
  // decoder, if there is one.
  lemma FreshPacketKeeps(pkt: Data, nh: byte)
    ensures var w := Walk(pkt, nh, 0, false);
      && w.at <= |pkt|
      && (var k := Decoded(Kept(BLANK, [], 0, 0, None), pkt, w);
          && Remembers(k.marks, w) && RecordsFirst(k.recorded, w.exts) && k.fhOffset == FragmentAt(w)
          && k.l4proto == (if w.end.Transport? || w.end.NoTransport? then w.end.proto else 0)
          && k.decoded == if w.end.Transport? then Some((w.end.proto, pkt[w.at..])) else None)
  {
    var w := Walk(pkt, nh, 0, false);
    WalkIsChained(pkt, nh, 0, false);
    WalkedKindsAreKnown(pkt, nh, 0, false);
    FirstOfEachKind(w.exts);
    FirstFortyRecorded(w.exts);
    CappedSnoc(Repeats(w.exts), TruncExthdr);
    assert Repeats(w.exts) + [] == Repeats(w.exts);
  }
}

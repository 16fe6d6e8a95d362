// Presentation contexts (app-layer-dcerpc.c; C706, sections 12.6.4.3 and
// 12.6.4.4): the list a BIND builds and the answers a BIND_ACK adds to it.
module DcerpcBind {
  import opened Bytes
  import opened DcerpcStub

  const BIND_ITEMS := 28
  const BIND_ITEM_LEN := 44
  const ACK_ADDR := 26
  const ACK_ITEM_LEN := 24

  // ---- BIND ----

  function UuidAt(pdu: Data, at: nat): Data
    requires at + 20 <= |pdu|
  {
    [pdu[at + 7], pdu[at + 6], pdu[at + 5], pdu[at + 4], pdu[at + 9], pdu[at + 8], pdu[at + 11], pdu[at + 10]]
    + pdu[at + 12..at + 20]
  }

  function ItemAt(pdu: Data, at: nat): Entry
    requires at + BIND_ITEM_LEN <= |pdu|
  {
    Entry(Le16(pdu[at], pdu[at + 1]), UuidAt(pdu, at), Le16(pdu[at + 20], pdu[at + 21]),
          Le16(pdu[at + 22], pdu[at + 23]), 0)
  }

  predicate IsBindType(ptype: byte) {
    ptype == BIND || ptype == ALTER_CONTEXT
  }

  // A chunk with a whole BIND, whose items offer one transfer syntax each, and
  // whatever follows it.
  predicate IsBind(pdu: Data) {
    && |pdu| >= BIND_ITEMS && VersionOk(pdu) && IsBindType(pdu[2])
    && HdrOf(pdu).frag == BIND_ITEMS + BIND_ITEM_LEN * pdu[24] <= |pdu|
  }

  function NumItems(pdu: Data): nat
    requires |pdu| >= BIND_ITEMS
  {
    pdu[24]
  }

  function Item(pdu: Data, i: nat): Entry
    requires IsBind(pdu) && i < NumItems(pdu)
  {
    ItemAt(pdu, BIND_ITEMS + BIND_ITEM_LEN * i)
  }

  // How many items from item k on carry their own number.
  function InOrder(pdu: Data, k: nat): (n: nat)
    requires IsBind(pdu) && k <= NumItems(pdu)
    ensures k <= n <= NumItems(pdu)
    decreases NumItems(pdu) - k
  {
    if k < NumItems(pdu) && Item(pdu, k).ctxid == k then InOrder(pdu, k + 1) else k
  }

  // The first n items, last one first.
  function Offered(pdu: Data, n: nat): (list: seq<Entry>)
    requires IsBind(pdu) && n <= NumItems(pdu)
    ensures |list| == n
    decreases n
  {
    if n == 0 then [] else [Item(pdu, n - 1)] + Offered(pdu, n - 1)
  }

  function BindCall(s: State, pdu: Data): State
    requires IsBind(pdu)
  {
    var n := InOrder(pdu, 0);
    s.(hdr := HdrOf(pdu), bytes := if n == NumItems(pdu) then 0 else BIND_ITEMS + BIND_ITEM_LEN * n,
       contexts := s.contexts.(num := NumItems(pdu), left := 0, ctxBytes := 0, uuids := Offered(pdu, n)))
  }

  lemma {:induction false} InOrderItems(pdu: Data, k: nat, i: nat)
    requires IsBind(pdu) && k <= NumItems(pdu) && k <= i < InOrder(pdu, k)
    ensures Item(pdu, i).ctxid == i
    decreases NumItems(pdu) - k
  {
    if k < i {
      InOrderItems(pdu, k + 1, i);
    }
  }

  lemma {:induction false} OfferedAt(pdu: Data, n: nat, j: nat)
    requires IsBind(pdu) && n <= NumItems(pdu) && j < n
    ensures Offered(pdu, n)[j] == Item(pdu, n - 1 - j)
    decreases n
  {
    if j > 0 {
      OfferedAt(pdu, n - 1, j - 1);
    }
  }

  ghost predicate Descending(uuids: seq<Entry>, pdu: Data)
    requires IsBind(pdu)
  {
    && |uuids| == NumItems(pdu)
    && forall j | 0 <= j < |uuids| :: uuids[j] == Item(pdu, |uuids| - 1 - j) && uuids[j].ctxid == |uuids| - 1 - j
  }

  // A BIND ends, with its contexts listed in descending order of their
  // numbers, exactly if its items are numbered from zero on; otherwise the
  // parser stays inside it.
  lemma {:induction false} BindListsItsContexts(s: State, pdu: Data)
    requires IsBind(pdu)
    ensures var t := BindCall(s, pdu);
      && t.contexts.left == 0
      && (t.bytes == 0 <==> forall i | 0 <= i < NumItems(pdu) :: Item(pdu, i).ctxid == i)
      && (t.bytes == 0 ==> Descending(t.contexts.uuids, pdu))
  {
    var n := InOrder(pdu, 0);
    forall i | 0 <= i < n ensures Item(pdu, i).ctxid == i {
      InOrderItems(pdu, 0, i);
    }
    StopsOutOfOrder(pdu, 0);
    forall j | 0 <= j < n ensures Offered(pdu, n)[j] == Item(pdu, n - 1 - j) {
      OfferedAt(pdu, n, j);
    }
  }

  lemma {:induction false} StopsOutOfOrder(pdu: Data, k: nat)
    requires IsBind(pdu) && k <= NumItems(pdu)
    ensures var n := InOrder(pdu, k); n < NumItems(pdu) ==> Item(pdu, n).ctxid != n
    decreases NumItems(pdu) - k
  {
    if k < NumItems(pdu) && Item(pdu, k).ctxid == k {
      StopsOutOfOrder(pdu, k + 1);
    }
  }

  // An item on the wire: the number, one transfer syntax, the first three
  // groups of the identifier with their lowest byte first, and the versions.
  function EncodeItem(e: Entry, syntax: Data): Data
    requires e.ctxid < 0x1_0000 && e.version < 0x1_0000 && e.minor < 0x1_0000 && |e.uuid| == 16 && |syntax| == 20
  {
    var u := e.uuid;
    [e.ctxid % 256, e.ctxid / 256, 1, 0, u[3], u[2], u[1], u[0], u[5], u[4], u[7], u[6]] + u[8..]
    + [e.version % 256, e.version / 256, e.minor % 256, e.minor / 256] + syntax
  }

  lemma ItemRoundTrip(e: Entry, syntax: Data, before: Data, behind: Data)
    requires e.ctxid < 0x1_0000 && e.version < 0x1_0000 && e.minor < 0x1_0000 && |e.uuid| == 16 && |syntax| == 20
    ensures |EncodeItem(e, syntax)| == BIND_ITEM_LEN
    ensures ItemAt(before + EncodeItem(e, syntax) + behind, |before|) == e.(result := 0)
  {
    var item := EncodeItem(e, syntax);
    var pdu, at := before + item + behind, |before|;
    assert forall i | 0 <= i < BIND_ITEM_LEN :: pdu[at + i] == item[i];
    assert pdu[at] == item[0] && pdu[at + 1] == item[1];
    assert pdu[at + 20] == item[20] && pdu[at + 21] == item[21] && pdu[at + 22] == item[22] && pdu[at + 23] == item[23];
    var u := UuidAt(pdu, at);
    assert u[0] == item[7] && u[1] == item[6] && u[2] == item[5] && u[3] == item[4];
    assert u[4] == item[9] && u[5] == item[8] && u[6] == item[11] && u[7] == item[10];
    assert u[8..] == pdu[at + 12..at + 20] == item[12..20] == e.uuid[8..];
    assert u[..8] == e.uuid[..8];
    assert u == u[..8] + u[8..] && e.uuid == e.uuid[..8] + e.uuid[8..];
  }

  // ---- BIND_ACK ----

  predicate IsAckType(ptype: byte) {
    ptype == BIND_ACK || ptype == ALTER_CONTEXT_RESP
  }

  function AddrLen(pdu: Data): nat
    requires |pdu| >= ACK_ADDR
  {
    Num16(pdu[4], pdu[24], pdu[25])
  }

  function PadLen(addrLen: nat): nat {
    if (ACK_ADDR + addrLen) % 4 == 0 then 0 else 4 - (ACK_ADDR + addrLen) % 4
  }

  function ResultsAt(pdu: Data): nat
    requires |pdu| >= ACK_ADDR
  {
    ACK_ADDR + AddrLen(pdu) + PadLen(AddrLen(pdu))
  }

  // A chunk with a whole BIND_ACK, with any secondary address, and whatever
  // follows it. Chunks are shorter than the 16-bit count of bytes allows.
  predicate IsAck(pdu: Data) {
    && ACK_ADDR <= |pdu| < 0x1_0000 && VersionOk(pdu) && IsAckType(pdu[2])
    && |pdu| >= ResultsAt(pdu) + 4
    && HdrOf(pdu).frag == ResultsAt(pdu) + 4 + ACK_ITEM_LEN * pdu[ResultsAt(pdu)] <= |pdu|
  }

  function NumResults(pdu: Data): nat
    requires IsAck(pdu)
  {
    pdu[ResultsAt(pdu)]
  }

  // The items behind the count.
  function ItemsOf(pdu: Data): (items: Data)
    requires IsAck(pdu)
    ensures |items| >= ACK_ITEM_LEN * NumResults(pdu)
  {
    pdu[ResultsAt(pdu) + 4..]
  }

  function ResultIn(items: Data, i: nat): nat
    requires ACK_ITEM_LEN * (i + 1) <= |items|
  {
    Le16(items[ACK_ITEM_LEN * i], items[ACK_ITEM_LEN * i + 1])
  }

  function Result(pdu: Data, i: nat): nat
    requires IsAck(pdu) && i < NumResults(pdu)
  {
    ResultIn(ItemsOf(pdu), i)
  }

  // The answer goes to the first entry of a context.
  function Assign(uuids: seq<Entry>, ctxid: int, result: nat): (r: seq<Entry>)
    ensures |r| == |uuids|
    decreases |uuids|
  {
    if uuids == [] then []
    else if uuids[0].ctxid == ctxid then [uuids[0].(result := result)] + uuids[1..]
    else [uuids[0]] + Assign(uuids[1..], ctxid, result)
  }

  // The first k answers go to the contexts with the first k numbers.
  function AssignFirst(uuids: seq<Entry>, items: Data, k: nat): (r: seq<Entry>)
    requires ACK_ITEM_LEN * k <= |items|
    ensures |r| == |uuids|
    decreases k
  {
    if k == 0 then uuids else Assign(AssignFirst(uuids, items, k - 1), k - 1, ResultIn(items, k - 1))
  }

  function CountedDown(n: nat): nat {
    if n == 0 then 0 else 0xFFFF
  }

  function AckEnds(s: State): State {
    s.(bytes := 0, contexts := s.contexts.(ctxBytes := 0),
       transactionId := if s.hdr.ptype == BIND_ACK then (s.transactionId + 1) % 0x1_0000 else s.transactionId)
  }

  // Up to the end of the secondary address.
  function AckOpens(s: State, pdu: Data): State
    requires IsAck(pdu)
  {
    var len := AddrLen(pdu);
    s.(hdr := HdrOf(pdu), bytes := ACK_ADDR + len,
       contexts := s.contexts.(num := 0, addrLen := len, addrLeft := CountedDown(len)))
  }

  // Where the results should be, going by the address and the padding noted.
  function AckCount(s: State): nat {
    ACK_ADDR + s.contexts.addrLen + s.pad
  }

  // A state on the way through a PDU and what is left of the input.
  datatype On = On(state: State, input: Data)

  function Skipped(left: nat, n: nat): nat {
    if left <= n then left else n
  }

  // The counter is decremented once more than bytes are skipped.
  function LeftAfter(left: nat, n: nat): nat {
    if left <= n then 0xFFFF else left - n - 1
  }

  // The padding is set only where there is some; otherwise that of an earlier
  // BIND_ACK, and what its counter was left at, is taken.
  function SetPadding(s: State): State {
    if s.bytes % 4 == 0 then s else s.(pad := 4 - s.bytes % 4, padleft := 4 - s.bytes % 4)
  }

  // Padding is skipped until enough bytes are counted. When the counter is at
  // zero nothing is, and the rest of the input is dropped.
  function SkipPadding(s: State, input: Data): (r: On)
    ensures r.state == s.(bytes := r.state.bytes, padleft := r.state.padleft)
    decreases |input|
  {
    if s.bytes < AckCount(s) && s.bytes < s.hdr.frag && input != [] then
      var k := Skipped(s.padleft, |input|);
      var t := s.(bytes := s.bytes + k, padleft := LeftAfter(s.padleft, |input|));
      if k == 0 then On(t, []) else SkipPadding(t, input[k..])
    else On(s, input)
  }

  function TakeCount(s: State, input: Data): (r: On)
  {
    if AckCount(s) <= s.bytes < AckCount(s) + 4 && s.bytes < s.hdr.frag && input != [] then
      var k := Skipped(4, |input|);
      On(s.(bytes := s.bytes + k, contexts := s.contexts.(num := input[0], left := input[0], ctxBytes := k)),
         input[k..])
    else On(s, input)
  }

  // The bytes of an item are counted from zero only where the results should be.
  function StartItems(s: State): State {
    if s.bytes == AckCount(s) + 4 then s.(contexts := s.contexts.(ctxBytes := 0)) else s
  }

  // One item, from the byte at hand on, or as much of it as there is. Its result
  // is in the first two bytes and goes to a context with the last; inside a PDU
  // that arrives whole no item is taken up at its second byte.
  function TakeResult(s: State, input: Data): (r: On)
    requires s.contexts.ctxBytes < ACK_ITEM_LEN && s.contexts.left > 0 && input != []
    ensures |r.input| < |input| && r.state.contexts.ctxBytes < ACK_ITEM_LEN
  {
    var c := s.contexts;
    var k := Skipped(ACK_ITEM_LEN - c.ctxBytes, |input|);
    var result := if c.ctxBytes == 0 then Le16(input[0], if |input| > 1 then input[1] else 0) else c.result;
    var d := if c.ctxBytes + k < ACK_ITEM_LEN then c.(ctxBytes := c.ctxBytes + k, result := result)
             else c.(ctxBytes := 0, result := result, left := c.left - 1,
                     uuids := Assign(c.uuids, c.num - c.left, result));
    On(s.(bytes := s.bytes + k, contexts := d), input[k..])
  }

  function TakeResults(s: State, input: Data): (r: State)
    requires s.contexts.ctxBytes < ACK_ITEM_LEN
    ensures r.contexts.num == s.contexts.num && r.pad == s.pad && r.hdr == s.hdr
    decreases |input|
  {
    if s.contexts.left != 0 && s.bytes < s.hdr.frag && input != [] then
      var r := TakeResult(s, input);
      TakeResults(r.state, r.input)
    else s
  }

  // From behind the address on.
  function AckRest(s: State, input: Data): (r: State)
    requires s.contexts.ctxBytes == 0
    ensures r.pad == s.pad && r.hdr == s.hdr
  {
    var skipped := SkipPadding(s, input);
    var counted := TakeCount(skipped.state, skipped.input);
    TakeResults(StartItems(counted.state), counted.input)
  }

  // The whole PDU, before the check whether it is complete.
  function AckRead(s: State, pdu: Data): State
    requires IsAck(pdu) && s.contexts.ctxBytes == 0
  {
    AckRest(SetPadding(AckOpens(s, pdu)), pdu[ACK_ADDR + AddrLen(pdu)..])
  }

  function AckCall(s: State, pdu: Data): State
    requires IsAck(pdu) && s.contexts.ctxBytes == 0
  {
    var r := AckRead(s, pdu);
    if r.bytes == r.hdr.frag then AckEnds(r) else r
  }

  // ---- where the padding is right ----

  // There is padding to be worked out, or none was ever remembered.
  predicate FindsResults(s: State, pdu: Data)
    requires |pdu| >= ACK_ADDR
  {
    PadLen(AddrLen(pdu)) != 0 || s.pad == 0
  }

  // With k of all items read.
  function Answered(s: State, items: Data, k: nat): State
    requires ACK_ITEM_LEN * k <= |items| && k <= s.contexts.num
  {
    s.(bytes := s.bytes + ACK_ITEM_LEN * k,
       contexts := s.contexts.(left := s.contexts.num - k, ctxBytes := 0,
                               uuids := AssignFirst(s.contexts.uuids, items, k),
                               result := if k == 0 then s.contexts.result else ResultIn(items, k - 1)))
  }

  // The items from the k-th on.
  function Unread(items: Data, k: nat): Data
    requires ACK_ITEM_LEN * k <= |items|
  {
    items[ACK_ITEM_LEN * k..]
  }

  ghost predicate Finishes(s: State, input: Data, end: State) {
    s.contexts.ctxBytes < ACK_ITEM_LEN && TakeResults(s, input) == end
  }

  lemma {:induction false} ItemsAreTaken(s: State, items: Data, k: nat)
    requires k <= s.contexts.num && |items| >= ACK_ITEM_LEN * s.contexts.num
    requires s.bytes + ACK_ITEM_LEN * s.contexts.num == s.hdr.frag
    ensures Finishes(Answered(s, items, k), Unread(items, k), Answered(s, items, s.contexts.num))
    decreases s.contexts.num - k
  {
    var now, end := Answered(s, items, k), Answered(s, items, s.contexts.num);
    if k < s.contexts.num {
      OneItemIsTaken(s, items, k);
      ItemsAreTaken(s, items, k + 1);
      GoesOn(now, Unread(items, k), end);
    } else {
      StopsThere(now, Unread(items, k));
    }
  }

  lemma OneItemIsTaken(s: State, items: Data, k: nat)
    requires |items| >= ACK_ITEM_LEN * s.contexts.num && k < s.contexts.num
    ensures TakeResult(Answered(s, items, k), Unread(items, k)) == On(Answered(s, items, k + 1), Unread(items, k + 1))
  {
    var at := ACK_ITEM_LEN * k;
    assert items[at..][0] == items[at] && items[at..][1] == items[at + 1];
    assert items[at..][ACK_ITEM_LEN..] == items[at + ACK_ITEM_LEN..];
  }

  lemma GoesOn(s: State, input: Data, end: State)
    requires 0 < s.contexts.left && s.contexts.ctxBytes < ACK_ITEM_LEN && s.bytes < s.hdr.frag && input != []
    requires var r := TakeResult(s, input); Finishes(r.state, r.input, end)
    ensures Finishes(s, input, end)
  {
  }

  lemma StopsThere(s: State, input: Data)
    requires s.contexts.left == 0 && s.contexts.ctxBytes < ACK_ITEM_LEN
    ensures Finishes(s, input, s)
  {
  }

  // At the first of the results, with their number known.
  function Counted(s: State, num: nat): State {
    s.(bytes := s.bytes + 4, contexts := s.contexts.(num := num, left := num, ctxBytes := 0))
  }

  // The rest from behind the address on, with the right padding noted.
  lemma RestIsRead(s: State, input: Data, padding: nat)
    requires s.contexts.ctxBytes == 0 && s.bytes + padding == AckCount(s) && (padding != 0 ==> s.padleft == padding)
    requires |input| >= padding + 4 && |input| >= padding + 4 + ACK_ITEM_LEN * input[padding]
    requires s.bytes + padding + 4 + ACK_ITEM_LEN * input[padding] == s.hdr.frag
    ensures var c := Counted(s.(bytes := AckCount(s), padleft := if padding != 0 then 0xFFFF else s.padleft),
                             input[padding]);
      AckRest(s, input) == Answered(c, input[padding + 4..], c.contexts.num)
  {
    var p := s.(bytes := AckCount(s), padleft := if padding != 0 then 0xFFFF else s.padleft);
    SkipsThePadding(s, input, padding);
    CountIsTaken(p, input[padding..]);
    var c, items := Counted(p, input[padding]), input[padding + 4..];
    assert input[padding..][4..] == items && Unread(items, 0) == items;
    assert Answered(c, items, 0) == c;
    ItemsAreTaken(c, items, 0);
  }

  lemma SkipsThePadding(s: State, input: Data, padding: nat)
    requires s.bytes + padding == AckCount(s) && (padding != 0 ==> s.padleft == padding)
    requires |input| >= padding && (padding != 0 ==> s.bytes < s.hdr.frag)
    ensures SkipPadding(s, input)
      == On(s.(bytes := AckCount(s), padleft := if padding != 0 then 0xFFFF else s.padleft), input[padding..])
  {
    assert input[0..] == input;
    if padding != 0 {
      var t := s.(bytes := AckCount(s), padleft := 0xFFFF);
      assert SkipPadding(t, input[padding..]) == On(t, input[padding..]);
    }
  }

  lemma CountIsTaken(s: State, input: Data)
    requires s.bytes == AckCount(s) && s.bytes < s.hdr.frag && |input| >= 4 && s.contexts.ctxBytes == 0
    ensures var r := TakeCount(s, input); StartItems(r.state) == Counted(s, input[0]) && r.input == input[4..]
  {
  }

  // What a BIND_ACK with the right padding leaves.
  function AckFound(s: State, pdu: Data): State
    requires IsAck(pdu)
  {
    var o, padding, n := AckOpens(s, pdu), PadLen(AddrLen(pdu)), NumResults(pdu);
    AckEnds(o.(bytes := o.hdr.frag, pad := if padding != 0 then padding else s.pad,
               padleft := if padding != 0 then 0xFFFF else s.padleft,
               contexts := o.contexts.(num := n, left := 0, ctxBytes := 0,
                                       uuids := AssignFirst(s.contexts.uuids, ItemsOf(pdu), n),
                                       result := if n == 0 then s.contexts.result else Result(pdu, n - 1))))
  }

  lemma AckIsReady(s: State, pdu: Data)
    requires IsAck(pdu) && FindsResults(s, pdu)
    ensures var o, padding, input := SetPadding(AckOpens(s, pdu)), PadLen(AddrLen(pdu)), pdu[ACK_ADDR + AddrLen(pdu)..];
      && o.bytes + padding == AckCount(o) && (padding != 0 ==> o.padleft == padding)
      && o.bytes + padding + 4 + ACK_ITEM_LEN * NumResults(pdu) == o.hdr.frag
      && |input| >= padding + 4 + ACK_ITEM_LEN * NumResults(pdu)
      && input[padding] == NumResults(pdu) && input[padding + 4..] == ItemsOf(pdu)
  {
  }

  lemma AckEndsFound(s: State, pdu: Data)
    requires IsAck(pdu) && FindsResults(s, pdu)
    ensures var o, padding := SetPadding(AckOpens(s, pdu)), PadLen(AddrLen(pdu));
      var c := Counted(o.(bytes := AckCount(o), padleft := if padding != 0 then 0xFFFF else o.padleft),
                       NumResults(pdu));
      var r := Answered(c, ItemsOf(pdu), c.contexts.num);
      r.bytes == r.hdr.frag && AckEnds(r) == AckFound(s, pdu)
  {
  }

  // Then every result is read and the PDU is complete.
  lemma EveryResultIsRead(s: State, pdu: Data)
    requires IsAck(pdu) && s.contexts.ctxBytes == 0 && FindsResults(s, pdu)
    ensures AckCall(s, pdu) == AckFound(s, pdu)
  {
    AckIsReady(s, pdu);
    RestIsRead(SetPadding(AckOpens(s, pdu)), pdu[ACK_ADDR + AddrLen(pdu)..], PadLen(AddrLen(pdu)));
    AckEndsFound(s, pdu);
  }

  // ---- where it is not ----

  // All results are read and assigned in order.
  ghost predicate ReadsAll(s: State, pdu: Data)
    requires IsAck(pdu) && s.contexts.ctxBytes == 0
  {
    var c := AckCall(s, pdu).contexts;
    c.num == NumResults(pdu) && c.uuids == AssignFirst(s.contexts.uuids, ItemsOf(pdu), NumResults(pdu))
  }

  // The first byte behind the address is never where the results are looked for.
  lemma {:induction false} SkipsSome(s: State, input: Data)
    ensures var r := SkipPadding(s, input);
      r.input == [] ||
        (exists j: nat | j <= |input| :: r.input == input[j..]
           && (s.bytes < AckCount(s) && s.bytes < s.hdr.frag ==> j > 0))
    decreases |input|
  {
    if s.bytes < AckCount(s) && s.bytes < s.hdr.frag && input != [] {
      var k := Skipped(s.padleft, |input|);
      if k > 0 {
        var t := s.(bytes := s.bytes + k, padleft := LeftAfter(s.padleft, |input|));
        SkipsSome(t, input[k..]);
        var r := SkipPadding(t, input[k..]);
        if r.input != [] {
          var j: nat :| j <= |input[k..]| && r.input == input[k..][j..];
          assert r.input == input[k + j..];
        }
      }
    } else {
      assert input[0..] == input;
    }
  }

  function Zeros(n: nat): Data {
    seq(n, _ => 0)
  }

  // A BIND_ACK with a zero address of a length, its padding and one zero result.
  function SampleAck(addrLen: nat): (pdu: Data)
    requires addrLen <= 65478
    ensures |pdu| == 54 + addrLen + PadLen(addrLen)
  {
    var frag := 54 + addrLen + PadLen(addrLen);
    [5, 0, BIND_ACK, 3, LITTLE_ENDIAN, 0, 0, 0, frag % 256, frag / 256] + Zeros(14) + [addrLen % 256, addrLen / 256]
    + Zeros(addrLen + PadLen(addrLen)) + [1, 0, 0, 0] + Zeros(24)
  }

  lemma SampleAckIsWhole(addrLen: nat)
    requires addrLen <= 65478
    ensures var pdu := SampleAck(addrLen);
      && IsAck(pdu) && AddrLen(pdu) == addrLen && NumResults(pdu) == 1
      && forall i | ResultsAt(pdu) < i < |pdu| :: pdu[i] == 0
  {
    var pdu := SampleAck(addrLen);
    assert pdu[0] == 5 && pdu[1] == 0 && pdu[2] == BIND_ACK && pdu[4] == LITTLE_ENDIAN;
    assert pdu[8] == |pdu| % 256 && pdu[9] == |pdu| / 256;
    assert pdu[24] == addrLen % 256 && pdu[25] == addrLen / 256 && pdu[26 + addrLen + PadLen(addrLen)] == 1;
    assert HdrOf(pdu).frag == |pdu| && AddrLen(pdu) == addrLen && ResultsAt(pdu) == 26 + addrLen + PadLen(addrLen);
  }

  // When something is skipped, the count is taken from another byte, if at all.
  lemma CountIsMissed(s: State, input: Data)
    requires s.contexts.ctxBytes == 0 && s.contexts.num == 0
    requires s.bytes < AckCount(s) && s.bytes < s.hdr.frag && forall i | 0 < i < |input| :: input[i] == 0
    ensures AckRest(s, input).contexts.num == 0
  {
    SkipsSome(s, input);
    var skipped := SkipPadding(s, input);
    if skipped.input != [] {
      var j: nat :| j <= |input| && skipped.input == input[j..] && j > 0;
      assert skipped.input[0] == input[j];
    }
  }

  // With padding remembered, its result is not found, whatever the counter of
  // that padding was left at.
  lemma SampleAckIsMissed(s: State, addrLen: nat)
    requires s.contexts.ctxBytes == 0 && addrLen <= 65478 && PadLen(addrLen) == 0 && s.pad != 0
    ensures IsAck(SampleAck(addrLen)) && AckCall(s, SampleAck(addrLen)).contexts.num == 0
  {
    var pdu := SampleAck(addrLen);
    SampleAckIsWhole(addrLen);
    CountIsMissed(SetPadding(AckOpens(s, pdu)), pdu[ACK_ADDR + addrLen..]);
  }

  // For BIND_ACKs with a given length of the address: the results of all of them
  // are read if and only if there is padding behind the address or none was ever
  // remembered.
  lemma ResultsAreFoundExactly(s: State, addrLen: nat)
    requires s.contexts.ctxBytes == 0 && addrLen <= 65478
    ensures (forall pdu | IsAck(pdu) && AddrLen(pdu) == addrLen :: ReadsAll(s, pdu))
      <==> PadLen(addrLen) != 0 || s.pad == 0
  {
    if PadLen(addrLen) != 0 || s.pad == 0 {
      forall pdu | IsAck(pdu) && AddrLen(pdu) == addrLen ensures ReadsAll(s, pdu) {
        EveryResultIsRead(s, pdu);
      }
    } else {
      SampleAckIsWhole(addrLen);
      SampleAckIsMissed(s, addrLen);
      assert !ReadsAll(s, SampleAck(addrLen));
    }
  }

  // ---- a BIND and its answer ----

  lemma {:induction false} AssignInOrder(uuids: seq<Entry>, j: nat, result: nat)
    requires j < |uuids| && forall i | 0 <= i < |uuids| :: uuids[i].ctxid == |uuids| - 1 - i
    ensures Assign(uuids, |uuids| - 1 - j, result) == uuids[j := uuids[j].(result := result)]
    decreases |uuids|
  {
    if j > 0 {
      assert forall i | 0 <= i < |uuids| - 1 :: uuids[1..][i] == uuids[i + 1];
      AssignInOrder(uuids[1..], j - 1, result);
    }
  }

  lemma {:induction false} AssignedInOrder(uuids: seq<Entry>, items: Data, k: nat)
    requires k <= |uuids| && ACK_ITEM_LEN * |uuids| <= |items|
    requires forall i | 0 <= i < |uuids| :: uuids[i].ctxid == |uuids| - 1 - i
    ensures var r := AssignFirst(uuids, items, k);
      forall i | 0 <= i < |uuids| ::
        r[i] == if |uuids| - 1 - i < k then uuids[i].(result := ResultIn(items, |uuids| - 1 - i)) else uuids[i]
    decreases k
  {
    if k > 0 {
      AssignedInOrder(uuids, items, k - 1);
      var before := AssignFirst(uuids, items, k - 1);
      forall i | 0 <= i < |uuids| ensures before[i].ctxid == |uuids| - 1 - i {
      }
      AssignInOrder(before, |uuids| - k, ResultIn(items, k - 1));
    }
  }

  // The entries are the offers with their results, last offer first.
  ghost predicate Matched(uuids: seq<Entry>, bind: Data, ack: Data)
    requires IsBind(bind) && IsAck(ack) && NumItems(bind) == NumResults(ack)
  {
    && |uuids| == NumItems(bind)
    && forall j | 0 <= j < |uuids| ::
         uuids[j] == Item(bind, |uuids| - 1 - j).(result := Result(ack, |uuids| - 1 - j))
  }

  lemma FoundAnswersMatch(s: State, bind: Data, ack: Data)
    requires IsBind(bind) && IsAck(ack) && NumItems(bind) == NumResults(ack)
    requires forall i | 0 <= i < NumItems(bind) :: Item(bind, i).ctxid == i
    ensures Matched(AckFound(BindCall(s, bind), ack).contexts.uuids, bind, ack)
  {
    BindListsItsContexts(s, bind);
    AssignedInOrder(BindCall(s, bind).contexts.uuids, ItemsOf(ack), NumResults(ack));
  }

  // A BIND's contexts with the answers to them, and nothing left to read.
  ghost predicate Answers(t: State, bind: Data, ack: Data)
    requires IsBind(bind) && IsAck(ack) && NumItems(bind) == NumResults(ack)
  {
    t.bytes == 0 && t.contexts.left == 0 && t.contexts.ctxBytes == 0 && Matched(t.contexts.uuids, bind, ack)
  }

  // After a BIND with its items in order and a BIND_ACK with as many results
  // whose padding is found, context i has the i-th offer and the i-th result,
  // and nothing is left to read.
  lemma AnswersAreMatched(s: State, bind: Data, ack: Data)
    requires IsBind(bind) && IsAck(ack) && NumItems(bind) == NumResults(ack)
    requires forall i | 0 <= i < NumItems(bind) :: Item(bind, i).ctxid == i
    requires FindsResults(s, ack)
    ensures BindCall(s, bind).contexts.ctxBytes == 0 && Answers(AckCall(BindCall(s, bind), ack), bind, ack)
  {
    FoundAnswersMatch(s, bind, ack);
    EveryResultIsRead(BindCall(s, bind), ack);
  }

  // Padding is never forgotten.
  lemma PaddingIsRemembered(s: State, pdu: Data)
    requires IsAck(pdu) && s.contexts.ctxBytes == 0
    ensures AckCall(s, pdu).pad == if PadLen(AddrLen(pdu)) != 0 then PadLen(AddrLen(pdu)) else s.pad
  {
  }

  // So once an answer had padding behind its address, for every address without
  // any there is an answer with one result that is lost.
  lemma {:induction false} RememberedPaddingLosesResults(s: State, first: Data, addrLen: nat)
    requires IsAck(first) && PadLen(AddrLen(first)) != 0 && s.contexts.ctxBytes == 0
    requires PadLen(addrLen) == 0 && addrLen <= 65478
    ensures AckCall(s, first).contexts.num == NumResults(first) && AckCall(s, first).contexts.ctxBytes == 0
    ensures IsAck(SampleAck(addrLen)) && NumResults(SampleAck(addrLen)) == 1
    ensures AckCall(AckCall(s, first), SampleAck(addrLen)).contexts.num == 0
  {
    EveryResultIsRead(s, first);
    PaddingIsRemembered(s, first);
    SampleAckIsWhole(addrLen);
    SampleAckIsMissed(AckFound(s, first), addrLen);
  }
}

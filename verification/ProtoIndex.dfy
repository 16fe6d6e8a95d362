// The detection context of the protocol detector (app-layer-detect-proto.c):
// registering signatures, building the index from pattern id to signatures,
// and looking a protocol up through it.
module ProtoIndex {
  import opened Bytes
  import opened ProtoSignatures
  import opened ProtoWalk

  const INSPECT_BYTES := 32
  const ALP_DETECT_MAX := 256

  class Direction {
    var id: nat
    const protoMap: array<nat>
    var maxLen: nat
    var minLen: nat
    // What was handed to the multi-pattern matcher.
    ghost var patterns: seq<Content>

    ghost predicate Valid()
      reads this
    {
      && protoMap.Length == ALP_DETECT_MAX && id == |patterns|
      && (forall p <- patterns :: p.depth <= maxLen && minLen <= p.depth)
    }

    constructor ()
      ensures Valid() && patterns == [] && fresh(protoMap)
    {
      protoMap := new nat[ALP_DETECT_MAX](_ => 0);
      id, maxLen, minLen, patterns := 0, 0, INSPECT_BYTES, [];
    }

    method Add(co: Content, proto: nat)
      requires Valid() && id < ALP_DETECT_MAX
      modifies this, protoMap
      ensures Valid() && patterns == old(patterns) + [co]
    {
      protoMap[id] := proto;
      id := id + 1;
      if co.depth > maxLen {
        maxLen := co.depth;
      }
      if co.depth < minLen {
        minLen := co.depth;
      }
      patterns := patterns + [co];
    }
  }

  // ---- pattern ids ----

  // Ids are given out in order, one per distinct pattern, and every id given
  // out belongs to some signature of the list.
  ghost predicate IdsAgree(store: map<Data, nat>, maxId: nat, list: seq<Signature>) {
    && (forall b <- store :: store[b] < maxId)
    && (forall b, c | b in store && c in store && store[b] == store[c] :: b == c)
    && (forall s <- list :: s.co.bytes in store && store[s.co.bytes] == s.co.id)
    && (forall id: nat | id < maxId :: First(list, id, 0).Some?)
    && maxId <= |list|
  }

  lemma {:induction false} FirstAfterPrepend(s: Signature, list: seq<Signature>, id: nat, from: nat)
    ensures First([s] + list, id, from + 1).Some? <==> First(list, id, from).Some?
    decreases |list| - from
  {
    if from < |list| && list[from].co.id != id {
      FirstAfterPrepend(s, list, id, from + 1);
    }
  }

  lemma IdsAgreeOn(store: map<Data, nat>, maxId: nat, list: seq<Signature>, s: Signature)
    requires IdsAgree(store, maxId, list)
    requires s.co.id == if s.co.bytes in store then store[s.co.bytes] else maxId
    ensures IdsAgree(store[s.co.bytes := s.co.id], if s.co.bytes in store then maxId else maxId + 1, [s] + list)
  {
    forall id: nat | id < maxId + 1 ensures id < maxId || id == s.co.id ==> First([s] + list, id, 0).Some? {
      FirstAfterPrepend(s, list, id, 0);
    }
  }

  // ---- the list and the index ----

  // The signature at a place was added when the later ones were there, and
  // leads to the one before.
  ghost predicate Link(list: seq<Signature>, i: nat)
    requires i < |list|
    reads list[i]
  {
    list[i].serial == |list| - 1 - i && list[i].next == if i + 1 < |list| then list[i + 1] else null
  }

  ghost predicate Linked(list: seq<Signature>)
    reads list
  {
    forall i | 0 <= i < |list| :: Link(list, i)
  }

  // The first of the first k signatures that has an id, from a place on.
  function Known(list: seq<Signature>, id: nat, from: nat, k: nat): Signature? {
    var f := First(list, id, from);
    if f.Some? && f.value < k then list[f.value] else null
  }

  ghost predicate Slot(index: array<Signature?>, list: seq<Signature>, id: nat, k: nat)
    requires id < index.Length
    reads index
  {
    index[id] == Known(list, id, 0, k)
  }

  ghost predicate Onward(list: seq<Signature>, i: nat, k: nat)
    requires i < |list|
    reads list[i]
  {
    list[i].mapNext == Known(list, list[i].co.id, i + 1, k)
  }

  // The index after the first k signatures: an entry leads to the first one
  // with its id, and each leads to the next one with the same id.
  ghost predicate IndexedUpTo(index: array<Signature?>, list: seq<Signature>, k: nat)
    reads index, list
  {
    && k <= |list|
    && (forall id | 0 <= id < index.Length :: Slot(index, list, id, k))
    && (forall i | 0 <= i < |list| :: Onward(list, i, k))
  }

  // The objects found by following the index from one signature.
  ghost predicate ChainIs(s: Signature?, chain: seq<Signature>)
    reads chain
    decreases |chain|
  {
    if chain == [] then s == null else s == chain[0] && ChainIs(chain[0].mapNext, chain[1..])
  }

  lemma {:induction false} ChainFrom(list: seq<Signature>, index: array<Signature?>, id: nat, from: nat)
    requires IndexedUpTo(index, list, |list|)
    ensures ChainIs(Known(list, id, from, |list|), Bucket(list, id, from))
    decreases |list| - from
  {
    BucketStartsAtFirst(list, id, from);
    var f := First(list, id, from);
    if f.Some? {
      assert Onward(list, f.value, |list|);
      ChainFrom(list, index, id, f.value + 1);
      assert Bucket(list, id, from)[1..] == Bucket(list, id, f.value + 1);
    }
  }

  // The chain at an id is exactly the signatures with that id, newest first.
  lemma ChainsAreBuckets(list: seq<Signature>, index: array<Signature?>, id: nat)
    requires IndexedUpTo(index, list, |list|) && id < index.Length
    ensures ChainIs(index[id], Bucket(list, id, 0))
  {
    assert Slot(index, list, id, |list|);
    ChainFrom(list, index, id, 0);
  }

  // Linking the signature at k changes exactly the entry that leads to it.
  lemma OnlyTheTail(list: seq<Signature>, id: nat, j: nat, k: nat, i: nat)
    requires j < k < |list| && i < |list| && list[j].co.id == id && list[k].co.id == id
    requires var f := First(list, id, j + 1); f.None? || f.value >= k
    ensures First(list, list[i].co.id, i + 1) == Some(k) <==> i == j
  {
    NoneBefore(list, id, j + 1, k);
    if list[i].co.id == id {
      if i < j {
        NoneBefore(list, id, i + 1, j);
      } else if j < i < k {
        NoneBefore(list, id, j + 1, i);
      }
    }
  }

  lemma {:induction false} BucketWellFormed(list: seq<Signature>, id: nat, from: nat)
    requires forall s <- list :: WellFormed(s)
    ensures forall s <- Bucket(list, id, from) :: WellFormed(s)
    decreases |list| - from
  {
    if from < |list| {
      BucketWellFormed(list, id, from + 1);
      assert list[from] in list;
    }
  }

  class DetectCtx {
    const toserver: Direction
    const toclient: Direction
    var store: map<Data, nat>
    var maxId: nat
    var head: Signature?
    var sigs: nat
    var index: array<Signature?>
    // The signatures, newest first.
    ghost var list: seq<Signature>

    ghost predicate Valid()
      reads this, toserver, toclient, list
    {
      && toserver != toclient && toserver.protoMap != toclient.protoMap && toserver.Valid() && toclient.Valid()
      && Linked(list) && head == (if list == [] then null else list[0]) && sigs == |list|
      && IdsAgree(store, maxId, list) && (forall s <- list :: WellFormed(s))
    }

    ghost predicate Unindexed()
      reads this, list
    {
      forall s <- list :: s.mapNext == null
    }

    ghost predicate Indexed()
      reads this, index, list
    {
      index.Length == |list| && IndexedUpTo(index, list, |list|)
    }

    constructor ()
      ensures Valid() && list == [] && Unindexed() && toserver.patterns == [] && toclient.patterns == []
      ensures fresh(toserver) && fresh(toserver.protoMap) && fresh(toclient) && fresh(toclient.protoMap)
    {
      toserver := new Direction();
      toclient := new Direction();
      store, maxId, head, sigs, list := map[], 0, null, 0, [];
      index := new Signature?[0];
    }

    // The id of a pattern: the one it has, or the next one.
    method DetectContentGetId(bytes: Data) returns (id: nat)
      modifies this`store, this`maxId
      ensures id == if bytes in old(store) then old(store)[bytes] else old(maxId)
      ensures store == old(store)[bytes := id]
      ensures maxId == if bytes in old(store) then old(maxId) else old(maxId) + 1
    {
      if bytes in store {
        id := store[bytes];
      } else {
        id := maxId;
        maxId := maxId + 1;
      }
      store := store[bytes := id];
    }

    method AddSignature(co: Content, ipProto: nat, proto: nat) returns (s: Signature)
      requires Linked(list) && head == (if list == [] then null else list[0]) && sigs == |list|
      modifies this`head, this`sigs, this`list
      ensures fresh(s) && list == [s] + old(list) && Linked(list) && head == s && sigs == |list|
      ensures s.co == co && s.ipProto == ipProto && s.proto == proto && s.mapNext == null
    {
      s := new Signature(ipProto, proto, co, |list|);
      if head == null {
        head := s;
      } else {
        s.next := head;
        head := s;
      }
      sigs := sigs + 1;
      ghost var before := list;
      list := [s] + before;
      forall i | 0 <= i < |list| ensures Link(list, i) {
        if i > 0 {
          assert Link(before, i - 1);
        }
      }
    }

    // A pattern that does not parse is ignored; otherwise the new signature
    // comes first and its pattern is added to the direction.
    method AlpProtoAdd(ipProto: nat, alProto: nat, content: Option<Data>, depth: nat, offset: nat, toClient: bool)
      requires Valid() && Unindexed() && offset <= depth
      requires (if toClient then toclient else toserver).id < ALP_DETECT_MAX
      modifies this, if toClient then toclient else toserver, (if toClient then toclient else toserver).protoMap
      ensures Valid() && Unindexed() && index == old(index)
      ensures var dir := if toClient then toclient else toserver;
        if content.None? then list == old(list) && dir.patterns == old(dir.patterns)
        else
          && |list| == |old(list)| + 1 && list[1..] == old(list) && fresh(list[0])
          && list[0].ipProto == ipProto && list[0].proto == alProto
          && list[0].co.bytes == content.value && list[0].co.depth == depth && list[0].co.offset == offset
          && dir.patterns == old(dir.patterns) + [list[0].co]
          && list[0].co.id == (if content.value in old(store) then old(store)[content.value] else old(maxId))
          && store == old(store)[content.value := list[0].co.id]
          && maxId == if content.value in old(store) then old(maxId) else old(maxId) + 1
    {
      if content.None? {
        return;
      }
      ghost var store0, maxId0, list0 := store, maxId, list;
      var id := DetectContentGetId(content.value);
      var cd := Content(content.value, depth, offset, id);
      var dir := if toClient then toclient else toserver;
      dir.Add(cd, alProto);
      var s := AddSignature(cd, ipProto, alProto);
      IdsAgreeOn(store0, maxId0, list0, s);
      forall t <- list ensures t.mapNext == null && WellFormed(t) {
        assert t == s || t in list0;
      }
    }

    method AppendToBucket(s: Signature, ghost k: nat)
      requires index.Length == |list| && IndexedUpTo(index, list, k)
      requires k < |list| && s == list[k] && s.co.id < index.Length
      requires Linked(list)
      modifies index, list
      ensures IndexedUpTo(index, list, k + 1) && Linked(list)
    {
      NoneBefore(list, s.co.id, 0, k);
      assert Slot(index, list, s.co.id, k);
      if index[s.co.id] == null {
        StartBucket(s, k);
      } else {
        var temp := index[s.co.id];
        ghost var j := First(list, s.co.id, 0).value;
        while temp.mapNext != null
          invariant temp != null && j < k && temp == list[j] && list[j].co.id == s.co.id
          decreases k - j
        {
          assert Onward(list, j, k);
          temp := temp.mapNext;
          j := First(list, s.co.id, j + 1).value;
        }
        LinkTail(s, temp, j, k);
      }
    }

    method StartBucket(s: Signature, ghost k: nat)
      requires index.Length == |list| && IndexedUpTo(index, list, k)
      requires k < |list| && s == list[k] && s.co.id < index.Length
      requires index[s.co.id] == null
      modifies index
      ensures IndexedUpTo(index, list, k + 1)
    {
      ghost var id, after := s.co.id, k + 1;
      assert Slot(index, list, id, k);
      NoneBefore(list, id, 0, k);
      label before:
      index[s.co.id] := s;
      forall d | 0 <= d < index.Length ensures Slot(index, list, d, after) {
        assert old@before(Slot(index, list, d, k));
      }
      forall i | 0 <= i < |list| ensures Onward(list, i, after) {
        assert Onward(list, i, k);
        if i < k && list[i].co.id == id {
          NoneBefore(list, id, 0, i);
        }
      }
    }

    method LinkTail(s: Signature, tail: Signature, ghost j: nat, ghost k: nat)
      requires index.Length == |list| && IndexedUpTo(index, list, k) && Linked(list) && j < k < |list|
      requires s == list[k] && tail == list[j] && list[j].co.id == s.co.id && tail.mapNext == null
      modifies tail`mapNext
      ensures IndexedUpTo(index, list, k + 1) && Linked(list)
    {
      ghost var id, after := s.co.id, k + 1;
      assert Onward(list, j, k);
      NoneBefore(list, id, 0, j);
      label before:
      tail.mapNext := s;
      forall d | 0 <= d < index.Length ensures Slot(index, list, d, after) {
        assert Slot(index, list, d, k);
      }
      forall i | 0 <= i < |list| ensures Onward(list, i, after) {
        assert old@before(Onward(list, i, k));
        OnlyTheTail(list, id, j, k, i);
        assert old@before(Link(list, i)) && old@before(Link(list, j));
      }
      forall i | 0 <= i < |list| ensures Link(list, i) {
        assert old@before(Link(list, i));
      }
    }

    method AlpProtoFinalizeGlobal()
      requires Valid() && Unindexed()
      modifies this`index, list
      ensures Valid() && Indexed()
    {
      index := new Signature?[sigs](_ => null);
      forall s <- list ensures s.co.id < index.Length {
      }
      FillIndex();
    }

    // Every signature is appended to its bucket.
    method FillIndex()
      requires Linked(list) && head == (if list == [] then null else list[0]) && index.Length == |list|
      requires IndexedUpTo(index, list, 0) && forall s <- list :: s.co.id < index.Length
      modifies index, list
      ensures Linked(list) && Indexed()
    {
      var s := head;
      ghost var k := 0;
      while s != null
        invariant Linked(list) && k <= |list| && s == (if k < |list| then list[k] else null)
        invariant IndexedUpTo(index, list, k)
        decreases |list| - k
      {
        assert list[k] in list;
        AppendToBucket(s, k);
        assert Link(list, k);
        s := s.next;
        k := k + 1;
      }
      assert k == |list|;
    }

    // The loop takes the steps of the walk, with the id counter in one byte, and
    // answers with the protocol at which it stops. It ends whenever the walk does.
    method AppLayerDetectGetProto(buf: Data, toServer: bool, ipProto: nat, ids: seq<nat>) returns (proto: nat)
      requires Valid() && Indexed() && forall id <- ids :: id < index.Length
      requires (if toServer then toserver else toclient).id != 0 ==> Stops(list, ids, buf, ipProto)
      ensures if (if toServer then toserver else toclient).id == 0 then proto == UNKNOWN
              else exists n: nat ::
                     StopsAfter(list, ids, buf, ipProto, n) && proto == After(list, ids, buf, ipProto, n).proto
    {
      proto := UNKNOWN;
      if (if toServer then toserver else toclient).id == 0 {
        return;
      }
      if ids == [] {
        assert StopsAfter(list, ids, buf, ipProto, 0);
        return;
      }
      var s := Chain(ids, ids[0]);
      var sCnt := 1;
      ghost var end: nat :| StopsAfter(list, ids, buf, ipProto, end);
      ghost var k: nat, w := 0, Begin(list, ids);
      while proto == UNKNOWN && s != null
        invariant k <= end && w == After(list, ids, buf, ipProto, k) && IsAt(s, w, sCnt, proto)
        decreases end - k
      {
        NotYet(list, ids, buf, ipProto, k, end);
        s, sCnt, proto := Try(buf, ipProto, ids, s, sCnt, w);
        w := Step(list, ids, buf, ipProto, w);
        k := k + 1;
      }
      assert StopsAfter(list, ids, buf, ipProto, k);
    }

    // One signature, and the next one of its chain or of the next id's.
    method Try(buf: Data, ipProto: nat, ids: seq<nat>, s: Signature, sCnt: nat, ghost w: Walk)
      returns (s': Signature?, sCnt': nat, proto: nat)
      requires Valid() && Indexed() && forall id <- ids :: id < index.Length
      requires IsAt(s, w, sCnt, UNKNOWN)
      ensures IsAt(s', Step(list, ids, buf, ipProto, w), sCnt', proto)
    {
      assert w.chain[0] in w.chain && forall t <- w.chain[1..] :: t in w.chain;
      MatchSignatureFindsTheWindow(s, buf, ipProto);
      proto := AlpProtoMatchSignature(s, buf, ipProto);
      s', sCnt' := s.mapNext, sCnt;
      assert ChainIs(s', w.chain[1..]) && (s' == null <==> w.chain[1..] == []);
      if s' == null && sCnt < |ids| {
        s' := Chain(ids, ids[sCnt]);
        sCnt' := (sCnt + 1) % 256;
      }
    }

    // The loop's variables are those of the walk.
    ghost predicate IsAt(s: Signature?, w: Walk, sCnt: nat, proto: nat)
      reads w.chain
    {
      ChainIs(s, w.chain) && sCnt == w.cnt && proto == w.proto && forall t <- w.chain :: WellFormed(t)
    }

    // The index entry of a reported id leads to the signatures with it.
    method Chain(ids: seq<nat>, id: nat) returns (s: Signature?)
      requires Valid() && Indexed() && id in ids && forall id <- ids :: id < index.Length
      ensures ChainIs(s, Bucket(list, id, 0)) && forall t <- Bucket(list, id, 0) :: WellFormed(t)
    {
      ChainsAreBuckets(list, index, id);
      BucketWellFormed(list, id, 0);
      s := index[id];
    }
  }

  // A walk that has not stopped yet stops later.
  lemma NotYet(list: seq<Signature>, ids: seq<nat>, buf: Data, ipProto: nat, k: nat, end: nat)
    requires k <= end && StopsAfter(list, ids, buf, ipProto, end) && !StopsAfter(list, ids, buf, ipProto, k)
    ensures k < end
  {
  }

  // ---- what detection amounts to ----

  // The matcher, searching the buffer cut to the longest depth, reports every
  // pattern of the direction that occurs in its window.
  ghost predicate ReportsAll(patterns: seq<Content>, searched: Data, ids: seq<nat>) {
    forall p <- patterns :: OccursInWindow(p, searched) ==> p.id in ids
  }

  // With ids that were given out, the detector stops if and only if at most 255
  // of them were reported or one of the first 256 leads to a match; it answers
  // with the first match in the order of the ids and their chains.
  lemma StopsUnlessTheCounterWraps(store: map<Data, nat>, maxId: nat, list: seq<Signature>, ids: seq<nat>, buf: Data,
                                   ipProto: nat)
    requires IdsAgree(store, maxId, list) && forall id <- ids :: id < maxId
    ensures Stops(list, ids, buf, ipProto)
      <==> |ids| <= 255 || FirstMatch(Visited(list, Reached(ids)), buf, ipProto) != UNKNOWN
    ensures forall n: nat | StopsAfter(list, ids, buf, ipProto, n) ::
      After(list, ids, buf, ipProto, n).proto == FirstMatch(Visited(list, Reached(ids)), buf, ipProto)
  {
    forall id <- ids ensures Bucket(list, id, 0) != [] {
      BucketStartsAtFirst(list, id, 0);
    }
    WalkStopsExactly(list, ids, buf, ipProto);
  }

  // The outcome is unknown exactly when no signature with a reported id gives
  // a protocol for the buffer.
  lemma UnknownExactly(store: map<Data, nat>, maxId: nat, list: seq<Signature>, ids: seq<nat>, buf: Data, ipProto: nat)
    requires IdsAgree(store, maxId, list) && forall id <- ids :: id < maxId
    ensures FirstMatch(Visited(list, ids), buf, ipProto) == UNKNOWN
      <==> forall s <- list :: s.co.id in ids && Matches(s, buf, ipProto) ==> s.proto == UNKNOWN
  {
    var visited := Visited(list, ids);
    UnknownIfNoneMatches(visited, buf, ipProto);
    if FirstMatch(visited, buf, ipProto) == UNKNOWN {
      forall s <- list | s.co.id in ids && Matches(s, buf, ipProto) ensures s.proto == UNKNOWN {
        VisitedHolds(list, ids, s);
        assert s in visited;
      }
    } else {
      var s :| s in visited && Matches(s, buf, ipProto) && s.proto != UNKNOWN;
      VisitedHolds(list, ids, s);
    }
  }

  // A signature of the direction that matches the whole buffer is never missed
  // because the search was cut to the longest depth.
  lemma NoMatchIsMissed(store: map<Data, nat>, maxId: nat, list: seq<Signature>, patterns: seq<Content>, maxLen: nat,
                        ids: seq<nat>, buf: Data, ipProto: nat, s: Signature)
    requires IdsAgree(store, maxId, list) && forall id <- ids :: id < maxId
    requires forall p <- patterns :: p.depth <= maxLen
    requires ReportsAll(patterns, if |buf| > maxLen then buf[..maxLen] else buf, ids)
    requires s in list && s.co in patterns && Matches(s, buf, ipProto) && s.proto != UNKNOWN
    ensures FirstMatch(Visited(list, ids), buf, ipProto) != UNKNOWN
  {
    CutLosesNoMatch(s.co, buf, maxLen);
    UnknownExactly(store, maxId, list, ids, buf, ipProto);
  }

  // ---- a context in which the counter wraps ----

  const TCP := 6
  const UDP := 17

  function Counted(n: nat): (ids: seq<nat>)
    ensures |ids| == n && forall i | 0 <= i < n :: ids[i] == i
  {
    seq(n, i => i)
  }

  // Every byte once.
  function EveryByte(): (buf: Data)
    ensures |buf| == 256
  {
    seq(256, i requires 0 <= i < 256 => i as byte)
  }

  predicate OneByte(p: Content) {
    |p.bytes| == 1 && p.offset == 0 && p.depth == 256 && p.id < 256
  }

  // Every byte is a pattern of one direction, for TCP.
  method OnePatternPerByte() returns (ctx: DetectCtx)
    ensures ctx.Valid() && ctx.Indexed() && ctx.maxId == |ctx.list| == ctx.toserver.id == 256
    ensures forall s <- ctx.list :: s.ipProto == TCP
    ensures forall p <- ctx.toserver.patterns :: OneByte(p)
  {
    ctx := new DetectCtx();
    var b: nat := 0;
    while b < 256
      invariant 0 <= b <= 256 && ctx.Valid() && ctx.Unindexed() && fresh(ctx)
      invariant fresh(ctx.toserver) && fresh(ctx.toserver.protoMap)
      invariant ctx.maxId == |ctx.list| == ctx.toserver.id == b
      invariant forall d <- ctx.store :: |d| == 1 && d[0] < b
      invariant forall s <- ctx.list :: s.ipProto == TCP && fresh(s)
      invariant forall p <- ctx.toserver.patterns :: OneByte(p)
    {
      var bytes: Data := [b];
      ghost var list := ctx.list;
      ctx.AlpProtoAdd(TCP, 1, Some(bytes), 256, 0, false);
      assert ctx.list == [ctx.list[0]] + list;
      b := b + 1;
    }
    forall i | 0 <= i < |ctx.list| ensures fresh(ctx.list[i]) {
      assert ctx.list[i] in ctx.list;
    }
    ctx.AlpProtoFinalizeGlobal();
  }

  // When a UDP packet holds all these bytes, every pattern is found, all 256 ids
  // are reported, and the detector does not stop.
  lemma EveryByteReported(store: map<Data, nat>, list: seq<Signature>, patterns: seq<Content>)
    requires IdsAgree(store, 256, list) && forall s <- list :: s.ipProto == TCP
    requires forall p <- patterns :: OneByte(p)
    ensures forall p <- patterns :: OccursInWindow(p, EveryByte())
    ensures ReportsAll(patterns, EveryByte(), Counted(256))
    ensures !Stops(list, Counted(256), EveryByte(), UDP)
  {
    var ids := Counted(256);
    forall p <- patterns ensures p.id in ids && OccursInWindow(p, EveryByte()) {
      assert ids[p.id] == p.id;
      assert IsAt(EveryByte(), p.bytes, p.bytes[0]);
    }
    UnknownExactly(store, 256, list, ids, EveryByte(), UDP);
    StopsUnlessTheCounterWraps(store, 256, list, ids, EveryByte(), UDP);
  }
}

// Signatures of the protocol detector (app-layer-detect-proto.c): what one
// matches, and the buckets that share a pattern id.
module ProtoSignatures {
  import opened Bytes

  const UNKNOWN := 0

  // A pattern, the part of the stream it is looked for in, and its id.
  datatype Content = Content(bytes: Data, depth: nat, offset: nat, id: nat)

  class Signature {
    const ipProto: nat
    const proto: nat
    const co: Content
    var next: Signature?
    var mapNext: Signature?
    // How many signatures there were before this one.
    ghost const serial: nat

    constructor (ipProto: nat, proto: nat, co: Content, ghost serial: nat)
      ensures this.ipProto == ipProto && this.proto == proto && this.co == co && this.serial == serial
      ensures next == null && mapNext == null
    {
      this.ipProto, this.proto, this.co, this.serial := ipProto, proto, co, serial;
      next, mapNext := null, null;
    }
  }

  // ---- matching one signature ----

  // The pattern occurs entirely between its offset and its depth.
  ghost predicate OccursInWindow(co: Content, buf: Data) {
    exists i: nat :: co.offset <= i && i + |co.bytes| <= co.depth && IsAt(buf, co.bytes, i)
  }

  function AlpProtoMatchSignature(s: Signature, buf: Data, ipProto: nat): (proto: nat)
    requires s.co.offset <= s.co.depth
    ensures proto == UNKNOWN || proto == s.proto
  {
    if s.ipProto != ipProto || s.co.offset > |buf| || s.co.depth > |buf| then UNKNOWN
    else if Find(buf[s.co.offset..s.co.depth], s.co.bytes).Some? then s.proto
    else UNKNOWN
  }

  ghost predicate Matches(s: Signature, buf: Data, ipProto: nat) {
    s.ipProto == ipProto && s.co.depth <= |buf| && OccursInWindow(s.co, buf)
  }

  lemma SliceOfWindow(buf: Data, lo: nat, hi: nat, i: nat, n: nat)
    requires lo + i + n <= hi <= |buf|
    ensures buf[lo..hi][i..i + n] == buf[lo + i..lo + i + n]
  {
    var slice := buf[lo..hi][i..i + n];
    assert |slice| == n && forall k | 0 <= k < n :: slice[k] == buf[lo + i + k];
  }

  // A place in the window is a place in its bytes.
  lemma InWindow(co: Content, buf: Data, i: nat)
    requires co.offset <= i && i + |co.bytes| <= co.depth <= |buf|
    ensures IsAt(buf, co.bytes, i) <==> IsAt(buf[co.offset..co.depth], co.bytes, i - co.offset)
  {
    SliceOfWindow(buf, co.offset, co.depth, i - co.offset, |co.bytes|);
  }

  lemma WindowIsSearched(co: Content, buf: Data)
    requires co.offset <= co.depth <= |buf|
    ensures OccursInWindow(co, buf) <==> Find(buf[co.offset..co.depth], co.bytes).Some?
  {
    var window := buf[co.offset..co.depth];
    FindIsFirst(window, co.bytes);
    if i: nat :| co.offset <= i && i + |co.bytes| <= co.depth && IsAt(buf, co.bytes, i) {
      InWindow(co, buf, i);
    }
    if Find(window, co.bytes).Some? {
      InWindow(co, buf, Find(window, co.bytes).value + co.offset);
    }
  }

  lemma MatchSignatureFindsTheWindow(s: Signature, buf: Data, ipProto: nat)
    requires s.co.offset <= s.co.depth
    ensures AlpProtoMatchSignature(s, buf, ipProto) == if Matches(s, buf, ipProto) then s.proto else UNKNOWN
  {
    if s.co.depth <= |buf| {
      WindowIsSearched(s.co, buf);
    }
  }

  // ---- signatures with one pattern id ----

  // The first at or after a place in the list.
  function First(list: seq<Signature>, id: nat, from: nat): (r: Option<nat>)
    ensures r.Some? ==> from <= r.value < |list| && list[r.value].co.id == id
    decreases |list| - from
  {
    if from >= |list| then None
    else if list[from].co.id == id then Some(from)
    else First(list, id, from + 1)
  }

  function Bucket(list: seq<Signature>, id: nat, from: nat): seq<Signature>
    decreases |list| - from
  {
    if from >= |list| then []
    else if list[from].co.id == id then [list[from]] + Bucket(list, id, from + 1)
    else Bucket(list, id, from + 1)
  }

  lemma {:induction false} BucketStartsAtFirst(list: seq<Signature>, id: nat, from: nat)
    ensures var f := First(list, id, from);
      Bucket(list, id, from) == if f.None? then [] else [list[f.value]] + Bucket(list, id, f.value + 1)
    decreases |list| - from
  {
    if from < |list| && list[from].co.id != id {
      BucketStartsAtFirst(list, id, from + 1);
    }
  }

  // Nothing between a place and the first one found has the id.
  lemma {:induction false} NoneBefore(list: seq<Signature>, id: nat, from: nat, j: nat)
    requires from <= j < |list| && list[j].co.id == id
    ensures First(list, id, from).Some? && First(list, id, from).value <= j
    decreases |list| - from
  {
    if list[from].co.id != id {
      NoneBefore(list, id, from + 1, j);
    }
  }

  // A bucket holds exactly the signatures with its id, in list order.
  lemma {:induction false} BucketHolds(list: seq<Signature>, id: nat, from: nat, s: Signature)
    ensures s in Bucket(list, id, from) <==> s.co.id == id && from <= |list| && s in list[from..]
    decreases |list| - from
  {
    if from < |list| {
      BucketHolds(list, id, from + 1, s);
      assert list[from..] == [list[from]] + list[from + 1..];
    } else if from == |list| {
      assert list[from..] == [];
    }
  }

  // ---- the search order ----

  // The signatures of the reported ids, up to the first id without any.
  function Visited(list: seq<Signature>, ids: seq<nat>): seq<Signature>
    decreases |ids|
  {
    if ids == [] || Bucket(list, ids[0], 0) == [] then []
    else Bucket(list, ids[0], 0) + Visited(list, ids[1..])
  }

  ghost predicate WellFormed(s: Signature) {
    s.co.offset <= s.co.depth
  }

  // The first of some signatures to give a protocol decides.
  ghost function FirstMatch(sigs: seq<Signature>, buf: Data, ipProto: nat): nat
    decreases |sigs|
  {
    if sigs == [] then UNKNOWN
    else if Matches(sigs[0], buf, ipProto) && sigs[0].proto != UNKNOWN then sigs[0].proto
    else FirstMatch(sigs[1..], buf, ipProto)
  }

  lemma {:induction false} FirstMatchAppend(a: seq<Signature>, b: seq<Signature>, buf: Data, ipProto: nat)
    ensures FirstMatch(a + b, buf, ipProto)
      == if FirstMatch(a, buf, ipProto) != UNKNOWN then FirstMatch(a, buf, ipProto) else FirstMatch(b, buf, ipProto)
    decreases |a|
  {
    if a == [] {
      assert a + b == b;
    } else {
      assert (a + b)[1..] == a[1..] + b;
      FirstMatchAppend(a[1..], b, buf, ipProto);
    }
  }

  lemma {:induction false} UnknownIfNoneMatches(sigs: seq<Signature>, buf: Data, ipProto: nat)
    ensures FirstMatch(sigs, buf, ipProto) == UNKNOWN
      <==> forall s <- sigs :: Matches(s, buf, ipProto) ==> s.proto == UNKNOWN
    decreases |sigs|
  {
    if sigs != [] {
      UnknownIfNoneMatches(sigs[1..], buf, ipProto);
      assert sigs == [sigs[0]] + sigs[1..];
      if forall s <- sigs :: Matches(s, buf, ipProto) ==> s.proto == UNKNOWN {
        assert sigs[0] in sigs;
      }
    }
  }

  // When every reported id has signatures, exactly those are visited.
  lemma {:induction false} VisitedHolds(list: seq<Signature>, ids: seq<nat>, s: Signature)
    requires forall id <- ids :: First(list, id, 0).Some?
    ensures s in Visited(list, ids) <==> s in list && s.co.id in ids
    decreases |ids|
  {
    if ids != [] {
      assert ids == [ids[0]] + ids[1..] && ids[0] in ids;
      BucketStartsAtFirst(list, ids[0], 0);
      BucketHolds(list, ids[0], 0, s);
      assert list[0..] == list;
      VisitedHolds(list, ids[1..], s);
    }
  }

  // ---- the cut to the longest pattern depth ----

  // What lies in a window of depth at most max is still there when the buffer
  // is cut to max bytes, and nothing new is.
  lemma CutLosesNoMatch(co: Content, buf: Data, max: nat)
    requires co.depth <= max
    ensures OccursInWindow(co, if |buf| > max then buf[..max] else buf) <==> OccursInWindow(co, buf)
  {
    if |buf| > max {
      var cut := buf[..max];
      forall i: nat | i + |co.bytes| <= co.depth ensures IsAt(cut, co.bytes, i) <==> IsAt(buf, co.bytes, i) {
        assert cut[i..i + |co.bytes|] == buf[i..i + |co.bytes|];
      }
    }
  }
}

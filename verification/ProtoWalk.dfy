// The walk over the signatures of the reported pattern ids, as the detector
// takes it (app-layer-detect-proto.c): the ids are counted in one byte.
module ProtoWalk {
  import opened Bytes
  import opened ProtoSignatures

  // What is left of the chain at hand, how many ids the counter says were taken,
  // and the protocol found.
  datatype Walk = Walk(chain: seq<Signature>, cnt: nat, proto: nat)

  predicate Stopped(w: Walk) {
    w.proto != UNKNOWN || w.chain == []
  }

  function Begin(list: seq<Signature>, ids: seq<nat>): Walk {
    Walk(if ids == [] then [] else Bucket(list, ids[0], 0), 1, UNKNOWN)
  }

  // The next signature is tried, and behind the last one of the chain the next
  // id is taken.
  ghost function Step(list: seq<Signature>, ids: seq<nat>, buf: Data, ipProto: nat, w: Walk): Walk {
    if Stopped(w) then w
    else
      var proto := if Matches(w.chain[0], buf, ipProto) then w.chain[0].proto else UNKNOWN;
      if w.chain[1..] == [] && w.cnt < |ids| then Walk(Bucket(list, ids[w.cnt], 0), (w.cnt + 1) % 256, proto)
      else Walk(w.chain[1..], w.cnt, proto)
  }

  ghost function After(list: seq<Signature>, ids: seq<nat>, buf: Data, ipProto: nat, n: nat): Walk {
    if n == 0 then Begin(list, ids) else Step(list, ids, buf, ipProto, After(list, ids, buf, ipProto, n - 1))
  }

  ghost predicate StopsAfter(list: seq<Signature>, ids: seq<nat>, buf: Data, ipProto: nat, n: nat) {
    Stopped(After(list, ids, buf, ipProto, n))
  }

  ghost predicate Stops(list: seq<Signature>, ids: seq<nat>, buf: Data, ipProto: nat) {
    exists n: nat :: StopsAfter(list, ids, buf, ipProto, n)
  }

  // The ids the counter can reach.
  function Reached(ids: seq<nat>): seq<nat> {
    if |ids| <= 256 then ids else ids[..256]
  }

  // A walk that has stopped stays where it is.
  lemma {:induction false} StaysStopped(list: seq<Signature>, ids: seq<nat>, buf: Data, ipProto: nat, m: nat, n: nat)
    requires m <= n && StopsAfter(list, ids, buf, ipProto, m)
    ensures After(list, ids, buf, ipProto, n) == After(list, ids, buf, ipProto, m)
    decreases n
  {
    if m < n {
      StaysStopped(list, ids, buf, ipProto, m, n - 1);
    }
  }

  // What is still to be visited when k ids have been taken.
  function Pending(list: seq<Signature>, ids: seq<nat>, chain: seq<Signature>, k: nat): seq<Signature>
    requires k <= |Reached(ids)|
  {
    if chain == [] then [] else chain + Visited(list, Reached(ids)[k..])
  }

  // A step on the way: the counter says how many ids were taken, up to 256.
  ghost predicate OnTheWay(ids: seq<nat>, w: Walk, k: nat) {
    1 <= k <= |Reached(ids)| && w.cnt == k % 256 && w.proto == UNKNOWN
  }

  // Behind the last signature of a chain the next id is taken, unless there is
  // none or the counter has wrapped.
  lemma StepPending(list: seq<Signature>, ids: seq<nat>, buf: Data, ipProto: nat, w: Walk, k: nat)
    requires OnTheWay(ids, w, k) && w.chain != [] && !(Matches(w.chain[0], buf, ipProto) && w.chain[0].proto != UNKNOWN)
    requires !(w.chain[1..] == [] && k == 256)
    ensures var v := Step(list, ids, buf, ipProto, w);
      var j := if w.chain[1..] == [] && k < |Reached(ids)| then k + 1 else k;
      && OnTheWay(ids, v, j)
      && FirstMatch(Pending(list, ids, v.chain, j), buf, ipProto)
         == FirstMatch(Pending(list, ids, w.chain, k), buf, ipProto)
      && (j == k ==> |v.chain| < |w.chain|)
  {
    var rest := Reached(ids)[k..];
    var pending := Pending(list, ids, w.chain, k);
    assert pending[0] == w.chain[0] && pending[1..] == w.chain[1..] + Visited(list, rest);
    if w.chain[1..] == [] && k < |Reached(ids)| {
      assert rest[0] == ids[k] && rest[1..] == Reached(ids)[k + 1..];
      assert [] + Visited(list, rest) == Visited(list, rest);
    } else if w.chain[1..] == [] {
      assert rest == [];
    }
  }

  // With at most 255 ids, or something to find, the walk ends with what is still
  // to be visited.
  lemma {:induction false} WalkEnds(list: seq<Signature>, ids: seq<nat>, buf: Data, ipProto: nat, n: nat,
                                    k: nat) returns (m: nat)
    requires OnTheWay(ids, After(list, ids, buf, ipProto, n), k)
    requires var p := Pending(list, ids, After(list, ids, buf, ipProto, n).chain, k);
      |ids| <= 255 || FirstMatch(p, buf, ipProto) != UNKNOWN
    ensures StopsAfter(list, ids, buf, ipProto, m)
    ensures After(list, ids, buf, ipProto, m).proto
      == FirstMatch(Pending(list, ids, After(list, ids, buf, ipProto, n).chain, k), buf, ipProto)
    decreases |Reached(ids)| - k, |After(list, ids, buf, ipProto, n).chain|
  {
    var w := After(list, ids, buf, ipProto, n);
    if w.chain == [] {
      m := n;
    } else {
      var pending := Pending(list, ids, w.chain, k);
      assert pending[0] == w.chain[0];
      if Matches(w.chain[0], buf, ipProto) && w.chain[0].proto != UNKNOWN {
        m := n + 1;
      } else {
        StepPending(list, ids, buf, ipProto, w, k);
        m := WalkEnds(list, ids, buf, ipProto, n + 1, if w.chain[1..] == [] && k < |Reached(ids)| then k + 1 else k);
      }
    }
  }

  // The counter wraps behind the 256th id: the walk is inside the chain of one
  // of these ids and finds nothing in it.
  ghost predicate Lost(list: seq<Signature>, ids: seq<nat>, buf: Data, ipProto: nat) {
    && |ids| >= 256
    && forall i | 0 <= i < 256 :: Fruitless(list, ids[i], buf, ipProto)
  }

  ghost predicate Fruitless(list: seq<Signature>, id: nat, buf: Data, ipProto: nat) {
    Bucket(list, id, 0) != [] && FirstMatch(Bucket(list, id, 0), buf, ipProto) == UNKNOWN
  }

  lemma {:induction false} LostForGood(list: seq<Signature>, ids: seq<nat>, buf: Data, ipProto: nat, n: nat)
    requires Lost(list, ids, buf, ipProto)
    ensures var w := After(list, ids, buf, ipProto, n);
      !Stopped(w) && w.cnt < 256 && FirstMatch(w.chain, buf, ipProto) == UNKNOWN
    decreases n
  {
    if n == 0 {
      assert Fruitless(list, ids[0], buf, ipProto);
    } else {
      LostForGood(list, ids, buf, ipProto, n - 1);
      assert Fruitless(list, ids[After(list, ids, buf, ipProto, n - 1).cnt], buf, ipProto);
    }
  }

  // Nothing found in ids that all have signatures.
  lemma {:induction false} NothingVisited(list: seq<Signature>, ids: seq<nat>, buf: Data, ipProto: nat, i: nat)
    requires (forall id <- ids :: Bucket(list, id, 0) != []) && i < |ids|
    requires FirstMatch(Visited(list, ids), buf, ipProto) == UNKNOWN
    ensures Fruitless(list, ids[i], buf, ipProto)
    decreases |ids|
  {
    assert ids[0] in ids && forall id <- ids[1..] :: id in ids;
    FirstMatchAppend(Bucket(list, ids[0], 0), Visited(list, ids[1..]), buf, ipProto);
    if i > 0 {
      NothingVisited(list, ids[1..], buf, ipProto, i - 1);
    }
  }

  // When every reported id has signatures, the walk stops if and only if at most
  // 255 were reported or one of the first 256 leads to a match, and then with
  // the first match in the order of the ids and their chains.
  lemma WalkStopsExactly(list: seq<Signature>, ids: seq<nat>, buf: Data, ipProto: nat)
    requires forall id <- ids :: Bucket(list, id, 0) != []
    ensures Stops(list, ids, buf, ipProto)
      <==> |ids| <= 255 || FirstMatch(Visited(list, Reached(ids)), buf, ipProto) != UNKNOWN
    ensures forall n: nat | StopsAfter(list, ids, buf, ipProto, n) ::
      After(list, ids, buf, ipProto, n).proto == FirstMatch(Visited(list, Reached(ids)), buf, ipProto)
  {
    if ids == [] {
      assert StopsAfter(list, ids, buf, ipProto, 0);
      forall n: nat ensures After(list, ids, buf, ipProto, n).proto == UNKNOWN {
        StaysStopped(list, ids, buf, ipProto, 0, n);
      }
    } else if |ids| <= 255 || FirstMatch(Visited(list, Reached(ids)), buf, ipProto) != UNKNOWN {
      assert ids[0] in ids;
      var m := WalkEnds(list, ids, buf, ipProto, 0, 1);
      forall n: nat | StopsAfter(list, ids, buf, ipProto, n)
        ensures After(list, ids, buf, ipProto, n).proto == FirstMatch(Visited(list, Reached(ids)), buf, ipProto)
      {
        if n <= m {
          StaysStopped(list, ids, buf, ipProto, n, m);
        } else {
          StaysStopped(list, ids, buf, ipProto, m, n);
        }
      }
    } else {
      assert forall id <- Reached(ids) :: id in ids;
      forall i | 0 <= i < 256 ensures Fruitless(list, ids[i], buf, ipProto) {
        NothingVisited(list, Reached(ids), buf, ipProto, i);
        assert Reached(ids)[i] == ids[i];
      }
      forall n: nat ensures !StopsAfter(list, ids, buf, ipProto, n) {
        LostForGood(list, ids, buf, ipProto, n);
      }
    }
  }
}

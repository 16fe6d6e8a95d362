// The YAML consumer on linked nodes (conf-yaml-loader.c): the loop that fills
// the subtree below a node, tied to the layer function on the tree it holds.
module ConfLoader {
  import opened Bytes
  import opened ConfTree
  import opened ConfHeap
  import opened ConfStore
  import opened ConfYaml

  class Parser {
    var rest: seq<YamlEvent>

    constructor (evs: seq<YamlEvent>)
      ensures rest == evs
    {
      rest := evs;
    }
  }

  // ---- a layer's cursor as a position ----

  ghost function CursorPos(pos: seq<nat>, cur: Cursor): seq<nat> {
    if cur.None? then pos else pos + [cur.value]
  }

  ghost predicate InTree(t: Tree, pos: seq<nat>, cur: Cursor) {
    IsPos(t, pos) && (cur.Some? ==> cur.value < |TreeAt(t, pos).kids|)
  }

  lemma {:induction false} ReplaceTwice(t: Tree, pos: seq<nat>, a: Tree, b: Tree)
    requires IsPos(t, pos)
    ensures IsPos(ReplaceTree(t, pos, a), pos) && TreeAt(ReplaceTree(t, pos, a), pos) == a
    ensures ReplaceTree(ReplaceTree(t, pos, a), pos, b) == ReplaceTree(t, pos, b)
    decreases |pos|
  {
    if pos != [] {
      var i := pos[0];
      ReplaceTwice(t.kids[i], pos[1..], a, b);
      var a' := ReplaceTree(t.kids[i], pos[1..], a);
      assert t.kids[i := a'][i := ReplaceTree(a', pos[1..], b)] == t.kids[i := ReplaceTree(t.kids[i], pos[1..], b)];
    }
  }

  lemma {:induction false} ReplaceAtCursor(t: Tree, pos: seq<nat>, cur: Cursor, u: Tree)
    requires InTree(t, pos, cur)
    ensures IsPos(t, CursorPos(pos, cur)) && TreeAt(t, CursorPos(pos, cur)) == NodeAt(TreeAt(t, pos), cur)
    ensures ReplaceTree(t, CursorPos(pos, cur), u) == ReplaceTree(t, pos, PutNode(TreeAt(t, pos), cur, u))
    decreases |pos|
  {
    if cur.Some? {
      if pos == [] {
        assert pos + [cur.value] == [cur.value];
      } else {
        assert (pos + [cur.value])[1..] == pos[1..] + [cur.value];
        ReplaceAtCursor(t.kids[pos[0]], pos[1..], cur, u);
      }
    }
  }

  // ---- the state of the loop ----

  // How far the layer at `pos` has come: the subtree there is t, the objects
  // stand where they should, and all of the tree outside is as it was.
  ghost predicate Working(v0: View, v: View, pos: seq<nat>, parent: ConfNode, cur: Cursor, node: ConfNode, t: Tree) {
    && Represented(v) && Stands(v, pos, parent) && IsPos(v0.tree, pos)
    && TreeAt(v.tree, pos) == t && v.tree == ReplaceTree(v0.tree, pos, t)
    && InTree(v.tree, pos, cur) && Stands(v, CursorPos(pos, cur), node)
    && KeepsAbove(v0, v, pos)
  }

  lemma StartWorking(v: View, pos: seq<nat>, parent: ConfNode)
    requires Represented(v) && Stands(v, pos, parent)
    ensures Working(v, v, pos, parent, None, parent, TreeAt(v.tree, pos))
  {
    ReplaceSelf(v.tree, pos);
  }

  lemma StandsKept(v: View, w: View, pos: seq<nat>, o: ConfNode)
    requires Represented(w) && Stands(v, pos, o) && KeepsAbove(v, w, pos) && IsPos(w.tree, pos)
    ensures Stands(w, pos, o)
  {
    assert pos[..|pos|] == pos;
    Subtree(w, pos);
  }

  // A change below the cursor, as a change of the layer's subtree.
  lemma TreeBelow(t0: Tree, t1: Tree, t2: Tree, pos: seq<nat>, cur: Cursor, t: Tree, u: Tree)
    requires IsPos(t0, pos) && t1 == ReplaceTree(t0, pos, t) && InTree(t1, pos, cur) && TreeAt(t1, pos) == t
    requires IsPos(t1, CursorPos(pos, cur)) && t2 == ReplaceTree(t1, CursorPos(pos, cur), u)
    ensures var t' := PutNode(t, cur, u);
      t2 == ReplaceTree(t0, pos, t') && IsPos(t2, pos) && TreeAt(t2, pos) == t'
  {
    ReplaceAtCursor(t1, pos, cur, u);
    ReplaceTwice(t0, pos, t, PutNode(t, cur, u));
    ReplaceTwice(t0, pos, PutNode(t, cur, u), PutNode(t, cur, u));
  }

  lemma KeepsShorter(v: View, w: View, pos: seq<nat>, cur: Cursor)
    requires KeepsAbove(v, w, CursorPos(pos, cur))
    ensures KeepsAbove(v, w, pos)
  {
    forall k | 0 <= k <= |pos| ensures At(w.shape, pos[..k]).obj == At(v.shape, pos[..k]).obj {
      assert CursorPos(pos, cur)[..k] == pos[..k];
    }
  }

  lemma KeepsOn(u: View, v: View, w: View, pos: seq<nat>)
    requires KeepsAbove(u, v, pos) && KeepsAbove(v, w, pos)
    ensures KeepsAbove(u, w, pos)
  {
  }

  // It carries the layer on.
  lemma WorkedBelow(v0: View, v: View, w: View, pos: seq<nat>, parent: ConfNode, cur: Cursor, node: ConfNode, t: Tree,
                    u: Tree)
    requires Working(v0, v, pos, parent, cur, node, t) && Represented(w)
    requires w.tree == ReplaceTree(v.tree, CursorPos(pos, cur), u) && KeepsAbove(v, w, CursorPos(pos, cur))
    requires cur.None? ==> |t.kids| <= |u.kids|
    ensures Working(v0, w, pos, parent, cur, node, PutNode(t, cur, u))
  {
    TreeBelow(v0.tree, v.tree, w.tree, pos, cur, t, u);
    KeepsShorter(v, w, pos, cur);
    KeepsOn(v0, v, w, pos);
    StandsKept(v, w, pos, parent);
    ReplaceAtCursor(w.tree, pos, cur, u);
    StandsKept(v, w, CursorPos(pos, cur), node);
  }

  // Working on another child, or back on the layer's own node.
  lemma MoveCursor(v0: View, v: View, pos: seq<nat>, parent: ConfNode, cur: Cursor, node: ConfNode, t: Tree, i: nat)
    requires Working(v0, v, pos, parent, cur, node, t) && i < |t.kids|
    ensures i < |At(v.shape, pos).kids|
    ensures Working(v0, v, pos, parent, Some(i), At(v.shape, pos).kids[i].obj, t)
  {
    StandsBelow(v, pos, i);
    AtSnoc(v.shape, v.tree, v.cells, pos, i);
  }

  // ---- steps on the nodes ----

  method SetVal(c: Conf, node: ConfNode, val: string, ghost pos: seq<nat>)
    requires c.Valid() && Stands(c.view, pos, node)
    modifies c, node`val
    ensures c.Valid() && c.Objects() == old(c.Objects())
    ensures c.view.tree == ReplaceTree(old(c.view.tree), pos, TreeAt(old(c.view.tree), pos).(val := Some(val)))
    ensures KeepsAbove(old(c.view), c.view, pos)
  {
    Subtree(c.view, pos);
    ghost var w := Stored(c.view, pos, node, val, node.allow);
    ghost var t := TreeAt(c.view.tree, pos);
    assert t.(val := Some(val), allow := node.allow) == t.(val := Some(val));
    node.val := Some(val);
    c.view := w;
  }

  method NewElement(parent: ConfNode, name: string, val: Option<string>, isSeq: bool) returns (node: ConfNode)
    modifies parent`children
    ensures fresh(node) && node.Fields() == NewCell(name).(val := val, isSeq := isSeq)
    ensures parent.children == old(parent.children) + [node]
  {
    node := new ConfNode(name);
    node.val := val;
    node.isSeq := isSeq;
    parent.children := parent.children + [node];
  }

  // A child without a back pointer, added at the end.
  method InsertTail(c: Conf, parent: ConfNode, name: string, val: Option<string>, isSeq: bool, ghost pos: seq<nat>)
    returns (node: ConfNode)
    requires c.Valid() && Stands(c.view, pos, parent)
    modifies c, parent`children
    ensures c.Valid() && fresh(node) && c.Objects() == old(c.Objects()) + {node}
    ensures var t := TreeAt(old(c.view.tree), pos);
      && c.view.tree == ReplaceTree(old(c.view.tree), pos, Append(t, Tree(name, val, isSeq, true, [])))
      && Stands(c.view, pos + [|t.kids|], node)
    ensures KeepsAbove(old(c.view), c.view, pos)
  {
    node := NewElement(parent, name, val, isSeq);
    ghost var w := Appended(c.view, pos, parent, node, NewCell(name).(val := val, isSeq := isSeq));
    c.view := w;
  }

  // ---- the consumer ----

  // A sequence element takes its first key as its value.
  method NoteFirstKey(c: Conf, parent: ConfNode, key: string, ghost v0: View, ghost pos: seq<nat>, ghost t: Tree)
    requires c.Valid() && Working(v0, c.view, pos, parent, None, parent, t)
    modifies c, parent`val
    ensures c.Valid() && c.Objects() == old(c.Objects())
    ensures Working(v0, c.view, pos, parent, None, parent, NoteKey(t, key))
  {
    Subtree(c.view, pos);
    if parent.isSeq {
      if parent.val == None {
        ghost var v := c.view;
        SetVal(c, parent, key, pos);
        WorkedBelow(v0, v, c.view, pos, parent, None, parent, t, t.(val := Some(key)));
      }
    }
  }

  // The key scalar of a mapping: notes it on a sequence element and moves to
  // the child of that name, creating it if there is none.
  method ReadKey(c: Conf, parent: ConfNode, key: string, ghost v0: View, ghost pos: seq<nat>, ghost t: Tree)
    returns (node: ConfNode, ghost cur: Cursor)
    requires c.Valid() && Working(v0, c.view, pos, parent, None, parent, t)
    modifies c, c.Objects()
    ensures c.Valid() && fresh(c.Objects() - old(c.Objects())) && cur.Some?
    ensures var noted := NoteKey(t, key);
      var i := FindKid(noted.kids, key);
      && cur == (if i.Some? then i else Some(|noted.kids|))
      && Working(v0, c.view, pos, parent, cur, node, if i.Some? then noted else Append(noted, NewTree(key)))
  {
    NoteFirstKey(c, parent, key, v0, pos, t);
    node, cur := FindOrAdd(c, parent, key, v0, pos, NoteKey(t, key));
  }

  method FindOrAdd(c: Conf, parent: ConfNode, key: string, ghost v0: View, ghost pos: seq<nat>, ghost noted: Tree)
    returns (node: ConfNode, ghost cur: Cursor)
    requires c.Valid() && Working(v0, c.view, pos, parent, None, parent, noted)
    modifies c, parent`children
    ensures c.Valid() && fresh(c.Objects() - old(c.Objects()))
    ensures var i := FindKid(noted.kids, key);
      && cur == (if i.Some? then i else Some(|noted.kids|))
      && Working(v0, c.view, pos, parent, cur, node, if i.Some? then noted else Append(noted, NewTree(key)))
  {
    Subtree(c.view, pos);
    var found := ConfNodeLookupChild(parent, key, c.view.cells, At(c.view.shape, pos), noted);
    if found != null {
      cur := FindKid(noted.kids, key);
      MoveCursor(v0, c.view, pos, parent, None, parent, noted, cur.value);
      node := found;
    } else {
      node, cur := AddChild(c, parent, key, None, false, v0, pos, noted);
    }
  }

  // A new child, and the cursor moved to it.
  method AddChild(c: Conf, parent: ConfNode, name: string, val: Option<string>, isSeq: bool,
                  ghost v0: View, ghost pos: seq<nat>, ghost t: Tree)
    returns (node: ConfNode, ghost cur: Cursor)
    requires c.Valid() && Working(v0, c.view, pos, parent, None, parent, t)
    modifies c, parent`children
    ensures c.Valid() && fresh(c.Objects() - old(c.Objects())) && cur == Some(|t.kids|)
    ensures Working(v0, c.view, pos, parent, cur, node, Append(t, Tree(name, val, isSeq, true, [])))
  {
    ghost var v, kid := c.view, Tree(name, val, isSeq, true, []);
    node := InsertTail(c, parent, name, val, isSeq, pos);
    WorkedBelow(v0, v, c.view, pos, parent, None, parent, t, Append(t, kid));
    cur := Some(|t.kids|);
    MoveCursor(v0, c.view, pos, parent, None, parent, Append(t, kid), |t.kids|);
    AtSnoc(c.view.shape, c.view.tree, c.view.cells, pos, |t.kids|);
  }

  // The value scalar of a mapping, kept out by a lock.
  method ReadValue(c: Conf, parent: ConfNode, node: ConfNode, value: string,
                   ghost v0: View, ghost pos: seq<nat>, ghost cur: Cursor, ghost t: Tree)
    requires c.Valid() && Working(v0, c.view, pos, parent, cur, node, t)
    modifies c, node`val
    ensures c.Valid() && c.Objects() == old(c.Objects())
    ensures Working(v0, c.view, pos, parent, cur, node, PutNode(t, cur, OfferValue(NodeAt(t, cur), value)))
  {
    ghost var v := c.view;
    Subtree(c.view, CursorPos(pos, cur));
    ReplaceAtCursor(c.view.tree, pos, cur, OfferValue(NodeAt(t, cur), value));
    if node.allow {
      SetVal(c, node, value, CursorPos(pos, cur));
      WorkedBelow(v0, v, c.view, pos, parent, cur, node, t, OfferValue(NodeAt(t, cur), value));
    } else {
      PutBack(t, cur);
    }
  }

  // Back on the layer's own node.
  lemma MoveHome(v0: View, v: View, pos: seq<nat>, parent: ConfNode, t: Tree)
    requires exists cur, node :: Working(v0, v, pos, parent, cur, node, t)
    ensures Working(v0, v, pos, parent, None, parent, t)
  {
  }

  // Where a layer stands between two events, and what is left of its result.
  ghost predicate Ongoing(goal: Loaded, t: Tree, cur: Cursor, inseq: bool, wantValue: bool, seqIdx: nat,
                          evs: seq<YamlEvent>) {
    && (cur.Some? ==> cur.value < |t.kids|)
    && (inseq ==> cur.None? && !wantValue) && (wantValue ==> cur.Some?)
    && Layer(t, cur, inseq, wantValue, seqIdx, evs) == goal
  }

  // A scalar: a sequence element, a key or a value.
  method ReadScalar(c: Conf, parent: ConfNode, node0: ConfNode, inseq: bool, wantValue0: bool, seqIdx0: nat,
                    value: string, ghost v0: View, ghost pos: seq<nat>, ghost cur0: Cursor, ghost t0: Tree,
                    ghost goal: Loaded, ghost rest: seq<YamlEvent>)
    returns (node: ConfNode, wantValue: bool, seqIdx: nat, ghost cur: Cursor, ghost t: Tree)
    requires c.Valid() && Working(v0, c.view, pos, parent, cur0, node0, t0)
    requires Ongoing(goal, t0, cur0, inseq, wantValue0, seqIdx0, [Scalar(value)] + rest)
    modifies c, c.Objects()
    ensures c.Valid() && fresh(c.Objects() - old(c.Objects()))
    ensures Working(v0, c.view, pos, parent, cur, node, t)
    ensures Ongoing(goal, t, cur, inseq, wantValue, seqIdx, rest)
  {
    assert ([Scalar(value)] + rest)[1..] == rest;
    node, wantValue, seqIdx, cur, t := node0, false, seqIdx0, cur0, t0;
    if inseq {
      var _, _ := AddChild(c, parent, Decimal(seqIdx), Some(value), false, v0, pos, t0);
      t := Append(t0, Tree(Decimal(seqIdx), Some(value), false, true, []));
      MoveHome(v0, c.view, pos, parent, t);
      node := parent;
      seqIdx := seqIdx + 1;
    } else if !wantValue0 {
      MoveHome(v0, c.view, pos, parent, t0);
      node, cur := ReadKey(c, parent, value, v0, pos, t0);
      t := TreeAt(c.view.tree, pos);
      wantValue := true;
    } else {
      ReadValue(c, parent, node0, value, v0, pos, cur0, t0);
      t := PutNode(t0, cur0, OfferValue(NodeAt(t0, cur0), value));
    }
  }

  // Where a layer stands behind a nested one, or with what it gave up.
  ghost predicate GoesOn(goal: Loaded, ok: bool, t: Tree, cur: Cursor, inseq: bool, seqIdx: nat, evs: seq<YamlEvent>) {
    if ok then Ongoing(goal, t, cur, inseq, false, seqIdx, evs) else goal == Loaded(false, t, evs)
  }

  // What a layer of its own makes of the events on a node.
  ghost predicate Yields(t: Tree, inseq: bool, evs: seq<YamlEvent>, sub: Loaded) {
    sub == Layer(t, None, inseq, false, 0, evs)
  }

  function StartOf(mapping: bool): YamlEvent {
    if mapping then MappingStart else SequenceStart
  }

  lemma BehindNested(goal: Loaded, t: Tree, cur: Cursor, inseq: bool, wantValue: bool, seqIdx: nat, mapping: bool,
                     rest: seq<YamlEvent>, sub: Loaded)
    requires Ongoing(goal, t, cur, inseq, wantValue, seqIdx, [StartOf(mapping)] + rest) && !(mapping && inseq)
    requires Yields(NodeAt(t, cur), !mapping, rest, sub)
    ensures GoesOn(goal, sub.ok, PutNode(t, cur, sub.tree), cur, inseq, seqIdx, sub.rest)
  {
    assert ([StartOf(mapping)] + rest)[1..] == rest;
  }

  lemma BehindElement(goal: Loaded, t: Tree, cur: Cursor, wantValue: bool, seqIdx: nat, rest: seq<YamlEvent>,
                      sub: Loaded)
    requires Ongoing(goal, t, cur, true, wantValue, seqIdx, [StartOf(true)] + rest)
    requires Yields(ElementNode(seqIdx), false, rest, sub)
    ensures GoesOn(goal, sub.ok, Append(t, sub.tree), cur, true, seqIdx + 1, sub.rest)
  {
    assert ([StartOf(true)] + rest)[1..] == rest;
  }

  // The start of a sequence or a mapping: a layer of its own.
  method ReadNested(c: Conf, parser: Parser, parent: ConfNode, node: ConfNode, inseq: bool, mapping: bool,
                    wantValue: bool, seqIdx0: nat, ghost v0: View, ghost pos: seq<nat>, ghost cur: Cursor,
                    ghost t0: Tree, ghost goal: Loaded)
    returns (r: int, seqIdx: nat, ghost t: Tree)
    requires c.Valid() && Working(v0, c.view, pos, parent, cur, node, t0)
    requires Ongoing(goal, t0, cur, inseq, wantValue, seqIdx0, [StartOf(mapping)] + parser.rest)
    modifies c, parser, c.Objects()
    ensures c.Valid() && fresh(c.Objects() - old(c.Objects())) && |parser.rest| <= old(|parser.rest|)
    ensures Working(v0, c.view, pos, parent, cur, node, t)
    ensures GoesOn(goal, r == 0, t, cur, inseq, seqIdx, parser.rest)
    decreases |parser.rest|, 4
  {
    seqIdx := seqIdx0;
    if mapping && inseq {
      ghost var sub := Layer(ElementNode(seqIdx), None, false, false, 0, parser.rest);
      BehindElement(goal, t0, cur, wantValue, seqIdx, parser.rest, sub);
      r := NestedElement(c, parser, parent, seqIdx, v0, pos, t0, sub);
      t := Append(t0, sub.tree);
      MoveHere(v0, c.view, pos, parent, node, t0, t);
      seqIdx := seqIdx + 1;
    } else {
      ghost var sub := Layer(NodeAt(t0, cur), None, !mapping, false, 0, parser.rest);
      BehindNested(goal, t0, cur, inseq, wantValue, seqIdx, mapping, parser.rest, sub);
      r := Nested(c, parser, parent, node, !mapping, v0, pos, cur, t0, sub);
      t := PutNode(t0, cur, sub.tree);
    }
  }

  // The layer goes on, or has ended with its result.
  ghost predicate Standing(goal: Loaded, done: bool, r: int, t: Tree, cur: Cursor, inseq: bool, wantValue: bool,
                           seqIdx: nat, evs: seq<YamlEvent>) {
    if done then goal == Loaded(r == 0, t, evs) && (r == 0 || r == -1)
    else r == -1 && Ongoing(goal, t, cur, inseq, wantValue, seqIdx, evs)
  }

  // One event of a layer; the layer may end with it.
  method ReadEvent(c: Conf, parser: Parser, parent: ConfNode, node0: ConfNode, inseq: bool, wantValue0: bool,
                   seqIdx0: nat, ghost v0: View, ghost pos: seq<nat>, ghost cur0: Cursor, ghost t0: Tree,
                   ghost goal: Loaded)
    returns (done: bool, r: int, node: ConfNode, wantValue: bool, seqIdx: nat, ghost cur: Cursor, ghost t: Tree)
    requires c.Valid() && parser.rest != [] && Working(v0, c.view, pos, parent, cur0, node0, t0)
    requires Ongoing(goal, t0, cur0, inseq, wantValue0, seqIdx0, parser.rest)
    modifies c, parser, c.Objects()
    ensures c.Valid() && fresh(c.Objects() - old(c.Objects())) && |parser.rest| < old(|parser.rest|)
    ensures Working(v0, c.view, pos, parent, cur, node, t)
    ensures Standing(goal, done, r, t, cur, inseq, wantValue, seqIdx, parser.rest)
    decreases |parser.rest|, 0
  {
    done, r, node, wantValue, seqIdx, cur, t := false, -1, node0, wantValue0, seqIdx0, cur0, t0;
    var event := parser.rest[0];
    assert [event] + parser.rest[1..] == parser.rest;
    parser.rest := parser.rest[1..];
    if event.Scalar? {
      node, wantValue, seqIdx, cur, t :=
        ReadScalar(c, parent, node, inseq, wantValue, seqIdx, event.value, v0, pos, cur, t, goal, parser.rest);
    } else if event.SequenceStart? || event.MappingStart? {
      var n;
      n, seqIdx, t := ReadNested(c, parser, parent, node, inseq, event.MappingStart?, wantValue,
                                 seqIdx, v0, pos, cur, t, goal);
      wantValue := false;
      done := n != 0;
    } else if event.SequenceEnd? || event.MappingEnd? || event.StreamEnd? {
      done, r := true, 0;
    } else if event.DocumentStart? && event.version != Some((1, 1)) {
      done := true;
    }
  }

  method ConfYamlParse(c: Conf, parser: Parser, parent: ConfNode, inseq: bool, ghost pos: seq<nat>) returns (r: int)
    requires c.Valid() && Stands(c.view, pos, parent)
    modifies c, parser, c.Objects()
    ensures c.Valid() && fresh(c.Objects() - old(c.Objects())) && KeepsAbove(old(c.view), c.view, pos)
    ensures var loaded := Layer(TreeAt(old(c.view.tree), pos), None, inseq, false, 0, old(parser.rest));
      && c.view.tree == ReplaceTree(old(c.view.tree), pos, loaded.tree)
      && parser.rest == loaded.rest && r == if loaded.ok then 0 else -1
    decreases |parser.rest|, 1
  {
    ghost var v0 := c.view;
    ghost var t := TreeAt(c.view.tree, pos);
    ghost var goal := Layer(t, None, inseq, false, 0, parser.rest);
    ghost var cur: Cursor := None;
    var node := parent;
    var wantValue := false;
    var seqIdx := 0;
    StartWorking(v0, pos, parent);
    ghost var before := c.Objects();
    r := -1;
    var done := false;
    while !done && parser.rest != []
      invariant c.Valid() && fresh(c.Objects() - before) && |parser.rest| <= old(|parser.rest|)
      invariant Working(v0, c.view, pos, parent, cur, node, t)
      invariant Standing(goal, done, r, t, cur, inseq, wantValue, seqIdx, parser.rest)
      decreases |parser.rest|
    {
      ghost var objects := c.Objects();
      done, r, node, wantValue, seqIdx, cur, t :=
        ReadEvent(c, parser, parent, node, inseq, wantValue, seqIdx, v0, pos, cur, t, goal);
      AddedSince(before, objects, c.Objects());
    }
  }

  // A layer inside a layer, on the node the outer one is working on.
  method Nested(c: Conf, parser: Parser, parent: ConfNode, node: ConfNode, inseq: bool,
                ghost v0: View, ghost pos: seq<nat>, ghost cur: Cursor, ghost t: Tree, ghost sub: Loaded)
    returns (r: int)
    requires c.Valid() && Working(v0, c.view, pos, parent, cur, node, t)
    requires Yields(NodeAt(t, cur), inseq, parser.rest, sub)
    modifies c, parser, c.Objects()
    ensures c.Valid() && fresh(c.Objects() - old(c.Objects())) && |parser.rest| <= old(|parser.rest|)
    ensures Working(v0, c.view, pos, parent, cur, node, PutNode(t, cur, sub.tree))
    ensures parser.rest == sub.rest && r == if sub.ok then 0 else -1
    decreases |parser.rest|, 2
  {
    ghost var v := c.view;
    ReplaceAtCursor(v.tree, pos, cur, NodeAt(t, cur));
    r := ConfYamlParse(c, parser, node, inseq, CursorPos(pos, cur));
    WorkedBelow(v0, v, c.view, pos, parent, cur, node, t, sub.tree);
  }

  // A mapping as a sequence element: a new node, filled by a layer of its own.
  method NestedElement(c: Conf, parser: Parser, parent: ConfNode, seqIdx: nat, ghost v0: View, ghost pos: seq<nat>,
                       ghost t: Tree, ghost sub: Loaded)
    returns (r: int)
    requires c.Valid() && Working(v0, c.view, pos, parent, None, parent, t)
    requires Yields(ElementNode(seqIdx), false, parser.rest, sub)
    modifies c, parser, c.Objects()
    ensures c.Valid() && fresh(c.Objects() - old(c.Objects())) && |parser.rest| <= old(|parser.rest|)
    ensures Working(v0, c.view, pos, parent, None, parent, Append(t, sub.tree))
    ensures parser.rest == sub.rest && r == if sub.ok then 0 else -1
    decreases |parser.rest|, 3
  {
    ghost var before := c.Objects();
    var node, cur := AddChild(c, parent, Decimal(seqIdx), None, true, v0, pos, t);
    ghost var objects := c.Objects();
    PutLast(t, ElementNode(seqIdx), sub.tree);
    r := Nested(c, parser, parent, node, false, v0, pos, cur, Append(t, ElementNode(seqIdx)), sub);
    MoveHome(v0, c.view, pos, parent, Append(t, sub.tree));
    AddedSince(before, objects, c.Objects());
  }

  lemma MoveHere(v0: View, v: View, pos: seq<nat>, parent: ConfNode, node: ConfNode, t0: Tree, t: Tree)
    requires Working(v0, v, pos, parent, None, parent, t) && node == parent
    ensures Working(v0, v, pos, parent, None, node, t)
  {
  }

  lemma PutBack(t: Tree, cur: Cursor)
    requires cur.Some? ==> cur.value < |t.kids|
    ensures PutNode(t, cur, NodeAt(t, cur)) == t
  {
    if cur.Some? {
      assert t.kids[cur.value := t.kids[cur.value]] == t.kids;
    }
  }

  lemma PutLast(t: Tree, kid: Tree, u: Tree)
    ensures NodeAt(Append(t, kid), Some(|t.kids|)) == kid && PutNode(Append(t, kid), Some(|t.kids|), u) == Append(t, u)
  {
    assert (t.kids + [kid])[|t.kids| := u] == t.kids + [u];
  }
}

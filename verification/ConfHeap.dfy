// Configuration nodes as linked objects, and what a heap of them represents.
// A shape names the objects of a tree and how they hang together, a snapshot
// records their fields; both are only used in specifications.
module ConfHeap {
  import opened Bytes
  import opened ConfTree

  class ConfNode {
    var name: string
    var val: Option<string>
    var isSeq: bool
    var allow: bool
    var parent: ConfNode?
    var children: seq<ConfNode>

    // A new node may be overridden.
    constructor (name: string)
      ensures Fields() == NewCell(name)
    {
      this.name := name;
      val, isSeq, allow, parent, children := None, false, true, null, [];
    }

    ghost function Fields(): Cell
      reads this
    {
      Cell(name, val, isSeq, allow, parent, children)
    }
  }

  datatype Cell = Cell(name: string, val: Option<string>, isSeq: bool, allow: bool, parent: ConfNode?,
                       children: seq<ConfNode>)

  function NewCell(name: string): Cell {
    Cell(name, None, false, true, null, [])
  }

  type Snapshot = map<ConfNode, Cell>

  // The snapshot shows the objects as they are now.
  ghost predicate Mirrors(m: Snapshot, objs: set<ConfNode>)
    reads objs
  {
    forall o <- objs :: o in m && m[o] == o.Fields()
  }

  datatype Shape = Shape(obj: ConfNode, kids: seq<Shape>)

  ghost function Objs(g: Shape): set<ConfNode>
    decreases g
  {
    {g.obj} + KidObjs(g.kids)
  }

  ghost function KidObjs(ks: seq<Shape>): set<ConfNode>
    decreases ks
  {
    if ks == [] then {} else Objs(ks[0]) + KidObjs(ks[1..])
  }

  // No object occurs twice.
  ghost predicate Sep(g: Shape)
    decreases g
  {
    g.obj !in KidObjs(g.kids) && SepAll(g.kids)
  }

  ghost predicate SepAll(ks: seq<Shape>)
    decreases ks
  {
    ks == [] || (Sep(ks[0]) && SepAll(ks[1..]) && Objs(ks[0]) !! KidObjs(ks[1..]))
  }

  ghost function Heads(ks: seq<Shape>): seq<ConfNode>
    decreases |ks|
  {
    if ks == [] then [] else [ks[0].obj] + Heads(ks[1..])
  }

  // The objects of the shape hold the tree: their fields are its labels and
  // their child lists are those of the shape.
  ghost predicate Holds(m: Snapshot, g: Shape, t: Tree)
    decreases g
  {
    && g.obj in m
    && var c := m[g.obj];
    && c.name == t.name && c.val == t.val && c.isSeq == t.isSeq && c.allow == t.allow
    && c.children == Heads(g.kids)
    && HoldAll(m, g.kids, t.kids)
  }

  ghost predicate HoldAll(m: Snapshot, ks: seq<Shape>, ts: seq<Tree>)
    decreases ks
  {
    && |ks| == |ts|
    && (ks == [] || (Holds(m, ks[0], ts[0]) && HoldAll(m, ks[1..], ts[1..])))
  }

  // Every child points back at its parent.
  ghost predicate Linked(m: Snapshot, g: Shape)
    decreases g
  {
    LinkedAll(m, g.obj, g.kids)
  }

  ghost predicate LinkedAll(m: Snapshot, parent: ConfNode, ks: seq<Shape>)
    decreases ks
  {
    ks == [] || (
      && ks[0].obj in m && m[ks[0].obj].parent == parent
      && Linked(m, ks[0]) && LinkedAll(m, parent, ks[1..]))
  }

  // ---- one child of many ----

  lemma {:induction false} KidAt(m: Snapshot, ks: seq<Shape>, ts: seq<Tree>, i: nat)
    requires i < |ks| && HoldAll(m, ks, ts)
    ensures Holds(m, ks[i], ts[i]) && Objs(ks[i]) <= KidObjs(ks)
    ensures |Heads(ks)| == |ks| && Heads(ks)[i] == ks[i].obj
    ensures SepAll(ks) ==> Sep(ks[i])
    decreases |ks|
  {
    if i == 0 {
      HeadsLength(ks);
    } else {
      KidAt(m, ks[1..], ts[1..], i - 1);
    }
  }

  lemma {:induction false} HeadsLength(ks: seq<Shape>)
    ensures |Heads(ks)| == |ks|
    decreases |ks|
  {
    if ks != [] {
      HeadsLength(ks[1..]);
    }
  }

  lemma {:induction false} LinkedKid(m: Snapshot, parent: ConfNode, ks: seq<Shape>, i: nat)
    requires i < |ks| && LinkedAll(m, parent, ks)
    ensures ks[i].obj in m && m[ks[i].obj].parent == parent && Linked(m, ks[i])
    decreases |ks|
  {
    if i > 0 {
      LinkedKid(m, parent, ks[1..], i - 1);
    }
  }

  // ---- what does not change ----

  ghost predicate Agree(m: Snapshot, m': Snapshot, objs: set<ConfNode>) {
    forall o <- objs :: o in m && o in m' && m[o] == m'[o]
  }

  lemma {:induction false} SameOnAgreement(m: Snapshot, m': Snapshot, g: Shape, t: Tree)
    requires Agree(m, m', Objs(g)) && Holds(m, g, t)
    ensures Holds(m', g, t) && (Linked(m, g) ==> Linked(m', g))
    decreases g, 1
  {
    SameOnAgreementAll(m, m', g.obj, g.kids, t.kids);
  }

  lemma {:induction false} SameOnAgreementAll(m: Snapshot, m': Snapshot, parent: ConfNode, ks: seq<Shape>,
                                              ts: seq<Tree>)
    requires Agree(m, m', KidObjs(ks)) && HoldAll(m, ks, ts)
    ensures HoldAll(m', ks, ts) && (LinkedAll(m, parent, ks) ==> LinkedAll(m', parent, ks))
    decreases ks, 0
  {
    if ks != [] {
      SameOnAgreement(m, m', ks[0], ts[0]);
      SameOnAgreementAll(m, m', parent, ks[1..], ts[1..]);
    }
  }

  // ---- exchanging one child ----

  // Replacing child i while the objects of the other children keep their fields.
  lemma {:induction false} ExchangeKid(m: Snapshot, m': Snapshot, parent: ConfNode, ks: seq<Shape>, ts: seq<Tree>,
                                       i: nat, k: Shape, t: Tree)
    requires i < |ks| && HoldAll(m, ks, ts) && SepAll(ks)
    requires Agree(m, m', KidObjs(ks) - Objs(ks[i]))
    requires k.obj == ks[i].obj && Sep(k) && Holds(m', k, t)
    requires Objs(k) !! KidObjs(ks) - Objs(ks[i])
    ensures HoldAll(m', ks[i := k], ts[i := t]) && SepAll(ks[i := k])
    ensures KidObjs(ks[i := k]) == KidObjs(ks) - Objs(ks[i]) + Objs(k)
    ensures Heads(ks[i := k]) == Heads(ks)
    ensures LinkedAll(m, parent, ks) && Linked(m', k) && m'[k.obj].parent == parent
      ==> LinkedAll(m', parent, ks[i := k])
    decreases |ks|
  {
    var rest, rest' := ks[1..], ks[i := k][1..];
    if i == 0 {
      assert rest' == rest && ts[i := t][1..] == ts[1..];
      SameOnAgreementAll(m, m', parent, rest, ts[1..]);
    } else {
      assert rest' == rest[i - 1 := k] && ts[i := t][1..] == ts[1..][i - 1 := t];
      KidAt(m, rest, ts[1..], i - 1);
      SameOnAgreement(m, m', ks[0], ts[0]);
      ExchangeKid(m, m', parent, rest, ts[1..], i - 1, k, t);
    }
  }

  // Adding a child at the end.
  lemma {:induction false} AppendKid(m: Snapshot, parent: ConfNode, ks: seq<Shape>, ts: seq<Tree>, k: Shape, t: Tree)
    requires HoldAll(m, ks, ts) && SepAll(ks) && Sep(k) && Holds(m, k, t) && Objs(k) !! KidObjs(ks)
    ensures HoldAll(m, ks + [k], ts + [t]) && SepAll(ks + [k])
    ensures KidObjs(ks + [k]) == KidObjs(ks) + Objs(k)
    ensures Heads(ks + [k]) == Heads(ks) + [k.obj]
    ensures LinkedAll(m, parent, ks) && Linked(m, k) && m[k.obj].parent == parent ==> LinkedAll(m, parent, ks + [k])
    decreases |ks|
  {
    if ks == [] {
      assert ks + [k] == [k] && ts + [t] == [t];
      assert KidObjs([k]) == Objs(k) + KidObjs([]);
    } else {
      assert (ks + [k])[1..] == ks[1..] + [k] && (ts + [t])[1..] == ts[1..] + [t];
      AppendKid(m, parent, ks[1..], ts[1..], k, t);
    }
  }

  // ---- positions in a tree ----

  ghost predicate IsPos(t: Tree, pos: seq<nat>)
    decreases |pos|
  {
    pos == [] || (pos[0] < |t.kids| && IsPos(t.kids[pos[0]], pos[1..]))
  }

  ghost function TreeAt(t: Tree, pos: seq<nat>): Tree
    requires IsPos(t, pos)
    decreases |pos|
  {
    if pos == [] then t else TreeAt(t.kids[pos[0]], pos[1..])
  }

  ghost function ReplaceTree(t: Tree, pos: seq<nat>, s: Tree): Tree
    requires IsPos(t, pos)
    decreases |pos|
  {
    if pos == [] then s else t.(kids := t.kids[pos[0] := ReplaceTree(t.kids[pos[0]], pos[1..], s)])
  }

  ghost function At(g: Shape, pos: seq<nat>): Shape
    decreases |pos|
  {
    if pos == [] || pos[0] >= |g.kids| then g else At(g.kids[pos[0]], pos[1..])
  }

  ghost function Replace(g: Shape, pos: seq<nat>, s: Shape): Shape
    decreases |pos|
  {
    if pos == [] || pos[0] >= |g.kids| then s else g.(kids := g.kids[pos[0] := Replace(g.kids[pos[0]], pos[1..], s)])
  }

  lemma {:induction false} Positions(m: Snapshot, g: Shape, t: Tree, pos: seq<nat>)
    requires IsPos(t, pos) && Holds(m, g, t) && Sep(g)
    ensures Holds(m, At(g, pos), TreeAt(t, pos)) && Sep(At(g, pos)) && Objs(At(g, pos)) <= Objs(g)
    ensures At(g, pos).obj in m
    decreases |pos|
  {
    if pos != [] {
      KidAt(m, g.kids, t.kids, pos[0]);
      Positions(m, g.kids[pos[0]], t.kids[pos[0]], pos[1..]);
    }
  }

  // What was added since a is what was added up to b and since then.
  lemma AddedSince<T>(a: set<T>, b: set<T>, c: set<T>)
    ensures c - a <= (c - b) + (b - a)
  {
  }

  // The objects after an exchange below a child.
  lemma ObjectsExchanged<T>(root: set<T>, kids: set<T>, kid: set<T>, gone: set<T>, added: set<T>)
    requires gone <= kid <= kids && root !! kids
    ensures root + (kids - kid + (kid - gone + added)) == root + kids - gone + added
  {
  }

  // Exchanging the subtree at a position while everything outside it keeps its
  // fields exchanges the subtree of the tree held, and nothing else.
  lemma {:induction false} UpdateAt(m: Snapshot, m': Snapshot, g: Shape, t: Tree, pos: seq<nat>, s: Shape, u: Tree)
    requires IsPos(t, pos) && Holds(m, g, t) && Sep(g)
    requires Agree(m, m', Objs(g) - Objs(At(g, pos)))
    requires s.obj == At(g, pos).obj && Sep(s) && Holds(m', s, u) && s.obj in m && u.name == TreeAt(t, pos).name
    requires Objs(s) !! Objs(g) - Objs(At(g, pos))
    requires m'[s.obj].parent == m[s.obj].parent
    ensures var g' := Replace(g, pos, s);
      && g'.obj == g.obj && g'.obj in m' && m'[g'.obj].parent == m[g.obj].parent
      && Sep(g') && Holds(m', g', ReplaceTree(t, pos, u))
      && Objs(g') == Objs(g) - Objs(At(g, pos)) + Objs(s)
      && (Linked(m, g) && Linked(m', s) ==> Linked(m', g'))
    decreases |pos|
  {
    if pos != [] {
      var i, k := pos[0], g.kids[pos[0]];
      KidAt(m, g.kids, t.kids, i);
      Positions(m, k, t.kids[i], pos[1..]);
      assert Objs(At(k, pos[1..])) <= Objs(k) <= KidObjs(g.kids);
      UpdateAt(m, m', k, t.kids[i], pos[1..], s, u);
      if Linked(m, g) {
        LinkedKid(m, g.obj, g.kids, i);
      }
      ExchangeKid(m, m', g.obj, g.kids, t.kids, i, Replace(k, pos[1..], s), ReplaceTree(t.kids[i], pos[1..], u));
      ObjectsExchanged({g.obj}, KidObjs(g.kids), Objs(k), Objs(At(g, pos)), Objs(s));
    }
  }

  // New labels for the node at a position.
  lemma RelabelAt(m: Snapshot, g: Shape, t: Tree, pos: seq<nat>, val: Option<string>, isSeq: bool, allow: bool)
    requires IsPos(t, pos) && Holds(m, g, t) && Sep(g)
    ensures At(g, pos).obj in m && At(g, pos).obj in Objs(g)
    ensures var o := At(g, pos).obj;
      var m' := m[o := m[o].(val := val, isSeq := isSeq, allow := allow)];
      var u := TreeAt(t, pos).(val := val, isSeq := isSeq, allow := allow);
      var g' := Replace(g, pos, At(g, pos));
      && g'.obj == g.obj && Sep(g') && Objs(g') == Objs(g) && Holds(m', g', ReplaceTree(t, pos, u))
      && (Linked(m, g) ==> Linked(m', g'))
  {
    Positions(m, g, t, pos);
    InSnapshot(m, g, t);
    var s, w := At(g, pos), TreeAt(t, pos);
    var m' := m[s.obj := m[s.obj].(val := val, isSeq := isSeq, allow := allow)];
    SameOnAgreementAll(m, m', s.obj, s.kids, w.kids);
    if Linked(m, g) {
      LinkedAt(m, g, t, pos);
    }
    UpdateAt(m, m', g, t, pos, s, w.(val := val, isSeq := isSeq, allow := allow));
  }

  lemma {:induction false} InSnapshot(m: Snapshot, g: Shape, t: Tree)
    requires Holds(m, g, t)
    ensures Objs(g) <= m.Keys
    decreases g, 1
  {
    InSnapshotAll(m, g.kids, t.kids);
  }

  lemma {:induction false} InSnapshotAll(m: Snapshot, ks: seq<Shape>, ts: seq<Tree>)
    requires HoldAll(m, ks, ts)
    ensures KidObjs(ks) <= m.Keys
    decreases ks, 0
  {
    if ks != [] {
      InSnapshot(m, ks[0], ts[0]);
      InSnapshotAll(m, ks[1..], ts[1..]);
    }
  }

  lemma {:induction false} LinkedAt(m: Snapshot, g: Shape, t: Tree, pos: seq<nat>)
    requires IsPos(t, pos) && Holds(m, g, t) && Sep(g) && Linked(m, g)
    ensures Linked(m, At(g, pos))
    decreases |pos|
  {
    if pos != [] {
      KidAt(m, g.kids, t.kids, pos[0]);
      LinkedKid(m, g.obj, g.kids, pos[0]);
      LinkedAt(m, g.kids[pos[0]], t.kids[pos[0]], pos[1..]);
    }
  }

  // The snapshot after a new object was made a child of another.
  ghost function Grown(m: Snapshot, obj: ConfNode, node: ConfNode, c: Cell): Snapshot
    requires obj in m
  {
    m[node := c][obj := m[obj].(children := m[obj].children + [node])]
  }

  function Leaf(c: Cell): Tree {
    Tree(c.name, c.val, c.isSeq, c.allow, [])
  }

  lemma GrowNode(m: Snapshot, s: Shape, w: Tree, node: ConfNode, c: Cell)
    requires Holds(m, s, w) && Sep(s) && node !in Objs(s) && c.children == []
    ensures var m' := Grown(m, s.obj, node, c);
      var s' := Shape(s.obj, s.kids + [Shape(node, [])]);
      && Sep(s') && Objs(s') == Objs(s) + {node} && Holds(m', s', w.(kids := w.kids + [Leaf(c)]))
      && m'[s.obj].parent == m[s.obj].parent
      && (Linked(m, s) && c.parent == s.obj ==> Linked(m', s'))
  {
    var m' := Grown(m, s.obj, node, c);
    var k := Shape(node, []);
    assert Objs(k) == {node};
    InSnapshotAll(m, s.kids, w.kids);
    SameOnAgreementAll(m, m', s.obj, s.kids, w.kids);
    AppendKid(m', s.obj, s.kids, w.kids, k, Leaf(c));
    if Linked(m, s) && c.parent == s.obj {
      assert Linked(m', k);
      assert LinkedAll(m', s.obj, s.kids + [k]);
    }
  }

  // A new object added to the children of the node at a position.
  lemma GrowAt(m: Snapshot, g: Shape, t: Tree, pos: seq<nat>, node: ConfNode, c: Cell)
    requires IsPos(t, pos) && Holds(m, g, t) && Sep(g) && node !in Objs(g) && c.children == []
    ensures At(g, pos).obj in m && At(g, pos).obj in Objs(g)
    ensures var s, w := At(g, pos), TreeAt(t, pos);
      var m' := Grown(m, s.obj, node, c);
      var g' := Replace(g, pos, Shape(s.obj, s.kids + [Shape(node, [])]));
      && g'.obj == g.obj && Sep(g') && Objs(g') == Objs(g) + {node}
      && Holds(m', g', ReplaceTree(t, pos, w.(kids := w.kids + [Leaf(c)])))
      && (Linked(m, g) && c.parent == s.obj ==> Linked(m', g'))
  {
    Positions(m, g, t, pos);
    InSnapshot(m, g, t);
    var s, w := At(g, pos), TreeAt(t, pos);
    GrowNode(m, s, w, node, c);
    if Linked(m, g) {
      LinkedAt(m, g, t, pos);
    }
    UpdateAt(m, Grown(m, s.obj, node, c), g, t, pos,
             Shape(s.obj, s.kids + [Shape(node, [])]), w.(kids := w.kids + [Leaf(c)]));
  }

  // Dropping one child of many.
  lemma {:induction false} DropKid(m: Snapshot, parent: ConfNode, ks: seq<Shape>, ts: seq<Tree>, i: nat)
    requires i < |ks| && HoldAll(m, ks, ts) && SepAll(ks)
    ensures Dropped(m, parent, ks, i, Without(ks, i), Without(ts, i))
    decreases |ks|
  {
    if i == 0 {
      WithoutFirst(ks);
      WithoutFirst(ts);
    } else {
      DropKid(m, parent, ks[1..], ts[1..], i - 1);
      DroppedLater(m, parent, ks, ts, i, Without(ks[1..], i - 1), Without(ts[1..], i - 1));
      WithoutLater(ks, i);
      WithoutLater(ts, i);
    }
  }

  // What is left of the children holds what is left of the trees.
  ghost predicate Dropped(m: Snapshot, parent: ConfNode, ks: seq<Shape>, i: nat, ks': seq<Shape>, ts': seq<Tree>)
    requires i < |ks|
  {
    && HoldAll(m, ks', ts') && SepAll(ks') && KidObjs(ks') == KidObjs(ks) - Objs(ks[i])
    && (LinkedAll(m, parent, ks) ==> LinkedAll(m, parent, ks'))
  }

  lemma DroppedLater(m: Snapshot, parent: ConfNode, ks: seq<Shape>, ts: seq<Tree>, i: nat, ks': seq<Shape>,
                     ts': seq<Tree>)
    requires 0 < i < |ks| && HoldAll(m, ks, ts) && SepAll(ks) && Dropped(m, parent, ks[1..], i - 1, ks', ts')
    ensures Dropped(m, parent, ks, i, [ks[0]] + ks', [ts[0]] + ts')
  {
    KidAt(m, ks[1..], ts[1..], i - 1);
    assert ([ks[0]] + ks')[1..] == ks' && ([ts[0]] + ts')[1..] == ts';
  }

  lemma {:induction false} HeadsWithout(ks: seq<Shape>, i: nat)
    requires i < |ks|
    ensures |Heads(ks)| == |ks| && Heads(Without(ks, i)) == Without(Heads(ks), i)
    decreases |ks|
  {
    HeadsLength(ks);
    if i == 0 {
      WithoutFirst(ks);
      WithoutFirst(Heads(ks));
    } else {
      HeadsWithout(ks[1..], i - 1);
      WithoutLater(ks, i);
      WithoutLater(Heads(ks), i);
    }
  }

  lemma WithoutFirst<T>(s: seq<T>)
    requires s != []
    ensures Without(s, 0) == s[1..]
  {
  }

  lemma WithoutLater<T>(s: seq<T>, i: nat)
    requires 0 < i < |s|
    ensures Without(s, i) != [] && Without(s, i)[0] == s[0] && Without(s, i)[1..] == Without(s[1..], i - 1)
    ensures Without(s, i) == [s[0]] + Without(s[1..], i - 1)
  {
  }

  // The child at a position dropped from its parent.
  lemma ShrinkAt(m: Snapshot, g: Shape, t: Tree, pos: seq<nat>, i: nat)
    requires IsPos(t, pos) && Holds(m, g, t) && Sep(g) && i < |TreeAt(t, pos).kids|
    ensures At(g, pos).obj in m && At(g, pos).obj in Objs(g)
    ensures var s, w := At(g, pos), TreeAt(t, pos);
      && i < |s.kids| && i < |m[s.obj].children|
      && var m' := m[s.obj := m[s.obj].(children := Without(m[s.obj].children, i))];
      var g' := Replace(g, pos, Shape(s.obj, Without(s.kids, i)));
      && g'.obj == g.obj && Sep(g') && Objs(g') <= Objs(g)
      && Holds(m', g', ReplaceTree(t, pos, w.(kids := Without(w.kids, i))))
      && (Linked(m, g) ==> Linked(m', g'))
  {
    Positions(m, g, t, pos);
    InSnapshot(m, g, t);
    var s, w := At(g, pos), TreeAt(t, pos);
    KidAt(m, s.kids, w.kids, i);
    DropKid(m, s.obj, s.kids, w.kids, i);
    HeadsWithout(s.kids, i);
    var m' := m[s.obj := m[s.obj].(children := Without(m[s.obj].children, i))];
    var s', u := Shape(s.obj, Without(s.kids, i)), w.(kids := Without(w.kids, i));
    SameOnAgreementAll(m, m', s.obj, s'.kids, u.kids);
    if Linked(m, g) {
      LinkedAt(m, g, t, pos);
    }
    UpdateAt(m, m', g, t, pos, s', u);
  }
}

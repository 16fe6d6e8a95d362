// The configuration store (conf.c): get, set and remove on linked nodes, each
// tied to the operation on the tree the nodes hold.
module ConfStore {
  import opened Bytes
  import opened ConfTree
  import opened ConfHeap

  // ---- where a name leads ----

  ghost function PathPos(t: Tree, path: seq<string>): Option<seq<nat>>
    decreases |path|
  {
    if path == [] then Some([])
    else
      match FindKid(t.kids, path[0])
      case None => None
      case Some(i) =>
        match PathPos(t.kids[i], path[1..])
        case None => None
        case Some(pos) => Some([i] + pos)
  }

  lemma {:induction false} PathPosIsLookup(t: Tree, path: seq<string>)
    ensures PathPos(t, path).None? <==> Lookup(t, path).None?
    ensures PathPos(t, path).Some? ==>
      IsPos(t, PathPos(t, path).value) && Lookup(t, path) == Some(TreeAt(t, PathPos(t, path).value))
    decreases |path|
  {
    if path != [] {
      var i := FindKid(t.kids, path[0]);
      if i.Some? {
        PathPosIsLookup(t.kids[i.value], path[1..]);
        var p := PathPos(t.kids[i.value], path[1..]);
        if p.Some? {
          assert ([i.value] + p.value)[1..] == p.value;
        }
      }
    }
  }

  // Following one more name.
  lemma {:induction false} PathPosSnoc(t: Tree, path: seq<string>, name: string, pos: seq<nat>)
    requires PathPos(t, path) == Some(pos)
    ensures IsPos(t, pos)
    ensures var i := FindKid(TreeAt(t, pos).kids, name);
      && PathPos(t, path + [name]) == (if i.Some? then Some(pos + [i.value]) else None)
      && (i.Some? ==> IsPos(t, pos + [i.value]) && TreeAt(t, pos + [i.value]) == TreeAt(t, pos).kids[i.value])
    decreases |path|
  {
    if path == [] {
      assert path + [name] == [name] && [name][1..] == [];
      var j := FindKid(t.kids, name);
      if j.Some? {
        assert [j.value] + [] == pos + [j.value];
      }
    } else {
      var i := FindKid(t.kids, path[0]).value;
      var p := PathPos(t.kids[i], path[1..]).value;
      assert (path + [name])[1..] == path[1..] + [name] && pos[1..] == p;
      PathPosSnoc(t.kids[i], path[1..], name, p);
      var j := FindKid(TreeAt(t, pos).kids, name);
      if j.Some? {
        assert [i] + (p + [j.value]) == pos + [j.value];
        assert (pos + [j.value])[1..] == p + [j.value];
      }
    }
  }

  lemma {:induction false} NoLongerPath(t: Tree, path: seq<string>, k: nat)
    requires k <= |path| && PathPos(t, path[..k]).None?
    ensures PathPos(t, path).None?
    decreases |path|
  {
    if k > 0 {
      assert path[..k][1..] == path[1..][..k - 1];
      var i := FindKid(t.kids, path[0]);
      if i.Some? {
        NoLongerPath(t.kids[i.value], path[1..], k - 1);
      }
    }
  }

  lemma {:induction false} AtSnoc(g: Shape, t: Tree, m: Snapshot, pos: seq<nat>, i: nat)
    requires IsPos(t, pos) && Holds(m, g, t) && Sep(g) && i < |TreeAt(t, pos).kids|
    ensures i < |At(g, pos).kids| && At(g, pos + [i]) == At(g, pos).kids[i]
    decreases |pos|
  {
    if pos == [] {
      assert pos + [i] == [i];
    } else {
      KidAt(m, g.kids, t.kids, pos[0]);
      assert (pos + [i])[1..] == pos[1..] + [i];
      AtSnoc(g.kids[pos[0]], t.kids[pos[0]], m, pos[1..], i);
    }
  }

  // ---- how a set and a removal act at a position ----

  lemma {:induction false} SetAtPos(t: Tree, path: seq<string>, pos: seq<nat>, val: string, allow: bool)
    requires PathPos(t, path) == Some(pos)
    ensures IsPos(t, pos)
    ensures Set(t, path, val, allow) == ReplaceTree(t, pos, Set(TreeAt(t, pos), [], val, allow))
    decreases |path|
  {
    if path != [] {
      var i := FindKid(t.kids, path[0]).value;
      assert pos[1..] == PathPos(t.kids[i], path[1..]).value;
      SetAtPos(t.kids[i], path[1..], pos[1..], val, allow);
    }
  }

  // The tree with a missing child created at a position.
  ghost function WithNew(t: Tree, pos: seq<nat>, name: string): Tree
    requires IsPos(t, pos)
  {
    var sub := TreeAt(t, pos);
    ReplaceTree(t, pos, sub.(kids := sub.kids + [NewTree(name)]))
  }

  lemma SetAfterCreatingHere(t: Tree, path: seq<string>, val: string, allow: bool)
    requires path != [] && FindKid(t.kids, path[0]).None?
    ensures Set(WithNew(t, [], path[0]), path, val, allow) == Set(t, path, val, allow)
    ensures PathPos(WithNew(t, [], path[0]), [path[0]]) == Some([|t.kids|])
  {
    FindKidAppended(t.kids, NewTree(path[0]), path[0]);
    var n := Set(NewTree(path[0]), path[1..], val, allow);
    assert (t.kids + [NewTree(path[0])])[|t.kids| := n] == t.kids + [n];
    assert [path[0]][1..] == [] && [|t.kids|] + [] == [|t.kids|];
  }

  // Creating a missing node on the way to a name does not change where the set
  // of that name ends up.
  lemma {:induction false} SetAfterCreating(t: Tree, path: seq<string>, k: nat, pos: seq<nat>, val: string, allow: bool)
    requires k < |path| && PathPos(t, path[..k]) == Some(pos)
    ensures IsPos(t, pos)
    ensures FindKid(TreeAt(t, pos).kids, path[k]).None? ==>
      && WithNew(t, pos, path[k]).name == t.name
      && Set(WithNew(t, pos, path[k]), path, val, allow) == Set(t, path, val, allow)
      && PathPos(WithNew(t, pos, path[k]), path[..k + 1]) == Some(pos + [|TreeAt(t, pos).kids|])
    decreases k
  {
    PathPosSnoc(t, path[..k], path[k], pos);
    var n := |TreeAt(t, pos).kids|;
    if FindKid(TreeAt(t, pos).kids, path[k]).Some? {
    } else if k == 0 {
      SetAfterCreatingHere(t, path, val, allow);
      assert path[..1] == [path[0]] && pos + [n] == [n];
    } else {
      var i := FindKid(t.kids, path[0]).value;
      assert path[..k][1..] == path[1..][..k - 1] && path[..k + 1][1..] == path[1..][..k];
      var p := PathPos(t.kids[i], path[1..][..k - 1]).value;
      assert pos[1..] == p && [i] + (p + [n]) == pos + [n];
      SetAfterCreating(t.kids[i], path[1..], k - 1, p, val, allow);
      SetBelow(t, path, i, WithNew(t.kids[i], p, path[k]), val, allow);
    }
  }

  // Exchanging the child a path goes through for one on which setting the rest
  // of the path has the same effect.
  lemma SetBelow(t: Tree, path: seq<string>, i: nat, kid: Tree, val: string, allow: bool)
    requires path != [] && FindKid(t.kids, path[0]) == Some(i) && kid.name == t.kids[i].name
    requires Set(kid, path[1..], val, allow) == Set(t.kids[i], path[1..], val, allow)
    ensures Set(t.(kids := t.kids[i := kid]), path, val, allow) == Set(t, path, val, allow)
    ensures FindKid(t.kids[i := kid], path[0]) == Some(i)
  {
    FindKidUpdated(t.kids, i, kid, path[0]);
    var n := Set(t.kids[i], path[1..], val, allow);
    assert t.kids[i := kid][i := n] == t.kids[i := n];
  }

  lemma {:induction false} RemoveAtPos(t: Tree, path: seq<string>, pos: seq<nat>)
    requires path != [] && PathPos(t, path) == Some(pos)
    ensures |pos| == |path| && IsPos(t, pos[..|pos| - 1])
    ensures var up, last := pos[..|pos| - 1], pos[|pos| - 1];
      && last < |TreeAt(t, up).kids|
      && Remove(t, path) == ReplaceTree(t, up, TreeAt(t, up).(kids := Without(TreeAt(t, up).kids, last)))
    decreases |path|
  {
    var i := FindKid(t.kids, path[0]).value;
    var p := PathPos(t.kids[i], path[1..]).value;
    assert pos == [i] + p;
    if |path| == 1 {
      assert pos[..|pos| - 1] == [];
    } else {
      RemoveAtPos(t.kids[i], path[1..], p);
      assert pos[..|pos| - 1] == [i] + p[..|p| - 1];
      assert ([i] + p[..|p| - 1])[1..] == p[..|p| - 1];
    }
  }

  // ---- the store ----

  // The child of that name, searched in order.
  method ConfNodeLookupChild(node: ConfNode, name: string, ghost m: Snapshot, ghost g: Shape, ghost t: Tree)
    returns (child: ConfNode?)
    requires g.obj == node && Mirrors(m, Objs(g)) && Holds(m, g, t)
    ensures var i := FindKid(t.kids, name);
      if i.None? then child == null else i.value < |g.kids| && child == g.kids[i.value].obj
  {
    var i := 0;
    HeadsLength(g.kids);
    while i < |node.children|
      invariant 0 <= i <= |node.children| && |node.children| == |t.kids| == |g.kids|
      invariant forall j :: 0 <= j < i ==> t.kids[j].name != name
    {
      KidAt(m, g.kids, t.kids, i);
      if node.children[i].name == name {
        FindKidIs(t.kids, name, Some(i));
        return node.children[i];
      }
      i := i + 1;
    }
    FindKidIs(t.kids, name, None);
    return null;
  }

  method NewChild(parent: ConfNode, name: string) returns (node: ConfNode)
    modifies parent`children
    ensures fresh(node) && node.Fields() == NewCell(name).(parent := parent)
    ensures parent.children == old(parent.children) + [node]
  {
    node := new ConfNode(name);
    node.parent := parent;
    parent.children := parent.children + [node];
  }

  // Taking a node, found by identity, out of a child list.
  method RemoveFromList(parent: ConfNode, node: ConfNode, ghost m: Snapshot, ghost ks: seq<Shape>, ghost ts: seq<Tree>,
                        ghost at: nat)
    requires parent.children == Heads(ks) && HoldAll(m, ks, ts) && SepAll(ks)
    requires at < |ks| && node == ks[at].obj
    modifies parent`children
    ensures at < |old(parent.children)| && parent.children == Without(old(parent.children), at)
  {
    KidAt(m, ks, ts, at);
    var i := 0;
    while parent.children[i] != node
      invariant 0 <= i <= at && parent.children == Heads(ks)
      decreases at - i
    {
      i := i + 1;
    }
    HeadsDistinct(m, ks, ts, i, at);
    parent.children := parent.children[..i] + parent.children[i + 1..];
  }

  // ---- views: what a heap holds, with the evidence that it does ----

  datatype View = View(shape: Shape, tree: Tree, cells: Snapshot)

  ghost predicate Represented(v: View) {
    Sep(v.shape) && Holds(v.cells, v.shape, v.tree)
  }

  ghost predicate BackLinked(v: View) {
    Linked(v.cells, v.shape)
  }

  // The node is the object at the position.
  ghost predicate Stands(v: View, pos: seq<nat>, node: ConfNode) {
    IsPos(v.tree, pos) && At(v.shape, pos).obj == node && node in Objs(v.shape)
  }

  // The objects on the way to a position are where they were.
  ghost predicate KeepsAbove(v: View, w: View, pos: seq<nat>) {
    forall k | 0 <= k <= |pos| :: At(w.shape, pos[..k]).obj == At(v.shape, pos[..k]).obj
  }

  lemma {:induction false} ReplaceKeepsAbove(m: Snapshot, g: Shape, t: Tree, pos: seq<nat>, s: Shape, k: nat)
    requires IsPos(t, pos) && Holds(m, g, t) && k <= |pos| && s.obj == At(g, pos).obj
    ensures At(Replace(g, pos, s), pos[..k]).obj == At(g, pos[..k]).obj
    decreases |pos|
  {
    if k > 0 {
      KidAt(m, g.kids, t.kids, pos[0]);
      assert pos[..k][1..] == pos[1..][..k - 1];
      ReplaceKeepsAbove(m, g.kids[pos[0]], t.kids[pos[0]], pos[1..], s, k - 1);
    }
  }

  lemma Subtree(v: View, pos: seq<nat>)
    requires Represented(v) && IsPos(v.tree, pos)
    ensures var g := At(v.shape, pos);
      Objs(g) <= Objs(v.shape) && Holds(v.cells, g, TreeAt(v.tree, pos)) && Sep(g) && Stands(v, pos, g.obj)
  {
    Positions(v.cells, v.shape, v.tree, pos);
  }

  lemma StandsBelow(v: View, pos: seq<nat>, i: nat)
    requires Represented(v) && IsPos(v.tree, pos) && i < |TreeAt(v.tree, pos).kids|
    ensures i < |At(v.shape, pos).kids| && Stands(v, pos + [i], At(v.shape, pos).kids[i].obj)
  {
    AtSnoc(v.shape, v.tree, v.cells, pos, i);
    PosSnoc(v.tree, pos, i);
    Subtree(v, pos + [i]);
  }

  // New value and permission for the node at a position.
  lemma Stored(v: View, pos: seq<nat>, node: ConfNode, val: string, allow: bool) returns (w: View)
    requires Represented(v) && Stands(v, pos, node)
    ensures node in v.cells && Represented(w) && w.shape.obj == v.shape.obj && Objs(w.shape) == Objs(v.shape)
    ensures w.cells == v.cells[node := v.cells[node].(val := Some(val), allow := allow)]
    ensures w.tree == ReplaceTree(v.tree, pos, TreeAt(v.tree, pos).(val := Some(val), allow := allow))
    ensures BackLinked(v) ==> BackLinked(w)
    ensures KeepsAbove(v, w, pos)
  {
    var t := TreeAt(v.tree, pos);
    Subtree(v, pos);
    RelabelAt(v.cells, v.shape, v.tree, pos, Some(val), t.isSeq, allow);
    assert t.(val := Some(val), isSeq := t.isSeq, allow := allow) == t.(val := Some(val), allow := allow);
    var c := v.cells[node];
    assert c.(val := Some(val), isSeq := t.isSeq, allow := allow) == c.(val := Some(val), allow := allow);
    w := View(Replace(v.shape, pos, At(v.shape, pos)),
              ReplaceTree(v.tree, pos, t.(val := Some(val), allow := allow)),
              v.cells[node := c.(val := Some(val), allow := allow)]);
    forall k | 0 <= k <= |pos| ensures At(w.shape, pos[..k]).obj == At(v.shape, pos[..k]).obj {
      ReplaceKeepsAbove(v.cells, v.shape, v.tree, pos, At(v.shape, pos), k);
    }
  }

  // A new child behind the others of the node at a position.
  lemma Appended(v: View, pos: seq<nat>, parent: ConfNode, node: ConfNode, c: Cell) returns (w: View)
    requires Represented(v) && Stands(v, pos, parent) && node !in Objs(v.shape) && c.children == []
    ensures parent in v.cells && Represented(w) && w.shape.obj == v.shape.obj && Objs(w.shape) == Objs(v.shape) + {node}
    ensures w.cells == Grown(v.cells, parent, node, c)
    ensures var t := TreeAt(v.tree, pos);
      w.tree == ReplaceTree(v.tree, pos, t.(kids := t.kids + [Leaf(c)])) && Stands(w, pos + [|t.kids|], node)
    ensures BackLinked(v) && c.parent == parent ==> BackLinked(w)
    ensures KeepsAbove(v, w, pos)
  {
    var g, t := At(v.shape, pos), TreeAt(v.tree, pos);
    var s, u := Shape(parent, g.kids + [Shape(node, [])]), t.(kids := t.kids + [Leaf(c)]);
    Subtree(v, pos);
    GrowAt(v.cells, v.shape, v.tree, pos, node, c);
    ReplacedAt(v.cells, v.shape, v.tree, pos, s, u);
    w := View(Replace(v.shape, pos, s), ReplaceTree(v.tree, pos, u), Grown(v.cells, parent, node, c));
    StandsBelow(w, pos, |t.kids|);
    forall k | 0 <= k <= |pos| ensures At(w.shape, pos[..k]).obj == At(v.shape, pos[..k]).obj {
      ReplaceKeepsAbove(v.cells, v.shape, v.tree, pos, s, k);
    }
  }

  // Child number i of the node at a position taken out.
  lemma Removed(v: View, pos: seq<nat>, parent: ConfNode, i: nat) returns (w: View)
    requires Represented(v) && Stands(v, pos, parent) && i < |TreeAt(v.tree, pos).kids|
    ensures parent in v.cells && i < |v.cells[parent].children|
    ensures Represented(w) && w.shape.obj == v.shape.obj && Objs(w.shape) <= Objs(v.shape)
    ensures w.cells == v.cells[parent := v.cells[parent].(children := Without(v.cells[parent].children, i))]
    ensures var t := TreeAt(v.tree, pos);
      w.tree == ReplaceTree(v.tree, pos, t.(kids := Without(t.kids, i)))
    ensures BackLinked(v) ==> BackLinked(w)
  {
    var g, t := At(v.shape, pos), TreeAt(v.tree, pos);
    Subtree(v, pos);
    ShrinkAt(v.cells, v.shape, v.tree, pos, i);
    w := View(Replace(v.shape, pos, Shape(g.obj, Without(g.kids, i))),
              ReplaceTree(v.tree, pos, t.(kids := Without(t.kids, i))),
              v.cells[parent := v.cells[parent].(children := Without(v.cells[parent].children, i))]);
  }

  class Conf {
    const root: ConfNode
    ghost var view: View

    ghost predicate Valid()
      reads this, Objs(view.shape)
    {
      root == view.shape.obj && Represented(view) && Mirrors(view.cells, Objs(view.shape))
    }

    ghost function Objects(): set<ConfNode>
      reads this
    {
      Objs(view.shape)
    }

    constructor ()
      ensures Valid() && BackLinked(view) && view.tree == NewTree("") && fresh(Objects())
    {
      var node := new ConfNode("");
      root := node;
      view := View(Shape(node, []), NewTree(""), map[node := NewCell("")]);
    }

    method ConfGetNode(key: string) returns (node: ConfNode?, ghost pos: seq<nat>)
      requires Valid() && Tokens(key) != []
      ensures node == null <==> PathPos(view.tree, Tokens(key)).None?
      ensures node != null ==> PathPos(view.tree, Tokens(key)) == Some(pos) && Stands(view, pos, node)
    {
      var tokens := Tokens(key);
      node, pos := root, [];
      var k := 0;
      while k < |tokens|
        invariant 0 <= k <= |tokens| && PathPos(view.tree, tokens[..k]) == Some(pos)
        invariant node != null && Stands(view, pos, node)
      {
        PathPosSnoc(view.tree, tokens[..k], tokens[k], pos);
        assert tokens[..k] + [tokens[k]] == tokens[..k + 1];
        Subtree(view, pos);
        var child := ConfNodeLookupChild(node, tokens[k], view.cells, At(view.shape, pos), TreeAt(view.tree, pos));
        if child == null {
          NoLongerPath(view.tree, tokens, k + 1);
          return null, pos;
        }
        ghost var i := FindKid(TreeAt(view.tree, pos).kids, tokens[k]).value;
        StandsBelow(view, pos, i);
        node, pos, k := child, pos + [i], k + 1;
      }
      assert tokens[..|tokens|] == tokens;
    }

    method ConfGet(name: string) returns (found: bool, val: Option<string>)
      requires Valid() && Tokens(name) != []
      ensures found <==> Info(view.tree, Tokens(name)).Some?
      ensures found ==> val == Info(view.tree, Tokens(name)).value.val
    {
      var node, pos := ConfGetNode(name);
      PathPosIsLookup(view.tree, Tokens(name));
      if node == null {
        return false, None;
      }
      Subtree(view, pos);
      return true, node.val;
    }

    // Overwriting the value and the permission of a node.
    method StoreValue(node: ConfNode, val: string, allow: bool, ghost pos: seq<nat>)
      requires Valid() && Stands(view, pos, node)
      modifies this, node`val, node`allow
      ensures Valid() && Objects() == old(Objects()) && (old(BackLinked(view)) ==> BackLinked(view))
      ensures view.tree ==
        ReplaceTree(old(view.tree), pos, TreeAt(old(view.tree), pos).(val := Some(val), allow := allow))
    {
      ghost var w := Stored(view, pos, node, val, allow);
      node.val := Some(val);
      node.allow := allow;
      view := w;
    }

    method StoreIfAllowed(node: ConfNode, val: string, allow: bool, ghost pos: seq<nat>)
      requires Valid() && Stands(view, pos, node)
      modifies this, node`val, node`allow
      ensures Valid() && Objects() == old(Objects()) && (old(BackLinked(view)) ==> BackLinked(view))
      ensures view.tree == ReplaceTree(old(view.tree), pos, Set(TreeAt(old(view.tree), pos), [], val, allow))
    {
      Subtree(view, pos);
      if node.allow {
        StoreValue(node, val, allow, pos);
      } else {
        ReplaceSelf(view.tree, pos);
      }
    }

    // Adding a fresh child at the end of a node's children.
    method AppendChild(parent: ConfNode, name: string, ghost pos: seq<nat>) returns (node: ConfNode)
      requires Valid() && Stands(view, pos, parent)
      modifies this, parent`children
      ensures Valid() && fresh(node) && Objects() == old(Objects()) + {node}
      ensures old(BackLinked(view)) ==> BackLinked(view)
      ensures var t := TreeAt(old(view.tree), pos);
        && view.tree == ReplaceTree(old(view.tree), pos, t.(kids := t.kids + [NewTree(name)]))
        && Stands(view, pos + [|t.kids|], node)
    {
      node := NewChild(parent, name);
      ghost var c := NewCell(name).(parent := parent);
      ghost var w := Appended(view, pos, parent, node, c);
      assert Leaf(c) == NewTree(name);
      view := w;
    }

    method ConfSet(name: string, val: string, allow: bool) returns (r: int)
      requires Valid() && Tokens(name) != []
      modifies this, Objects()
      ensures Valid() && fresh(Objects() - old(Objects())) && (old(BackLinked(view)) ==> BackLinked(view))
      ensures view.tree == Set(old(view.tree), Tokens(name), val, allow)
      ensures r == if Locked(old(view.tree), Tokens(name)) then 0 else 1
    {
      var tokens := Tokens(name);
      var node, pos := ConfGetNode(name);
      PathPosIsLookup(view.tree, tokens);
      if node != null {
        SetAtPos(view.tree, tokens, pos, val, allow);
        Subtree(view, pos);
        if !node.allow {
          SetOnLockedChangesNothing(view.tree, tokens, val, allow);
          return 0;
        }
        StoreValue(node, val, allow, pos);
        return 1;
      }
      node, pos := CreatePath(tokens, val, allow);
      SetAtPos(view.tree, tokens, pos, val, allow);
      StoreIfAllowed(node, val, allow, pos);
      return 1;
    }

    // Following the tokens and creating the nodes that are missing.
    method CreatePath(tokens: seq<string>, ghost val: string,
                      ghost allow: bool) returns (node: ConfNode, ghost pos: seq<nat>)
      requires Valid()
      modifies this, Objects()
      ensures Valid() && fresh(Objects() - old(Objects())) && (old(BackLinked(view)) ==> BackLinked(view))
      ensures PathPos(view.tree, tokens) == Some(pos) && Stands(view, pos, node)
      ensures Set(view.tree, tokens, val, allow) == Set(old(view.tree), tokens, val, allow)
    {
      node, pos := root, [];
      var k := 0;
      while k < |tokens|
        invariant 0 <= k <= |tokens| && Valid() && fresh(Objects() - old(Objects()))
        invariant old(BackLinked(view)) ==> BackLinked(view)
        invariant PathPos(view.tree, tokens[..k]) == Some(pos) && Stands(view, pos, node)
        invariant Set(view.tree, tokens, val, allow) == Set(old(view.tree), tokens, val, allow)
      {
        ghost var objects := Objects();
        node, pos := FollowOrCreate(node, tokens, k, val, allow, pos);
        AddedSince(old(Objects()), objects, Objects());
        k := k + 1;
      }
      assert tokens[..|tokens|] == tokens;
    }

    method FollowOrCreate(parent: ConfNode, tokens: seq<string>, k: nat, ghost val: string, ghost allow: bool,
                          ghost pos: seq<nat>)
      returns (child: ConfNode, ghost pos': seq<nat>)
      requires Valid() && k < |tokens| && PathPos(view.tree, tokens[..k]) == Some(pos) && Stands(view, pos, parent)
      modifies this, Objects()
      ensures Valid() && fresh(Objects() - old(Objects())) && (old(BackLinked(view)) ==> BackLinked(view))
      ensures PathPos(view.tree, tokens[..k + 1]) == Some(pos') && Stands(view, pos', child)
      ensures Set(view.tree, tokens, val, allow) == Set(old(view.tree), tokens, val, allow)
    {
      PathPosSnoc(view.tree, tokens[..k], tokens[k], pos);
      assert tokens[..k] + [tokens[k]] == tokens[..k + 1];
      Subtree(view, pos);
      ghost var t := TreeAt(view.tree, pos);
      var found := ConfNodeLookupChild(parent, tokens[k], view.cells, At(view.shape, pos), t);
      if found == null {
        SetAfterCreating(view.tree, tokens, k, pos, val, allow);
        child := AppendChild(parent, tokens[k], pos);
        pos' := pos + [|t.kids|];
      } else {
        child := found;
        pos' := pos + [FindKid(t.kids, tokens[k]).value];
        StandsBelow(view, pos, FindKid(t.kids, tokens[k]).value);
      }
    }

    // Unlinking a node from its parent's child list.
    method ConfNodeRemove(node: ConfNode, ghost up: seq<nat>, ghost last: nat)
      requires Valid() && BackLinked(view) && IsPos(view.tree, up) && last < |TreeAt(view.tree, up).kids|
      requires Stands(view, up + [last], node)
      modifies this, Objects()
      ensures Valid() && BackLinked(view) && Objects() <= old(Objects())
      ensures view.tree ==
        ReplaceTree(old(view.tree), up,
                    TreeAt(old(view.tree), up).(kids := Without(TreeAt(old(view.tree), up).kids, last)))
    {
      ParentOf(view, up, last, node);
      assert node.parent == view.cells[node].parent;
      if node.parent != null {
        Unlink(node.parent, node, up, last);
      }
    }

    method Unlink(parent: ConfNode, node: ConfNode, ghost up: seq<nat>, ghost last: nat)
      requires Valid() && BackLinked(view) && Stands(view, up, parent) && last < |TreeAt(view.tree, up).kids|
      requires Stands(view, up + [last], node)
      modifies this, parent`children
      ensures Valid() && BackLinked(view) && Objects() <= old(Objects())
      ensures view.tree ==
        ReplaceTree(old(view.tree), up,
                    TreeAt(old(view.tree), up).(kids := Without(TreeAt(old(view.tree), up).kids, last)))
    {
      ParentOf(view, up, last, node);
      ghost var w := Removed(view, up, parent, last);
      RemoveFromList(parent, node, view.cells, At(view.shape, up).kids, TreeAt(view.tree, up).kids, last);
      assert parent.Fields() == w.cells[parent];
      view := w;
    }

    method ConfRemove(name: string) returns (r: int)
      requires Valid() && BackLinked(view) && Tokens(name) != []
      modifies this, Objects()
      ensures Valid() && BackLinked(view)
      ensures view.tree == Remove(old(view.tree), Tokens(name))
      ensures r == if Info(old(view.tree), Tokens(name)).Some? then 1 else 0
    {
      var node, pos := ConfGetNode(name);
      PathPosIsLookup(view.tree, Tokens(name));
      if node == null {
        RemoveMissing(view.tree, Tokens(name));
        return 0;
      }
      RemoveAtPos(view.tree, Tokens(name), pos);
      assert pos[..|pos| - 1] + [pos[|pos| - 1]] == pos;
      ConfNodeRemove(node, pos[..|pos| - 1], pos[|pos| - 1]);
      return 1;
    }
  }

  // The back pointer of a node leads to the object above it.
  lemma ParentOf(v: View, up: seq<nat>, last: nat, node: ConfNode)
    requires Represented(v) && BackLinked(v) && IsPos(v.tree, up) && last < |TreeAt(v.tree, up).kids|
    requires At(v.shape, up + [last]).obj == node
    ensures var g, t := At(v.shape, up), TreeAt(v.tree, up);
      && Stands(v, up, g.obj) && last < |g.kids| && g.kids[last].obj == node
      && node in v.cells && v.cells[node].parent == g.obj
      && g.obj in v.cells && v.cells[g.obj].children == Heads(g.kids)
      && HoldAll(v.cells, g.kids, t.kids) && SepAll(g.kids)
  {
    Subtree(v, up);
    LinkedAt(v.cells, v.shape, v.tree, up);
    AtSnoc(v.shape, v.tree, v.cells, up, last);
    LinkedKid(v.cells, At(v.shape, up).obj, At(v.shape, up).kids, last);
  }

  lemma {:induction false} PosSnoc(t: Tree, pos: seq<nat>, i: nat)
    requires IsPos(t, pos) && i < |TreeAt(t, pos).kids|
    ensures IsPos(t, pos + [i])
    decreases |pos|
  {
    if pos == [] {
      assert pos + [i] == [i];
    } else {
      assert (pos + [i])[1..] == pos[1..] + [i];
      PosSnoc(t.kids[pos[0]], pos[1..], i);
    }
  }

  lemma {:induction false} ReplaceSelf(t: Tree, pos: seq<nat>)
    requires IsPos(t, pos)
    ensures ReplaceTree(t, pos, TreeAt(t, pos)) == t
    decreases |pos|
  {
    if pos != [] {
      ReplaceSelf(t.kids[pos[0]], pos[1..]);
      assert t.kids[pos[0] := t.kids[pos[0]]] == t.kids;
    }
  }

  // What was put at a position is found there.
  lemma {:induction false} ReplacedAt(m: Snapshot, g: Shape, t: Tree, pos: seq<nat>, s: Shape, u: Tree)
    requires IsPos(t, pos) && Holds(m, g, t)
    ensures IsPos(ReplaceTree(t, pos, u), pos) && TreeAt(ReplaceTree(t, pos, u), pos) == u
    ensures At(Replace(g, pos, s), pos) == s
    decreases |pos|
  {
    if pos != [] {
      KidAt(m, g.kids, t.kids, pos[0]);
      ReplacedAt(m, g.kids[pos[0]], t.kids[pos[0]], pos[1..], s, u);
    }
  }

  lemma {:induction false} HeadsDistinct(m: Snapshot, ks: seq<Shape>, ts: seq<Tree>, i: nat, j: nat)
    requires i <= j < |ks| && HoldAll(m, ks, ts) && SepAll(ks)
    requires |Heads(ks)| == |ks| && Heads(ks)[i] == Heads(ks)[j]
    ensures i == j
    decreases |ks|
  {
    KidAt(m, ks, ts, i);
    KidAt(m, ks, ts, j);
    if i > 0 {
      HeadsLength(ks[1..]);
      HeadsDistinct(m, ks[1..], ts[1..], i - 1, j - 1);
    } else if j > 0 {
      KidAt(m, ks[1..], ts[1..], j - 1);
      assert false;
    }
  }

  lemma {:induction false} RemoveMissing(t: Tree, path: seq<string>)
    requires path != [] && Lookup(t, path).None?
    ensures Remove(t, path) == t
    decreases |path|
  {
    var i := FindKid(t.kids, path[0]);
    if i.Some? && |path| > 1 {
      RemoveMissing(t.kids[i.value], path[1..]);
      assert t.kids[i.value := t.kids[i.value]] == t.kids;
    }
  }
}

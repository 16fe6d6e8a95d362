// The configuration tree as a value (conf.c): named nodes in insertion order,
// each with an optional value and an override permission, addressed by dotted
// names.
module ConfTree {
  import opened Bytes

  datatype Tree = Tree(name: string, val: Option<string>, isSeq: bool, allow: bool, kids: seq<Tree>)

  function NewTree(name: string): Tree {
    Tree(name, None, false, true, [])
  }

  // ---- dotted names ----

  // The non-empty stretches between dots, as repeated tokenisation yields them.
  function Tokens(name: string): (tokens: seq<string>)
    ensures forall t <- tokens :: t != "" && '.' !in t
    decreases |name|
  {
    if name == "" then []
    else if name[0] == '.' then Tokens(name[1..])
    else
      var n := TokenLength(name);
      [name[..n]] + Tokens(name[n..])
  }

  function TokenLength(name: string): (n: nat)
    ensures n <= |name| && '.' !in name[..n] && (n < |name| ==> name[n] == '.')
    ensures name != "" && name[0] != '.' ==> n > 0
  {
    if name == "" || name[0] == '.' then 0 else 1 + TokenLength(name[1..])
  }

  // ---- lookup ----

  // The first child of that name.
  function FindKid(kids: seq<Tree>, name: string): (r: Option<nat>)
    ensures r.Some? ==> r.value < |kids| && kids[r.value].name == name
  {
    if kids == [] then None
    else if kids[0].name == name then Some(0)
    else
      match FindKid(kids[1..], name)
      case None => None
      case Some(i) => Some(i + 1)
  }

  ghost predicate FirstNamed(kids: seq<Tree>, name: string, r: Option<nat>) {
    match r
    case None => forall j :: 0 <= j < |kids| ==> kids[j].name != name
    case Some(i) => i < |kids| && kids[i].name == name && forall j :: 0 <= j < i ==> kids[j].name != name
  }

  lemma {:induction false} FindKidFirst(kids: seq<Tree>, name: string)
    ensures FirstNamed(kids, name, FindKid(kids, name))
    decreases |kids|
  {
    if kids != [] && kids[0].name != name {
      FindKidFirst(kids[1..], name);
      assert forall j :: 1 <= j < |kids| ==> kids[j] == kids[1..][j - 1];
    }
  }

  lemma FindKidIs(kids: seq<Tree>, name: string, r: Option<nat>)
    requires FirstNamed(kids, name, r)
    ensures FindKid(kids, name) == r
  {
    FindKidFirst(kids, name);
  }

  function Lookup(t: Tree, path: seq<string>): Option<Tree>
    decreases |path|
  {
    if path == [] then Some(t)
    else
      match FindKid(t.kids, path[0])
      case None => None
      case Some(i) => Lookup(t.kids[i], path[1..])
  }

  // What the outside sees of a name: its value, if any, and its permission.
  datatype Entry = Entry(val: Option<string>, allow: bool)

  function Info(t: Tree, path: seq<string>): Option<Entry> {
    match Lookup(t, path)
    case None => None
    case Some(n) => Some(Entry(n.val, n.allow))
  }

  lemma InfoStep(t: Tree, q: seq<string>)
    requires q != []
    ensures Info(t, q) ==
      var i := FindKid(t.kids, q[0]);
      if i.Some? then Info(t.kids[i.value], q[1..]) else None
  {
  }

  predicate Locked(t: Tree, path: seq<string>) {
    Info(t, path).Some? && !Info(t, path).value.allow
  }

  // ---- setting and removing ----

  function Set(t: Tree, path: seq<string>, val: string, allow: bool): (r: Tree)
    ensures r.name == t.name
    decreases |path|
  {
    if path == [] then
      if t.allow then t.(val := Some(val), allow := allow) else t
    else
      match FindKid(t.kids, path[0])
      case None => t.(kids := t.kids + [Set(NewTree(path[0]), path[1..], val, allow)])
      case Some(i) => t.(kids := t.kids[i := Set(t.kids[i], path[1..], val, allow)])
  }

  function Remove(t: Tree, path: seq<string>): (r: Tree)
    requires path != []
    ensures r.name == t.name
    decreases |path|
  {
    match FindKid(t.kids, path[0])
    case None => t
    case Some(i) =>
      if |path| == 1 then t.(kids := Without(t.kids, i))
      else t.(kids := t.kids[i := Remove(t.kids[i], path[1..])])
  }

  // ---- the map the tree implements ----

  lemma FindKidUpdated(kids: seq<Tree>, i: nat, t: Tree, name: string)
    requires i < |kids| && t.name == kids[i].name
    ensures FindKid(kids[i := t], name) == FindKid(kids, name)
  {
    FindKidFirst(kids, name);
    FindKidIs(kids[i := t], name, FindKid(kids, name));
  }

  lemma FindKidAppended(kids: seq<Tree>, t: Tree, name: string)
    ensures FindKid(kids + [t], name) ==
      if FindKid(kids, name).Some? then FindKid(kids, name) else if t.name == name then Some(|kids|) else None
  {
    FindKidFirst(kids, name);
    var r := FindKid(kids, name);
    FindKidIs(kids + [t], name, if r.None? && t.name == name then Some(|kids|) else r);
  }

  // The whole effect of a set on every name: the name itself takes the new
  // value unless it is locked, existing names are untouched, and the only names
  // that appear are missing prefixes, without a value and open to overrides.
  lemma {:induction false} SetInfo(t: Tree, path: seq<string>, val: string, allow: bool, q: seq<string>)
    ensures Info(Set(t, path, val, allow), q) ==
      if q == path && !Locked(t, path) then Some(Entry(Some(val), allow))
      else if Info(t, q).Some? then Info(t, q)
      else if q < path then Some(Entry(None, true))
      else None
    decreases |path|
  {
    if path != [] && q != [] {
      ComparePaths(path, q);
      InfoStep(t, q);
      InfoStep(t, path);
      InfoStep(Set(t, path, val, allow), q);
      var i := FindKid(t.kids, path[0]);
      var kid := if i.Some? then t.kids[i.value] else NewTree(path[0]);
      SetKid(t, path, val, allow, q[0]);
      if q[0] == path[0] {
        SetInfo(kid, path[1..], val, allow, q[1..]);
        if i.None? {
          NothingBelow(path[0], path[1..]);
          NothingBelow(path[0], q[1..]);
        }
      }
    }
  }

  // One level of a set: the child of the first name changes or appears, every
  // other name finds what it found before.
  lemma SetKid(t: Tree, path: seq<string>, val: string, allow: bool, name: string)
    requires path != []
    ensures var i := FindKid(t.kids, path[0]);
      var r := Set(t, path, val, allow);
      var j := FindKid(r.kids, name);
      if name == path[0] then
        j.Some? && r.kids[j.value] == Set(if i.Some? then t.kids[i.value] else NewTree(path[0]), path[1..], val, allow)
      else
        j == FindKid(t.kids, name) && (j.Some? ==> r.kids[j.value] == t.kids[j.value])
  {
    var i := FindKid(t.kids, path[0]);
    if i.None? {
      FindKidAppended(t.kids, Set(NewTree(path[0]), path[1..], val, allow), name);
    } else {
      FindKidUpdated(t.kids, i.value, Set(t.kids[i.value], path[1..], val, allow), name);
    }
  }

  lemma NothingBelow(name: string, q: seq<string>)
    ensures Info(NewTree(name), q) == if q == [] then Some(Entry(None, true)) else None
  {
  }

  lemma ComparePaths(p: seq<string>, q: seq<string>)
    requires p != [] && q != []
    ensures p == q <==> p[0] == q[0] && p[1..] == q[1..]
    ensures q < p <==> p[0] == q[0] && q[1..] < p[1..]
    ensures p <= q <==> p[0] == q[0] && p[1..] <= q[1..]
  {
    assert p == [p[0]] + p[1..] && q == [q[0]] + q[1..];
  }

  lemma {:induction false} SetOnLockedChangesNothing(t: Tree, path: seq<string>, val: string, allow: bool)
    requires Locked(t, path)
    ensures Set(t, path, val, allow) == t
    decreases |path|
  {
    if path != [] {
      var i := FindKid(t.kids, path[0]).value;
      SetOnLockedChangesNothing(t.kids[i], path[1..], val, allow);
      assert t.kids[i := t.kids[i]] == t.kids;
    }
  }

  // Sibling names are distinct, everywhere in the tree.
  ghost predicate Distinct(t: Tree) {
    && (forall i, j :: 0 <= i < j < |t.kids| ==> t.kids[i].name != t.kids[j].name)
    && (forall k <- t.kids :: Distinct(k))
  }

  lemma {:induction false} SetKeepsDistinct(t: Tree, path: seq<string>, val: string, allow: bool)
    requires Distinct(t)
    ensures Distinct(Set(t, path, val, allow))
    decreases |path|
  {
    if path != [] {
      FindKidFirst(t.kids, path[0]);
      match FindKid(t.kids, path[0])
      case None => SetKeepsDistinct(NewTree(path[0]), path[1..], val, allow);
      case Some(i) => SetKeepsDistinct(t.kids[i], path[1..], val, allow);
    }
  }

  lemma {:induction false} RemoveKeepsDistinct(t: Tree, path: seq<string>)
    requires path != [] && Distinct(t)
    ensures Distinct(Remove(t, path))
    decreases |path|
  {
    match FindKid(t.kids, path[0])
    case None =>
    case Some(i) =>
      if |path| > 1 {
        RemoveKeepsDistinct(t.kids[i], path[1..]);
      }
  }

  // Removing deletes exactly the name and its extensions.
  lemma {:induction false} RemoveInfo(t: Tree, path: seq<string>, q: seq<string>)
    requires path != [] && Distinct(t)
    ensures Info(Remove(t, path), q) == if path <= q then None else Info(t, q)
    decreases |path|
  {
    if q != [] {
      ComparePaths(path, q);
      match FindKid(t.kids, path[0])
      case None =>
      case Some(i) =>
        if |path| == 1 {
          DropInfo(t, i, q);
        } else {
          FindKidUpdated(t.kids, i, Remove(t.kids[i], path[1..]), q[0]);
          if q[0] == path[0] {
            RemoveInfo(t.kids[i], path[1..], q[1..]);
          }
        }
    }
  }

  function Without<T>(s: seq<T>, i: nat): seq<T>
    requires i < |s|
  {
    s[..i] + s[i + 1..]
  }

  lemma DropInfo(t: Tree, i: nat, q: seq<string>)
    requires i < |t.kids| && q != [] && Distinct(t)
    ensures Info(t.(kids := Without(t.kids, i)), q) == if q[0] == t.kids[i].name then None else Info(t, q)
  {
    FindKidDropped(t.kids, i, q[0]);
    InfoStep(t, q);
    InfoStep(t.(kids := Without(t.kids, i)), q);
  }

  lemma FindKidDropped(kids: seq<Tree>, i: nat, name: string)
    requires i < |kids| && forall a, b :: 0 <= a < b < |kids| ==> kids[a].name != kids[b].name
    ensures FindKid(kids, kids[i].name) == Some(i)
    ensures var j, j' := FindKid(kids, name), FindKid(Without(kids, i), name);
      if j.None? || j.value == i then j'.None? else j'.Some? && Without(kids, i)[j'.value] == kids[j.value]
  {
    var rest := Without(kids, i);
    FindKidFirst(kids, name);
    FindKidIs(kids, kids[i].name, Some(i));
    assert forall j :: 0 <= j < |rest| ==> rest[j] == kids[if j < i then j else j + 1];
    var r := FindKid(kids, name);
    FindKidIs(rest, name,
      if r.None? || r.value == i then None else if r.value < i then r else Some(r.value - 1));
  }

  // ---- every run of sets and removals ----

  datatype Edit = SetEdit(path: seq<string>, val: string, allow: bool) | RemoveEdit(path: seq<string>)

  function Apply(t: Tree, e: Edit): Tree
    requires e.path != []
  {
    match e
    case SetEdit(path, val, allow) => Set(t, path, val, allow)
    case RemoveEdit(path) => Remove(t, path)
  }

  function ApplyAll(t: Tree, es: seq<Edit>): Tree
    requires forall e <- es :: e.path != []
    decreases |es|
  {
    if es == [] then t else Apply(ApplyAll(t, es[..|es| - 1]), es[|es| - 1])
  }

  // The same run without a tree: what each name maps to after it.
  function MapAfter(es: seq<Edit>, q: seq<string>): Option<Entry>
    decreases |es|
  {
    if es == [] then None
    else
      var before := es[..|es| - 1];
      match es[|es| - 1]
      case SetEdit(path, val, allow) =>
        var was := MapAfter(before, path);
        if q == path then if was.Some? && !was.value.allow then was else Some(Entry(Some(val), allow))
        else if q < path && MapAfter(before, q).None? then Some(Entry(None, true))
        else MapAfter(before, q)
      case RemoveEdit(path) =>
        if path <= q then None else MapAfter(before, q)
  }

  // The tree refines the map from names to entries over every run, and keeps
  // its sibling names distinct.
  lemma {:induction false} TreeRefinesMap(es: seq<Edit>, q: seq<string>)
    requires (forall e <- es :: e.path != []) && q != []
    ensures Distinct(ApplyAll(NewTree(""), es))
    ensures Info(ApplyAll(NewTree(""), es), q) == MapAfter(es, q)
    decreases |es|
  {
    if es == [] {
      NothingBelow("", q);
    } else {
      var before, e := es[..|es| - 1], es[|es| - 1];
      var t := ApplyAll(NewTree(""), before);
      TreeRefinesMap(before, q);
      TreeRefinesMap(before, e.path);
      match e
      case SetEdit(path, val, allow) =>
        SetInfo(t, path, val, allow, q);
        SetKeepsDistinct(t, path, val, allow);
      case RemoveEdit(path) =>
        RemoveInfo(t, path, q);
        RemoveKeepsDistinct(t, path);
    }
  }
}

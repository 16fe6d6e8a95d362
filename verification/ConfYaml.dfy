// Loading a YAML document into the configuration tree (conf-yaml-loader.c): a
// recursive consumer of parse events, as a function on the tree.
module ConfYaml {
  import opened Bytes
  import opened ConfTree

  datatype YamlEvent =
    | StreamStart
    | StreamEnd
    | DocumentStart(version: Option<(int, int)>)
    | DocumentEnd
    | Alias
    | Scalar(value: string)
    | SequenceStart
    | SequenceEnd
    | MappingStart
    | MappingEnd

  // The decimal name of a sequence element.
  function Decimal(n: nat): string {
    (if n < 10 then "" else Decimal(n / 10)) + [['0', '1', '2', '3', '4', '5', '6', '7', '8', '9'][n % 10]]
  }

  function Append(t: Tree, kid: Tree): Tree {
    t.(kids := t.kids + [kid])
  }

  function ChangeKid(t: Tree, i: nat, kid: Tree): Tree
    requires i < |t.kids|
  {
    t.(kids := t.kids[i := kid])
  }

  // The first key of a sequence element names it.
  function NoteKey(t: Tree, key: string): Tree {
    if t.isSeq && t.val.None? then t.(val := Some(key)) else t
  }

  function OfferValue(t: Tree, v: string): Tree {
    if t.allow then t.(val := Some(v)) else t
  }

  // The node a layer is working on: the layer's own node or one of its children.
  type Cursor = Option<nat>

  function NodeAt(t: Tree, cur: Cursor): Tree
    requires cur.Some? ==> cur.value < |t.kids|
  {
    if cur.None? then t else t.kids[cur.value]
  }

  function PutNode(t: Tree, cur: Cursor, node: Tree): Tree
    requires cur.Some? ==> cur.value < |t.kids|
  {
    if cur.None? then node else ChangeKid(t, cur.value, node)
  }

  function ElementNode(k: nat): Tree {
    Tree(Decimal(k), None, true, true, [])
  }

  datatype Loaded = Loaded(ok: bool, tree: Tree, rest: seq<YamlEvent>)

  // One layer: consumes events until its own end event, an error or the end of
  // the stream. In a sequence the layer never leaves its own node.
  function Layer(t: Tree, cur: Cursor, inseq: bool, wantValue: bool, seqIdx: nat, evs: seq<YamlEvent>): (r: Loaded)
    requires cur.Some? ==> cur.value < |t.kids|
    requires inseq ==> cur.None? && !wantValue
    requires wantValue ==> cur.Some?
    ensures |r.rest| <= |evs| && r.tree.name == t.name && |t.kids| <= |r.tree.kids|
    decreases |evs|
  {
    if evs == [] then Loaded(false, t, [])
    else
      var rest := evs[1..];
      match evs[0]
      case DocumentStart(version) =>
        if version == Some((1, 1)) then Layer(t, cur, inseq, wantValue, seqIdx, rest) else Loaded(false, t, rest)
      case Scalar(v) =>
        if inseq then
          Layer(Append(t, Tree(Decimal(seqIdx), Some(v), false, true, [])), None, true, false, seqIdx + 1, rest)
        else if wantValue then
          Layer(PutNode(t, cur, OfferValue(NodeAt(t, cur), v)), cur, false, false, seqIdx, rest)
        else
          var noted := NoteKey(t, v);
          (match FindKid(noted.kids, v)
           case Some(i) => Layer(noted, Some(i), false, true, seqIdx, rest)
           case None => Layer(Append(noted, NewTree(v)), Some(|noted.kids|), false, true, seqIdx, rest))
      case SequenceStart =>
        var sub := Layer(NodeAt(t, cur), None, true, false, 0, rest);
        var t' := PutNode(t, cur, sub.tree);
        if sub.ok then Layer(t', cur, inseq, false, seqIdx, sub.rest) else Loaded(false, t', sub.rest)
      case MappingStart =>
        if inseq then
          var sub := Layer(ElementNode(seqIdx), None, false, false, 0, rest);
          var t' := Append(t, sub.tree);
          if sub.ok then Layer(t', None, true, false, seqIdx + 1, sub.rest) else Loaded(false, t', sub.rest)
        else
          var sub := Layer(NodeAt(t, cur), None, false, false, 0, rest);
          var t' := PutNode(t, cur, sub.tree);
          if sub.ok then Layer(t', cur, false, false, seqIdx, sub.rest) else Loaded(false, t', sub.rest)
      case SequenceEnd => Loaded(true, t, rest)
      case MappingEnd => Loaded(true, t, rest)
      case StreamEnd => Loaded(true, t, rest)
      case _ => Layer(t, cur, inseq, wantValue, seqIdx, rest)
  }

  function Load(t: Tree, evs: seq<YamlEvent>): Loaded {
    Layer(t, None, false, false, 0, evs)
  }

  // ---- documents and the trees they stand for ----

  datatype Doc = ScalarDoc(value: string) | MappingDoc(pairs: seq<Pair>) | SequenceDoc(items: seq<Doc>)
  datatype Pair = Pair(key: string, doc: Doc)

  ghost predicate WellFormed(d: Doc) {
    match d
    case ScalarDoc(_) => true
    case MappingDoc(pairs) =>
      && (forall i, j :: 0 <= i < j < |pairs| ==> pairs[i].key != pairs[j].key)
      && (forall p <- pairs :: WellFormed(p.doc))
    case SequenceDoc(items) =>
      forall x <- items :: !x.SequenceDoc? && WellFormed(x)
  }

  function Events(d: Doc): seq<YamlEvent> {
    match d
    case ScalarDoc(v) => [Scalar(v)]
    case MappingDoc(pairs) => [MappingStart] + PairEvents(pairs) + [MappingEnd]
    case SequenceDoc(items) => [SequenceStart] + ItemEvents(items) + [SequenceEnd]
  }

  function PairEvents(pairs: seq<Pair>): seq<YamlEvent> {
    if pairs == [] then [] else [Scalar(pairs[0].key)] + Events(pairs[0].doc) + PairEvents(pairs[1..])
  }

  function ItemEvents(items: seq<Doc>): seq<YamlEvent> {
    if items == [] then [] else Events(items[0]) + ItemEvents(items[1..])
  }

  // A childless node filled with a document.
  function Fill(n: Tree, d: Doc): Tree
    decreases d, 0
  {
    match d
    case ScalarDoc(v) => n.(val := Some(v))
    case MappingDoc(pairs) =>
      n.(val := if n.isSeq && n.val.None? && pairs != [] then Some(pairs[0].key) else n.val, kids := PairNodes(pairs))
    case SequenceDoc(items) => n.(kids := ItemNodes(items, 0))
  }

  function PairNodes(pairs: seq<Pair>): seq<Tree>
    decreases pairs
  {
    if pairs == [] then [] else [Fill(NewTree(pairs[0].key), pairs[0].doc)] + PairNodes(pairs[1..])
  }

  // Elements are named by their position; a mapping carries its first key.
  function ItemNode(item: Doc, k: nat): Tree
    decreases item, 1
  {
    Fill(if item.ScalarDoc? then NewTree(Decimal(k)) else ElementNode(k), item)
  }

  function ItemNodes(items: seq<Doc>, k: nat): seq<Tree>
    decreases items
  {
    if items == [] then [] else [ItemNode(items[0], k)] + ItemNodes(items[1..], k + 1)
  }

  // ---- what the loader makes of a document ----

  // A scalar is offered to the key's node, a mapping or sequence is read into it.
  function ReadDoc(n: Tree, d: Doc): (r: Tree)
    ensures r.name == n.name
    decreases d, 1
  {
    match d
    case ScalarDoc(v) => OfferValue(n, v)
    case MappingDoc(pairs) => ReadPairs(n, pairs)
    case SequenceDoc(items) => ReadItems(n, 0, items)
  }

  // A key that is there already has its value read into the node it has.
  function KeyNode(t: Tree, key: string): Tree {
    if FindKid(t.kids, key).None? then Append(NoteKey(t, key), NewTree(key)) else NoteKey(t, key)
  }

  function KeyIndex(t: Tree, key: string): (i: nat)
    ensures i < |KeyNode(t, key).kids|
  {
    match FindKid(t.kids, key)
    case None => |t.kids|
    case Some(i) => i
  }

  function ReadPair(t: Tree, p: Pair): (r: Tree)
    ensures r.name == t.name
    decreases p, 2
  {
    var grown, i := KeyNode(t, p.key), KeyIndex(t, p.key);
    ChangeKid(grown, i, ReadDoc(grown.kids[i], p.doc))
  }

  function ReadPairs(t: Tree, pairs: seq<Pair>): (r: Tree)
    ensures r.name == t.name
    decreases pairs, 0
  {
    if pairs == [] then t else ReadPairs(ReadPair(t, pairs[0]), pairs[1..])
  }

  // An element appends a node; a sequence appends its own elements instead, and
  // counts from zero.
  function ReadItem(t: Tree, k: nat, item: Doc): (r: Tree)
    ensures r.name == t.name
    decreases item, 1
  {
    match item
    case ScalarDoc(v) => Append(t, Tree(Decimal(k), Some(v), false, true, []))
    case MappingDoc(pairs) => Append(t, ReadPairs(ElementNode(k), pairs))
    case SequenceDoc(inner) => ReadItems(t, 0, inner)
  }

  function ReadItems(t: Tree, k: nat, items: seq<Doc>): (r: Tree)
    ensures r.name == t.name
    decreases items, 0
  {
    if items == [] then t
    else ReadItems(ReadItem(t, k, items[0]), if items[0].SequenceDoc? then k else k + 1, items[1..])
  }

  lemma {:induction false} LayerReadsPairs(t: Tree, cur: Cursor, seqIdx: nat, pairs: seq<Pair>, rest: seq<YamlEvent>)
    requires cur.Some? ==> cur.value < |t.kids|
    ensures Layer(t, cur, false, false, seqIdx, PairEvents(pairs) + [MappingEnd] + rest)
      == Loaded(true, ReadPairs(t, pairs), rest)
    decreases pairs, 0
  {
    var evs := PairEvents(pairs) + [MappingEnd] + rest;
    if pairs == [] {
      assert evs == [MappingEnd] + rest;
    } else {
      var p, tail := pairs[0], PairEvents(pairs[1..]) + [MappingEnd] + rest;
      assert evs == [Scalar(p.key)] + (Events(p.doc) + tail);
      LayerReadsPair(t, cur, seqIdx, p, tail);
      LayerReadsPairs(ReadPair(t, p), Some(KeyIndex(t, p.key)), seqIdx, pairs[1..], rest);
    }
  }

  // A key, new or not, and its value.
  lemma {:induction false} LayerReadsPair(t: Tree, cur: Cursor, seqIdx: nat, p: Pair, rest: seq<YamlEvent>)
    requires cur.Some? ==> cur.value < |t.kids|
    ensures Layer(t, cur, false, false, seqIdx, [Scalar(p.key)] + (Events(p.doc) + rest))
      == Layer(ReadPair(t, p), Some(KeyIndex(t, p.key)), false, false, seqIdx, rest)
    decreases p, 1
  {
    assert ([Scalar(p.key)] + (Events(p.doc) + rest))[1..] == Events(p.doc) + rest;
    LayerReadsValue(KeyNode(t, p.key), KeyIndex(t, p.key), seqIdx, p.doc, rest);
  }

  // After a key, the value is read into the key's node.
  lemma {:induction false} LayerReadsValue(t: Tree, i: nat, seqIdx: nat, doc: Doc, rest: seq<YamlEvent>)
    requires i < |t.kids|
    ensures Layer(t, Some(i), false, true, seqIdx, Events(doc) + rest)
      == Layer(ChangeKid(t, i, ReadDoc(t.kids[i], doc)), Some(i), false, false, seqIdx, rest)
    decreases doc, 1
  {
    var evs := Events(doc) + rest;
    match doc
    case ScalarDoc(v) =>
      assert evs[1..] == rest;
    case MappingDoc(pairs) =>
      assert evs[1..] == PairEvents(pairs) + [MappingEnd] + rest;
      LayerReadsPairs(t.kids[i], None, 0, pairs, rest);
    case SequenceDoc(items) =>
      assert evs[1..] == ItemEvents(items) + [SequenceEnd] + rest;
      LayerReadsItems(t.kids[i], 0, items, rest);
  }

  lemma {:induction false} LayerReadsItem(t: Tree, k: nat, item: Doc, rest: seq<YamlEvent>)
    ensures Layer(t, None, true, false, k, Events(item) + rest)
      == Layer(ReadItem(t, k, item), None, true, false, if item.SequenceDoc? then k else k + 1, rest)
    decreases item, 1
  {
    var evs := Events(item) + rest;
    match item
    case ScalarDoc(v) =>
      assert evs[1..] == rest;
    case MappingDoc(pairs) =>
      assert evs[1..] == PairEvents(pairs) + [MappingEnd] + rest;
      LayerReadsPairs(ElementNode(k), None, 0, pairs, rest);
    case SequenceDoc(inner) =>
      assert evs[1..] == ItemEvents(inner) + [SequenceEnd] + rest;
      LayerReadsItems(t, 0, inner, rest);
  }

  lemma {:induction false} LayerReadsItems(t: Tree, k: nat, items: seq<Doc>, rest: seq<YamlEvent>)
    ensures Layer(t, None, true, false, k, ItemEvents(items) + [SequenceEnd] + rest)
      == Loaded(true, ReadItems(t, k, items), rest)
    decreases items, 0
  {
    var evs := ItemEvents(items) + [SequenceEnd] + rest;
    if items == [] {
      assert evs == [SequenceEnd] + rest;
    } else {
      var tail := ItemEvents(items[1..]) + [SequenceEnd] + rest;
      assert evs == Events(items[0]) + tail;
      LayerReadsItem(t, k, items[0], tail);
      LayerReadsItems(ReadItem(t, k, items[0]), if items[0].SequenceDoc? then k else k + 1, items[1..], rest);
    }
  }

  // ---- well-formed documents are read as what they stand for ----

  // Keys that are new and do not repeat, with well-formed values.
  ghost predicate NewKeys(kids: seq<Tree>, pairs: seq<Pair>) {
    && (forall i, j :: 0 <= i < j < |pairs| ==> pairs[i].key != pairs[j].key)
    && (forall p <- pairs :: WellFormed(p.doc))
    && (forall p <- pairs :: FindKid(kids, p.key).None?)
  }

  // The keys of the rest are new behind the first.
  lemma NewKeysOn(kids: seq<Tree>, pairs: seq<Pair>, node: Tree)
    requires pairs != [] && node.name == pairs[0].key
    ensures NewKeys(kids, pairs)
      <==> FindKid(kids, pairs[0].key).None? && WellFormed(pairs[0].doc) && NewKeys(kids + [node], pairs[1..])
  {
    assert pairs[0] in pairs;
    forall q <- pairs ensures FindKid(kids + [node], q.key).None?
        <==> FindKid(kids, q.key).None? && q.key != node.name {
      FindKidAppended(kids, node, q.key);
    }
    if FindKid(kids, pairs[0].key).None? && WellFormed(pairs[0].doc) && NewKeys(kids + [node], pairs[1..]) {
      forall q <- pairs ensures WellFormed(q.doc) && FindKid(kids, q.key).None? {
        assert q == pairs[0] || q in pairs[1..];
      }
      forall i, j | 0 <= i < j < |pairs| ensures pairs[i].key != pairs[j].key {
        assert pairs[j] == pairs[1..][j - 1] && pairs[j] in pairs[1..];
        if i > 0 {
          assert pairs[i] == pairs[1..][i - 1];
        }
      }
    }
    if NewKeys(kids, pairs) {
      forall q <- pairs[1..] ensures q.key != node.name {
        var j :| 0 <= j < |pairs[1..]| && pairs[1..][j] == q;
        assert pairs[j + 1] == q;
      }
    }
  }

  lemma {:induction false} PairsAreNodes(t: Tree, pairs: seq<Pair>)
    requires NewKeys(t.kids, pairs)
    ensures ReadPairs(t, pairs) ==
      t.(val := if t.isSeq && t.val.None? && pairs != [] then Some(pairs[0].key) else t.val,
         kids := t.kids + PairNodes(pairs))
    decreases pairs, 0
  {
    if pairs == [] {
      assert t.kids + PairNodes(pairs) == t.kids;
    } else {
      var p := pairs[0];
      var node := Fill(NewTree(p.key), p.doc);
      NewKeysOn(t.kids, pairs, node);
      DocIsFilled(NewTree(p.key), p.doc);
      assert (t.kids + [NewTree(p.key)])[|t.kids| := node] == t.kids + [node];
      PairsAreNodes(ReadPair(t, p), pairs[1..]);
      ConcatAssociative(t.kids, [node], PairNodes(pairs[1..]));
    }
  }

  lemma {:induction false} DocIsFilled(n: Tree, d: Doc)
    requires WellFormed(d) && n.kids == [] && n.allow
    ensures ReadDoc(n, d) == Fill(n, d)
    decreases d, 1
  {
    match d
    case ScalarDoc(_) =>
    case MappingDoc(pairs) =>
      PairsAreNodes(n, pairs);
      assert [] + PairNodes(pairs) == PairNodes(pairs);
    case SequenceDoc(items) =>
      ItemsAreNodes(n, 0, items);
      assert [] + ItemNodes(items, 0) == ItemNodes(items, 0);
  }

  lemma {:induction false} ItemsAreNodes(t: Tree, k: nat, items: seq<Doc>)
    requires forall x <- items :: !x.SequenceDoc? && WellFormed(x)
    ensures ReadItems(t, k, items) == t.(kids := t.kids + ItemNodes(items, k))
    decreases items, 0
  {
    if items == [] {
      assert t.kids + ItemNodes(items, k) == t.kids;
    } else {
      assert items[0] in items;
      if items[0].MappingDoc? {
        DocIsFilled(ElementNode(k), items[0]);
        assert ReadDoc(ElementNode(k), items[0]) == ReadPairs(ElementNode(k), items[0].pairs);
      }
      assert ReadItem(t, k, items[0]) == Append(t, ItemNode(items[0], k));
      assert forall x <- items[1..] :: x in items;
      ItemsAreNodes(ReadItem(t, k, items[0]), k + 1, items[1..]);
      ConcatAssociative(t.kids, [ItemNode(items[0], k)], ItemNodes(items[1..], k + 1));
    }
  }

  // ---- other documents lose nodes ----

  function Size(t: Tree): nat
    decreases t, 1
  {
    1 + Weight(t.kids)
  }

  function Weight(kids: seq<Tree>): nat
    decreases kids, 0
  {
    if kids == [] then 0 else Size(kids[0]) + Weight(kids[1..])
  }

  // The nodes a document stands for, below its own.
  function Nodes(d: Doc): nat
    decreases d, 1
  {
    match d
    case ScalarDoc(_) => 0
    case MappingDoc(pairs) => NodesOfPairs(pairs)
    case SequenceDoc(items) => NodesOfItems(items)
  }

  function NodesOfPairs(pairs: seq<Pair>): nat
    decreases pairs, 0
  {
    if pairs == [] then 0 else 1 + Nodes(pairs[0].doc) + NodesOfPairs(pairs[1..])
  }

  function NodesOfItems(items: seq<Doc>): nat
    decreases items, 0
  {
    if items == [] then 0 else 1 + Nodes(items[0]) + NodesOfItems(items[1..])
  }

  lemma {:induction false} WeightAppended(kids: seq<Tree>, kid: Tree)
    ensures Weight(kids + [kid]) == Weight(kids) + Size(kid)
    decreases |kids|
  {
    if kids == [] {
      assert kids + [kid] == [kid];
    } else {
      assert (kids + [kid])[1..] == kids[1..] + [kid];
      WeightAppended(kids[1..], kid);
    }
  }

  lemma {:induction false} WeightChanged(kids: seq<Tree>, i: nat, kid: Tree)
    requires i < |kids|
    ensures Weight(kids[i := kid]) == Weight(kids) - Size(kids[i]) + Size(kid)
    decreases |kids|
  {
    if i == 0 {
      assert kids[0 := kid][1..] == kids[1..];
    } else {
      assert kids[i := kid][1..] == kids[1..][i - 1 := kid];
      WeightChanged(kids[1..], i - 1, kid);
    }
  }

  // The tree a document stands for has all its nodes.
  lemma {:induction false} FilledHasAllNodes(n: Tree, d: Doc)
    requires n.kids == []
    ensures Size(Fill(n, d)) == 1 + Nodes(d)
    decreases d, 1
  {
    match d
    case ScalarDoc(_) =>
    case MappingDoc(pairs) => PairNodesHaveAll(pairs);
    case SequenceDoc(items) => ItemNodesHaveAll(items, 0);
  }

  lemma {:induction false} PairNodesHaveAll(pairs: seq<Pair>)
    ensures Weight(PairNodes(pairs)) == NodesOfPairs(pairs)
    decreases pairs, 0
  {
    if pairs != [] {
      FilledHasAllNodes(NewTree(pairs[0].key), pairs[0].doc);
      PairNodesHaveAll(pairs[1..]);
      assert PairNodes(pairs)[1..] == PairNodes(pairs[1..]);
    }
  }

  lemma {:induction false} ItemNodesHaveAll(items: seq<Doc>, k: nat)
    ensures Weight(ItemNodes(items, k)) == NodesOfItems(items)
    decreases items, 0
  {
    if items != [] {
      FilledHasAllNodes(if items[0].ScalarDoc? then NewTree(Decimal(k)) else ElementNode(k), items[0]);
      ItemNodesHaveAll(items[1..], k + 1);
      assert ItemNodes(items, k)[1..] == ItemNodes(items[1..], k + 1);
    }
  }

  // A repeated key and a sequence in a sequence add no node of their own.
  lemma {:induction false} ReadDocSize(n: Tree, d: Doc)
    ensures Size(ReadDoc(n, d)) <= Size(n) + Nodes(d)
    ensures !WellFormed(d) ==> Size(ReadDoc(n, d)) < Size(n) + Nodes(d)
    decreases d, 1
  {
    match d
    case ScalarDoc(_) =>
    case MappingDoc(pairs) => ReadPairsSize(n, pairs);
    case SequenceDoc(items) => ReadItemsSize(n, 0, items);
  }

  lemma {:induction false} ReadPairSize(t: Tree, p: Pair)
    ensures var more := Size(ReadPair(t, p)) - Size(t);
      && more <= 1 + Nodes(p.doc)
      && (FindKid(t.kids, p.key).Some? || !WellFormed(p.doc) ==> more < 1 + Nodes(p.doc))
    ensures FindKid(t.kids, p.key).None? ==>
      exists node: Tree :: node.name == p.key && ReadPair(t, p).kids == t.kids + [node]
    decreases p, 2
  {
    var grown, i := KeyNode(t, p.key), KeyIndex(t, p.key);
    ReadDocSize(grown.kids[i], p.doc);
    WeightAppended(t.kids, NewTree(p.key));
    WeightChanged(grown.kids, i, ReadDoc(grown.kids[i], p.doc));
    if FindKid(t.kids, p.key).None? {
      var node := ReadDoc(NewTree(p.key), p.doc);
      assert (t.kids + [NewTree(p.key)])[|t.kids| := node] == t.kids + [node];
    }
  }

  lemma {:induction false} ReadPairsSize(t: Tree, pairs: seq<Pair>)
    ensures Size(ReadPairs(t, pairs)) <= Size(t) + NodesOfPairs(pairs)
    ensures !NewKeys(t.kids, pairs) ==> Size(ReadPairs(t, pairs)) < Size(t) + NodesOfPairs(pairs)
    ensures !WellFormed(MappingDoc(pairs)) ==> !NewKeys(t.kids, pairs)
    decreases pairs, 0
  {
    if pairs != [] {
      ReadPairSize(t, pairs[0]);
      ReadPairsSize(ReadPair(t, pairs[0]), pairs[1..]);
      if FindKid(t.kids, pairs[0].key).None? {
        var node: Tree :| node.name == pairs[0].key && ReadPair(t, pairs[0]).kids == t.kids + [node];
        NewKeysOn(t.kids, pairs, node);
      }
    }
  }

  lemma {:induction false} ReadItemsSize(t: Tree, k: nat, items: seq<Doc>)
    ensures Size(ReadItems(t, k, items)) <= Size(t) + NodesOfItems(items)
    ensures !WellFormed(SequenceDoc(items)) ==> Size(ReadItems(t, k, items)) < Size(t) + NodesOfItems(items)
    decreases items, 0
  {
    if items != [] {
      ReadItemSize(t, k, items[0]);
      ReadItemsSize(ReadItem(t, k, items[0]), if items[0].SequenceDoc? then k else k + 1, items[1..]);
      assert items == [items[0]] + items[1..];
    }
  }

  lemma {:induction false} ReadItemSize(t: Tree, k: nat, item: Doc)
    ensures var more := Size(ReadItem(t, k, item)) - Size(t);
      && more <= 1 + Nodes(item)
      && (item.SequenceDoc? || !WellFormed(item) ==> more < 1 + Nodes(item))
    decreases item, 1
  {
    match item
    case ScalarDoc(v) => WeightAppended(t.kids, Tree(Decimal(k), Some(v), false, true, []));
    case MappingDoc(pairs) =>
      ReadPairsSize(ElementNode(k), pairs);
      WeightAppended(t.kids, ReadPairs(ElementNode(k), pairs));
    case SequenceDoc(inner) => ReadItemsSize(t, 0, inner);
  }

  // A whole stream: version 1.1 document holding a mapping or a sequence.
  function Stream(d: Doc): seq<YamlEvent> {
    [StreamStart, DocumentStart(Some((1, 1)))] + Events(d) + [DocumentEnd, StreamEnd]
  }

  lemma StreamOpens(t: Tree, d: Doc)
    ensures Load(t, Stream(d)) == Layer(t, None, false, false, 0, Events(d) + [DocumentEnd, StreamEnd])
  {
    var evs := Stream(d);
    assert evs[1..][1..] == Events(d) + [DocumentEnd, StreamEnd];
    assert evs[0] == StreamStart && evs[1..][0] == DocumentStart(Some((1, 1)));
    assert Layer(t, None, false, false, 0, evs[1..]) == Layer(t, None, false, false, 0, evs[1..][1..]);
  }

  lemma StreamCloses(t: Tree)
    ensures Layer(t, None, false, false, 0, [DocumentEnd, StreamEnd]) == Loaded(true, t, [])
  {
    assert [DocumentEnd, StreamEnd][1..] == [StreamEnd];
    assert Layer(t, None, false, false, 0, [StreamEnd]) == Loaded(true, t, [StreamEnd][1..]);
  }

  // Whatever the document, all its events are consumed.
  lemma LoadReadsTheDocument(t: Tree, d: Doc)
    requires !d.ScalarDoc?
    ensures Load(t, Stream(d)) == Loaded(true, ReadDoc(t, d), [])
  {
    var close := [DocumentEnd, StreamEnd];
    StreamOpens(t, d);
    StreamCloses(ReadDoc(t, d));
    match d
    case MappingDoc(pairs) =>
      assert (Events(d) + close)[1..] == PairEvents(pairs) + [MappingEnd] + close;
      LayerReadsPairs(t, None, 0, pairs, close);
    case SequenceDoc(items) =>
      assert (Events(d) + close)[1..] == ItemEvents(items) + [SequenceEnd] + close;
      LayerReadsItems(t, 0, items, close);
  }

  // A lone scalar is taken for a key.
  lemma ScalarIsAKey(v: string)
    ensures Load(NewTree(""), Stream(ScalarDoc(v))) == Loaded(true, Append(NewTree(""), NewTree(v)), [])
  {
    var close := [DocumentEnd, StreamEnd];
    var t := Append(NewTree(""), NewTree(v));
    StreamOpens(NewTree(""), ScalarDoc(v));
    assert (Events(ScalarDoc(v)) + close)[1..] == close && close[1..] == [StreamEnd] && [StreamEnd][1..] == [];
    assert Layer(t, Some(0), false, true, 0, [StreamEnd]) == Loaded(true, t, []);
    assert Layer(t, Some(0), false, true, 0, close) == Loaded(true, t, []);
  }

  // Loading a document into an empty tree builds exactly the tree it stands for
  // if and only if it is a mapping or a sequence in which no mapping has a key
  // twice and no sequence is directly inside a sequence.
  lemma LoadBuildsTheDocument(d: Doc)
    ensures Load(NewTree(""), Stream(d)) == Loaded(true, Fill(NewTree(""), d), []) <==> WellFormed(d) && !d.ScalarDoc?
  {
    var root := NewTree("");
    if d.ScalarDoc? {
      ScalarIsAKey(d.value);
      assert Fill(root, d).kids == [] != Append(root, NewTree(d.value)).kids;
    } else {
      LoadReadsTheDocument(root, d);
      if WellFormed(d) {
        DocIsFilled(root, d);
      } else {
        ReadDocSize(root, d);
        FilledHasAllNodes(root, d);
      }
    }
  }

  // The name of a child, if there is one.
  function NameAt(kids: seq<Tree>, i: nat): string {
    if i < |kids| then kids[i].name else ""
  }

  lemma ItemIsNumbered(t: Tree, k: nat, item: Doc, i: nat)
    requires !item.SequenceDoc?
    ensures |ReadItem(t, k, item).kids| == |t.kids| + 1
    ensures NameAt(ReadItem(t, k, item).kids, i) == if i == |t.kids| then Decimal(k) else NameAt(t.kids, i)
  {
  }

  // The elements are appended in order, numbered on.
  predicate Numbered(t: Tree, k: nat, items: seq<Doc>, i: nat) {
    var kids := ReadItems(t, k, items).kids;
    && |kids| == |t.kids| + |items|
    && (i < |kids| ==> NameAt(kids, i) == if i < |t.kids| then NameAt(t.kids, i) else Decimal(k + i - |t.kids|))
  }

  lemma {:induction false} ItemsAreNumbered(t: Tree, k: nat, items: seq<Doc>, i: nat)
    requires forall x <- items :: !x.SequenceDoc?
    ensures Numbered(t, k, items, i)
    decreases |items|
  {
    if items == [] {
      NoneIsNumbered(t, k, i);
    } else {
      assert items[0] in items && forall x <- items[1..] :: x in items;
      ItemsAreNumbered(ReadItem(t, k, items[0]), k + 1, items[1..], i);
      OneMoreIsNumbered(t, k, items, i);
    }
  }

  lemma NoneIsNumbered(t: Tree, k: nat, i: nat)
    ensures Numbered(t, k, [], i)
  {
  }

  lemma OneMoreIsNumbered(t: Tree, k: nat, items: seq<Doc>, i: nat)
    requires items != [] && !items[0].SequenceDoc? && Numbered(ReadItem(t, k, items[0]), k + 1, items[1..], i)
    ensures Numbered(t, k, items, i)
  {
    ItemIsNumbered(t, k, items[0], i);
  }

  // A sequence directly inside a sequence is flattened into it with its own
  // numbering, so the element behind it repeats the name of its first one.
  lemma NestedSequenceRepeatsNames(name: string, inner: seq<Doc>, next: Doc)
    requires inner != [] && !next.SequenceDoc? && forall x <- inner :: !x.SequenceDoc?
    ensures var kids := ReadItems(NewTree(name), 0, [SequenceDoc(inner), next]).kids;
      |kids| == |inner| + 1 && NameAt(kids, 0) == NameAt(kids, |inner|) == "0"
  {
    var items := [SequenceDoc(inner), next];
    var flat := ReadItems(NewTree(name), 0, inner);
    assert items[1..] == [next] && ReadItem(NewTree(name), 0, items[0]) == flat;
    ItemsAreNumbered(NewTree(name), 0, inner, 0);
    ItemsAreNumbered(flat, 0, [next], 0);
    ItemsAreNumbered(flat, 0, [next], |inner|);
    assert Decimal(0) == "0";
  }

  // ---- locked values ----

  // A node with a locked value keeps both; children keep their places.
  ghost predicate Extends(t: Tree, t': Tree)
    decreases t
  {
    && t'.name == t.name
    && (t.val.Some? && !t.allow ==> t'.val == t.val && !t'.allow)
    && |t.kids| <= |t'.kids|
    && (forall i | 0 <= i < |t.kids| :: Extends(t.kids[i], t'.kids[i]))
  }

  lemma {:induction false} ExtendsItself(t: Tree)
    ensures Extends(t, t)
    decreases t
  {
    forall i | 0 <= i < |t.kids| ensures Extends(t.kids[i], t.kids[i]) {
      ExtendsItself(t.kids[i]);
    }
  }

  lemma {:induction false} ExtendsOn(a: Tree, b: Tree, c: Tree)
    requires Extends(a, b) && Extends(b, c)
    ensures Extends(a, c)
    decreases a
  {
    forall i | 0 <= i < |a.kids| ensures Extends(a.kids[i], c.kids[i]) {
      ExtendsOn(a.kids[i], b.kids[i], c.kids[i]);
    }
  }

  lemma KidExtends(t: Tree, i: nat, kid: Tree)
    requires i < |t.kids| && Extends(t.kids[i], kid)
    ensures Extends(t, ChangeKid(t, i, kid))
  {
    forall j | 0 <= j < |t.kids| ensures Extends(t.kids[j], t.kids[i := kid][j]) {
      ExtendsItself(t.kids[j]);
    }
  }

  lemma AppendExtends(t: Tree, kid: Tree)
    ensures Extends(t, Append(t, kid))
  {
    forall j | 0 <= j < |t.kids| ensures Extends(t.kids[j], (t.kids + [kid])[j]) {
      ExtendsItself(t.kids[j]);
    }
  }

  lemma PutNodeExtends(t: Tree, cur: Cursor, node: Tree)
    requires cur.Some? ==> cur.value < |t.kids|
    requires Extends(NodeAt(t, cur), node)
    ensures Extends(t, PutNode(t, cur, node))
  {
    if cur.Some? {
      KidExtends(t, cur.value, node);
    }
  }

  lemma RelabelExtends(t: Tree, val: Option<string>)
    requires t.allow || t.val.None?
    ensures Extends(t, t.(val := val))
  {
    forall j | 0 <= j < |t.kids| ensures Extends(t.kids[j], t.kids[j]) {
      ExtendsItself(t.kids[j]);
    }
  }

  lemma {:induction false} SetExtends(t: Tree, path: seq<string>, val: string, allow: bool)
    ensures Extends(t, Set(t, path, val, allow))
    decreases |path|
  {
    ExtendsItself(t);
    if path != [] {
      match FindKid(t.kids, path[0])
      case None => AppendExtends(t, Set(NewTree(path[0]), path[1..], val, allow));
      case Some(i) =>
        SetExtends(t.kids[i], path[1..], val, allow);
        KidExtends(t, i, Set(t.kids[i], path[1..], val, allow));
    }
  }

  // Any event sequence at all, in any state of a layer, only extends the tree.
  lemma {:induction false} LayerExtends(t: Tree, cur: Cursor, inseq: bool, wantValue: bool, seqIdx: nat,
                                        evs: seq<YamlEvent>)
    requires cur.Some? ==> cur.value < |t.kids|
    requires inseq ==> cur.None? && !wantValue
    requires wantValue ==> cur.Some?
    ensures Extends(t, Layer(t, cur, inseq, wantValue, seqIdx, evs).tree)
    decreases |evs|, 0
  {
    ExtendsItself(t);
    if evs != [] {
      var rest := evs[1..];
      var last := Layer(t, cur, inseq, wantValue, seqIdx, evs).tree;
      match evs[0] {
        case DocumentStart(version) =>
          if version == Some((1, 1)) {
            LayerExtends(t, cur, inseq, wantValue, seqIdx, rest);
          }
        case Scalar(v) =>
          if inseq {
            var t' := Append(t, Tree(Decimal(seqIdx), Some(v), false, true, []));
            AppendExtends(t, Tree(Decimal(seqIdx), Some(v), false, true, []));
            LayerExtends(t', None, true, false, seqIdx + 1, rest);
            ExtendsOn(t, t', last);
          } else if wantValue {
            var t' := PutNode(t, cur, OfferValue(NodeAt(t, cur), v));
            OfferExtends(NodeAt(t, cur), v);
            PutNodeExtends(t, cur, OfferValue(NodeAt(t, cur), v));
            LayerExtends(t', cur, false, false, seqIdx, rest);
            ExtendsOn(t, t', last);
          } else {
            KeyExtends(t, v, seqIdx, rest);
          }
        case SequenceStart =>
          NestedExtends(t, cur, true, inseq, seqIdx, rest);
        case MappingStart =>
          if inseq {
            var sub := Layer(ElementNode(seqIdx), None, false, false, 0, rest);
            AppendExtends(t, sub.tree);
            if sub.ok {
              LayerExtends(Append(t, sub.tree), None, true, false, seqIdx + 1, sub.rest);
              ExtendsOn(t, Append(t, sub.tree), last);
            }
          } else {
            NestedExtends(t, cur, false, false, seqIdx, rest);
          }
        case SequenceEnd =>
        case MappingEnd =>
        case StreamEnd =>
        case _ => LayerExtends(t, cur, inseq, wantValue, seqIdx, rest);
      }
    }
  }

  lemma OfferExtends(t: Tree, v: string)
    ensures Extends(t, OfferValue(t, v))
  {
    ExtendsItself(t);
    if t.allow {
      RelabelExtends(t, Some(v));
    }
  }

  lemma {:induction false} KeyExtends(t: Tree, key: string, seqIdx: nat, rest: seq<YamlEvent>)
    ensures Extends(t, Layer(t, None, false, false, seqIdx, [Scalar(key)] + rest).tree)
    decreases |rest|, 1
  {
    var noted := NoteKey(t, key);
    ExtendsItself(t);
    if t.isSeq && t.val.None? {
      RelabelExtends(t, Some(key));
    }
    assert ([Scalar(key)] + rest)[1..] == rest;
    var last := Layer(t, None, false, false, seqIdx, [Scalar(key)] + rest).tree;
    match FindKid(noted.kids, key)
    case Some(i) =>
      LayerExtends(noted, Some(i), false, true, seqIdx, rest);
      ExtendsOn(t, noted, last);
    case None =>
      AppendExtends(noted, NewTree(key));
      LayerExtends(Append(noted, NewTree(key)), Some(|noted.kids|), false, true, seqIdx, rest);
      ExtendsOn(t, noted, Append(noted, NewTree(key)));
      ExtendsOn(t, Append(noted, NewTree(key)), last);
  }

  lemma {:induction false} NestedExtends(t: Tree, cur: Cursor, subInseq: bool, inseq: bool, seqIdx: nat,
                                         rest: seq<YamlEvent>)
    requires cur.Some? ==> cur.value < |t.kids|
    requires inseq ==> cur.None?
    ensures var sub := Layer(NodeAt(t, cur), None, subInseq, false, 0, rest);
      var t' := PutNode(t, cur, sub.tree);
      Extends(t, t')
      && (sub.ok && |sub.rest| <= |rest| ==> Extends(t, Layer(t', cur, inseq, false, seqIdx, sub.rest).tree))
    decreases |rest|, 1
  {
    var sub := Layer(NodeAt(t, cur), None, subInseq, false, 0, rest);
    var t' := PutNode(t, cur, sub.tree);
    LayerExtends(NodeAt(t, cur), None, subInseq, false, 0, rest);
    PutNodeExtends(t, cur, sub.tree);
    if sub.ok {
      LayerExtends(t', cur, inseq, false, seqIdx, sub.rest);
      ExtendsOn(t, t', Layer(t', cur, inseq, false, seqIdx, sub.rest).tree);
    }
  }

  lemma {:induction false} ExtendsKeepsLocked(t: Tree, t': Tree, q: seq<string>)
    requires Extends(t, t') && Locked(t, q) && Info(t, q).value.val.Some?
    ensures Info(t', q) == Info(t, q)
    decreases |q|
  {
    if q != [] {
      FindKidFirst(t.kids, q[0]);
      var i := FindKid(t.kids, q[0]);
      assert forall j :: 0 <= j < |t.kids| ==> t'.kids[j].name == t.kids[j].name;
      FindKidIs(t'.kids, q[0], i);
      ExtendsKeepsLocked(t.kids[i.value], t'.kids[i.value], q[1..]);
    }
  }

  datatype Change = SetChange(path: seq<string>, val: string, allow: bool) | LoadChange(evs: seq<YamlEvent>)

  function Changed(t: Tree, c: Change): Tree {
    match c
    case SetChange(path, val, allow) => Set(t, path, val, allow)
    case LoadChange(evs) => Load(t, evs).tree
  }

  function ChangedAll(t: Tree, cs: seq<Change>): Tree
    decreases |cs|
  {
    if cs == [] then t else Changed(ChangedAll(t, cs[..|cs| - 1]), cs[|cs| - 1])
  }

  // A parameter set without permission to override keeps its value under every
  // later interleaving of sets and document loads, whatever the documents are.
  lemma {:induction false} LockedValueIsFinal(t: Tree, cs: seq<Change>, q: seq<string>)
    requires Locked(t, q) && Info(t, q).value.val.Some?
    ensures Info(ChangedAll(t, cs), q) == Info(t, q)
    decreases |cs|
  {
    if cs != [] {
      LockedValueIsFinal(t, cs[..|cs| - 1], q);
      var before := ChangedAll(t, cs[..|cs| - 1]);
      match cs[|cs| - 1] {
        case SetChange(path, val, allow) => SetExtends(before, path, val, allow);
        case LoadChange(evs) => LayerExtends(before, None, false, false, 0, evs);
      }
      ExtendsKeepsLocked(before, ChangedAll(t, cs), q);
    }
  }
}

/** The layout tree adapter: the source document, the layout nodes packed from it, the
    id lookup table, and the pre-order flattening of the visible nodes. The layout node
    stands for the external `VisualNode`; only the fields the view controller reads
    are kept (id, kind, expansion flag, computed geometry, children). */
module LayoutTree {
  import opened Common

  type Id = string

  /** A node of the source document; its `children` array may be absent. */
  datatype SourceNode = SourceNode(id: Id, kind: string, children: SourceChildren)

  datatype SourceChildren = Absent | Present(nodes: seq<SourceNode>)

  /** Geometry computed by the external measure/arrange and absolute-position passes. */
  datatype Geometry = Geometry(absX: real, absY: real, width: real, height: real, headerHeight: real)

  /** Geometry of a node that no layout pass has visited yet. */
  const Unmeasured: Geometry := Geometry(0.0, 0.0, 0.0, 0.0, 0.0)

  datatype LayoutNode = LayoutNode(
    id: Id,
    kind: string,
    isExpanded: bool,
    geom: Geometry,
    children: seq<LayoutNode>)

  /** Ids of a sequence of nodes, in order. */
  function IdsOf(ns: seq<LayoutNode>): (r: seq<Id>)
    ensures |r| == |ns| && forall i :: 0 <= i < |ns| ==> r[i] == ns[i].id
  {
    seq(|ns|, i requires 0 <= i < |ns| => ns[i].id)
  }

  function IdSet(ns: seq<LayoutNode>): set<Id> {
    set n | n in ns :: n.id
  }

  lemma IdsOfAppend(a: seq<LayoutNode>, b: seq<LayoutNode>)
    ensures IdsOf(a + b) == IdsOf(a) + IdsOf(b)
  {
    assert |IdsOf(a + b)| == |IdsOf(a) + IdsOf(b)|;
    forall i | 0 <= i < |a + b| ensures IdsOf(a + b)[i] == (IdsOf(a) + IdsOf(b))[i] {
      if i >= |a| { assert (a + b)[i] == b[i - |a|]; }
    }
  }

  // ---------------------------------------------------------------------------
  // Packing the source document

  /** Every id occurring in a source document. */
  function SourceIds(s: SourceNode): set<Id>
    decreases s
  {
    match s.children
    case Absent => {s.id}
    case Present(cs) => {s.id} + SourceIdsAll(cs)
  }

  function SourceIdsAll(cs: seq<SourceNode>): set<Id>
    decreases cs
  {
    if cs == [] then {} else SourceIdsAll(cs[..|cs| - 1]) + SourceIds(cs[|cs| - 1])
  }

  /** The layout node built for a source node, children first; absent children are
      treated as an empty list. The node starts collapsed and unmeasured: the
      external passes decide both. */
  function Pack(s: SourceNode): (n: LayoutNode)
    ensures n.id == s.id && n.kind == s.kind
    ensures s.children.Absent? ==> n.children == []
    ensures s.children.Present? ==> |n.children| == |s.children.nodes|
    decreases s
  {
    match s.children
    case Absent => LayoutNode(s.id, s.kind, false, Unmeasured, [])
    case Present(cs) => LayoutNode(s.id, s.kind, false, Unmeasured, PackAll(cs))
  }

  function PackAll(cs: seq<SourceNode>): (ns: seq<LayoutNode>)
    ensures |ns| == |cs|
    decreases cs
  {
    if cs == [] then [] else PackAll(cs[..|cs| - 1]) + [Pack(cs[|cs| - 1])]
  }

  // ---------------------------------------------------------------------------
  // All nodes in registration order, and the id lookup table

  /** Every node of the tree, each after all of its descendants: the order in which
      the recursive packing prepares and registers them. */
  function PostOrder(n: LayoutNode): (r: seq<LayoutNode>)
    ensures |r| >= 1 && r[|r| - 1] == n
    decreases n
  {
    PostOrderAll(n.children) + [n]
  }

  function PostOrderAll(ns: seq<LayoutNode>): seq<LayoutNode>
    decreases ns
  {
    if ns == [] then [] else PostOrderAll(ns[..|ns| - 1]) + PostOrder(ns[|ns| - 1])
  }

  /** Registers the nodes one after the other under their ids; a later node with the
      same id replaces an earlier one. */
  function Register(dict: map<Id, LayoutNode>, nodes: seq<LayoutNode>): (r: map<Id, LayoutNode>)
    ensures dict.Keys <= r.Keys
    ensures forall i :: 0 <= i < |nodes| ==> nodes[i].id in r
    ensures nodes != [] ==> r[nodes[|nodes| - 1].id] == nodes[|nodes| - 1]
    decreases |nodes|
  {
    if nodes == [] then dict else Register(dict[nodes[0].id := nodes[0]], nodes[1..])
  }

  /** Registering adds exactly the ids of the nodes, binds each added id to one of
      the nodes, and leaves the other entries alone. */
  lemma {:induction false} RegisterContents(dict: map<Id, LayoutNode>, nodes: seq<LayoutNode>)
    ensures Register(dict, nodes).Keys == dict.Keys + IdSet(nodes)
    ensures forall k :: k in Register(dict, nodes) ==>
              (k in dict && Register(dict, nodes)[k] == dict[k]) || Register(dict, nodes)[k] in nodes
    ensures forall k :: k in Register(dict, nodes) && k !in IdSet(nodes) ==> Register(dict, nodes)[k] == dict[k]
    decreases |nodes|
  {
    if nodes != [] {
      assert nodes == [nodes[0]] + nodes[1..];
      IdSetAppend([nodes[0]], nodes[1..]);
      RegisterContents(dict[nodes[0].id := nodes[0]], nodes[1..]);
    }
  }

  lemma {:induction false} RegisterAppend(dict: map<Id, LayoutNode>, a: seq<LayoutNode>, b: seq<LayoutNode>)
    ensures Register(dict, a + b) == Register(Register(dict, a), b)
    decreases |a|
  {
    if a != [] {
      assert (a + b)[0] == a[0] && (a + b)[1..] == a[1..] + b;
      RegisterAppend(dict[a[0].id := a[0]], a[1..], b);
    } else {
      assert a + b == b;
    }
  }

  /** Every registered node sits under its own id. */
  lemma {:induction false} RegisterKeysMatch(dict: map<Id, LayoutNode>, nodes: seq<LayoutNode>)
    requires forall k :: k in dict ==> dict[k].id == k
    ensures forall k :: k in Register(dict, nodes) ==> Register(dict, nodes)[k].id == k
    decreases |nodes|
  {
    if nodes != [] {
      RegisterKeysMatch(dict[nodes[0].id := nodes[0]], nodes[1..]);
    }
  }

  /** `_nodeDict` after packing a tree into an empty table. */
  function Index(root: LayoutNode): (r: map<Id, LayoutNode>)
    ensures root.id in r && r[root.id] == root
  {
    Register(map[], PostOrder(root))
  }

  /** The table holds every node of the tree, each under its own id. */
  lemma IndexComplete(root: LayoutNode)
    ensures Index(root).Keys == IdSet(PostOrder(root))
    ensures forall k :: k in Index(root) ==> Index(root)[k].id == k && Index(root)[k] in PostOrder(root)
  {
    RegisterContents(map[], PostOrder(root));
    RegisterKeysMatch(map[], PostOrder(root));
  }

  /** Packing keeps every id of the source document. */
  lemma {:induction false} PackIds(s: SourceNode)
    ensures IdSet(PostOrder(Pack(s))) == SourceIds(s)
    decreases s
  {
    match s.children
    case Absent =>
      assert PostOrder(Pack(s)) == [Pack(s)];
    case Present(cs) =>
      PackAllIds(cs);
      IdSetAppend(PostOrderAll(PackAll(cs)), [Pack(s)]);
  }

  lemma {:induction false} PackAllIds(cs: seq<SourceNode>)
    ensures IdSet(PostOrderAll(PackAll(cs))) == SourceIdsAll(cs)
    decreases cs
  {
    if cs != [] {
      var init := cs[..|cs| - 1];
      var last := cs[|cs| - 1];
      var packed := PackAll(cs);
      assert packed[..|packed| - 1] == PackAll(init);
      assert packed[|packed| - 1] == Pack(last);
      PackAllIds(init);
      PackIds(last);
      IdSetAppend(PostOrderAll(PackAll(init)), PostOrder(Pack(last)));
    }
  }

  lemma IdSetAppend(a: seq<LayoutNode>, b: seq<LayoutNode>)
    ensures IdSet(a + b) == IdSet(a) + IdSet(b)
  {
    forall k | k in IdSet(a + b) ensures k in IdSet(a) + IdSet(b) {
      var n :| n in a + b && n.id == k;
    }
    forall k | k in IdSet(a) + IdSet(b) ensures k in IdSet(a + b) {
      if k in IdSet(a) {
        var n :| n in a && n.id == k;
        assert n in a + b;
      } else {
        var n :| n in b && n.id == k;
        assert n in a + b;
      }
    }
  }

  /** Children are prepared and registered before their parent: in the registration
      order every child of a node occurs earlier than the node. */
  ghost predicate ChildrenFirst(s: seq<LayoutNode>) {
    forall i :: 0 <= i < |s| ==> forall c :: c in s[i].children ==> c in s[..i]
  }

  lemma {:induction false} ChildrenFirstAppend(a: seq<LayoutNode>, b: seq<LayoutNode>)
    requires ChildrenFirst(a) && ChildrenFirst(b)
    ensures ChildrenFirst(a + b)
  {
    var s := a + b;
    forall i, c | 0 <= i < |s| && c in s[i].children ensures c in s[..i] {
      if i < |a| {
        assert s[i] == a[i] && s[..i] == a[..i];
      } else {
        var j := i - |a|;
        assert s[i] == b[j];
        assert c in b[..j];
        assert s[..i] == a + b[..j];
      }
    }
  }

  lemma {:induction false} ChildrenFirstSnoc(a: seq<LayoutNode>, n: LayoutNode)
    requires ChildrenFirst(a)
    requires forall c :: c in n.children ==> c in a
    ensures ChildrenFirst(a + [n])
  {
    var s := a + [n];
    forall i, c | 0 <= i < |s| && c in s[i].children ensures c in s[..i] {
      if i < |a| {
        assert s[i] == a[i] && s[..i] == a[..i];
      } else {
        assert s[..i] == a;
      }
    }
  }

  lemma {:induction false} PostOrderChildrenFirst(n: LayoutNode)
    ensures ChildrenFirst(PostOrder(n))
    decreases n
  {
    var s := PostOrderAll(n.children);
    PostOrderAllChildrenFirst(n.children);
    forall c | c in n.children ensures c in s {
      PostOrderAllContains(n.children, c);
    }
    ChildrenFirstSnoc(s, n);
  }

  lemma {:induction false} PostOrderAllChildrenFirst(ns: seq<LayoutNode>)
    ensures ChildrenFirst(PostOrderAll(ns))
    decreases ns
  {
    if ns != [] {
      PostOrderAllChildrenFirst(ns[..|ns| - 1]);
      PostOrderChildrenFirst(ns[|ns| - 1]);
      ChildrenFirstAppend(PostOrderAll(ns[..|ns| - 1]), PostOrder(ns[|ns| - 1]));
    }
  }

  lemma {:induction false} PostOrderAllContains(ns: seq<LayoutNode>, c: LayoutNode)
    requires c in ns
    ensures c in PostOrderAll(ns)
    decreases ns
  {
    var last := ns[|ns| - 1];
    var po := PostOrder(last);
    if c == last {
      assert po[|po| - 1] == c;
    } else {
      assert ns == ns[..|ns| - 1] + [last];
      PostOrderAllContains(ns[..|ns| - 1], c);
    }
  }

  // ---------------------------------------------------------------------------
  // Flattening the visible nodes

  /** `extract()`: pre-order list of the visible nodes, a collapsed node contributing
      only itself. */
  function Extract(n: LayoutNode): (r: seq<LayoutNode>)
    ensures |r| >= 1 && r[0] == n
    ensures !n.isExpanded ==> r == [n]
    decreases n
  {
    [n] + (if n.isExpanded then ExtractAll(n.children) else [])
  }

  function ExtractAll(ns: seq<LayoutNode>): seq<LayoutNode>
    decreases ns
  {
    if ns == [] then [] else ExtractAll(ns[..|ns| - 1]) + Extract(ns[|ns| - 1])
  }

  /** Every visible node is a node of the tree. */
  lemma {:induction false} ExtractWithinTree(n: LayoutNode)
    ensures forall x :: x in Extract(n) ==> x in PostOrder(n)
    decreases n
  {
    if n.isExpanded {
      ExtractAllWithinTree(n.children);
    }
  }

  lemma {:induction false} ExtractAllWithinTree(ns: seq<LayoutNode>)
    ensures forall x :: x in ExtractAll(ns) ==> x in PostOrderAll(ns)
    decreases ns
  {
    if ns != [] {
      ExtractAllWithinTree(ns[..|ns| - 1]);
      ExtractWithinTree(ns[|ns| - 1]);
    }
  }

  /** `_massageSourceData`'s flattened list: the extracted list, without its first
      element (the root) when the root is hidden. */
  function Flatten(root: LayoutNode, showRoot: bool): (r: seq<LayoutNode>)
    ensures showRoot ==> r == Extract(root)
    ensures !showRoot ==> [root] + r == Extract(root)
  {
    var all := Extract(root);
    if showRoot then all else all[1..]
  }

  // ---------------------------------------------------------------------------
  // Expanding and collapsing

  /** `nodePerformExpandCollapse`'s flip of `isExpanded`, applied to the node with the
      given id (ids are unique within a tree). */
  function ToggleExpanded(n: LayoutNode, id: Id): (r: LayoutNode)
    ensures r.id == n.id && r.kind == n.kind && r.geom == n.geom
    ensures |r.children| == |n.children|
    ensures r.isExpanded == (n.isExpanded != (n.id == id))
    decreases n
  {
    LayoutNode(n.id, n.kind, n.isExpanded != (n.id == id), n.geom, ToggleAll(n.children, id))
  }

  function ToggleAll(ns: seq<LayoutNode>, id: Id): (r: seq<LayoutNode>)
    ensures |r| == |ns|
    decreases ns
  {
    if ns == [] then [] else ToggleAll(ns[..|ns| - 1], id) + [ToggleExpanded(ns[|ns| - 1], id)]
  }

  /** Toggling twice restores the tree. */
  lemma {:induction false} ToggleTwice(n: LayoutNode, id: Id)
    ensures ToggleExpanded(ToggleExpanded(n, id), id) == n
    decreases n
  {
    ToggleAllTwice(n.children, id);
  }

  lemma {:induction false} ToggleAllTwice(ns: seq<LayoutNode>, id: Id)
    ensures ToggleAll(ToggleAll(ns, id), id) == ns
    decreases ns
  {
    if ns != [] {
      var t := ToggleAll(ns, id);
      assert t[..|t| - 1] == ToggleAll(ns[..|ns| - 1], id);
      assert t[|t| - 1] == ToggleExpanded(ns[|ns| - 1], id);
      ToggleAllTwice(ns[..|ns| - 1], id);
      ToggleTwice(ns[|ns| - 1], id);
    }
  }

  /** Two trees with the same nodes (ids, kinds, children) that may differ in
      expansion state and geometry. */
  predicate SameShape(a: LayoutNode, b: LayoutNode)
    decreases a
  {
    && a.id == b.id
    && a.kind == b.kind
    && |a.children| == |b.children|
    && forall i :: 0 <= i < |a.children| ==> SameShape(a.children[i], b.children[i])
  }

  /** Toggling changes no node's identity. */
  lemma {:induction false} ToggleSameShape(n: LayoutNode, id: Id)
    ensures SameShape(ToggleExpanded(n, id), n)
    decreases n
  {
    var r := ToggleExpanded(n, id);
    forall i | 0 <= i < |n.children| ensures SameShape(r.children[i], n.children[i]) {
      ToggleAllAt(n.children, id, i);
      ToggleSameShape(n.children[i], id);
    }
  }

  lemma {:induction false} ToggleAllAt(ns: seq<LayoutNode>, id: Id, i: nat)
    requires i < |ns|
    ensures ToggleAll(ns, id)[i] == ToggleExpanded(ns[i], id)
    decreases ns
  {
    if i < |ns| - 1 {
      ToggleAllAt(ns[..|ns| - 1], id, i);
    }
  }

  /** Trees of the same shape register the same ids in the same order. */
  lemma {:induction false} SameShapeIds(a: LayoutNode, b: LayoutNode)
    requires SameShape(a, b)
    ensures IdsOf(PostOrder(a)) == IdsOf(PostOrder(b))
    decreases a
  {
    SameShapeIdsAll(a.children, b.children);
    IdsOfAppend(PostOrderAll(a.children), [a]);
    IdsOfAppend(PostOrderAll(b.children), [b]);
  }

  lemma {:induction false} SameShapeIdsAll(xs: seq<LayoutNode>, ys: seq<LayoutNode>)
    requires |xs| == |ys| && forall i :: 0 <= i < |xs| ==> SameShape(xs[i], ys[i])
    ensures IdsOf(PostOrderAll(xs)) == IdsOf(PostOrderAll(ys))
    decreases xs
  {
    if xs != [] {
      var k := |xs| - 1;
      SameShapeIdsAll(xs[..k], ys[..k]);
      SameShapeIds(xs[k], ys[k]);
      IdsOfAppend(PostOrderAll(xs[..k]), PostOrder(xs[k]));
      IdsOfAppend(PostOrderAll(ys[..k]), PostOrder(ys[k]));
    }
  }

  /** Node lists with the same ids in the same order have the same id set. */
  lemma IdSetOfIds(x: seq<LayoutNode>, y: seq<LayoutNode>)
    requires IdsOf(x) == IdsOf(y)
    ensures IdSet(x) == IdSet(y)
  {
    forall k | k in IdSet(x) ensures k in IdSet(y) {
      var i :| 0 <= i < |x| && x[i].id == k;
      assert IdsOf(y)[i] == k;
    }
    forall k | k in IdSet(y) ensures k in IdSet(x) {
      var i :| 0 <= i < |y| && y[i].id == k;
      assert IdsOf(x)[i] == k;
    }
  }

  /** The external layout passes update nodes in place, so the lookup table keeps its
      keys across them. */
  lemma SameShapeIndexKeys(a: LayoutNode, b: LayoutNode)
    requires SameShape(a, b)
    ensures Index(a).Keys == Index(b).Keys
  {
    SameShapeIds(a, b);
    IdSetOfIds(PostOrder(a), PostOrder(b));
    IndexComplete(a);
    IndexComplete(b);
  }

  lemma PackAllSnoc(cs: seq<SourceNode>, i: nat)
    requires i < |cs|
    ensures PackAll(cs[..i + 1]) == PackAll(cs[..i]) + [Pack(cs[i])]
  {
    assert cs[..i + 1][..i] == cs[..i];
  }

  lemma PostOrderAllSnoc(ns: seq<LayoutNode>, c: LayoutNode)
    ensures PostOrderAll(ns + [c]) == PostOrderAll(ns) + PostOrder(c)
  {
    assert (ns + [c])[..|ns|] == ns;
  }

  lemma ExtractAllSnoc(ns: seq<LayoutNode>, i: nat)
    requires i < |ns|
    ensures ExtractAll(ns[..i + 1]) == ExtractAll(ns[..i]) + Extract(ns[i])
  {
    assert ns[..i + 1][..i] == ns[..i];
  }

  /** After packing a document and laying it out, the lookup table is keyed by
      exactly the document's ids, each entry under its own id. */
  lemma PackedIndex(src: SourceNode, laidOut: LayoutNode)
    requires SameShape(laidOut, Pack(src))
    ensures Index(laidOut).Keys == SourceIds(src)
    ensures forall k :: k in Index(laidOut) ==> Index(laidOut)[k].id == k
  {
    PackIds(src);
    IndexComplete(Pack(src));
    SameShapeIndexKeys(laidOut, Pack(src));
    IndexComplete(laidOut);
  }

  /** A small fixed tree: a root over two collapsed namespaces, the first holding one pod. */
  function SampleTree(): LayoutNode {
    LayoutNode("root", "cluster", true, Unmeasured, [
      LayoutNode("A", "ns", false, Unmeasured, [LayoutNode("A1", "pod", false, Unmeasured, [])]),
      LayoutNode("B", "ns", false, Unmeasured, [])])
  }

  /** With the namespaces collapsed, the sample tree flattens to the root and the two
      namespaces. */
  lemma SampleExtract()
    ensures IdsOf(Extract(SampleTree())) == ["root", "A", "B"]
  {
    var root := SampleTree();
    var a, b := root.children[0], root.children[1];
    assert root.children[..1] == [a];
    assert ExtractAll([a]) == [a];
    assert ExtractAll(root.children) == [a, b];
  }

  lemma SampleToggle()
    ensures ToggleExpanded(SampleTree(), "A").children[0].isExpanded
    ensures ToggleExpanded(SampleTree(), "A").children[0].children == SampleTree().children[0].children
    ensures ToggleExpanded(SampleTree(), "A").children[1] == SampleTree().children[1]
  {
    var root := SampleTree();
    var a, b := root.children[0], root.children[1];
    var a1 := a.children[0];
    assert ToggleAll([a1], "A") == [ToggleExpanded(a1, "A")];
    assert ToggleExpanded(a1, "A") == a1;
    assert root.children[..1] == [a];
    assert ToggleAll(root.children, "A") == ToggleAll([a], "A") + [ToggleExpanded(b, "A")];
  }

  /** Expanding the first namespace of the sample tree inserts its pod right after it. */
  lemma ExpandRevealsChild()
    ensures IdsOf(Extract(ToggleExpanded(SampleTree(), "A"))) == ["root", "A", "A1", "B"]
  {
    SampleToggle();
    var root' := ToggleExpanded(SampleTree(), "A");
    var a', b := root'.children[0], root'.children[1];
    var a1 := a'.children[0];
    assert root'.children == [a', b];
    assert a'.children == [a1];
    assert ExtractAll([a1]) == [a1];
    assert Extract(a') == [a', a1];
    assert [a', b][..1] == [a'];
    assert ExtractAll([a']) == [a', a1];
    assert ExtractAll([a', b]) == [a', a1, b];
  }

  /** An id is in the id set of a node list exactly when it is one of its ids. */
  lemma IdSetElems(ns: seq<LayoutNode>)
    ensures forall k :: k in IdSet(ns) <==> k in IdsOf(ns)
  {
    forall k | k in IdSet(ns) ensures k in IdsOf(ns) {
      var i :| 0 <= i < |ns| && ns[i].id == k;
      assert IdsOf(ns)[i] == k;
    }
  }

  /** The ids of the flattened list are the extracted ids, the root's dropped when
      it is hidden. */
  lemma FlattenIds(root: LayoutNode, showRoot: bool)
    ensures IdsOf(Flatten(root, showRoot)) == if showRoot then IdsOf(Extract(root)) else IdsOf(Extract(root))[1..]
  {
  }

  /** Trees that extract the same ids in the same order flatten to the same id set. */
  lemma SameExtractIdSet(a: LayoutNode, b: LayoutNode, showRoot: bool)
    requires IdsOf(Extract(a)) == IdsOf(Extract(b))
    ensures IdSet(Flatten(a, showRoot)) == IdSet(Flatten(b, showRoot))
  {
    FlattenIds(a, showRoot);
    FlattenIds(b, showRoot);
    IdSetElems(Flatten(a, showRoot));
    IdSetElems(Flatten(b, showRoot));
  }

  /** Inserting `x` into a list of ids adds exactly `x` to its members. */
  lemma InsertMembers(e: seq<Id>, x: Id, i: nat)
    requires i <= |e|
    ensures forall k :: k in e[..i] + [x] + e[i..] <==> k in e || k == x
  {
    assert e == e[..i] + e[i..];
  }

  /** Dropping the first id of a list commutes with inserting after it. */
  lemma InsertTail(e: seq<Id>, x: Id, i: nat)
    requires 1 <= i <= |e|
    ensures (e[..i] + [x] + e[i..])[1..] == e[1..][..i - 1] + [x] + e[1..][i - 1..]
  {
  }

  /** When expanding a node inserts one new id after the root among the extracted
      ids, the flattened list gains exactly that id, whether or not the root is
      shown. */
  lemma FlattenGainsId(t: LayoutNode, t': LayoutNode, showRoot: bool, x: Id, i: nat)
    requires 1 <= i <= |Extract(t)| && x !in IdsOf(Extract(t))
    requires IdsOf(Extract(t')) == IdsOf(Extract(t))[..i] + [x] + IdsOf(Extract(t))[i..]
    ensures x !in IdSet(Flatten(t, showRoot))
    ensures IdSet(Flatten(t', showRoot)) == IdSet(Flatten(t, showRoot)) + {x}
  {
    var e := IdsOf(Extract(t));
    var f, f' := Flatten(t, showRoot), Flatten(t', showRoot);
    FlattenIds(t, showRoot);
    FlattenIds(t', showRoot);
    if showRoot {
      IdSetInsert(f, f', x, i);
    } else {
      InsertTail(e, x, i);
      IdSetInsert(f, f', x, i - 1);
      assert forall k :: k in e[1..] ==> k in e;
    }
    IdSetElems(f);
  }

  /** A list whose ids are another's with `x` inserted has the other's id set plus
      `x`. */
  lemma IdSetInsert(ns: seq<LayoutNode>, ns': seq<LayoutNode>, x: Id, j: nat)
    requires j <= |ns| && IdsOf(ns') == IdsOf(ns)[..j] + [x] + IdsOf(ns)[j..]
    ensures IdSet(ns') == IdSet(ns) + {x}
  {
    IdSetElems(ns);
    IdSetElems(ns');
    InsertMembers(IdsOf(ns), x, j);
  }

  /** Expanding the first namespace of the sample tree adds exactly its pod to the
      visible ids, whether or not the root is shown. */
  lemma ExpandAddsChildId(showRoot: bool)
    ensures "A1" !in IdSet(Flatten(SampleTree(), showRoot))
    ensures IdSet(Flatten(ToggleExpanded(SampleTree(), "A"), showRoot))
            == IdSet(Flatten(SampleTree(), showRoot)) + {"A1"}
  {
    SampleExtract();
    ExpandRevealsChild();
    FlattenGainsId(SampleTree(), ToggleExpanded(SampleTree(), "A"), showRoot, "A1", 2);
  }
}

/** Saving and loading the mesh graph (graph/networkxml.go). XML itself is taken as faithful: a
    document reads back as it was written. A panic counts as a failure here. */
module NetworkXml {
  import opened Basics
  import opened MeshNetwork
  import opened NodeIds
  import opened GraphDocument
  import opened AttributeValues
  import opened Floats
  import G = GraphDocument

  // ---------------------------------------------------------------- writing

  /** A key to register: for what, its name, its description, its type and its default. */
  datatype Wanted = Wanted(target: Target, name: string, description: string, kind: KeyType, default: Value)

  /** The keys of a saved network. */
  const WANTED := [
    Wanted(ForNode, "inuse", "is node in use", BooleanType, Bool(true)),
    Wanted(ForNode, "discover", "state variable for discovery", BooleanType, Bool(false)),
    Wanted(ForNode, "buggy", "state variable fr functional status", BooleanType, Bool(false)),
    Wanted(ForNode, "firmware", "the node firmware revision", StringType, Str("")),
    Wanted(ForEdge, "weight", "the node firmware revision", FloatType, Double(0.0)),
    Wanted(ForEdge, "weight2", "the node firmware revision", FloatType, Double(0.0))]

  function Registered(d: Doc, w: Wanted): Doc {
    var r := RegisterKey(d, w.target, w.name, w.description, Some(w.kind), w.default);
    if r.Ok? then r.value.0 else d
  }

  function RegisterAll(d: Doc, ws: seq<Wanted>): Doc {
    if ws == [] then d else Registered(RegisterAll(d, ws[..|ws| - 1]), ws[|ws| - 1])
  }

  function NodeAttributes(v: DeviceView): Attributes {
    [("discovered", Bool(v.discovered)), ("inuse", Bool(v.inUse))]
  }

  // Two decimals, rounded down as floating point does it.
  function EdgeAttributes(w: real): Attributes { [("weight", Double(Stored(w)))] }

  // An edge never lacks its nodes.
  function TagOf(net: Net, id: Id): string { if id in net.nodes then net.nodes[id].tag else "" }

  function EdgeDescription(net: Net, e: Link): string {
    "from " + TagOf(net, e.from) + ":[" + FmtNodeId(e.from) + "] to " + TagOf(net, e.to) + ":[" + FmtNodeId(e.to) + "]"
  }

  /** An edge from the kitchen at 1 to the hall at 16 is described as such. */
  lemma AnEdgeDescription(edges: map<Link, real>)
    ensures var kitchen, hall := DeviceView(true, false, "kitchen"), DeviceView(true, false, "hall");
            var net := Net(map[1 := kitchen, 16 := hall], edges, 1);
            EdgeDescription(net, Link(1, 16)) == "from kitchen:[N000001] to hall:[N000010]"
  {
    hide FmtNodeId, Name;
    SomeIds();
    assert "from " + "kitchen" + ":[" + "N000001" + "] to " + "hall" + ":[" + "N000010" + "]"
      == "from kitchen:[N000001] to hall:[N000010]";
  }

  function WriteNode(d: Doc, id: Id, v: DeviceView): (r: Doc)
    requires |d.graphs| > 0
    ensures |r.graphs| == |d.graphs|
  {
    AddNode(d, 0, NodeAttributes(v), FmtNodeId(id), v.tag).0
  }

  /** An edge whose end has no node of its name cannot be written: the program panics. An edge
      that is refused as a duplicate is left out without a word. */
  function WriteEdge(d: Doc, e: Link, w: real, description: string): (r: Option<Doc>)
    requires |d.graphs| > 0
    ensures r.Some? ==> |r.value.graphs| == |d.graphs|
  {
    var ids := NodeIdsOf(d.graphs[0]);
    if FmtNodeId(e.from) !in ids || FmtNodeId(e.to) !in ids then None
    else Some(AddEdge(d, 0, FmtNodeId(e.from), FmtNodeId(e.to), EdgeAttributes(w), Default, description).0)
  }

  /** An edge can be written exactly when both its ends have a node of their name. */
  lemma EdgeNeedsBothNodes(d: Doc, e: Link, w: real, description: string)
    requires |d.graphs| > 0
    ensures WriteEdge(d, e, w, description).Some? <==>
              && (exists n :: n in d.graphs[0].nodes && n.id == FmtNodeId(e.from))
              && (exists n :: n in d.graphs[0].nodes && n.id == FmtNodeId(e.to))
  {
    hide FmtNodeId, AddEdge, EdgeAttributes;
  }

  function WriteNodes(d: Doc, net: Net, order: seq<Id>): (r: Doc)
    requires |d.graphs| == 1 && forall i :: 0 <= i < |order| ==> order[i] in net.nodes
    ensures |r.graphs| == 1
  {
    if order == [] then d
    else
      var n := |order| - 1;
      WriteNode(WriteNodes(d, net, order[..n]), order[n], net.nodes[order[n]])
  }

  function WriteEdges(d: Doc, net: Net, order: seq<Link>): (r: Option<Doc>)
    requires |d.graphs| == 1 && forall i :: 0 <= i < |order| ==> order[i] in net.edges
    ensures r.Some? ==> |r.value.graphs| == 1
  {
    if order == [] then Some(d)
    else
      var n := |order| - 1;
      var before := WriteEdges(d, net, order[..n]);
      if before.None? then None
      else WriteEdge(before.value, order[n], net.edges[order[n]], EdgeDescription(net, order[n]))
  }

  /** writeGraph, the nodes and edges coming in any order. */
  function WriteGraph(net: Net, nodeOrder: seq<Id>, edgeOrder: seq<Link>): Option<Doc>
    requires forall i :: 0 <= i < |nodeOrder| ==> nodeOrder[i] in net.nodes
    requires forall i :: 0 <= i < |edgeOrder| ==> edgeOrder[i] in net.edges
  {
    var d := AddGraph(RegisterAll(EMPTY, WANTED), "the graph", Directed, []).0;
    if |d.graphs| != 1 then None else WriteEdges(WriteNodes(d, net, nodeOrder), net, edgeOrder)
  }

  // ---------------------------------------------------------------- reading

  function ReadInUse(m: map<string, Value>): Option<bool> {
    if "inuse" !in m then None
    else match m["inuse"]
      case Bool(b) => Some(b)
      case Str(s) => ParseBool(s)
      case _ => None
  }

  function ReadTag(n: Node, m: map<string, Value>): string {
    if n.description != "" then n.description
    else if "tag" in m && m["tag"].Str? then m["tag"].s
    else ""
  }

  function ReadNode(keys: seq<Key>, n: Node): Option<(Id, DeviceView)> {
    var m := AttributesFor(keys, n.data, ForNode);
    if m.None? || ParseNodeId(n.id).Err? || ReadInUse(m.value).None? then None
    else Some((ParseNodeId(n.id).value, DeviceView(ReadInUse(m.value).value, false, ReadTag(n, m.value))))
  }

  // The graph library panics on a second node with the same id.
  function ReadNodes(keys: seq<Key>, nodes: seq<Node>, local: Id): Option<Net> {
    if nodes == [] then Some(Net(map[], map[], local))
    else
      var before := ReadNodes(keys, nodes[..|nodes| - 1], local);
      var x := ReadNode(keys, nodes[|nodes| - 1]);
      if before.None? || x.None? || x.value.0 in before.value.nodes then None
      else Some(WithNode(before.value, x.value.0, x.value.1))
  }

  function ReadWeight(m: map<string, Value>): Option<real> {
    if "weight" !in m then None
    else match m["weight"]
      case Float(r) => Some(r)
      case Double(r) => Some(r)
      case _ => None
  }

  function ReadEdge(keys: seq<Key>, e: Edge): Option<(Link, real)> {
    var m := AttributesFor(keys, e.data, ForEdge);
    var a, b := ParseNodeId(e.source), ParseNodeId(e.target);
    if m.None? || a.Err? || b.Err? || ReadWeight(m.value).None? then None
    else Some((Link(a.value, b.value), ReadWeight(m.value).value))
  }

  // It also panics on an edge without its nodes, or from a node to itself.
  function ReadEdges(keys: seq<Key>, edges: seq<Edge>, net: Net): Option<Net> {
    if edges == [] then Some(net)
    else
      var before := ReadEdges(keys, edges[..|edges| - 1], net);
      var x := ReadEdge(keys, edges[|edges| - 1]);
      if before.None? || x.None? then None
      else
        var (e, w) := x.value;
        if e.from !in before.value.nodes || e.to !in before.value.nodes || e.from == e.to then None
        else Some(before.value.(edges := before.value.edges[e := w]))
  }

  /** readGraph: the first graph of the document. */
  function ReadGraph(d: Doc, local: Id): Option<Net> {
    if d.graphs == [] then Some(Net(map[], map[], local))
    else
      var net := ReadNodes(d.keys, d.graphs[0].nodes, local);
      if net.None? then None else ReadEdges(d.keys, d.graphs[0].edges, net.value)
  }

  // ---------------------------------------------------------------- the keys

  const NAMES := ["inuse", "discover", "buggy", "firmware", "weight", "weight2", "discovered"]

  predicate HasType(keys: seq<Key>, name: string, target: Target, t: KeyType) {
    GetKey(keys, name, target).Some? && GetKey(keys, name, target).value.keyType == t
  }

  /** What reading relies on: the three attributes that are written have the right types, every
      default reads, and no key is called tag. */
  predicate KeysFit(keys: seq<Key>) {
    && KeysOk(keys) && DefaultsRead(keys)
    && HasType(keys, "inuse", ForNode, BooleanType)
    && HasType(keys, "weight", ForEdge, FloatType)
    && (GetKey(keys, "discovered", ForNode).Some? ==> HasType(keys, "discovered", ForNode, BooleanType))
    && (forall i :: 0 <= i < |keys| ==> keys[i].name in NAMES)
  }

  lemma RegisteredIs(d: Doc, w: Wanted)
    requires Good(d) && DefaultsRead(d.keys) && GetKey(d.keys, w.name, w.target).None?
    requires w.default == Nil || Fits(w)
    ensures var d' := Registered(d, w);
            && Good(d') && d' == d.(keys := d'.keys) && DefaultsRead(d'.keys)
            && |d'.keys| == |d.keys| + 1 && d.keys <= d'.keys
            && d'.keys[|d.keys|].name == w.name && d'.keys[|d.keys|].target == w.target
            && HasType(d'.keys, w.name, w.target, w.kind)
            && forall n, t :: GetKey(d.keys, n, t).Some? ==> GetKey(d'.keys, n, t) == GetKey(d.keys, n, t)
  {
    GoodKeys(d);
    RegisterKeepsKeys(d, w.target, w.name, w.description, Some(w.kind), w.default);
    var (d', k) := RegisterKey(d, w.target, w.name, w.description, Some(w.kind), w.default).value;
    NewKeyIsFound(d.keys, k);
    assert k.defaultValue != Chars("") ==> ValueByType(k.defaultValue, k.keyType).Some?;
    hide Good, KeysOk, RegisterKey, GetKey, ValueByType, StringValue;
    MoreKeysStayGood(d, d');
    forall n, t | GetKey(d.keys, n, t).Some? ensures GetKey(d'.keys, n, t) == GetKey(d.keys, n, t) {
      GetKeyStays(d.keys, k, n, t);
    }
  }

  // No key has this name and target, or this name and all.
  lemma NoSuchKey(keys: seq<Key>, name: string, target: Target)
    requires forall i :: 0 <= i < |keys| ==> keys[i].name != name
    ensures GetKey(keys, name, target).None?
  {
    if GetKey(keys, name, target).Some? {
      GetKeyIs(keys, name, target);
    }
  }

  // The keys are the wanted ones, and everything about them is in order.
  ghost predicate Holds(d: Doc, ws: seq<Wanted>) {
    && Good(d) && DefaultsRead(d.keys) && d.graphs == [] && |d.keys| == |ws|
    && forall i :: 0 <= i < |ws| ==>
         d.keys[i].name == ws[i].name && HasType(d.keys, ws[i].name, ws[i].target, ws[i].kind)
  }

  predicate Fits(w: Wanted) {
    StringValue(w.default, w.kind).Some? && ValueByType(StringValue(w.default, w.kind).value, w.kind).Some?
  }

  lemma HoldsOneMoreKey(d: Doc, ws: seq<Wanted>, w: Wanted)
    requires Holds(d, ws) && Fits(w) && forall i :: 0 <= i < |ws| ==> ws[i].name != w.name
    ensures Holds(Registered(d, w), ws + [w])
  {
    hide GetKey, StringValue, ValueByType, Good, DefaultsRead;
    NoSuchKey(d.keys, w.name, w.target);
    RegisteredIs(d, w);
    hide Registered;
    var d' := Registered(d, w);
    forall i | 0 <= i < |ws|
      ensures d'.keys[i].name == ws[i].name && HasType(d'.keys, ws[i].name, ws[i].target, ws[i].kind)
    {
      assert HasType(d.keys, ws[i].name, ws[i].target, ws[i].kind);
    }
  }

  lemma NoneRegistered()
    ensures Holds(EMPTY, [])
  {
  }

  lemma {:induction false} AllRegistered(ws: seq<Wanted>)
    requires forall i, j :: 0 <= i < j < |ws| ==> ws[i].name != ws[j].name
    requires forall i :: 0 <= i < |ws| ==> Fits(ws[i])
    ensures Holds(RegisterAll(EMPTY, ws), ws)
  {
    hide Holds, Fits, Registered;
    if ws == [] {
      NoneRegistered();
    } else {
      var n := |ws| - 1;
      AllRegistered(ws[..n]);
      HoldsOneMoreKey(RegisterAll(EMPTY, ws[..n]), ws[..n], ws[n]);
      assert ws == ws[..n] + [ws[n]];
    }
  }

  lemma WantedAreDistinct()
    ensures forall i, j :: 0 <= i < j < |WANTED| ==> WANTED[i].name != WANTED[j].name
    ensures forall i :: 0 <= i < |WANTED| ==> WANTED[i].name in NAMES && WANTED[i].name != "discovered"
  {
    assert |"inuse"| == 5 && |"discover"| == 8 && |"buggy"| == 5;
    assert |"firmware"| == 8 && |"weight"| == 6 && |"weight2"| == 7;
    assert "inuse"[0] == 'i' && "buggy"[0] == 'b' && "discover"[0] == 'd' && "firmware"[0] == 'f';
  }

  lemma WantedFit()
    ensures forall i :: 0 <= i < |WANTED| ==> Fits(WANTED[i])
  {
  }

  lemma WithKeysFit()
    ensures var d := RegisterAll(EMPTY, WANTED); KeysFit(d.keys) && Good(d) && d.graphs == []
  {
    var d := RegisterAll(EMPTY, WANTED);
    hide RegisterAll, Fits, GetKey, KeysOk, DefaultsRead, Good;
    WantedAreDistinct();
    WantedFit();
    AllRegistered(WANTED);
    GoodKeys(d);
    NoSuchKey(d.keys, "discovered", ForNode);
    assert WANTED[0].name == "inuse" && WANTED[4].name == "weight";
  }

  // ---------------------------------------------------------------- the attributes of one element

  lemma CreateKnown(d: Doc, name: string, v: Value, target: Target)
    requires GetKey(d.keys, name, target).Some? && v != Nil
    ensures CreateData(d, name, v, target).0 == d && CreateData(d, name, v, target).1.Ok?
  {
  }

  const DISCOVERED := Wanted(ForNode, "discovered", "", BooleanType, Nil)

  lemma DiscoveredCreates(d: Doc, b: bool)
    requires Good(d) && KeysFit(d.keys)
    ensures var (d', r) := CreateData(d, "discovered", Bool(b), ForNode);
            r.Ok? && Good(d') && KeysFit(d'.keys)
  {
    if GetKey(d.keys, "discovered", ForNode).Some? {
      CreateKnown(d, "discovered", Bool(b), ForNode);
    } else {
      hide CreateData, Good, KeysFit;
      DiscoveredFits(d);
      DiscoveredRegisters(d, b);
    }
  }

  lemma DiscoveredRegisters(d: Doc, b: bool)
    requires GetKey(d.keys, "discovered", ForNode).None?
    ensures CreateData(d, "discovered", Bool(b), ForNode).0 == Registered(d, DISCOVERED)
    ensures CreateData(d, "discovered", Bool(b), ForNode).1.Ok?
  {
    hide GetKey, G.NextKeyId;
  }

  lemma DiscoveredFits(d: Doc)
    requires Good(d) && KeysFit(d.keys) && GetKey(d.keys, "discovered", ForNode).None?
    ensures Good(Registered(d, DISCOVERED)) && KeysFit(Registered(d, DISCOVERED).keys)
  {
    hide GetKey, KeysOk, DefaultsRead, Good, Registered;
    RegisteredIs(d, DISCOVERED);
    var d' := Registered(d, DISCOVERED);
    GoodKeys(d');
    forall i | 0 <= i < |d'.keys| ensures d'.keys[i].name in NAMES {
      if i < |d.keys| { assert d'.keys[i] == d.keys[i]; }
    }
  }

  lemma NodeAttributesCreate(d: Doc, v: DeviceView)
    requires Good(d) && KeysFit(d.keys)
    ensures var (d', r) := CreateAll(d, NodeAttributes(v), ForNode);
            && r.Ok? && Good(d') && KeysFit(d'.keys) && Extends(d.keys, d'.keys)
            && Created(d'.keys, NodeAttributes(v), ForNode, r.value)
  {
    var a := NodeAttributes(v);
    GoodKeys(d);
    CreateAllIs(d, a, ForNode);
    DiscoveredCreates(d, v.discovered);
    hide CreateData, Good, KeysOk, Extends, Created, DefaultsRead, GetKey;
    assert a[..1] == [a[0]] && a[..1][..0] == [];
    var (d1, r1) := CreateData(d, "discovered", Bool(v.discovered), ForNode);
    assert CreateAll(d, a[..1], ForNode) == (d1, Ok([r1.value])) by { OneCreated(d, a[0], ForNode); }
    CreateKnown(d1, "inuse", Bool(v.inUse), ForNode);
  }

  lemma OneCreated(d: Doc, a: (string, Value), target: Target)
    ensures var (d', x) := CreateData(d, a.0, a.1, target);
            CreateAll(d, [a], target) == (d', if x.Ok? then Ok([x.value]) else Err)
  {
    hide CreateData;
    assert [a][..0] == [];
    assert CreateAll(d, [a][..0], target) == (d, Ok([]));
    var x := CreateData(d, a.0, a.1, target).1;
    if x.Ok? { assert [] + [x.value] == [x.value]; }
  }

  lemma EdgeAttributesCreate(d: Doc, w: real)
    requires Good(d) && KeysFit(d.keys)
    ensures var (d', r) := CreateAll(d, EdgeAttributes(w), ForEdge);
            r.Ok? && d' == d && Created(d.keys, EdgeAttributes(w), ForEdge, r.value)
  {
    GoodKeys(d);
    CreateKnown(d, "weight", Double(Stored(w)), ForEdge);
    OneCreated(d, ("weight", Double(Stored(w))), ForEdge);
    CreateAllIs(d, EdgeAttributes(w), ForEdge);
    hide CreateData, CreateAll, GetKey, Created, KeysFit;
    assert CreateAll(d, EdgeAttributes(w), ForEdge).0 == d;
  }

  // ---------------------------------------------------------------- what is in the document

  ghost predicate NodeWritten(keys: seq<Key>, id: Id, v: DeviceView, n: Node) {
    && Created(keys, NodeAttributes(v), ForNode, n.data) && n.description == v.tag
    && if id == 0 then exists k: nat :: n.id == Name("n", k) else n.id == FmtNodeId(id)
  }

  ghost predicate NodesWritten(d: Doc, net: Net, order: seq<Id>) {
    && Good(d) && KeysFit(d.keys) && |d.graphs| == 1 && d.graphs[0].edgeDefault == Directed
    && ListWritten(d.keys, net, order, d.graphs[0].nodes)
  }

  ghost predicate ListWritten(keys: seq<Key>, net: Net, order: seq<Id>, nodes: seq<Node>) {
    && |nodes| == |order|
    && forall i :: 0 <= i < |order| ==>
         order[i] in net.nodes && NodeWritten(keys, order[i], net.nodes[order[i]], nodes[i])
  }

  lemma ListStays(keys: seq<Key>, keys': seq<Key>, net: Net, order: seq<Id>, nodes: seq<Node>)
    requires ListWritten(keys, net, order, nodes) && Extends(keys, keys')
    ensures ListWritten(keys', net, order, nodes)
  {
    hide NodeWritten, Extends;
    forall i | 0 <= i < |order| ensures NodeWritten(keys', order[i], net.nodes[order[i]], nodes[i]) {
      NodeStaysWritten(keys, keys', order[i], net.nodes[order[i]], nodes[i]);
    }
  }

  lemma ListGrows(keys: seq<Key>, net: Net, order: seq<Id>, nodes: seq<Node>, id: Id, n: Node)
    requires ListWritten(keys, net, order, nodes) && id in net.nodes && NodeWritten(keys, id, net.nodes[id], n)
    ensures ListWritten(keys, net, order + [id], nodes + [n])
  {
    hide NodeWritten;
  }

  lemma NodeStaysWritten(keys: seq<Key>, keys': seq<Key>, id: Id, v: DeviceView, n: Node)
    requires NodeWritten(keys, id, v, n) && Extends(keys, keys')
    ensures NodeWritten(keys', id, v, n)
  {
    CreatedStays(keys, keys', NodeAttributes(v), ForNode, n.data);
  }

  // The document after one more node.
  lemma NodeAdded(d: Doc, id: Id, v: DeviceView)
    requires Good(d) && KeysFit(d.keys) && |d.graphs| == 1
    ensures var d' := WriteNode(d, id, v); var gr, gr' := d.graphs[0], d'.graphs[0];
            && Good(d') && KeysFit(d'.keys) && Extends(d.keys, d'.keys)
            && |gr'.nodes| == |gr.nodes| + 1 && gr' == gr.(nodes := gr.nodes + [gr'.nodes[|gr.nodes|]])
            && NodeWritten(d'.keys, id, v, gr'.nodes[|gr.nodes|])
  {
    assert DistinctNames(NodeAttributes(v));
    AddNodeKeepsGood(d, 0, NodeAttributes(v), FmtNodeId(id), v.tag);
    hide Good, KeysFit, CreateAll, Extends, Created, NodeAttributes;
    NodeAttributesCreate(d, v);
    if id != 0 { FmtIsNotEmpty(id); }
    hide FmtNodeId;
  }

  lemma OneMoreNode(d: Doc, net: Net, order: seq<Id>, id: Id)
    requires NodesWritten(d, net, order) && id in net.nodes && d.graphs[0].edges == []
    ensures var d' := WriteNode(d, id, net.nodes[id]); NodesWritten(d', net, order + [id]) && d'.graphs[0].edges == []
  {
    var v := net.nodes[id];
    hide Good, KeysFit, NodeWritten, WriteNode, Extends, ListWritten;
    NodeAdded(d, id, v);
    var d' := WriteNode(d, id, v);
    var before := d.graphs[0].nodes;
    ListStays(d.keys, d'.keys, net, order, before);
    ListGrows(d'.keys, net, order, before, id, d'.graphs[0].nodes[|before|]);
  }

  lemma {:induction false} AllNodesWritten(d: Doc, net: Net, order: seq<Id>)
    requires |d.graphs| == 1 && NodesWritten(d, net, []) && d.graphs[0].edges == []
    requires forall i :: 0 <= i < |order| ==> order[i] in net.nodes
    ensures var d' := WriteNodes(d, net, order); NodesWritten(d', net, order) && d'.graphs[0].edges == []
  {
    hide NodesWritten, WriteNode;
    if order != [] {
      var n := |order| - 1;
      AllNodesWritten(d, net, order[..n]);
      OneMoreNode(WriteNodes(d, net, order[..n]), net, order[..n], order[n]);
      assert order == order[..n] + [order[n]];
    }
  }

  // ---------------------------------------------------------------- edges

  ghost predicate EdgeWritten(keys: seq<Key>, e: Link, w: real, x: Edge) {
    && Created(keys, EdgeAttributes(w), ForEdge, x.data)
    && x.source == FmtNodeId(e.from) && x.target == FmtNodeId(e.to)
  }

  ghost predicate EdgesWritten(d: Doc, net: Net, order: seq<Link>) {
    |d.graphs| == 1 && EdgeListWritten(d.keys, net, order, d.graphs[0].edges)
  }

  ghost predicate EdgeListWritten(keys: seq<Key>, net: Net, order: seq<Link>, edges: seq<Edge>) {
    && |edges| == |order|
    && forall i :: 0 <= i < |order| ==>
         order[i] in net.edges && EdgeWritten(keys, order[i], net.edges[order[i]], edges[i])
  }

  lemma EdgeListGrows(keys: seq<Key>, net: Net, order: seq<Link>, edges: seq<Edge>, e: Link, x: Edge)
    requires EdgeListWritten(keys, net, order, edges) && e in net.edges && EdgeWritten(keys, e, net.edges[e], x)
    ensures EdgeListWritten(keys, net, order + [e], edges + [x])
  {
    hide EdgeWritten;
  }

  predicate FitsId(id: Id) { 1 <= id < 0x8000_0000 }

  predicate AllFit(net: Net) { forall id :: id in net.nodes ==> FitsId(id) }

  /** Different edges between printable nodes have different identifiers, so none is taken for a
      duplicate. */
  lemma NoDuplicate(d: Doc, net: Net, order: seq<Link>, e: Link)
    requires EdgesWritten(d, net, order) && WellFormed(net) && AllFit(net) && e in net.edges && e !in order
    ensures !HasEdge(d.graphs[0], EdgeIdentifier(FmtNodeId(e.from), FmtNodeId(e.to)))
  {
    var edges := d.graphs[0].edges;
    forall x | x in edges
      ensures EdgeIdentifier(x.source, x.target) != EdgeIdentifier(FmtNodeId(e.from), FmtNodeId(e.to))
    {
      var i :| 0 <= i < |edges| && edges[i] == x;
      var f := order[i];
      assert EdgeWritten(d.keys, f, net.edges[f], x);
      var Link(a, b) := e;
      var Link(c, g) := f;
      assert Link(a, b) in net.edges && Link(c, g) in net.edges;
      hide FmtNodeId, EdgeIdentifier, Created;
      NoSeparator(a);
      NoSeparator(c);
      if EdgeIdentifier(x.source, x.target) == EdgeIdentifier(FmtNodeId(a), FmtNodeId(b)) {
        EdgeIdentifierTellsBoth(FmtNodeId(c), FmtNodeId(g), FmtNodeId(a), FmtNodeId(b));
        NodeIdsDiffer(a, c);
        NodeIdsDiffer(b, g);
      }
    }
  }

  lemma {:induction false} DigitsAreHex(n: nat, base: nat)
    requires 2 <= base <= 16
    ensures '<' !in Digits(n, base)
    decreases n
  {
    if n > 0 {
      Split(n, base);
      DigitsAreHex(n / base, base);
      assert DIGITS[n % base] != '<';
    }
  }

  lemma NoSeparator(id: Id)
    requires FitsId(id)
    ensures !HoldsSeparator(FmtNodeId(id))
  {
    DigitsAreHex(id, 16);
    var s := FmtNodeId(id);
    assert '<' !in Padded(Print(id, 16), 6);
    forall i: nat | i < |s| ensures !SeparatorAt(s, i) {
      assert s[i] in s;
    }
  }

  lemma EdgeAdded(d: Doc, e: Link, w: real, description: string)
    requires Good(d) && KeysFit(d.keys) && |d.graphs| == 1 && d.graphs[0].edgeDefault == Directed
    requires !HasEdge(d.graphs[0], EdgeIdentifier(FmtNodeId(e.from), FmtNodeId(e.to)))
    requires FmtNodeId(e.from) in NodeIdsOf(d.graphs[0]) && FmtNodeId(e.to) in NodeIdsOf(d.graphs[0])
    ensures WriteEdge(d, e, w, description).Some?
    ensures var d' := WriteEdge(d, e, w, description).value; var gr, gr' := d.graphs[0], d'.graphs[0];
            && Good(d') && d'.keys == d.keys
            && |gr'.edges| == |gr.edges| + 1 && gr' == gr.(edges := gr.edges + [gr'.edges[|gr.edges|]])
            && EdgeWritten(d'.keys, e, w, gr'.edges[|gr.edges|])
  {
    hide Good, KeysFit, CreateAll, Created, EdgeAttributes, FmtNodeId, EdgeIdentifier, HasEdge, NodeIdsOf;
    assert DistinctNames(EdgeAttributes(w)) by { OneName(w); }
    AddEdgeKeepsGood(d, 0, FmtNodeId(e.from), FmtNodeId(e.to), EdgeAttributes(w), Default, description);
    EdgeAttributesCreate(d, w);
  }

  lemma OneName(w: real)
    ensures DistinctNames(EdgeAttributes(w))
  {
  }

  // The nodes are there under their printed ids.
  lemma NodeIsThere(d: Doc, net: Net, order: seq<Id>, id: Id)
    requires NodesWritten(d, net, order) && id in order && id != 0
    ensures FmtNodeId(id) in NodeIdsOf(d.graphs[0])
  {
    hide Good, KeysFit, Created, FmtNodeId;
    var i :| 0 <= i < |order| && order[i] == id;
    assert NodeWritten(d.keys, order[i], net.nodes[order[i]], d.graphs[0].nodes[i]);
  }

  // An edge of the network that is not in the document yet can be added to it.
  lemma EdgeCanBeAdded(d: Doc, net: Net, nodes: seq<Id>, order: seq<Link>, e: Link)
    requires NodesWritten(d, net, nodes) && EdgesWritten(d, net, order)
    requires WellFormed(net) && AllFit(net) && e in net.edges && e !in order
    requires forall id :: id in net.nodes ==> id in nodes
    ensures !HasEdge(d.graphs[0], EdgeIdentifier(FmtNodeId(e.from), FmtNodeId(e.to)))
    ensures FmtNodeId(e.from) in NodeIdsOf(d.graphs[0]) && FmtNodeId(e.to) in NodeIdsOf(d.graphs[0])
  {
    hide NodesWritten, EdgesWritten, HasEdge, NodeIdsOf, FmtNodeId, EdgeIdentifier;
    var Link(a, b) := e;
    assert Link(a, b) in net.edges;
    NoDuplicate(d, net, order, e);
    NodeIsThere(d, net, nodes, e.from);
    NodeIsThere(d, net, nodes, e.to);
  }

  lemma OneMoreEdge(d: Doc, net: Net, nodes: seq<Id>, order: seq<Link>, e: Link)
    requires NodesWritten(d, net, nodes) && EdgesWritten(d, net, order)
    requires WellFormed(net) && AllFit(net) && e in net.edges && e !in order
    requires forall id :: id in net.nodes ==> id in nodes
    ensures var r := WriteEdge(d, e, net.edges[e], EdgeDescription(net, e));
            r.Some? && NodesWritten(r.value, net, nodes) && EdgesWritten(r.value, net, order + [e])
            && r.value.graphs[0].nodes == d.graphs[0].nodes
  {
    hide Good, KeysFit, ListWritten, EdgeWritten, WriteEdge, HasEdge, NodeIdsOf, FmtNodeId, EdgeIdentifier,
        WellFormed, AllFit, EdgeListWritten;
    EdgeCanBeAdded(d, net, nodes, order, e);
    var description := EdgeDescription(net, e);
    EdgeAdded(d, e, net.edges[e], description);
    var edges := d.graphs[0].edges;
    var edges' := WriteEdge(d, e, net.edges[e], description).value.graphs[0].edges;
    EdgeListGrows(d.keys, net, order, edges, e, edges'[|edges|]);
  }

  lemma LastLinkIsNew(order: seq<Link>)
    requires Distinct(order) && order != []
    ensures var n := |order| - 1; Distinct(order[..n]) && order[n] !in order[..n] && order == order[..n] + [order[n]]
  {
  }

  lemma {:induction false} AllEdgesWritten(d: Doc, net: Net, nodes: seq<Id>, order: seq<Link>)
    requires |d.graphs| == 1 && NodesWritten(d, net, nodes) && d.graphs[0].edges == []
    requires WellFormed(net) && AllFit(net) && forall id :: id in net.nodes ==> id in nodes
    requires Distinct(order) && forall i :: 0 <= i < |order| ==> order[i] in net.edges
    ensures var r := WriteEdges(d, net, order);
            r.Some? && NodesWritten(r.value, net, nodes) && EdgesWritten(r.value, net, order)
            && r.value.graphs[0].nodes == d.graphs[0].nodes
  {
    hide NodesWritten, EdgesWritten, WellFormed, AllFit, WriteEdge, Distinct;
    if order == [] {
      NoEdgesWritten(d, net);
    } else {
      var n := |order| - 1;
      LastLinkIsNew(order);
      AllEdgesWritten(d, net, nodes, order[..n]);
      OneMoreEdge(WriteEdges(d, net, order[..n]).value, net, nodes, order[..n], order[n]);
    }
  }

  lemma NoEdgesWritten(d: Doc, net: Net)
    requires |d.graphs| == 1 && d.graphs[0].edges == []
    ensures EdgesWritten(d, net, [])
  {
  }

  // Whether an edge is taken or refused, the nodes stay as they are.
  lemma EdgeLeavesNodes(d: Doc, net: Net, nodes: seq<Id>, e: Link, w: real, description: string)
    requires NodesWritten(d, net, nodes) && WriteEdge(d, e, w, description).Some?
    ensures NodesWritten(WriteEdge(d, e, w, description).value, net, nodes)
  {
    hide Good, KeysFit, CreateAll, Created, EdgeAttributes, FmtNodeId, EdgeIdentifier, EdgeExists, NodeIdsOf,
        ListWritten;
    OneName(w);
    AddEdgeKeepsGood(d, 0, FmtNodeId(e.from), FmtNodeId(e.to), EdgeAttributes(w), Default, description);
    EdgeAttributesCreate(d, w);
  }

  lemma {:induction false} EdgesLeaveNodes(d: Doc, net: Net, nodes: seq<Id>, order: seq<Link>)
    requires |d.graphs| == 1 && NodesWritten(d, net, nodes)
    requires forall i :: 0 <= i < |order| ==> order[i] in net.edges
    requires WriteEdges(d, net, order).Some?
    ensures NodesWritten(WriteEdges(d, net, order).value, net, nodes)
  {
    hide NodesWritten, WriteEdge;
    if order != [] {
      var n := |order| - 1;
      EdgesLeaveNodes(d, net, nodes, order[..n]);
      EdgeLeavesNodes(WriteEdges(d, net, order[..n]).value, net, nodes, order[n], net.edges[order[n]],
                      EdgeDescription(net, order[n]));
    }
  }

  // ---------------------------------------------------------------- reading it back

  lemma BoolReadsBack(keys: seq<Key>, name: string, b: bool)
    requires HasType(keys, name, ForNode, BooleanType)
    ensures BackOf(keys, (name, Bool(b)), ForNode) == Some(Bool(b))
  {
    SameTypeReadsBack(Bool(b), GetKey(keys, name, ForNode).value);
  }

  lemma NodeAttributesRead(keys: seq<Key>, v: DeviceView, data: seq<Data>)
    requires KeysFit(keys) && Created(keys, NodeAttributes(v), ForNode, data)
    ensures var m := AttributesFor(keys, data, ForNode);
            m.Some? && ReadInUse(m.value) == Some(v.inUse) && "tag" !in m.value
  {
    var a := NodeAttributes(v);
    assert GetKey(keys, a[0].0, ForNode).Some?;
    hide GetKey, DataWithKey, BackOf, KeysOk, DefaultsRead, ValueByType, NeededDefaultsRead, Needed;
    BoolReadsBack(keys, "discovered", v.discovered);
    BoolReadsBack(keys, "inuse", v.inUse);
    assert AllReadBack(keys, a, ForNode) && DistinctNames(a);
    DefaultsAreNoTrouble(keys, ForNode, NamesOf(a));
    AttributesReadBack(keys, a, ForNode, data);
    var m := AttributesFor(keys, data, ForNode).value;
    assert a[1].0 in m && m["inuse"] == Bool(v.inUse);
    if "tag" in m {
      if i :| 0 <= i < |a| && a[i].0 == "tag" {
        assert false;
      } else {
        var k :| k in keys && HasDefault(k, ForNode) && k.name == "tag";
        NoTag(keys, k);
      }
    }
  }

  lemma NoTag(keys: seq<Key>, k: Key)
    requires KeysFit(keys) && k in keys
    ensures k.name != "tag"
  {
    hide GetKey, KeysOk, DefaultsRead;
    var i :| 0 <= i < |keys| && keys[i] == k;
    assert keys[i].name in NAMES;
  }

  /** A node that was written reads back when its id can, and else does not read at all. */
  lemma NodeReads(keys: seq<Key>, id: Id, v: DeviceView, n: Node)
    requires KeysFit(keys) && NodeWritten(keys, id, v, n)
    ensures ReadNode(keys, n) == if FitsId(id) then Some((id, DeviceView(v.inUse, false, v.tag))) else None
  {
    hide KeysFit, AttributesFor, FmtNodeId, ParseNodeId, Created;
    NodeAttributesRead(keys, v, n.data);
    if id == 0 {
      var k: nat :| n.id == Name("n", k);
      NumberedNameFails(k);
    } else {
      NodeIdRoundTrip(id);
    }
  }

  /** A file written by hand may keep the tag as an attribute: it counts when the node has no
      description. */
  lemma TagFromAttribute(keys: seq<Key>, id: Id, inUse: bool, tag: string, n: Node)
    requires KeysOk(keys) && DefaultsRead(keys) && FitsId(id) && n.id == FmtNodeId(id)
    requires HasType(keys, "inuse", ForNode, BooleanType) && HasType(keys, "tag", ForNode, StringType)
    requires Created(keys, [("inuse", Bool(inUse)), ("tag", Str(tag))], ForNode, n.data)
    ensures ReadNode(keys, n)
      == Some((id, DeviceView(inUse, false, if n.description != "" then n.description else tag)))
  {
    var a := [("inuse", Bool(inUse)), ("tag", Str(tag))];
    hide GetKey, DataWithKey, BackOf, KeysOk, DefaultsRead, ValueByType, NeededDefaultsRead, Needed, FmtNodeId,
        ParseNodeId, Created;
    NodeIdRoundTrip(id);
    BoolReadsBack(keys, "inuse", inUse);
    StringReadsBack(keys, "tag", tag);
    assert |"inuse"| == 5 && |"tag"| == 3;
    assert AllReadBack(keys, a, ForNode) && DistinctNames(a);
    DefaultsAreNoTrouble(keys, ForNode, NamesOf(a));
    AttributesReadBack(keys, a, ForNode, n.data);
    var m := AttributesFor(keys, n.data, ForNode).value;
    assert a[0] in a && a[1] in a && a[0].0 in NamesOf(a) && a[1].0 in NamesOf(a);
    assert Some(m[a[0].0]) == BackOf(keys, a[0], ForNode) && Some(m[a[1].0]) == BackOf(keys, a[1], ForNode);
  }

  /** In a file where the flag has a key of type string it counts if it is a boolean word. */
  lemma InUseAsWord(keys: seq<Key>, id: Id, word: string, n: Node)
    requires KeysOk(keys) && DefaultsRead(keys) && FitsId(id) && n.id == FmtNodeId(id) && n.description != ""
    requires HasType(keys, "inuse", ForNode, StringType) && Created(keys, [("inuse", Str(word))], ForNode, n.data)
    ensures ReadNode(keys, n) == if ParseBool(word).None? then None
                                 else Some((id, DeviceView(ParseBool(word).value, false, n.description)))
  {
    var a := [("inuse", Str(word))];
    hide GetKey, DataWithKey, BackOf, KeysOk, DefaultsRead, ValueByType, NeededDefaultsRead, Needed, FmtNodeId,
        ParseNodeId, Created, ParseBool;
    NodeIdRoundTrip(id);
    StringReadsBack(keys, "inuse", word);
    assert AllReadBack(keys, a, ForNode) && DistinctNames(a);
    DefaultsAreNoTrouble(keys, ForNode, NamesOf(a));
    AttributesReadBack(keys, a, ForNode, n.data);
    var m := AttributesFor(keys, n.data, ForNode).value;
    assert a[0] in a && a[0].0 in NamesOf(a);
    assert Some(m[a[0].0]) == BackOf(keys, a[0], ForNode);
  }

  lemma StringReadsBack(keys: seq<Key>, name: string, s: string)
    requires HasType(keys, name, ForNode, StringType)
    ensures BackOf(keys, (name, Str(s)), ForNode) == Some(Str(s))
  {
  }

  lemma NumberedNameFails(k: nat)
    ensures ParseNodeId(Name("n", k)) == Err
  {
    var s := Name("n", k);
    var u := ReplaceN(s);
    assert s[0] == 'n' && u[0] == 'n';
    SpoiltRow(u, 0, 10);
  }

  // The nodes as they are loaded: not discovered, else as they were.
  ghost predicate Loaded(net: Net, order: seq<Id>, loaded: Net) {
    && (forall id :: id in loaded.nodes <==> id in order)
    && forall id :: id in order && id in net.nodes ==>
         loaded.nodes[id] == DeviceView(net.nodes[id].inUse, false, net.nodes[id].tag)
  }

  predicate AllFitIn(order: seq<Id>) { forall i :: 0 <= i < |order| ==> FitsId(order[i]) }

  lemma AllFitSnoc(order: seq<Id>, id: Id)
    ensures AllFitIn(order + [id]) <==> AllFitIn(order) && FitsId(id)
  {
    hide FitsId;
    assert (order + [id])[|order|] == id;
    if AllFitIn(order + [id]) {
      forall i | 0 <= i < |order| ensures FitsId(order[i]) { assert (order + [id])[i] == order[i]; }
    }
  }

  lemma LastIdIsNew(order: seq<Id>)
    requires Distinct(order) && order != []
    ensures var n := |order| - 1; Distinct(order[..n]) && order[n] !in order[..n] && order == order[..n] + [order[n]]
  {
  }

  lemma OneMoreLoaded(net: Net, order: seq<Id>, loaded: Net, id: Id)
    requires Loaded(net, order, loaded) && id in net.nodes
    ensures Loaded(net, order + [id], WithNode(loaded, id, DeviceView(net.nodes[id].inUse, false, net.nodes[id].tag)))
  {
  }

  lemma {:induction false} NodesRead(keys: seq<Key>, net: Net, order: seq<Id>, nodes: seq<Node>, local: Id)
    requires KeysFit(keys) && ListWritten(keys, net, order, nodes) && Distinct(order)
    ensures var r := ReadNodes(keys, nodes, local);
            if AllFitIn(order)
            then r.Some? && Loaded(net, order, r.value) && r.value.edges == map[] && r.value.local == local
            else r.None?
    decreases |order|
  {
    hide KeysFit, NodeWritten, ReadNode, AllFitIn, FitsId, Distinct;
    if order == [] {
      assert AllFitIn([]) by { NoneUnfit(); }
    } else {
      var n := |order| - 1;
      var before, id := order[..n], order[n];
      LastIdIsNew(order);
      AllFitSnoc(before, id);
      NodesRead(keys, net, before, nodes[..n], local);
      NodeReads(keys, id, net.nodes[id], nodes[n]);
      if AllFitIn(order) {
        OneMoreLoaded(net, before, ReadNodes(keys, nodes[..n], local).value, id);
      }
    }
  }

  lemma NoneUnfit()
    ensures AllFitIn([])
  {
  }

  lemma EdgeReads(keys: seq<Key>, e: Link, w: real, x: Edge)
    requires KeysFit(keys) && EdgeWritten(keys, e, w, x) && FitsId(e.from) && FitsId(e.to)
    ensures ReadEdge(keys, x) == Some((e, Reloaded(w)))
  {
    hide GetKey, DataWithKey, BackOf, KeysOk, DefaultsRead, ValueByType, NeededDefaultsRead, Needed, FmtNodeId,
        ParseNodeId, F32, Stored;
    var a := EdgeAttributes(w);
    NodeIdRoundTrip(e.from);
    NodeIdRoundTrip(e.to);
    WeightReadsBack(keys, Stored(w));
    assert AllReadBack(keys, a, ForEdge) && DistinctNames(a);
    DefaultsAreNoTrouble(keys, ForEdge, NamesOf(a));
    AttributesReadBack(keys, a, ForEdge, x.data);
    assert a[0].0 == "weight";
  }

  /** In a file where the weight has a key of type double it is not cut down to 32 bits. */
  lemma DoubleWeightReads(keys: seq<Key>, e: Link, w: real, x: Edge)
    requires KeysOk(keys) && DefaultsRead(keys) && HasType(keys, "weight", ForEdge, DoubleType)
    requires EdgeWritten(keys, e, w, x) && FitsId(e.from) && FitsId(e.to)
    ensures ReadEdge(keys, x) == Some((e, Stored(w)))
  {
    hide GetKey, DataWithKey, BackOf, KeysOk, DefaultsRead, ValueByType, NeededDefaultsRead, Needed, FmtNodeId,
        ParseNodeId, F32, Stored;
    var a := EdgeAttributes(w);
    NodeIdRoundTrip(e.from);
    NodeIdRoundTrip(e.to);
    DoubleReadsBack(keys, Stored(w));
    assert AllReadBack(keys, a, ForEdge) && DistinctNames(a);
    DefaultsAreNoTrouble(keys, ForEdge, NamesOf(a));
    AttributesReadBack(keys, a, ForEdge, x.data);
    assert a[0].0 == "weight";
  }

  lemma DoubleReadsBack(keys: seq<Key>, r: real)
    requires HasType(keys, "weight", ForEdge, DoubleType)
    ensures BackOf(keys, ("weight", Double(r)), ForEdge) == Some(Double(r))
  {
  }

  lemma WeightReadsBack(keys: seq<Key>, r: real)
    requires HasType(keys, "weight", ForEdge, FloatType)
    ensures BackOf(keys, ("weight", Double(r)), ForEdge) == Some(Float(F32(r)))
  {
  }

  lemma {:induction false} EdgesRead(keys: seq<Key>, net: Net, order: seq<Link>, edges: seq<Edge>, start: Net)
    requires KeysFit(keys) && WellFormed(net) && AllFit(net)
    requires EdgeListWritten(keys, net, order, edges)
    requires start.edges == map[] && forall id :: id in net.nodes ==> id in start.nodes
    ensures var r := ReadEdges(keys, edges, start);
            && r.Some? && r.value == start.(edges := r.value.edges)
            && (forall e :: e in r.value.edges <==> e in order)
            && forall e :: e in r.value.edges ==> e in net.edges && r.value.edges[e] == Reloaded(net.edges[e])
    decreases |order|
  {
    hide KeysFit, EdgeWritten, ReadEdge, Reloaded;
    if order != [] {
      var n := |order| - 1;
      EdgesRead(keys, net, order[..n], edges[..n], start);
      var Link(a, b) := order[n];
      assert Link(a, b) in net.edges;
      EdgeReads(keys, order[n], net.edges[order[n]], edges[n]);
      assert order == order[..n] + [order[n]];
    }
  }

  /** What saving and loading keeps: the nodes with their tags and in-use flags, and the directed
      edges, with their weights as Floats says. Discovery flags start afresh. */
  ghost predicate Restores(net: Net, loaded: Net) {
    && loaded.nodes.Keys == net.nodes.Keys && loaded.edges.Keys == net.edges.Keys
    && (forall id :: id in net.nodes ==> loaded.nodes[id] == DeviceView(net.nodes[id].inUse, false, net.nodes[id].tag))
    && forall e :: e in net.edges ==> loaded.edges[e] == Reloaded(net.edges[e])
  }

  ghost predicate AllNodes(net: Net, order: seq<Id>) {
    Distinct(order) && forall id :: id in order <==> id in net.nodes
  }

  ghost predicate AllEdges(net: Net, order: seq<Link>) {
    Distinct(order) && forall e :: e in order <==> e in net.edges
  }

  lemma StartIsWritten(net: Net)
    ensures var d := AddGraph(RegisterAll(EMPTY, WANTED), "the graph", Directed, []).0;
            |d.graphs| == 1 && NodesWritten(d, net, []) && d.graphs[0].edges == []
  {
    WithKeysFit();
    var d := RegisterAll(EMPTY, WANTED);
    hide Good, KeysFit, RegisterAll;
    NewGraphKeepsGood(d, NewGraph("the graph", Directed, []));
  }

  lemma FittingRoundTrip(d: Doc, net: Net, nodes: seq<Id>, edges: seq<Link>, local: Id)
    requires WellFormed(net) && AllNodes(net, nodes) && AllEdges(net, edges) && AllFit(net)
    requires |d.graphs| == 1 && NodesWritten(d, net, nodes) && d.graphs[0].edges == []
    ensures var w := WriteEdges(d, net, edges);
            && w.Some? && ReadGraph(w.value, local).Some?
            && Restores(net, ReadGraph(w.value, local).value) && ReadGraph(w.value, local).value.local == local
  {
    hide Good, KeysFit, NodeWritten, EdgeWritten, WellFormed, ReadNodes, ReadEdges, WriteEdges, ListWritten, FitsId,
        Reloaded;
    AllEdgesWritten(d, net, nodes, edges);
    var d2 := WriteEdges(d, net, edges).value;
    assert AllFitIn(nodes);
    NodesRead(d2.keys, net, nodes, d2.graphs[0].nodes, local);
    var loaded := ReadNodes(d2.keys, d2.graphs[0].nodes, local).value;
    EdgesRead(d2.keys, net, edges, d2.graphs[0].edges, loaded);
  }

  lemma UnfitFails(d: Doc, net: Net, nodes: seq<Id>, edges: seq<Link>, local: Id)
    requires AllNodes(net, nodes) && AllEdges(net, edges) && !AllFit(net)
    requires |d.graphs| == 1 && NodesWritten(d, net, nodes)
    ensures var w := WriteEdges(d, net, edges); w.None? || ReadGraph(w.value, local).None?
  {
    hide Good, KeysFit, NodeWritten, ReadNodes, ReadEdges, WriteEdges, ListWritten, FitsId;
    if WriteEdges(d, net, edges).Some? {
      EdgesLeaveNodes(d, net, nodes, edges);
      var d2 := WriteEdges(d, net, edges).value;
      NodesRead(d2.keys, net, nodes, d2.graphs[0].nodes, local);
      var id :| id in net.nodes && !FitsId(id);
      var i :| 0 <= i < |nodes| && nodes[i] == id;
      assert !AllFitIn(nodes);
    }
  }

  /** The law of saving and loading, for every network and every order of its nodes and edges:
      what was saved loads as it was exactly when all node ids lie from 1 to 2^31 - 1. Otherwise
      the program does not get through. */
  lemma SaveLoadRoundTrip(net: Net, nodes: seq<Id>, edges: seq<Link>, local: Id)
    requires WellFormed(net) && AllNodes(net, nodes) && AllEdges(net, edges)
    ensures var d := WriteGraph(net, nodes, edges);
            var loaded := if d.Some? then ReadGraph(d.value, local) else None;
            && (loaded.Some? <==> forall id :: id in net.nodes ==> 1 <= id < 0x8000_0000)
            && (loaded.Some? ==> Restores(net, loaded.value) && loaded.value.local == local)
  {
    hide ReadGraph, WriteEdges, WriteNodes, RegisterAll, AddGraph, NodesWritten, WellFormed, Reloaded;
    var start := AddGraph(RegisterAll(EMPTY, WANTED), "the graph", Directed, []).0;
    StartIsWritten(net);
    AllNodesWritten(start, net, nodes);
    if AllFit(net) {
      FittingRoundTrip(WriteNodes(start, net, nodes), net, nodes, edges, local);
    } else {
      UnfitFails(WriteNodes(start, net, nodes), net, nodes, edges, local);
    }
  }
}

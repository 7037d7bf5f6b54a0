/** The loops of graph/networkxml.go over a network object and a GraphML object, and
    NewNeworkFromFile of graph/network.go. The order in which the graph library hands out nodes
    and edges is a parameter. */
module NetworkStore {
  import opened Basics
  import opened MeshNetwork
  import opened NodeIds
  import opened GraphDocument
  import opened AttributeValues
  import opened Floats
  import opened GraphMl
  import G = GraphDocument
  import X = NetworkXml

  /** writeGraph up to the encoding. When it fails, an edge ends at a node that has no name. */
  method WriteGraph(g: Network, nodeOrder: seq<Id>, edgeOrder: seq<Link>) returns (gml: GraphML, ok: bool)
    requires g.Valid()
    requires forall i :: 0 <= i < |nodeOrder| ==> nodeOrder[i] in g.nodes
    requires forall i :: 0 <= i < |edgeOrder| ==> edgeOrder[i] in g.edges
    ensures fresh(gml) && gml.Valid()
    ensures X.WriteGraph(g.View(), nodeOrder, edgeOrder) == if ok then Some(gml.View()) else None
  {
    hide Good, ById, ByIdentifier, X.RegisterAll, X.WriteNodes, X.WriteEdges, Network.View, Network.Valid, G.AddGraph;
    gml := RegisterKeys();
    X.StartIsWritten(g.View());
    ok := gml.AddGraph("the graph", Directed, []);
    WriteNodes(gml, g, nodeOrder);
    ok := WriteEdges(gml, g, edgeOrder);
  }

  method RegisterKeys() returns (gml: GraphML)
    ensures fresh(gml) && gml.Valid() && gml.View() == X.RegisterAll(EMPTY, X.WANTED)
  {
    hide Good, ById, ByIdentifier, RegisterKey;
    gml := new GraphML();
    for i := 0 to |X.WANTED|
      invariant fresh(gml) && gml.Valid() && gml.View() == X.RegisterAll(EMPTY, X.WANTED[..i])
    {
      var w := X.WANTED[i];
      assert X.WANTED[..i + 1][..i] == X.WANTED[..i];
      var _ := gml.RegisterKey(w.target, w.name, w.description, Some(w.kind), w.default);
    }
    assert X.WANTED[..|X.WANTED|] == X.WANTED;
  }

  method WriteNodes(gml: GraphML, g: Network, order: seq<Id>)
    requires gml.Valid() && |gml.graphs| == 1 && g.Valid()
    requires forall i :: 0 <= i < |order| ==> order[i] in g.nodes
    modifies gml
    ensures gml.Valid() && gml.View() == X.WriteNodes(old(gml.View()), g.View(), order)
  {
    hide Good, ById, ByIdentifier, Network.Valid, Network.View, G.AddNode, X.NodeAttributes, FmtNodeId, DistinctNames;
    ghost var d, net := gml.View(), g.View();
    for i := 0 to |order|
      invariant gml.Valid() && |gml.graphs| == 1 && gml.View() == X.WriteNodes(d, net, order[..i])
    {
      assert order[..i + 1][..i] == order[..i];
      var device := g.GetNodeDevice(order[i]);
      TwoNames(device);
      var _ := gml.AddNode(0, X.NodeAttributes(device), FmtNodeId(order[i]), device.tag);
    }
    assert order[..|order|] == order;
  }

  lemma TwoNames(v: DeviceView)
    ensures DistinctNames(X.NodeAttributes(v))
  {
  }

  method WriteEdges(gml: GraphML, g: Network, order: seq<Link>) returns (ok: bool)
    requires gml.Valid() && |gml.graphs| == 1 && g.Valid()
    requires forall i :: 0 <= i < |order| ==> order[i] in g.edges
    modifies gml
    ensures gml.Valid()
    ensures X.WriteEdges(old(gml.View()), g.View(), order) == if ok then Some(gml.View()) else None
  {
    hide Good, ById, ByIdentifier, Network.Valid, G.AddEdge, FmtNodeId, X.EdgeDescription, X.EdgeAttributes,
        DistinctNames;
    ghost var d, net := gml.View(), g.View();
    for i := 0 to |order|
      invariant gml.Valid() && |gml.graphs| == 1 && X.WriteEdges(d, net, order[..i]) == Some(gml.View())
    {
      assert order[..i + 1][..i] == order[..i];
      var e := order[i];
      var source, target := FmtNodeId(e.from), FmtNodeId(e.to);
      var ids := set n | n in gml.graphs[0].nodes :: n.id;
      if source !in ids || target !in ids {
        EdgesFailForGood(d, net, order, i + 1);
        return false;
      }
      X.OneName(g.edges[e]);
      var description := EdgeDescription(g, e);
      var _ := gml.AddEdge(0, source, target, X.EdgeAttributes(g.edges[e]), Default, description);
    }
    assert order[..|order|] == order;
    ok := true;
  }

  method EdgeDescription(g: Network, e: Link) returns (description: string)
    requires g.Valid()
    ensures description == X.EdgeDescription(g.View(), e)
  {
    hide Network.Valid, Network.View, FmtNodeId;
    var fromTag := TagOf(g, e.from);
    var toTag := TagOf(g, e.to);
    description := "from " + fromTag + ":[" + FmtNodeId(e.from) + "] to " + toTag + ":[" + FmtNodeId(e.to) + "]";
  }

  method TagOf(g: Network, id: Id) returns (tag: string)
    requires g.Valid()
    ensures tag == X.TagOf(g.View(), id)
  {
    tag := "";
    if id in g.nodes {
      var device := g.GetNodeDevice(id);
      tag := device.tag;
    }
  }

  lemma {:induction false} EdgesFailForGood(d: Doc, net: Net, order: seq<Link>, i: nat)
    requires |d.graphs| == 1 && forall i :: 0 <= i < |order| ==> order[i] in net.edges
    requires i <= |order| && X.WriteEdges(d, net, order[..i]).None?
    ensures X.WriteEdges(d, net, order).None?
    decreases |order| - i
  {
    if i == |order| {
      assert order[..i] == order;
    } else {
      assert order[..i + 1][..i] == order[..i];
      EdgesFailForGood(d, net, order, i + 1);
    }
  }

  /** readGraph, into a network without nodes. */
  method ReadGraph(gml: GraphML, local: Id) returns (g: Network, ok: bool)
    requires gml.Valid()
    ensures fresh(g) && fresh(g.nodes.Values) && g.Valid()
    ensures X.ReadGraph(gml.View(), local) == if ok then Some(g.View()) else None
  {
    hide Good, ById, ByIdentifier, Network.View, Network.Valid, X.ReadNodes, X.ReadEdges;
    g := new Network.Empty(local);
    if |gml.graphs| == 0 {
      return g, true;
    }
    ok := ReadNodes(gml, g);
    if ok {
      ok := ReadEdges(gml, g);
    }
  }

  method ReadNodes(gml: GraphML, g: Network) returns (ok: bool)
    requires gml.Valid() && |gml.graphs| > 0 && g.Valid() && g.nodes == map[] && g.edges == map[]
    modifies g`nodes
    ensures g.Valid() && fresh(g.nodes.Values)
    ensures X.ReadNodes(gml.keys, gml.graphs[0].nodes, g.localDeviceId) == if ok then Some(g.View()) else None
  {
    hide Good, ById, ByIdentifier, Network.View, Network.Valid, X.ReadNode;
    var nodes := gml.graphs[0].nodes;
    assert g.View().nodes == map[];
    for i := 0 to |nodes|
      invariant g.Valid() && forall k :: k in g.nodes ==> fresh(g.nodes[k])
      invariant X.ReadNodes(gml.keys, nodes[..i], g.localDeviceId) == Some(g.View())
    {
      assert nodes[..i + 1][..i] == nodes[..i];
      var x := ReadNode(gml.keys, nodes[i]);
      if x.None? || x.value.0 in g.nodes {
        NodesFailForGood(gml.keys, nodes, g.localDeviceId, i + 1);
        return false;
      }
      g.AddNode(x.value.0, x.value.1.inUse, x.value.1.tag);
    }
    assert nodes[..|nodes|] == nodes;
    ok := true;
  }

  /** One turn of the loop over the nodes, up to AddNode. */
  method ReadNode(keys: seq<Key>, n: Node) returns (r: Option<(Id, DeviceView)>)
    ensures r == X.ReadNode(keys, n)
    ensures r.Some? ==> !r.value.1.discovered
  {
    hide AttributesFor, ParseNodeId;
    var descr := n.description;
    var attrs := AttributesForData(keys, n.data, ForNode);
    if attrs.None? {
      return None;
    }
    var id := ParseNodeId(n.id);
    if id.Err? {
      return None;
    }
    if |descr| == 0 {
      descr := if "tag" in attrs.value && attrs.value["tag"].Str? then attrs.value["tag"].s else "";
    }
    var inUse := X.ReadInUse(attrs.value);
    if inUse.None? {
      return None;
    }
    return Some((id.value, DeviceView(inUse.value, false, descr)));
  }

  lemma {:induction false} NodesFailForGood(keys: seq<Key>, nodes: seq<Node>, local: Id, i: nat)
    requires i <= |nodes| && X.ReadNodes(keys, nodes[..i], local).None?
    ensures X.ReadNodes(keys, nodes, local).None?
    decreases |nodes| - i
  {
    if i == |nodes| {
      assert nodes[..i] == nodes;
    } else {
      assert nodes[..i + 1][..i] == nodes[..i];
      NodesFailForGood(keys, nodes, local, i + 1);
    }
  }

  method ReadEdges(gml: GraphML, g: Network) returns (ok: bool)
    requires gml.Valid() && |gml.graphs| > 0 && g.Valid()
    modifies g`edges
    ensures g.Valid()
    ensures X.ReadEdges(gml.keys, gml.graphs[0].edges, old(g.View())) == if ok then Some(g.View()) else None
  {
    hide Good, ById, ByIdentifier, Network.View, Network.Valid, X.ReadEdge;
    ghost var net := g.View();
    var edges := gml.graphs[0].edges;
    for i := 0 to |edges|
      invariant g.Valid() && X.ReadEdges(gml.keys, edges[..i], net) == Some(g.View())
    {
      assert edges[..i + 1][..i] == edges[..i];
      var x := ReadEdge(gml.keys, edges[i]);
      if x.None? {
        ReadEdgesFailForGood(gml.keys, edges, net, i + 1);
        return false;
      }
      var (e, w) := x.value;
      if e.from !in g.nodes || e.to !in g.nodes || e.from == e.to {
        ReadEdgesFailForGood(gml.keys, edges, net, i + 1);
        return false;
      }
      g.SetEdge(e.from, e.to, w);
    }
    assert edges[..|edges|] == edges;
    ok := true;
  }

  /** One turn of the loop over the edges, up to SetWeightedEdge. */
  method ReadEdge(keys: seq<Key>, x: Edge) returns (r: Option<(Link, real)>)
    ensures r == X.ReadEdge(keys, x)
  {
    hide AttributesFor, ParseNodeId;
    var attrs := AttributesForData(keys, x.data, ForEdge);
    if attrs.None? {
      return None;
    }
    var src := ParseNodeId(x.source);
    if src.Err? {
      return None;
    }
    var dst := ParseNodeId(x.target);
    if dst.Err? {
      return None;
    }
    var weight := X.ReadWeight(attrs.value);
    if weight.None? {
      return None;
    }
    return Some((Link(src.value, dst.value), weight.value));
  }

  lemma {:induction false} ReadEdgesFailForGood(keys: seq<Key>, edges: seq<Edge>, net: Net, i: nat)
    requires i <= |edges| && X.ReadEdges(keys, edges[..i], net).None?
    ensures X.ReadEdges(keys, edges, net).None?
    decreases |edges| - i
  {
    if i == |edges| {
      assert edges[..i] == edges;
    } else {
      assert edges[..i + 1][..i] == edges[..i];
      ReadEdgesFailForGood(keys, edges, net, i + 1);
    }
  }

  /** NewNeworkFromFile: the local node is added when the file does not have it. */
  method NewNetworkFromFile(gml: GraphML, local: Id) returns (g: Network, ok: bool)
    requires gml.Valid()
    ensures fresh(g) && g.Valid()
    ensures var r := X.ReadGraph(gml.View(), local);
            ok == r.Some? && (ok ==> g.View() == WithLocal(r.value, local))
  {
    hide Good, ById, ByIdentifier, Network.View, Network.Valid, X.ReadGraph;
    g, ok := ReadGraph(gml, local);
    if ok && local !in g.nodes {
      g.AddNode(local, true, "local");
    }
  }

  function WithLocal(net: Net, local: Id): Net {
    if local in net.nodes then net else WithNode(net, local, DeviceView(true, false, "local"))
  }

  /** What saving and loading gives back: the same nodes with their tags and in-use flags, the
      same edges with the weights that are left of theirs, and the local node beside them if it
      was not there. */
  ghost predicate ComesBack(net: Net, loaded: Net) {
    && loaded.local == net.local && loaded.edges.Keys == net.edges.Keys
    && loaded.nodes.Keys == net.nodes.Keys + {net.local}
    && (net.local !in net.nodes ==> loaded.nodes[net.local] == DeviceView(true, false, "local"))
    && (forall id :: id in net.nodes ==> loaded.nodes[id] == DeviceView(net.nodes[id].inUse, false, net.nodes[id].tag))
    && forall e :: e in net.edges ==> loaded.edges[e] == Reloaded(net.edges[e])
  }

  lemma RestoredComesBack(net: Net, loaded: Net)
    requires X.Restores(net, loaded) && loaded.local == net.local
    ensures ComesBack(net, WithLocal(loaded, net.local))
  {
  }

  /** SaveToFile and NewNeworkFromFile one after the other, without the file: a network comes
      back exactly when all its node ids lie from 1 to 2^31 - 1. */
  method SaveAndLoad(g: Network, nodeOrder: seq<Id>, edgeOrder: seq<Link>) returns (h: Network, ok: bool)
    requires g.Valid() && X.AllNodes(g.View(), nodeOrder) && X.AllEdges(g.View(), edgeOrder)
    ensures ok <==> forall id :: id in g.nodes ==> 1 <= id < 0x8000_0000
    ensures ok ==> h.Valid() && ComesBack(g.View(), h.View())
  {
    hide Good, ById, ByIdentifier, Network.View, Network.Valid, X.ReadGraph, X.WriteGraph, ComesBack, X.Restores,
        WithLocal;
    X.SaveLoadRoundTrip(g.View(), nodeOrder, edgeOrder, g.localDeviceId) by { ValidIsWellFormed(g); }
    var gml;
    gml, ok := WriteGraph(g, nodeOrder, edgeOrder);
    h := g;
    if ok {
      h, ok := NewNetworkFromFile(gml, g.localDeviceId);
      if ok {
        RestoredComesBack(g.View(), X.ReadGraph(gml.View(), g.localDeviceId).value);
      }
    }
  }
}

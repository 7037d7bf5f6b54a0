/** The weighted directed graph of graph/network.go.

    Net is the value of a network; Network is the mutable graph of shared Device objects
    that the program updates in place. Weights are reals. */
module MeshNetwork {
  // A node id of the graph library: a signed 64-bit number.
  type Id = x: int | -0x8000_0000_0000_0000 <= x < 0x8000_0000_0000_0000

  datatype Link = Link(from: Id, to: Id)

  datatype DeviceView = DeviceView(inUse: bool, discovered: bool, tag: string)

  datatype Net = Net(nodes: map<Id, DeviceView>, edges: map<Link, real>, local: Id)

  /** Edges join nodes of the graph, and no edge is a loop: the graph library panics on one. */
  ghost predicate WellFormed(net: Net) {
    forall a, b :: Link(a, b) in net.edges ==> a in net.nodes && b in net.nodes && a != b
  }

  function NewNet(local: Id): Net {
    Net(map[local := DeviceView(true, false, "local")], map[], local)
  }

  function Out(net: Net, a: Id): set<Id> {
    set b | b in net.nodes && Link(a, b) in net.edges
  }

  function WithNode(net: Net, id: Id, d: DeviceView): Net {
    net.(nodes := net.nodes[id := d])
  }

  /** ChangeEdgeWeight: missing endpoints are created, the source not in use and the
      target in use; the edge then has the given weight. */
  function WithEdge(net: Net, a: Id, b: Id, w: real): Net {
    var n1 := if a in net.nodes then net else WithNode(net, a, DeviceView(false, false, ""));
    var n2 := if b in n1.nodes then n1 else WithNode(n1, b, DeviceView(true, false, ""));
    n2.(edges := net.edges[Link(a, b) := w])
  }

  /** A missing source comes in not in use, a missing target in use, both without a tag; every
      other node and edge stays as it was. */
  lemma WithEdgeIs(net: Net, a: Id, b: Id, w: real)
    requires a != b
    ensures var n := WithEdge(net, a, b, w);
            && n.nodes.Keys == net.nodes.Keys + {a, b} && n.local == net.local
            && (forall k :: k in net.nodes ==> n.nodes[k] == net.nodes[k])
            && (a !in net.nodes ==> !n.nodes[a].inUse && !n.nodes[a].discovered && n.nodes[a].tag == "")
            && (b !in net.nodes ==> n.nodes[b].inUse && !n.nodes[b].discovered && n.nodes[b].tag == "")
            && (forall x, y :: Link(x, y) in n.edges <==> Link(x, y) in net.edges || (x == a && y == b))
            && (forall x, y :: Link(x, y) in n.edges ==>
                  n.edges[Link(x, y)] == if x == a && y == b then w else net.edges[Link(x, y)])
  {
  }

  function WithoutEdge(net: Net, a: Id, b: Id): Net {
    net.(edges := net.edges - {Link(a, b)})
  }

  class Device {
    var inUse: bool
    var discovered: bool
    var tag: string

    constructor (inUse: bool, tag: string)
      ensures View() == DeviceView(inUse, false, tag)
    {
      this.inUse, this.tag, this.discovered := inUse, tag, false;
    }

    function View(): DeviceView
      reads this
    {
      DeviceView(inUse, discovered, tag)
    }
  }

  class Network {
    var nodes: map<Id, Device>
    var edges: map<Link, real>
    var localDeviceId: Id

    // Within one network every node has a device of its own.
    ghost predicate Valid()
      reads this, nodes.Values
    {
      && (forall a, b :: a in nodes && b in nodes && a != b ==> nodes[a] != nodes[b])
      && WellFormed(View())
    }

    ghost function View(): (net: Net)
      reads this, nodes.Values
      ensures net.nodes.Keys == nodes.Keys && net.edges == edges && net.local == localDeviceId
    {
      Net(map id | id in nodes :: nodes[id].View(), edges, localDeviceId)
    }

    constructor New(localDeviceId: Id)
      ensures Valid() && View() == NewNet(localDeviceId)
      ensures fresh(nodes.Values)
    {
      var device := new Device(true, "local");
      nodes := map[localDeviceId := device];
      edges := map[];
      this.localDeviceId := localDeviceId;
    }

    // A graph without nodes, as loading starts from.
    constructor Empty(localDeviceId: Id)
      ensures Valid() && View() == Net(map[], map[], localDeviceId) && nodes == map[]
    {
      nodes, edges := map[], map[];
      this.localDeviceId := localDeviceId;
    }

    method AddNode(id: Id, inUse: bool, tag: string)
      requires Valid() && id !in nodes
      modifies this`nodes
      ensures Valid() && View() == WithNode(old(View()), id, DeviceView(inUse, false, tag))
      ensures id in nodes && fresh(nodes[id]) && nodes == old(nodes)[id := nodes[id]]
    {
      var device := new Device(inUse, tag);
      nodes := nodes[id := device];
      assert View().nodes == WithNode(old(View()), id, DeviceView(inUse, false, tag)).nodes;
    }

    method ChangeEdgeWeight(fromId: Id, toId: Id, weightFrom: real, weightTo: real)
      requires Valid() && fromId != toId
      modifies this
      ensures Valid() && View() == WithEdge(old(View()), fromId, toId, weightTo)
      ensures forall d :: d in nodes.Values ==> d in old(nodes.Values) || fresh(d)
    {
      hide Network.Valid, Network.View;
      if fromId !in nodes {
        AddNode(fromId, false, "");
      }
      if toId !in nodes {
        AddNode(toId, true, "");
      }
      assert fromId in nodes && toId in nodes;
      SetEdge(fromId, toId, weightTo);
    }

    method SetEdge(fromId: Id, toId: Id, weight: real)
      requires Valid() && fromId in nodes && toId in nodes && fromId != toId
      modifies this`edges
      ensures Valid() && View() == old(View()).(edges := old(View()).edges[Link(fromId, toId) := weight])
    {
      edges := edges[Link(fromId, toId) := weight];
    }

    method RemoveEdge(fromId: Id, toId: Id)
      requires Valid()
      modifies this`edges
      ensures Valid() && View() == WithoutEdge(old(View()), fromId, toId)
    {
      edges := edges - {Link(fromId, toId)};
    }

    method SetDiscovered(id: Id, discovered: bool)
      requires Valid() && id in nodes
      modifies nodes[id]
      ensures Valid()
      ensures View() == WithNode(old(View()), id, old(View()).nodes[id].(discovered := discovered))
    {
      ghost var before := View();
      assert forall k :: k in nodes && k != id ==> nodes[k] != nodes[id];
      nodes[id].discovered := discovered;
      assert View().nodes == WithNode(before, id, before.nodes[id].(discovered := discovered)).nodes;
    }

    method SetTag(id: Id, tag: string)
      requires Valid() && id in nodes
      modifies nodes[id]
      ensures Valid()
      ensures View() == WithNode(old(View()), id, old(View()).nodes[id].(tag := tag))
    {
      ghost var before := View();
      assert forall k :: k in nodes && k != id ==> nodes[k] != nodes[id];
      nodes[id].tag := tag;
      assert View().nodes == WithNode(before, id, before.nodes[id].(tag := tag)).nodes;
    }

    // One device as the view shows it.
    method GetNodeDevice(id: Id) returns (d: DeviceView)
      requires Valid() && id in nodes
      ensures d == View().nodes[id]
    {
      d := nodes[id].View();
    }

    /** CopyNetwork makes a new graph over the SAME devices: node records are copied by
        pointer, edges by value. The copy therefore has the same value, and afterwards the
        flags and tags of both networks change together while their edges do not. */
    method CopyNetwork() returns (copy: Network)
      requires Valid()
      ensures fresh(copy) && copy.Valid() && copy.View() == View()
      ensures forall id :: id in nodes ==> id in copy.nodes && copy.nodes[id] == nodes[id]
    {
      copy := new Network.New(localDeviceId);
      var ns := CopyEntries(nodes);
      var es := CopyEntries(edges);
      copy.nodes, copy.edges := ns, es;
    }
  }

  lemma ValidIsWellFormed(g: Network)
    requires g.Valid()
    ensures WellFormed(g.View())
  {
  }

  /** The copying loops: one entry at a time, in whatever order the iterator gives. */
  method CopyEntries<K(==), V>(source: map<K, V>) returns (target: map<K, V>)
    ensures target == source
  {
    target := map[];
    var todo := source.Keys;
    while todo != {}
      invariant todo <= source.Keys && target.Keys == source.Keys - todo
      invariant forall k :: k in target ==> target[k] == source[k]
      decreases todo
    {
      var k :| k in todo;
      target := target[k := source[k]];
      todo := todo - {k};
    }
  }
}

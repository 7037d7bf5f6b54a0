/** The GraphML object of graphml/graphml.go. It keeps its keys in a list and, beside it, in two
    maps; Valid says that the maps are exact indexes of the list. Every method is proved equal
    to the operation of the same name in GraphDocument. */
module GraphMl {
  import opened Basics
  import opened NodeIds
  import opened GraphDocument
  import opened AttributeValues
  import G = GraphDocument

  class GraphML {
    var keys: seq<Key>
    var data: seq<Data>
    var graphs: seq<Graph>
    var keysByIdentifier: map<string, Key>
    var keysById: map<string, Key>

    ghost function View(): Doc
      reads this
    {
      Doc(keys, data, graphs)
    }

    ghost predicate Valid()
      reads this
    {
      Good(View()) && ById(keys, keysById) && ByIdentifier(keys, keysByIdentifier)
    }

    constructor ()
      ensures Valid() && View() == EMPTY
    {
      keys, data, graphs, keysByIdentifier, keysById := [], [], [], map[], map[];
    }

    method GetKey(name: string, target: Target) returns (key: Option<Key>)
      requires Valid()
      ensures key == G.GetKey(keys, name, target)
    {
      if KeyIdentifier(name, target) in keysByIdentifier {
        return Some(keysByIdentifier[KeyIdentifier(name, target)]);
      }
      if KeyIdentifier(name, ForAll) in keysByIdentifier {
        return Some(keysByIdentifier[KeyIdentifier(name, ForAll)]);
      }
      return None;
    }

    /** Candidates d, d1, d2, ... from the number of keys on, until one is not taken. */
    method NextKeyId() returns (id: string)
      requires Valid()
      ensures id == G.NextKeyId(keys)
    {
      FirstUnusedIs("d", KeyIds(keys), |keys|);
      ghost var last := FirstUnused("d", KeyIds(keys), |keys|);
      var count := |keys|;
      id := "";
      var found := true;
      while found
        invariant |keys| <= count <= last + 1
        invariant !found ==> count == last + 1 && id == Name("d", last)
        invariant found ==> count <= last
        decreases last + 1 - count
      {
        id := Name("d", count);
        count := count + 1;
        found := id in keysById;
      }
    }

    method RegisterKey(target: Target, name: string, description: string, kind: Option<KeyType>,
        default: Value) returns (r: Result<Key>)
      requires Valid()
      modifies this`keys, this`keysByIdentifier, this`keysById
      ensures Valid()
      ensures var spec := G.RegisterKey(old(View()), target, name, description, kind, default);
              if spec.Ok? then r == Ok(spec.value.1) && View() == spec.value.0 else r == Err && View() == old(View())
    {
      var key := GetKey(name, target);
      if key.Some? {
        return Err;
      }
      var id := NextKeyId();
      if kind.None? {
        return Err;
      }
      var defaultValue := Chars("");
      if default != Nil {
        var text := StringValue(default, kind.value);
        if text.None? {
          return Err;
        }
        defaultValue := text.value;
      }
      RegisterKeepsKeys(View(), target, name, description, kind, default);
      var k := Key(id, target, name, description, kind.value, defaultValue);
      AddKey(k);
      r := Ok(k);
    }

    /** createDataAttribute, under a name: the key is looked up, and registered when missing. */
    method CreateDataAttribute(value: Value, name: string, target: Target) returns (r: Result<Data>)
      requires Valid()
      modifies this`keys, this`keysByIdentifier, this`keysById
      ensures Valid() && (View(), r) == CreateData(old(View()), name, value, target)
    {
      hide Good, ById, ByIdentifier, G.GetKey, G.RegisterKey, DataWithKey;
      var key := GetKey(name, target);
      if key.None? {
        var registered := RegisterKey(target, name, "", TypeOf(value), Nil);
        if registered.Err? {
          return Err;
        }
        key := Some(registered.value);
      }
      r := CreateDataWithKey(value, key.value);
    }

    method CreateDataAttributes(attributes: Attributes, target: Target) returns (r: Result<seq<Data>>)
      requires Valid()
      modifies this`keys, this`keysByIdentifier, this`keysById
      ensures Valid() && (View(), r) == CreateAll(old(View()), attributes, target)
    {
      hide Good, ById, ByIdentifier, CreateData;
      ghost var d := View();
      var created: seq<Data> := [];
      for i := 0 to |attributes|
        invariant Valid() && (View(), Ok(created)) == CreateAll(d, attributes[..i], target)
      {
        assert attributes[..i + 1][..i] == attributes[..i];
        var x := CreateDataAttribute(attributes[i].1, attributes[i].0, target);
        if x.Err? {
          FailsForGood(d, attributes, i + 1, target);
          return Err;
        }
        created := created + [x.value];
      }
      assert attributes[..|attributes|] == attributes;
      r := Ok(created);
    }

    // One more graph, or another one in the place of an old one.
    method StoreGraphs(gs: seq<Graph>)
      requires Valid() && Good(View().(graphs := gs))
      modifies this`graphs
      ensures Valid() && View() == old(View()).(graphs := gs)
    {
      graphs := gs;
    }

    method AddGraph(description: string, edgeDefault: Direction, attributes: Attributes) returns (ok: bool)
      requires Valid() && DistinctNames(attributes)
      modifies this
      ensures Valid() && (View(), ok) == G.AddGraph(old(View()), description, edgeDefault, attributes)
    {
      hide Good, ById, ByIdentifier, CreateAll, FirstUnused, Name;
      if edgeDefault == Default {
        return false;
      }
      ghost var d := View();
      NewGraphKeepsGood(d, NewGraph(description, edgeDefault, attributes));
      var id := NextGraphId(graphs);
      var created := CreateDataAttributes(attributes, ForGraph);
      if created.Err? {
        return false;
      }
      StoreGraphs(graphs + [Graph(id, edgeDefault, description, [], [], created.value)]);
      ok := true;
    }

    method AddNode(g: nat, attributes: Attributes, nodeId: string, description: string) returns (ok: bool)
      requires Valid() && g < |graphs| && DistinctNames(attributes)
      modifies this
      ensures Valid() && (View(), ok) == G.AddNode(old(View()), g, attributes, nodeId, description)
    {
      hide Good, ById, ByIdentifier, CreateAll, FirstUnused, Name;
      AddNodeKeepsGood(View(), g, attributes, nodeId, description);
      var gr := graphs[g];
      var id := nodeId;
      if |id| == 0 {
        id := NextNodeId(gr.nodes);
      }
      var created := CreateDataAttributes(attributes, ForNode);
      if created.Err? {
        return false;
      }
      StoreGraphs(graphs[g := gr.(nodes := gr.nodes + [Node(id, description, created.value)])]);
      ok := true;
    }

    method AddEdge(g: nat, source: string, target: string, attributes: Attributes, direction: Direction,
        description: string) returns (ok: bool)
      requires Valid() && g < |graphs| && DistinctNames(attributes)
      modifies this
      ensures Valid() && (View(), ok) == G.AddEdge(old(View()), g, source, target, attributes, direction, description)
    {
      hide Good, ById, ByIdentifier, CreateAll, FirstUnused, Name, HasEdge, EdgeIdentifier;
      AddEdgeKeepsGood(View(), g, source, target, attributes, direction, description);
      var gr := graphs[g];
      var present := EdgeIsThere(gr.edges, EdgeIdentifier(source, target));
      if !present && (direction == Undirected || gr.edgeDefault == Undirected) {
        present := EdgeIsThere(gr.edges, EdgeIdentifier(target, source));
      }
      EdgesOf(gr, EdgeIdentifier(source, target));
      EdgesOf(gr, EdgeIdentifier(target, source));
      if present {
        return false;
      }
      var id := NextEdgeId(gr.edges);
      var created := CreateDataAttributes(attributes, ForEdge);
      if created.Err? {
        return false;
      }
      var edge := Edge(id, source, target, direction, description, created.value);
      StoreGraphs(graphs[g := gr.(edges := gr.edges + [edge])]);
      ok := true;
    }

    /** SetAttribute of a document, a graph, a node or an edge. */
    method SetAttributeAt(p: Place, name: string, value: Value) returns (ok: bool)
      requires Valid() && IsPlace(View(), p)
      modifies this
      ensures Valid() && View() == Apply(old(View()), SetAttribute(p, name, value))
      ensures ok <==> SetData(old(View()), DataAt(old(View()), p), TargetOf(p), name, value).1.Ok?
    {
      hide Good, ById, ByIdentifier, CreateData, PutData;
      OperationKeepsGood(View(), SetAttribute(p, name, value));
      ghost var d := View();
      var x := CreateDataAttribute(value, name, TargetOf(p));
      if x.Err? {
        return false;
      }
      match p {
        case Root =>
          data := SetAttributeForData(data, x.value);
        case OfGraph(g) =>
          var ds := SetAttributeForData(graphs[g].data, x.value);
          graphs := graphs[g := graphs[g].(data := ds)];
        case OfNode(g, n) =>
          var ds := SetAttributeForData(graphs[g].nodes[n].data, x.value);
          graphs := graphs[g := graphs[g].(nodes := graphs[g].nodes[n := graphs[g].nodes[n].(data := ds)])];
        case OfEdge(g, e) =>
          var ds := SetAttributeForData(graphs[g].edges[e].data, x.value);
          graphs := graphs[g := graphs[g].(edges := graphs[g].edges[e := graphs[g].edges[e].(data := ds)])];
      }
      ok := true;
    }

    method AddKey(k: Key)
      requires Valid() && KeysOk(keys + [k])
      modifies this`keys, this`keysByIdentifier, this`keysById
      ensures Valid() && View() == old(View()).(keys := old(keys) + [k])
    {
      MoreKeysStayGood(View(), View().(keys := keys + [k]));
      IndexMore(keys, keysById, keysByIdentifier, k);
      hide Good, ById, ByIdentifier;
      keys := keys + [k];
      keysByIdentifier := keysByIdentifier[KeyIdentifier(k.name, k.target) := k];
      keysById := keysById[k.id := k];
    }

    /** The list of keys and the two maps first, then every element that can have data for it. */
    method RemoveKey(key: Key) returns (ok: bool)
      requires Valid()
      modifies this
      ensures Valid()
      ensures ok ==> G.RemoveKey(old(View()), key) == Ok(View())
      ensures !ok ==> key !in keys && View() == old(View())
    {
      hide Good, ById, ByIdentifier, DropKey, ClearedGraph, RemoveData, KeyIdentifier, G.RemoveKey;
      var i := IndexOfKey(keys, key);
      if i == |keys| {
        return false;
      }
      ghost var d := View();
      RemovedIsGood(d, key, keysById, keysByIdentifier);
      keys := keys[..i] + keys[i + 1..];
      keysById := keysById - {key.id};
      keysByIdentifier := keysByIdentifier - {KeyIdentifier(key.name, key.target)};
      ClearElements(key);
      ClearedDoc(d, key, View());
      ok := true;
    }

    // The rest of RemoveKey.
    method ClearElements(key: Key)
      modifies this`data, this`graphs
      ensures data
        == if key.target == ForAll || key.target == ForGraphML then RemoveData(old(data), key.id) else old(data)
      ensures key.target == ForGraphML ==> graphs == old(graphs)
      ensures key.target != ForGraphML ==>
                && |graphs| == |old(graphs)|
                && forall i :: 0 <= i < |graphs| ==> graphs[i] == ClearedGraph(old(graphs)[i], key)
    {
      if key.target == ForAll || key.target == ForGraphML {
        data := RemoveAttributeFromData(data, key.id);
      }
      if key.target == ForGraphML {
        return;
      }
      graphs := ClearGraphs(graphs, key);
    }
  }

  lemma ClearedDoc(d: Doc, key: Key, d': Doc)
    requires key in d.keys && d'.keys == DropKey(d.keys, key)
    requires d'.data == if key.target == ForAll || key.target == ForGraphML then RemoveData(d.data, key.id) else d.data
    requires key.target == ForGraphML ==> d'.graphs == d.graphs
    requires key.target != ForGraphML ==>
               && |d'.graphs| == |d.graphs|
               && forall i :: 0 <= i < |d.graphs| ==> d'.graphs[i] == ClearedGraph(d.graphs[i], key)
    ensures G.RemoveKey(d, key) == Ok(d')
  {
    assert d'.graphs == G.RemoveKey(d, key).value.graphs;
  }

  // The place of a key in the list, or the length of the list.
  method IndexOfKey(keys: seq<Key>, key: Key) returns (i: nat)
    ensures i <= |keys| && (i == |keys| <==> key !in keys)
    ensures i < |keys| ==> keys[..i] + keys[i + 1..] == DropKey(keys, key)
  {
    i := 0;
    while i < |keys| && keys[i] != key
      invariant i <= |keys| && key !in keys[..i]
    {
      i := i + 1;
    }
    if i == |keys| {
      assert keys[..i] == keys;
    } else {
      DropKeyAt(keys, i);
    }
  }

  /** The map from ids is an exact index of the list. */
  ghost predicate ById(keys: seq<Key>, m: map<string, Key>) {
    && m.Keys == KeyIds(keys)
    && forall k :: k in keys ==> k.id in m && m[k.id] == k
  }

  /** So is the map from identifiers. */
  ghost predicate ByIdentifier(keys: seq<Key>, m: map<string, Key>) {
    forall s :: if s in m then FindKey(keys, s) == Some(m[s]) else FindKey(keys, s) == None
  }

  lemma IndexMore(keys: seq<Key>, byId: map<string, Key>, byIdentifier: map<string, Key>, k: Key)
    requires ById(keys, byId) && ByIdentifier(keys, byIdentifier) && KeysOk(keys + [k])
    ensures ById(keys + [k], byId[k.id := k])
    ensures ByIdentifier(keys + [k], byIdentifier[KeyIdentifier(k.name, k.target) := k])
  {
    forall x | x in keys ensures x.id != k.id {
      var i :| 0 <= i < |keys| && keys[i] == x;
      assert (keys + [k])[i].id != (keys + [k])[|keys|].id;
    }
    forall s
      ensures FindKey(keys + [k], s) == if KeyIdentifier(k.name, k.target) == s then Some(k) else FindKey(keys, s)
    {
      FindKeySnoc(keys, k, s);
    }
    assert byId[k.id := k].Keys == KeyIds(keys + [k]);
  }

  lemma {:induction false} DropKeyAt(keys: seq<Key>, i: nat)
    requires i < |keys| && keys[i] !in keys[..i]
    ensures DropKey(keys, keys[i]) == keys[..i] + keys[i + 1..]
  {
    if i > 0 {
      assert keys[0] in keys[..i] && keys[1..][..i - 1] == keys[..i][1..];
      DropKeyAt(keys[1..], i - 1);
    }
  }

  lemma RemovedIsGood(d: Doc, k: Key, byId: map<string, Key>, byIdentifier: map<string, Key>)
    requires Good(d) && ById(d.keys, byId) && ByIdentifier(d.keys, byIdentifier) && k in d.keys
    ensures G.RemoveKey(d, k).Ok? && Good(G.RemoveKey(d, k).value)
    ensures ById(DropKey(d.keys, k), byId - {k.id})
    ensures ByIdentifier(DropKey(d.keys, k), byIdentifier - {KeyIdentifier(k.name, k.target)})
  {
    GoodKeys(d);
    DropKeyDrops(d.keys, k);
    hide Good, KeysOk, ById, ByIdentifier, KeyIdentifier, DocRefers, ClearedGraph;
    RemoveKeyCascades(d, k);
    ByIdFewer(d.keys, DropKey(d.keys, k), byId, k);
    ByIdentifierFewer(d.keys, DropKey(d.keys, k), byIdentifier, k);
  }

  lemma ByIdentifierFewer(keys: seq<Key>, rest: seq<Key>, m: map<string, Key>, k: Key)
    requires ByIdentifier(keys, m) && KeysOk(keys) && k in keys && forall x :: x in rest <==> x in keys && x != k
    ensures ByIdentifier(rest, m - {KeyIdentifier(k.name, k.target)})
  {
    hide KeysOk, KeyIdentifier, FindKey;
    forall s ensures FindKey(rest, s) == if s == KeyIdentifier(k.name, k.target) then None else FindKey(keys, s) {
      FindAfterDrop(keys, rest, k, s);
    }
  }

  lemma ByIdFewer(keys: seq<Key>, rest: seq<Key>, m: map<string, Key>, k: Key)
    requires ById(keys, m) && KeysOk(keys) && k in keys && forall x :: x in rest <==> x in keys && x != k
    ensures ById(rest, m - {k.id})
  {
    forall x | x in rest ensures x.id != k.id { DifferentIds(keys, k, x); }
    hide KeysOk;
    assert (m - {k.id}).Keys == KeyIds(rest);
  }

  lemma FindAfterDrop(keys: seq<Key>, rest: seq<Key>, k: Key, s: string)
    requires KeysOk(keys) && k in keys && forall x :: x in rest <==> x in keys && x != k
    ensures FindKey(rest, s) == if s == KeyIdentifier(k.name, k.target) then None else FindKey(keys, s)
  {
    FindKeyIs(rest, s);
    FindKeyIs(keys, s);
    hide KeysOk, KeyIdentifier, FindKey;
    if FindKey(rest, s).Some? {
      var x := FindKey(rest, s).value;
      SameIdentifier(keys, x, k);
      if FindKey(keys, s).Some? { SameIdentifier(keys, x, FindKey(keys, s).value); }
    }
  }

  lemma SameIdentifier(keys: seq<Key>, k: Key, l: Key)
    requires KeysOk(keys) && k in keys && l in keys
    ensures KeyIdentifier(k.name, k.target) == KeyIdentifier(l.name, l.target) ==> k == l
  {
    var i :| 0 <= i < |keys| && keys[i] == k;
    var j :| 0 <= j < |keys| && keys[j] == l;
  }

  lemma {:induction false} FailsForGood(d: Doc, attributes: Attributes, i: nat, target: Target)
    requires i <= |attributes| && CreateAll(d, attributes[..i], target).1.Err?
    ensures CreateAll(d, attributes, target) == CreateAll(d, attributes[..i], target)
    decreases |attributes| - i
  {
    if i == |attributes| {
      assert attributes[..i] == attributes;
    } else {
      assert attributes[..i + 1][..i] == attributes[..i];
      FailsForGood(d, attributes, i + 1, target);
    }
  }

  method CreateDataWithKey(value: Value, key: Key) returns (r: Result<Data>)
    ensures r == DataWithKey(value, key)
  {
    if value != Nil {
      var text := StringValue(value, key.keyType);
      if text.Some? {
        return Ok(Data(key.id, text.value));
      }
    } else if key.target == ForAll && key.defaultValue != Chars("") {
      return Ok(Data(key.id, key.defaultValue));
    } else {
      return Err;
    }
    return Ok(Data(key.id, Chars("unsupported")));
  }

  method SetAttributeForData(data: seq<Data>, newData: Data) returns (r: seq<Data>)
    ensures r == PutData(data, newData)
  {
    for i := 0 to |data|
      invariant PutData(data, newData) == data[..i] + PutData(data[i..], newData)
    {
      if data[i].key == newData.key {
        assert data[i..][1..] == data[i + 1..];
        assert data[i := newData] == data[..i] + ([newData] + data[i + 1..]);
        return data[i := newData];
      }
      assert data[i..][1..] == data[i + 1..];
      assert data[..i + 1] == data[..i] + [data[i]];
    }
    assert data[..|data|] == data && data[|data|..] == [];
    r := data + [newData];
  }

  // ---------------------------------------------------------------- fresh ids

  // Whether one of the ids is this one: the inner loop of the searches for an id.
  method IdIsTaken(ids: seq<string>, id: string) returns (found: bool)
    ensures found <==> id in ids
  {
    found := false;
    for i := 0 to |ids|
      invariant !found && id !in ids[..i]
    {
      if ids[i] == id {
        return true;
      }
    }
  }

  /** The search of nextGraphId and nextEdgeId: from the number of elements on, the first
      numbered name that no element has. */
  method NextId(prefix: string, ids: seq<string>) returns (id: string)
    ensures id == Name(prefix, FirstUnused(prefix, set i | i in ids, |ids|))
  {
    ghost var used := set i | i in ids;
    FirstUnusedIs(prefix, used, |ids|);
    ghost var last := FirstUnused(prefix, used, |ids|);
    hide Name, FirstUnused;
    var count := |ids|;
    id := "";
    var found := true;
    while found
      invariant |ids| <= count <= last
      invariant !found ==> count == last && id == Name(prefix, last)
      decreases last - count, found
    {
      id := Name(prefix, count);
      found := IdIsTaken(ids, id);
      if found {
        count := count + 1;
      }
    }
  }

  method NextGraphId(graphs: seq<Graph>) returns (id: string)
    ensures id == Name("g", FirstUnused("g", set g | g in graphs :: g.id, |graphs|))
  {
    var ids := seq(|graphs|, i requires 0 <= i < |graphs| => graphs[i].id);
    var taken, own := set i | i in ids, set g | g in graphs :: g.id;
    forall x ensures x in taken <==> x in own {
      if x in taken { var i :| 0 <= i < |ids| && ids[i] == x; assert graphs[i] in graphs; }
      if x in own { var i :| 0 <= i < |graphs| && graphs[i].id == x; assert ids[i] == x; }
    }
    assert taken == own;
    id := NextId("g", ids);
  }

  method NextEdgeId(edges: seq<Edge>) returns (id: string)
    ensures id == Name("e", FirstUnused("e", set e | e in edges :: e.id, |edges|))
  {
    var ids := seq(|edges|, i requires 0 <= i < |edges| => edges[i].id);
    var taken, own := set i | i in ids, set e | e in edges :: e.id;
    forall x ensures x in taken <==> x in own {
      if x in taken { var i :| 0 <= i < |ids| && ids[i] == x; assert edges[i] in edges; }
      if x in own { var i :| 0 <= i < |edges| && edges[i].id == x; assert ids[i] == x; }
    }
    assert taken == own;
    id := NextId("e", ids);
  }

  /** nextNodeId asks the map of nodes, which has the ids of the list for its keys. */
  method NextNodeId(nodes: seq<Node>) returns (id: string)
    ensures id == Name("n", FirstUnused("n", set n | n in nodes :: n.id, |nodes|))
  {
    var used := set n | n in nodes :: n.id;
    FirstUnusedIs("n", used, |nodes|);
    ghost var last := FirstUnused("n", used, |nodes|);
    hide Name, FirstUnused;
    var count := |nodes|;
    id := "";
    var found := true;
    while found
      invariant |nodes| <= count <= last + 1
      invariant !found ==> count == last + 1 && id == Name("n", last)
      invariant found ==> count <= last
      decreases last + 1 - count
    {
      id := Name("n", count);
      count := count + 1;
      found := id in used;
    }
  }

  method EdgeIsThere(edges: seq<Edge>, identifier: string) returns (found: bool)
    ensures found <==> exists i :: 0 <= i < |edges| && EdgeIdentifier(edges[i].source, edges[i].target) == identifier
  {
    found := false;
    for i := 0 to |edges|
      invariant !found && forall j :: 0 <= j < i ==> EdgeIdentifier(edges[j].source, edges[j].target) != identifier
    {
      if EdgeIdentifier(edges[i].source, edges[i].target) == identifier {
        return true;
      }
    }
  }

  lemma EdgesOf(g: Graph, identifier: string)
    ensures HasEdge(g, identifier) <==>
            exists i :: 0 <= i < |g.edges| && EdgeIdentifier(g.edges[i].source, g.edges[i].target) == identifier
  {
    hide EdgeIdentifier;
    if i :| 0 <= i < |g.edges| && EdgeIdentifier(g.edges[i].source, g.edges[i].target) == identifier {
      assert g.edges[i] in g.edges;
    }
  }

  // ---------------------------------------------------------------- reading attributes

  /** attributesForData: first the data, then the defaults for what is missing. */
  method AttributesForData(keys: seq<Key>, data: seq<Data>, target: Target) returns (attr: Option<map<string, Value>>)
    ensures attr == AttributesFor(keys, data, target)
  {
    hide ReadOne, HasDefault, ValueByType;
    var m: map<string, Value> := map[];
    for i := 0 to |data|
      invariant ReadData(keys, data[..i]) == Some(m)
    {
      assert data[..i + 1][..i] == data[..i];
      var x := ReadOne(keys, data[i]);
      if x.None? {
        ReadFailsForGood(keys, data, i + 1);
        return None;
      }
      m := m[x.value.0 := x.value.1];
    }
    assert data[..|data|] == data;
    for i := 0 to |keys|
      invariant FillDefaults(keys, target, ReadData(keys, data).value) == FillDefaults(keys[i..], target, m)
    {
      var k := keys[i];
      if HasDefault(k, target) && k.name !in m {
        var v := ValueByType(k.defaultValue, k.keyType);
        if v.None? {
          return None;
        }
        m := m[k.name := v.value];
      }
    }
    attr := Some(m);
  }

  lemma {:induction false} ReadFailsForGood(keys: seq<Key>, data: seq<Data>, i: nat)
    requires i <= |data| && ReadData(keys, data[..i]).None?
    ensures ReadData(keys, data).None?
    decreases |data| - i
  {
    if i == |data| {
      assert data[..i] == data;
    } else {
      assert data[..i + 1][..i] == data[..i];
      ReadFailsForGood(keys, data, i + 1);
    }
  }

  method RemoveAttributeFromData(data: seq<Data>, key: string) returns (r: seq<Data>)
    ensures r == RemoveData(data, key)
  {
    var i := 0;
    while i < |data|
      invariant 0 <= i <= |data|
      invariant RemoveData(data, key) == data[..i] + RemoveData(data[i..], key)
    {
      if data[i].key == key {
        return data[..i] + data[i + 1..];
      }
      i := i + 1;
    }
    r := data;
  }

  // The loop over the graphs in RemoveKey.
  method ClearGraphs(graphs: seq<Graph>, key: Key) returns (r: seq<Graph>)
    ensures |r| == |graphs| && forall i :: 0 <= i < |graphs| ==> r[i] == ClearedGraph(graphs[i], key)
  {
    r := [];
    for g := 0 to |graphs|
      invariant |r| == g && forall i :: 0 <= i < g ==> r[i] == ClearedGraph(graphs[i], key)
    {
      var graph := graphs[g];
      if key.target == ForAll || key.target == ForGraph {
        var d := RemoveAttributeFromData(graph.data, key.id);
        graph := graph.(data := d);
      }
      if key.target == ForAll || key.target == ForNode {
        var ns := ClearNodes(graph.nodes, key);
        graph := graph.(nodes := ns);
      }
      if key.target == ForAll || key.target == ForEdge {
        var es := ClearEdges(graph.edges, key);
        graph := graph.(edges := es);
      }
      assert graph.nodes == ClearedGraph(graphs[g], key).nodes;
      assert graph.edges == ClearedGraph(graphs[g], key).edges;
      r := r + [graph];
    }
  }

  method ClearNodes(nodes: seq<Node>, key: Key) returns (r: seq<Node>)
    requires key.target == ForAll || key.target == ForNode
    ensures |r| == |nodes| && forall i :: 0 <= i < |nodes| ==> r[i] == ClearedNode(nodes[i], key)
  {
    r := [];
    for i := 0 to |nodes|
      invariant |r| == i && forall j :: 0 <= j < i ==> r[j] == ClearedNode(nodes[j], key)
    {
      var d := RemoveAttributeFromData(nodes[i].data, key.id);
      r := r + [nodes[i].(data := d)];
    }
  }

  method ClearEdges(edges: seq<Edge>, key: Key) returns (r: seq<Edge>)
    requires key.target == ForAll || key.target == ForEdge
    ensures |r| == |edges| && forall i :: 0 <= i < |edges| ==> r[i] == ClearedEdge(edges[i], key)
  {
    r := [];
    for i := 0 to |edges|
      invariant |r| == i && forall j :: 0 <= j < i ==> r[j] == ClearedEdge(edges[j], key)
    {
      var d := RemoveAttributeFromData(edges[i].data, key.id);
      r := r + [edges[i].(data := d)];
    }
  }
}

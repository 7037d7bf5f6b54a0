/** GraphML documents as values (graphml/graphml.go): keys declare attributes, data elements
    carry their values and name the key they belong to.

    Graphs, nodes and edges are values at a place of the document. A number in a text is kept
    as that number, so printing and parsing numbers is taken as faithful. An attribute map is
    a sequence of names and values, in the order of the sorted names. */
module GraphDocument {
  import opened Basics
  import opened NodeIds

  datatype Target = ForGraphML | ForGraph | ForNode | ForEdge | ForAll

  datatype KeyType = BooleanType | IntType | LongType | FloatType | DoubleType | StringType

  /** Character data. */
  datatype Text = Chars(s: string) | Whole(i: int) | Decimal(r: real)

  /** An attribute value, by the kind the program finds in it; Other is any kind that has no
      type here. */
  datatype Value =
    | Nil
    | Bool(b: bool)
    | Int(i: int)
    | Long(i: int)
    | Float(r: real)
    | Double(r: real)
    | Str(s: string)
    | Other

  datatype Key = Key(id: string, target: Target, name: string, description: string, keyType: KeyType,
      defaultValue: Text)
  datatype Data = Data(key: string, value: Text)
  datatype Node = Node(id: string, description: string, data: seq<Data>)
  datatype Direction = Default | Directed | Undirected
  datatype Edge = Edge(id: string, source: string, target: string, direction: Direction, description: string,
      data: seq<Data>)
  datatype Graph = Graph(id: string, edgeDefault: Direction, description: string, nodes: seq<Node>, edges: seq<Edge>,
      data: seq<Data>)

  datatype Doc = Doc(keys: seq<Key>, data: seq<Data>, graphs: seq<Graph>)

  const EMPTY := Doc([], [], [])

  type Attributes = seq<(string, Value)>

  // ---------------------------------------------------------------- names

  function TargetName(t: Target): string {
    match t
    case ForGraphML => "graphml"
    case ForGraph => "graph"
    case ForNode => "node"
    case ForEdge => "edge"
    case ForAll => "all"
  }

  function KeyIdentifier(name: string, t: Target): string { name + "_for_" + TargetName(t) }

  function EdgeIdentifier(source: string, target: string): string { source + "<->" + target }

  /** A key identifier tells both the name and the target, whatever characters the name has. */
  lemma KeyIdentifierTellsBoth(a: string, s: Target, b: string, t: Target)
    requires KeyIdentifier(a, s) == KeyIdentifier(b, t)
    ensures a == b && s == t
  {
    var x, y := KeyIdentifier(a, s), KeyIdentifier(b, t);
    var n := |x|;
    LastLetters(a, s);
    LastLetters(b, t);
    assert TargetName(s)[|TargetName(s)| - 1] == y[n - 1];
    assert s == t;
    assert x[..|a|] == a && y[..|b|] == b;
  }

  lemma LastLetters(a: string, s: Target)
    ensures var x, w := KeyIdentifier(a, s), TargetName(s);
            && |x| >= |w| + 5 && |w| >= 3
            && x[|x| - 1] == w[|w| - 1] && x[|x| - 2] == w[|w| - 2] && x[|x| - 3] == w[|w| - 3]
  {
  }

  predicate SeparatorAt(s: string, i: nat) {
    i + 3 <= |s| && s[i] == '<' && s[i + 1] == '-' && s[i + 2] == '>'
  }

  predicate HoldsSeparator(s: string) {
    exists i: nat | i < |s| :: SeparatorAt(s, i)
  }

  // Two separators never overlap, so the further one lies inside the other reading's end.
  lemma FurtherSeparator(a: string, b: string, c: string, d: string)
    requires EdgeIdentifier(a, b) == EdgeIdentifier(c, d) && |c| < |a|
    ensures HoldsSeparator(a) && HoldsSeparator(d)
  {
    var x, m, n := EdgeIdentifier(a, b), |c|, |a|;
    assert SeparatorAt(x, m) && SeparatorAt(x, n);
    assert n >= m + 3;
    assert SeparatorAt(a, m) by {
      assert a[m] == x[m] && a[m + 1] == x[m + 1] && a[m + 2] == x[m + 2];
    }
    var k := n - m - 3;
    assert SeparatorAt(d, k) by {
      assert d[k] == x[n] && d[k + 1] == x[n + 1] && d[k + 2] == x[n + 2];
    }
  }

  lemma SameEnds(a: string, b: string, c: string, d: string)
    requires EdgeIdentifier(a, b) == EdgeIdentifier(c, d) && |a| == |c|
    ensures a == c && b == d
  {
    var x, y := EdgeIdentifier(a, b), EdgeIdentifier(c, d);
    assert x[..|a|] == a && y[..|c|] == c;
    assert x[|a| + 3..] == b && y[|c| + 3..] == d;
  }

  /** An edge identifier tells its two ends as soon as neither source holds the separator. */
  lemma EdgeIdentifierTellsBoth(a: string, b: string, c: string, d: string)
    requires EdgeIdentifier(a, b) == EdgeIdentifier(c, d)
    requires !HoldsSeparator(a) && (!HoldsSeparator(b) || !HoldsSeparator(c))
    ensures a == c && b == d
  {
    hide HoldsSeparator;
    if |c| < |a| {
      FurtherSeparator(a, b, c, d);
    } else if |a| < |c| {
      FurtherSeparator(c, d, a, b);
    }
    SameEnds(a, b, c, d);
  }

  /** Two pairs of ends with one identifier. */
  lemma EdgeIdentifierIsAmbiguous()
    ensures EdgeIdentifier("a<->b", "c") == EdgeIdentifier("a", "b<->c")
  {
    assert "a<->b" + "<->" + "c" == "a" + "<->" + "b<->c";
  }

  ghost predicate OnlyReading(a: string, b: string) {
    forall c, d :: EdgeIdentifier(c, d) == EdgeIdentifier(a, b) ==> c == a && d == b
  }

  // Another pair of ends with the identifier of a and b, cut at a separator inside one of them.
  ghost function OtherReading(a: string, b: string): (r: (string, string))
    requires HoldsSeparator(a) || HoldsSeparator(b)
    ensures EdgeIdentifier(r.0, r.1) == EdgeIdentifier(a, b) && r.0 != a && r.1 != b
  {
    if HoldsSeparator(a) then
      var i: nat :| i < |a| && SeparatorAt(a, i);
      assert a == a[..i] + "<->" + a[i + 3..];
      assert a[..i] + "<->" + (a[i + 3..] + "<->" + b) == a + "<->" + b;
      assert |a[..i]| < |a| && |a[i + 3..] + "<->" + b| > |b|;
      (a[..i], a[i + 3..] + "<->" + b)
    else
      var i: nat :| i < |b| && SeparatorAt(b, i);
      assert b == b[..i] + "<->" + b[i + 3..];
      assert (a + "<->" + b[..i]) + "<->" + b[i + 3..] == a + "<->" + b;
      assert |a + "<->" + b[..i]| > |a| && |b[i + 3..]| < |b|;
      (a + "<->" + b[..i], b[i + 3..])
  }

  /** An edge identifier can be read in one way only exactly when neither end holds the
      separator. */
  lemma IdentifierIsUnambiguous(a: string, b: string)
    ensures OnlyReading(a, b) <==> !HoldsSeparator(a) && !HoldsSeparator(b)
  {
    hide HoldsSeparator, EdgeIdentifier;
    if HoldsSeparator(a) || HoldsSeparator(b) {
      var r := OtherReading(a, b);
      assert EdgeIdentifier(r.0, r.1) == EdgeIdentifier(a, b) && r.0 != a;
    } else {
      forall c, d | EdgeIdentifier(c, d) == EdgeIdentifier(a, b) ensures c == a && d == b {
        EdgeIdentifierTellsBoth(a, b, c, d);
      }
    }
  }

  // ---------------------------------------------------------------- fresh names

  /** The first number from n on whose name is not taken. */
  function FirstUnused(prefix: string, used: set<string>, n: nat): nat
    decreases |used|
  {
    if Name(prefix, n) !in used then n else FirstUnused(prefix, used - {Name(prefix, n)}, n + 1)
  }

  /** It comes within as many steps as there are names: each step takes one of them away. */
  lemma {:induction false} FirstUnusedIs(prefix: string, used: set<string>, n: nat)
    ensures var m := FirstUnused(prefix, used, n);
            && n <= m <= n + |used| && Name(prefix, m) !in used
            && forall i :: n <= i < m ==> Name(prefix, i) in used
    decreases |used|
  {
    hide Name;
    if Name(prefix, n) in used {
      var rest := used - {Name(prefix, n)};
      FirstUnusedIs(prefix, rest, n + 1);
      var m := FirstUnused(prefix, rest, n + 1);
      if Name(prefix, m) == Name(prefix, n) { NamesDiffer(prefix, m, n); }
    }
  }

  // ---------------------------------------------------------------- keys

  // The key an identifier stands for: the map keeps the last one entered.
  function FindKey(keys: seq<Key>, identifier: string): Option<Key> {
    if keys == [] then None
    else
      var k := keys[|keys| - 1];
      if KeyIdentifier(k.name, k.target) == identifier then Some(k) else FindKey(keys[..|keys| - 1], identifier)
  }

  function FindKeyById(keys: seq<Key>, id: string): Option<Key> {
    if keys == [] then None
    else if keys[|keys| - 1].id == id then Some(keys[|keys| - 1])
    else FindKeyById(keys[..|keys| - 1], id)
  }

  /** GetKey: the key for this very element, else the common one of that name. */
  function GetKey(keys: seq<Key>, name: string, target: Target): Option<Key> {
    var own := FindKey(keys, KeyIdentifier(name, target));
    if own.Some? then own else FindKey(keys, KeyIdentifier(name, ForAll))
  }

  function KeyIds(keys: seq<Key>): set<string> { set k | k in keys :: k.id }

  function NextKeyId(keys: seq<Key>): string {
    Name("d", FirstUnused("d", KeyIds(keys), |keys|))
  }

  function TypeOf(v: Value): Option<KeyType> {
    match v
    case Bool(_) => Some(BooleanType)
    case Int(_) => Some(IntType)
    case Long(_) => Some(LongType)
    case Float(_) => Some(FloatType)
    case Double(_) => Some(DoubleType)
    case Str(_) => Some(StringType)
    case _ => None
  }

  function Shown(v: Value): Text {
    match v
    case Bool(b) => Chars(if b then "true" else "false")
    case Int(i) => Whole(i)
    case Long(i) => Whole(i)
    case Float(r) => Decimal(r)
    case Double(r) => Decimal(r)
    case Str(s) => Chars(s)
    case _ => Chars("")
  }

  // Types that take each other's values.
  predicate Compatible(a: KeyType, b: KeyType) {
    || a == b
    || ((a == IntType || a == LongType) && (b == IntType || b == LongType))
    || ((a == FloatType || a == DoubleType) && (b == FloatType || b == DoubleType))
  }

  /** stringValueIfSupported; None when the value has the wrong type. */
  function StringValue(v: Value, t: KeyType): Option<Text> {
    if TypeOf(v).Some? && Compatible(t, TypeOf(v).value) then Some(Shown(v)) else None
  }

  /** RegisterKey. Nothing is registered when the element already has a key of that name, or
      shares one with all, or when the type or the default does not fit. */
  function RegisterKey(d: Doc, target: Target, name: string, description: string, kind: Option<KeyType>,
      default: Value): Result<(Doc, Key)> {
    if GetKey(d.keys, name, target).Some? || kind.None? then Err
    else if default != Nil && StringValue(default, kind.value).None? then Err
    else
      var text := if default == Nil then Chars("") else StringValue(default, kind.value).value;
      var k := Key(NextKeyId(d.keys), target, name, description, kind.value, text);
      Ok((d.(keys := d.keys + [k]), k))
  }

  // ---------------------------------------------------------------- data

  /** createDataWithKey. A value of the wrong type is not refused: the text "unsupported" is
      stored in its place. */
  function DataWithKey(v: Value, k: Key): Result<Data> {
    if v != Nil then
      Ok(Data(k.id, if StringValue(v, k.keyType).Some? then StringValue(v, k.keyType).value else Chars("unsupported")))
    else if k.target == ForAll && k.defaultValue != Chars("") then Ok(Data(k.id, k.defaultValue))
    else Err
  }

  /** createDataAttribute: a key is registered for a name that has none yet. The document comes
      back in any case, since a key stays registered when the value is then refused. */
  function CreateData(d: Doc, name: string, v: Value, target: Target): (r: (Doc, Result<Data>))
    ensures r.0 == d.(keys := r.0.keys)
  {
    var k := GetKey(d.keys, name, target);
    if k.Some? then (d, DataWithKey(v, k.value))
    else
      match RegisterKey(d, target, name, "", TypeOf(v), Nil)
      case Err => (d, Err)
      case Ok((d', k')) => (d', DataWithKey(v, k'))
  }

  function CreateAll(d: Doc, attributes: Attributes, target: Target): (r: (Doc, Result<seq<Data>>))
    ensures r.0 == d.(keys := r.0.keys)
    decreases |attributes|
  {
    if attributes == [] then (d, Ok([]))
    else
      var n := |attributes| - 1;
      var (d1, before) := CreateAll(d, attributes[..n], target);
      if before.Err? then (d1, Err)
      else
        var (d2, last) := CreateData(d1, attributes[n].0, attributes[n].1, target);
        if last.Err? then (d2, Err) else (d2, Ok(before.value + [last.value]))
  }

  /** removeAttributeFromData: the first element with that key. */
  function RemoveData(data: seq<Data>, key: string): seq<Data> {
    if data == [] then []
    else if data[0].key == key then data[1..]
    else [data[0]] + RemoveData(data[1..], key)
  }

  // The element with the same key replaced, or the new one at the end.
  function PutData(data: seq<Data>, x: Data): seq<Data> {
    if data == [] then [x]
    else if data[0].key == x.key then [x] + data[1..]
    else [data[0]] + PutData(data[1..], x)
  }

  /** setAttributeForData. What its comment calls a key ID is used as the name of the
      attribute: a key is looked up, or registered, under that name. */
  function SetData(d: Doc, data: seq<Data>, target: Target, name: string, v: Value): (r: (Doc, Result<seq<Data>>))
    ensures r.0 == d.(keys := r.0.keys)
  {
    var (d', x) := CreateData(d, name, v, target);
    (d', if x.Err? then Err else Ok(PutData(data, x.value)))
  }

  // ---------------------------------------------------------------- the document

  predicate Refers(data: seq<Data>, id: string) { exists i :: 0 <= i < |data| && data[i].key == id }

  // The keys without k, which is the only one with its id.
  function DropKey(keys: seq<Key>, k: Key): seq<Key> {
    if keys == [] then []
    else if keys[0] == k then keys[1..]
    else [keys[0]] + DropKey(keys[1..], k)
  }

  function ClearedNode(n: Node, k: Key): Node {
    if k.target == ForAll || k.target == ForNode then n.(data := RemoveData(n.data, k.id)) else n
  }

  function ClearedEdge(e: Edge, k: Key): Edge {
    if k.target == ForAll || k.target == ForEdge then e.(data := RemoveData(e.data, k.id)) else e
  }

  function ClearedGraph(g: Graph, k: Key): Graph {
    g.(data := if k.target == ForAll || k.target == ForGraph then RemoveData(g.data, k.id) else g.data,
       nodes := seq(|g.nodes|, i requires 0 <= i < |g.nodes| => ClearedNode(g.nodes[i], k)),
       edges := seq(|g.edges|, i requires 0 <= i < |g.edges| => ClearedEdge(g.edges[i], k)))
  }

  /** RemoveKey: the key goes, and with it the data it was for, in every element that can have any. */
  function RemoveKey(d: Doc, k: Key): Result<Doc> {
    if k !in d.keys then Err
    else Ok(Doc(
      DropKey(d.keys, k),
      if k.target == ForAll || k.target == ForGraphML then RemoveData(d.data, k.id) else d.data,
      if k.target == ForGraphML then d.graphs
      else seq(|d.graphs|, i requires 0 <= i < |d.graphs| => ClearedGraph(d.graphs[i], k))))
  }

  function GraphIds(d: Doc): set<string> { set g | g in d.graphs :: g.id }
  function NodeIdsOf(g: Graph): set<string> { set n | n in g.nodes :: n.id }
  function EdgeIds(g: Graph): set<string> { set e | e in g.edges :: e.id }

  predicate HasEdge(g: Graph, identifier: string) {
    exists e :: e in g.edges && EdgeIdentifier(e.source, e.target) == identifier
  }

  function AddGraph(d: Doc, description: string, edgeDefault: Direction, attributes: Attributes): (Doc, bool) {
    if edgeDefault == Default then (d, false)
    else
      var id := Name("g", FirstUnused("g", GraphIds(d), |d.graphs|));
      var (d', data) := CreateAll(d, attributes, ForGraph);
      if data.Err? then (d', false)
      else (d'.(graphs := d'.graphs + [Graph(id, edgeDefault, description, [], [], data.value)]), true)
  }

  function PutGraph(d: Doc, g: nat, gr: Graph): Doc
    requires g < |d.graphs|
  {
    d.(graphs := d.graphs[g := gr])
  }

  /** AddNode. An id that is given is taken as it is, even when a node has it already. */
  function AddNode(d: Doc, g: nat, attributes: Attributes, nodeId: string, description: string): (r: (Doc, bool))
    requires g < |d.graphs|
    ensures |r.0.graphs| == |d.graphs|
  {
    var gr := d.graphs[g];
    var id := if nodeId == "" then Name("n", FirstUnused("n", NodeIdsOf(gr), |gr.nodes|)) else nodeId;
    var (d', data) := CreateAll(d, attributes, ForNode);
    if data.Err? then (d', false)
    else (d'.(graphs := d.graphs[g := gr.(nodes := gr.nodes + [Node(id, description, data.value)])]), true)
  }

  /** Whether AddEdge finds the edge there already: also the other way round when the edge or
      the graph is undirected. */
  predicate EdgeExists(gr: Graph, source: string, target: string, direction: Direction) {
    || HasEdge(gr, EdgeIdentifier(source, target))
    || ((direction == Undirected || gr.edgeDefault == Undirected) && HasEdge(gr, EdgeIdentifier(target, source)))
  }

  /** What AddEdge means by an edge that is there already. */
  predicate EdgeIsPresent(gr: Graph, source: string, target: string, direction: Direction) {
    || (exists e :: e in gr.edges && e.source == source && e.target == target)
    || ((direction == Undirected || gr.edgeDefault == Undirected)
        && exists e :: e in gr.edges && e.source == target && e.target == source)
  }

  ghost predicate TestIsExact(source: string, target: string) {
    forall gr, direction :: EdgeExists(gr, source, target, direction) <==> EdgeIsPresent(gr, source, target, direction)
  }

  lemma HasOnly(gr: Graph, source: string, target: string)
    requires OnlyReading(source, target)
    ensures HasEdge(gr, EdgeIdentifier(source, target))
      <==> exists e :: e in gr.edges && e.source == source && e.target == target
  {
    hide EdgeIdentifier;
  }

  /** The test of AddEdge is right for every graph exactly when neither end holds the
      separator of the identifiers. */
  lemma EdgeTestIsExact(source: string, target: string)
    ensures TestIsExact(source, target) <==> !HoldsSeparator(source) && !HoldsSeparator(target)
  {
    hide HoldsSeparator, EdgeIdentifier, HasEdge, OnlyReading;
    IdentifierIsUnambiguous(source, target);
    IdentifierIsUnambiguous(target, source);
    if HoldsSeparator(source) || HoldsSeparator(target) {
      var r := OtherReading(source, target);
      var edge := Edge("e0", r.0, r.1, Directed, "", []);
      var gr := Graph("g0", Directed, "", [], [edge], []);
      OneEdge(gr, edge);
      assert EdgeExists(gr, source, target, Directed) && !EdgeIsPresent(gr, source, target, Directed);
    } else {
      forall gr, direction
        ensures EdgeExists(gr, source, target, direction) <==> EdgeIsPresent(gr, source, target, direction)
      {
        HasOnly(gr, source, target);
        HasOnly(gr, target, source);
      }
    }
  }

  lemma OneEdge(gr: Graph, e: Edge)
    requires gr.edges == [e]
    ensures HasEdge(gr, EdgeIdentifier(e.source, e.target))
  {
    hide EdgeIdentifier;
    assert e in gr.edges;
  }

  /** One that is refused wrongly: the nodes are there, no edge joins them, and the one edge
      of the graph joins two others. */
  lemma AnEdgeRefusedWrongly(attributes: Attributes, description: string)
    ensures var nodes := [Node("a<->b", "", []), Node("c", "", []), Node("a", "", []), Node("b<->c", "", [])];
            var gr := Graph("g0", Directed, "", nodes, [Edge("e0", "a<->b", "c", Directed, "", [])], []);
            && !EdgeIsPresent(gr, "a", "b<->c", Directed)
            && AddEdge(Doc([], [], [gr]), 0, "a", "b<->c", attributes, Directed, description)
               == (Doc([], [], [gr]), false)
  {
    var nodes := [Node("a<->b", "", []), Node("c", "", []), Node("a", "", []), Node("b<->c", "", [])];
    var e := Edge("e0", "a<->b", "c", Directed, "", []);
    var gr := Graph("g0", Directed, "", nodes, [e], []);
    OneEdge(gr, e);
    EdgeIdentifierIsAmbiguous();
    assert |"a<->b"| != |"a"|;
  }

  function AddEdge(d: Doc, g: nat, source: string, target: string, attributes: Attributes, direction: Direction,
      description: string): (r: (Doc, bool))
    requires g < |d.graphs|
    ensures |r.0.graphs| == |d.graphs|
  {
    var gr := d.graphs[g];
    if EdgeExists(gr, source, target, direction) then (d, false)
    else
      var id := Name("e", FirstUnused("e", EdgeIds(gr), |gr.edges|));
      var (d', data) := CreateAll(d, attributes, ForEdge);
      if data.Err? then (d', false)
      else
        var edge := Edge(id, source, target, direction, description, data.value);
        (d'.(graphs := d.graphs[g := gr.(edges := gr.edges + [edge])]), true)
  }

  // ---------------------------------------------------------------- what always holds

  predicate Same(a: Target, b: Target) { a == b || a == ForAll }

  /** Ids and identifiers are unique, so the two maps of keys are exact indexes of the list. */
  predicate KeysOk(keys: seq<Key>) {
    && (forall i, j :: 0 <= i < j < |keys| ==> keys[i].id != keys[j].id)
    && (forall i, j :: 0 <= i < j < |keys| ==>
          KeyIdentifier(keys[i].name, keys[i].target) != KeyIdentifier(keys[j].name, keys[j].target))
  }

  predicate Known(keys: seq<Key>, id: string, target: Target) {
    exists k :: k in keys && k.id == id && Same(k.target, target)
  }

  /** Every data element names a registered key for this kind of element or for all, and no
      two name the same. */
  predicate DataOk(keys: seq<Key>, data: seq<Data>, target: Target) {
    && (forall i :: 0 <= i < |data| ==> Known(keys, data[i].key, target))
    && (forall i, j :: 0 <= i < j < |data| ==> data[i].key != data[j].key)
  }

  predicate GraphOk(keys: seq<Key>, g: Graph) {
    && DataOk(keys, g.data, ForGraph)
    && (forall i :: 0 <= i < |g.nodes| ==> DataOk(keys, g.nodes[i].data, ForNode))
    && (forall i :: 0 <= i < |g.edges| ==> DataOk(keys, g.edges[i].data, ForEdge))
  }

  predicate Good(d: Doc) {
    && KeysOk(d.keys)
    && DataOk(d.keys, d.data, ForGraphML)
    && (forall i :: 0 <= i < |d.graphs| ==> GraphOk(d.keys, d.graphs[i]))
  }

  // ---------------------------------------------------------------- registering keys

  lemma {:induction false} FindKeyIs(keys: seq<Key>, identifier: string)
    ensures var r := FindKey(keys, identifier);
            if r.Some? then r.value in keys && KeyIdentifier(r.value.name, r.value.target) == identifier
            else forall k :: k in keys ==> KeyIdentifier(k.name, k.target) != identifier
  {
    if keys != [] {
      var n := |keys| - 1;
      FindKeyIs(keys[..n], identifier);
      assert keys == keys[..n] + [keys[n]];
    }
  }

  lemma FindKeySnoc(keys: seq<Key>, k: Key, identifier: string)
    ensures FindKey(keys + [k], identifier) ==
              if KeyIdentifier(k.name, k.target) == identifier then Some(k) else FindKey(keys, identifier)
  {
    assert (keys + [k])[..|keys|] == keys;
  }

  /** The key that GetKey gives has the name asked for and is for this element or for all. */
  lemma GetKeyIs(keys: seq<Key>, name: string, target: Target)
    requires GetKey(keys, name, target).Some?
    ensures var k := GetKey(keys, name, target).value; k in keys && k.name == name && Same(k.target, target)
  {
    FindKeyIs(keys, KeyIdentifier(name, target));
    FindKeyIs(keys, KeyIdentifier(name, ForAll));
    var k := GetKey(keys, name, target).value;
    if FindKey(keys, KeyIdentifier(name, target)).Some? {
      KeyIdentifierTellsBoth(k.name, k.target, name, target);
    } else {
      KeyIdentifierTellsBoth(k.name, k.target, name, ForAll);
    }
  }

  /** GetKey finds a key exactly when there is one of that name for this element or for all, and
      the element's own goes before the common one. */
  lemma OwnKeyFirst(keys: seq<Key>, name: string, target: Target)
    ensures GetKey(keys, name, target).Some? <==> exists k :: k in keys && k.name == name && Same(k.target, target)
    ensures (exists k :: k in keys && k.name == name && k.target == target) ==>
              GetKey(keys, name, target).Some? && GetKey(keys, name, target).value.target == target
  {
    FindKeyIs(keys, KeyIdentifier(name, target));
    FindKeyIs(keys, KeyIdentifier(name, ForAll));
    if GetKey(keys, name, target).Some? {
      GetKeyIs(keys, name, target);
    }
    if own :| own in keys && own.name == name && own.target == target {
      var k := FindKey(keys, KeyIdentifier(name, target)).value;
      KeyIdentifierTellsBoth(k.name, k.target, name, target);
    }
  }

  /** A key registered under a name that had none takes nothing away from other names. */
  lemma GetKeyStays(keys: seq<Key>, k: Key, name: string, target: Target)
    requires GetKey(keys, name, target).Some? && GetKey(keys, k.name, k.target).None?
    ensures GetKey(keys + [k], name, target) == GetKey(keys, name, target)
  {
    FindKeySnoc(keys, k, KeyIdentifier(name, target));
    FindKeySnoc(keys, k, KeyIdentifier(name, ForAll));
    if KeyIdentifier(k.name, k.target) == KeyIdentifier(name, target) {
      KeyIdentifierTellsBoth(k.name, k.target, name, target);
    } else if KeyIdentifier(k.name, k.target) == KeyIdentifier(name, ForAll) {
      KeyIdentifierTellsBoth(k.name, k.target, name, ForAll);
    }
  }

  lemma NewKeyIsFound(keys: seq<Key>, k: Key)
    ensures GetKey(keys + [k], k.name, k.target) == Some(k)
  {
    FindKeySnoc(keys, k, KeyIdentifier(k.name, k.target));
  }

  /** Registering a key keeps ids and identifiers unique. */
  lemma RegisterKeepsKeys(d: Doc, target: Target, name: string, description: string, kind: Option<KeyType>,
      default: Value)
    requires KeysOk(d.keys) && RegisterKey(d, target, name, description, kind, default).Ok?
    ensures var (d', k) := RegisterKey(d, target, name, description, kind, default).value;
            && KeysOk(d'.keys) && d' == d.(keys := d.keys + [k])
            && k.name == name && k.target == target && GetKey(d.keys, name, target).None?
            && kind == Some(k.keyType)
  {
    FindKeyIs(d.keys, KeyIdentifier(name, target));
    FirstUnusedIs("d", KeyIds(d.keys), |d.keys|);
    hide FindKey, KeyIdentifier, FirstUnused, Name, StringValue;
    var k := RegisterKey(d, target, name, description, kind, default).value.1;
    assert k.id !in KeyIds(d.keys);
    forall i | 0 <= i < |d.keys| ensures d.keys[i].id != k.id { assert d.keys[i] in d.keys; }
    forall i | 0 <= i < |d.keys|
      ensures KeyIdentifier(d.keys[i].name, d.keys[i].target) != KeyIdentifier(name, target)
    {
      assert d.keys[i] in d.keys;
    }
  }

  /** What creating attributes does to the keys: some may be added, and no name loses its key. */
  ghost predicate Extends(keys: seq<Key>, keys': seq<Key>) {
    && keys <= keys'
    && forall name, target :: GetKey(keys, name, target).Some? ==>
         GetKey(keys', name, target) == GetKey(keys, name, target)
  }

  lemma ExtendsFurther(a: seq<Key>, b: seq<Key>, c: seq<Key>)
    requires Extends(a, b) && Extends(b, c)
    ensures Extends(a, c)
  {
    hide GetKey;
    forall name, target | GetKey(a, name, target).Some? ensures GetKey(c, name, target) == GetKey(a, name, target) {
      assert GetKey(b, name, target).Some?;
    }
  }

  lemma CreateDataIs(d: Doc, name: string, v: Value, target: Target)
    requires KeysOk(d.keys)
    ensures var (d', x) := CreateData(d, name, v, target);
            && KeysOk(d'.keys) && d' == d.(keys := d'.keys) && Extends(d.keys, d'.keys)
            && (x.Ok? ==> var k := GetKey(d'.keys, name, target); k.Some? && DataWithKey(v, k.value) == x)
  {
    var r := RegisterKey(d, target, name, "", TypeOf(v), Nil);
    if GetKey(d.keys, name, target).None? && r.Ok? {
      RegisterKeepsKeys(d, target, name, "", TypeOf(v), Nil);
      var k := r.value.1;
      NewKeyIsFound(d.keys, k);
      hide GetKey, RegisterKey, KeysOk;
      forall n, t | GetKey(d.keys, n, t).Some? ensures GetKey(d.keys + [k], n, t) == GetKey(d.keys, n, t) {
        GetKeyStays(d.keys, k, n, t);
      }
    }
  }

  predicate DistinctNames(attributes: Attributes) {
    forall i, j :: 0 <= i < j < |attributes| ==> attributes[i].0 != attributes[j].0
  }

  // Each data element is what its attribute becomes under the key of its name.
  predicate Created(keys: seq<Key>, attributes: Attributes, target: Target, data: seq<Data>) {
    && |data| == |attributes|
    && forall i :: 0 <= i < |data| ==>
         var k := GetKey(keys, attributes[i].0, target); k.Some? && DataWithKey(attributes[i].1, k.value) == Ok(data[i])
  }

  lemma CreatedStays(keys: seq<Key>, keys': seq<Key>, attributes: Attributes, target: Target, data: seq<Data>)
    requires Created(keys, attributes, target, data) && Extends(keys, keys')
    ensures Created(keys', attributes, target, data)
  {
  }

  lemma {:induction false} CreateAllIs(d: Doc, attributes: Attributes, target: Target)
    requires KeysOk(d.keys)
    ensures var (d', r) := CreateAll(d, attributes, target);
            && KeysOk(d'.keys) && d' == d.(keys := d'.keys) && Extends(d.keys, d'.keys)
            && (r.Ok? ==> Created(d'.keys, attributes, target, r.value))
    decreases |attributes|
  {
    hide CreateData, GetKey, DataWithKey, KeysOk, Created;
    if attributes == [] {
      NothingCreated(d.keys, target);
    } else {
      var n := |attributes| - 1;
      CreateAllIs(d, attributes[..n], target);
      var (d1, before) := CreateAll(d, attributes[..n], target);
      if before.Ok? {
        var (d2, last) := CreateData(d1, attributes[n].0, attributes[n].1, target);
        CreateDataIs(d1, attributes[n].0, attributes[n].1, target);
        ExtendsFurther(d.keys, d1.keys, d2.keys);
        CreatedStays(d1.keys, d2.keys, attributes[..n], target, before.value);
        if last.Ok? { CreatedMore(d2.keys, attributes, target, before.value, last.value); }
      }
    }
  }

  lemma NothingCreated(keys: seq<Key>, target: Target)
    ensures Created(keys, [], target, []) && Extends(keys, keys)
  {
  }

  lemma CreatedMore(keys: seq<Key>, attributes: Attributes, target: Target, data: seq<Data>, x: Data)
    requires attributes != [] && Created(keys, attributes[..|attributes| - 1], target, data)
    requires var a := attributes[|attributes| - 1];
             var k := GetKey(keys, a.0, target);
             k.Some? && DataWithKey(a.1, k.value) == Ok(x)
    ensures Created(keys, attributes, target, data + [x])
  {
    hide GetKey, DataWithKey;
  }

  lemma CreatedIsOk(keys: seq<Key>, attributes: Attributes, target: Target, data: seq<Data>)
    requires KeysOk(keys) && DistinctNames(attributes) && Created(keys, attributes, target, data)
    ensures DataOk(keys, data, target)
  {
    forall i | 0 <= i < |data| ensures Known(keys, data[i].key, target) {
      GetKeyIs(keys, attributes[i].0, target);
    }
    forall i, j | 0 <= i < j < |data| ensures data[i].key != data[j].key {
      GetKeyIs(keys, attributes[i].0, target);
      GetKeyIs(keys, attributes[j].0, target);
      var k, l := GetKey(keys, attributes[i].0, target).value, GetKey(keys, attributes[j].0, target).value;
      DifferentIds(keys, k, l);
    }
  }

  lemma DifferentIds(keys: seq<Key>, k: Key, l: Key)
    requires KeysOk(keys) && k in keys && l in keys && k != l
    ensures k.id != l.id
  {
    var i :| 0 <= i < |keys| && keys[i] == k;
    var j :| 0 <= j < |keys| && keys[j] == l;
    if i < j { assert keys[i].id != keys[j].id; } else { assert keys[j].id != keys[i].id; }
  }

  lemma DataStaysOk(keys: seq<Key>, keys': seq<Key>, data: seq<Data>, target: Target)
    requires DataOk(keys, data, target) && keys <= keys'
    ensures DataOk(keys', data, target)
  {
    forall i | 0 <= i < |data| ensures Known(keys', data[i].key, target) {
      assert Known(keys, data[i].key, target);
      var k :| k in keys && k.id == data[i].key && Same(k.target, target);
      assert k in keys';
    }
  }

  lemma GraphStaysOk(keys: seq<Key>, keys': seq<Key>, g: Graph)
    requires GraphOk(keys, g) && keys <= keys'
    ensures GraphOk(keys', g)
  {
    hide DataOk;
    DataStaysOk(keys, keys', g.data, ForGraph);
    forall i | 0 <= i < |g.nodes| ensures DataOk(keys', g.nodes[i].data, ForNode) {
      DataStaysOk(keys, keys', g.nodes[i].data, ForNode);
    }
    forall i | 0 <= i < |g.edges| ensures DataOk(keys', g.edges[i].data, ForEdge) {
      DataStaysOk(keys, keys', g.edges[i].data, ForEdge);
    }
  }

  /** More keys never hurt. */
  lemma MoreKeysStayGood(d: Doc, d': Doc)
    requires Good(d) && d' == d.(keys := d'.keys) && d.keys <= d'.keys && KeysOk(d'.keys)
    ensures Good(d')
  {
    hide DataOk, GraphOk, KeysOk;
    DataStaysOk(d.keys, d'.keys, d.data, ForGraphML);
    forall i | 0 <= i < |d.graphs| ensures GraphOk(d'.keys, d'.graphs[i]) {
      GraphStaysOk(d.keys, d'.keys, d.graphs[i]);
    }
  }

  // ---------------------------------------------------------------- data of one element

  /** What a list of data elements says about a key. */
  function ValueOf(data: seq<Data>, key: string): Option<Text> {
    if data == [] then None else if data[0].key == key then Some(data[0].value) else ValueOf(data[1..], key)
  }

  predicate DistinctData(data: seq<Data>) {
    forall i, j :: 0 <= i < j < |data| ==> data[i].key != data[j].key
  }

  lemma {:induction false} ValueOfIs(data: seq<Data>, key: string)
    ensures ValueOf(data, key).Some? <==> Refers(data, key)
    ensures ValueOf(data, key).Some? ==> Data(key, ValueOf(data, key).value) in data
  {
    if data != [] {
      ValueOfIs(data[1..], key);
      if data[0].key != key && Refers(data, key) {
        var i :| 0 <= i < |data| && data[i].key == key;
        assert data[1..][i - 1].key == key;
      }
      if Refers(data[1..], key) {
        var i :| 0 <= i < |data[1..]| && data[1..][i].key == key;
        assert data[i + 1].key == key;
      }
    }
  }

  /** Setting an attribute sets that one and no other. */
  lemma {:induction false} PutDataSets(data: seq<Data>, x: Data, key: string)
    requires DistinctData(data)
    ensures DistinctData(PutData(data, x))
    ensures ValueOf(PutData(data, x), key) == if key == x.key then Some(x.value) else ValueOf(data, key)
    ensures forall y :: y in PutData(data, x) ==> y == x || y in data
  {
    if data == [] {
    } else if data[0].key == x.key {
      assert ([x] + data[1..])[1..] == data[1..];
    } else {
      PutDataSets(data[1..], x, key);
      var rest := PutData(data[1..], x);
      assert ([data[0]] + rest)[1..] == rest;
      forall i | 0 <= i < |rest| ensures rest[i].key != data[0].key {
        assert rest[i] in rest;
        if rest[i] != x {
          var j :| 0 <= j < |data[1..]| && data[1..][j] == rest[i];
          assert data[j + 1].key != data[0].key;
        }
      }
    }
  }

  /** Removing an attribute removes that one and no other, and keeps the order of the rest. */
  lemma {:induction false} RemoveDataUnsets(data: seq<Data>, id: string, key: string)
    requires DistinctData(data)
    ensures DistinctData(RemoveData(data, id)) && !Refers(RemoveData(data, id), id)
    ensures ValueOf(RemoveData(data, id), key) == if key == id then None else ValueOf(data, key)
    ensures forall y :: y in RemoveData(data, id) <==> y in data && y.key != id
  {
    if data == [] {
    } else if data[0].key == id {
      assert data == [data[0]] + data[1..];
      NotThere(data[1..], id);
    } else {
      RemoveDataUnsets(data[1..], id, key);
      var rest := RemoveData(data[1..], id);
      assert ([data[0]] + rest)[1..] == rest;
      assert data == [data[0]] + data[1..];
      forall i | 0 <= i < |rest| ensures rest[i].key != data[0].key {
        assert rest[i] in data[1..];
      }
    }
  }

  lemma NotThere(data: seq<Data>, id: string)
    requires forall i :: 0 <= i < |data| ==> data[i].key != id
    ensures !Refers(data, id) && ValueOf(data, id) == None
  {
    ValueOfIs(data, id);
  }

  // ---------------------------------------------------------------- every run of operations

  datatype Place = Root | OfGraph(g: nat) | OfNode(g: nat, n: nat) | OfEdge(g: nat, e: nat)

  predicate IsPlace(d: Doc, p: Place) {
    match p
    case Root => true
    case OfGraph(g) => g < |d.graphs|
    case OfNode(g, n) => g < |d.graphs| && n < |d.graphs[g].nodes|
    case OfEdge(g, e) => g < |d.graphs| && e < |d.graphs[g].edges|
  }

  function TargetOf(p: Place): Target {
    match p
    case Root => ForGraphML
    case OfGraph(_) => ForGraph
    case OfNode(_, _) => ForNode
    case OfEdge(_, _) => ForEdge
  }

  function DataAt(d: Doc, p: Place): seq<Data>
    requires IsPlace(d, p)
  {
    match p
    case Root => d.data
    case OfGraph(g) => d.graphs[g].data
    case OfNode(g, n) => d.graphs[g].nodes[n].data
    case OfEdge(g, e) => d.graphs[g].edges[e].data
  }

  function WithDataAt(d: Doc, p: Place, data: seq<Data>): Doc
    requires IsPlace(d, p)
  {
    match p
    case Root => d.(data := data)
    case OfGraph(g) => PutGraph(d, g, d.graphs[g].(data := data))
    case OfNode(g, n) =>
      var gr := d.graphs[g];
      PutGraph(d, g, gr.(nodes := gr.nodes[n := gr.nodes[n].(data := data)]))
    case OfEdge(g, e) =>
      var gr := d.graphs[g];
      PutGraph(d, g, gr.(edges := gr.edges[e := gr.edges[e].(data := data)]))
  }

  /** Data put at one place are there, and at no other; and putting back what was there restores
      the document, so nothing else has changed. */
  lemma WithDataAtIs(d: Doc, p: Place, data: seq<Data>, q: Place)
    requires IsPlace(d, p) && IsPlace(d, q)
    ensures var d' := WithDataAt(d, p, data);
            && IsPlace(d', p) && IsPlace(d', q)
            && DataAt(d', q) == (if q == p then data else DataAt(d, q))
            && WithDataAt(d', p, DataAt(d, p)) == d
  {
    var back := WithDataAt(WithDataAt(d, p, data), p, DataAt(d, p));
    match p {
      case Root =>
      case OfGraph(g) => assert back.graphs == d.graphs;
      case OfNode(g, n) =>
        assert back.graphs[g].nodes == d.graphs[g].nodes;
        assert back.graphs == d.graphs;
      case OfEdge(g, e) =>
        assert back.graphs[g].edges == d.graphs[g].edges;
        assert back.graphs == d.graphs;
    }
  }

  datatype Operation =
    | Register(target: Target, name: string, description: string, kind: Option<KeyType>, default: Value)
    | Remove(k: Key)
    | NewGraph(description: string, edgeDefault: Direction, attributes: Attributes)
    | NewNode(g: nat, attributes: Attributes, nodeId: string, description: string)
    | NewEdge(g: nat, source: string, targetId: string, attributes: Attributes, direction: Direction,
        description: string)
    | SetAttribute(p: Place, name: string, value: Value)
    | RemoveAttribute(p: Place, key: string)

  // What an operation is applied to must be there, and an attribute map has each name once.
  predicate Applies(d: Doc, op: Operation) {
    match op
    case NewGraph(_, _, attributes) => DistinctNames(attributes)
    case NewNode(g, attributes, _, _) => g < |d.graphs| && DistinctNames(attributes)
    case NewEdge(g, _, _, attributes, _, _) => g < |d.graphs| && DistinctNames(attributes)
    case SetAttribute(p, _, _) => IsPlace(d, p)
    case RemoveAttribute(p, _) => IsPlace(d, p)
    case _ => true
  }

  function Apply(d: Doc, op: Operation): Doc
    requires Applies(d, op)
  {
    match op
    case Register(target, name, description, kind, default) =>
      var r := RegisterKey(d, target, name, description, kind, default); if r.Ok? then r.value.0 else d
    case Remove(k) => var r := RemoveKey(d, k); if r.Ok? then r.value else d
    case NewGraph(description, edgeDefault, attributes) => AddGraph(d, description, edgeDefault, attributes).0
    case NewNode(g, attributes, nodeId, description) => AddNode(d, g, attributes, nodeId, description).0
    case NewEdge(g, source, target, attributes, direction, description) =>
      AddEdge(d, g, source, target, attributes, direction, description).0
    case SetAttribute(p, name, value) =>
      var (d', data) := SetData(d, DataAt(d, p), TargetOf(p), name, value);
      if data.Ok? then WithDataAt(d', p, data.value) else d'
    case RemoveAttribute(p, key) => WithDataAt(d, p, RemoveData(DataAt(d, p), key))
  }

  lemma GoodAt(d: Doc, p: Place)
    requires Good(d) && IsPlace(d, p)
    ensures DataOk(d.keys, DataAt(d, p), TargetOf(p))
  {
    hide DataOk, KeysOk;
    if p.OfGraph? || p.OfNode? || p.OfEdge? { assert GraphOk(d.keys, d.graphs[p.g]); }
  }

  lemma PutGood(d: Doc, p: Place, data: seq<Data>)
    requires Good(d) && IsPlace(d, p) && DataOk(d.keys, data, TargetOf(p))
    ensures Good(WithDataAt(d, p, data))
  {
    hide DataOk, KeysOk;
    if p.OfGraph? || p.OfNode? || p.OfEdge? { assert GraphOk(d.keys, d.graphs[p.g]); }
  }

  lemma GraphGood(d: Doc, g: nat, gr: Graph)
    requires Good(d) && g < |d.graphs| && GraphOk(d.keys, gr)
    ensures Good(PutGraph(d, g, gr))
  {
    hide GraphOk, KeysOk, DataOk;
  }

  lemma RemovedIsOk(keys: seq<Key>, data: seq<Data>, target: Target, id: string)
    requires DataOk(keys, data, target)
    ensures DataOk(keys, RemoveData(data, id), target)
  {
    RemoveDataUnsets(data, id, id);
    var rest := RemoveData(data, id);
    forall i | 0 <= i < |rest| ensures Known(keys, rest[i].key, target) {
      assert rest[i] in data;
    }
  }

  lemma PutIsOk(keys: seq<Key>, data: seq<Data>, target: Target, x: Data)
    requires DataOk(keys, data, target) && Known(keys, x.key, target)
    ensures DataOk(keys, PutData(data, x), target)
  {
    PutDataSets(data, x, x.key);
    var rest := PutData(data, x);
    forall i | 0 <= i < |rest| ensures Known(keys, rest[i].key, target) {
      assert rest[i] in rest;
    }
  }

  lemma SetKeepsGood(d: Doc, p: Place, name: string, v: Value)
    requires Good(d) && IsPlace(d, p)
    ensures Good(Apply(d, SetAttribute(p, name, v)))
  {
    hide CreateData, Good, WithDataAt, DataAt, PutData, Known;
    var (d', x) := CreateData(d, name, v, TargetOf(p));
    NewDataIsOk(d, name, v, TargetOf(p));
    if x.Ok? {
      SetAtKeepsGood(d, d', p, x.value);
    }
  }

  lemma NewDataIsOk(d: Doc, name: string, v: Value, target: Target)
    requires Good(d)
    ensures var (d', x) := CreateData(d, name, v, target); Good(d') && (x.Ok? ==> Known(d'.keys, x.value.key, target))
  {
    GoodKeys(d);
    hide CreateData, Good, KeysOk, GetKey, DataWithKey, Known;
    CreateDataIs(d, name, v, target);
    var (d', x) := CreateData(d, name, v, target);
    MoreKeysStayGood(d, d');
    if x.Ok? { DataIsKnown(d'.keys, name, v, target, x.value); }
  }

  lemma SetAtKeepsGood(d: Doc, d': Doc, p: Place, x: Data)
    requires IsPlace(d, p) && d' == d.(keys := d'.keys) && Good(d') && Known(d'.keys, x.key, TargetOf(p))
    ensures IsPlace(d', p) && Good(WithDataAt(d', p, PutData(DataAt(d, p), x)))
  {
    SamePlace(d, d', p);
    hide Good, DataOk, WithDataAt, DataAt, PutData, Known;
    GoodAt(d', p);
    PutIsOk(d'.keys, DataAt(d', p), TargetOf(p), x);
    PutGood(d', p, PutData(DataAt(d', p), x));
  }

  lemma SamePlace(d: Doc, d': Doc, p: Place)
    requires d' == d.(keys := d'.keys) && IsPlace(d, p)
    ensures IsPlace(d', p) && DataAt(d', p) == DataAt(d, p)
  {
  }

  lemma GoodKeys(d: Doc)
    requires Good(d)
    ensures KeysOk(d.keys)
  {
  }

  lemma DataIsKnown(keys: seq<Key>, name: string, v: Value, target: Target, x: Data)
    requires GetKey(keys, name, target).Some? && DataWithKey(v, GetKey(keys, name, target).value) == Ok(x)
    ensures Known(keys, x.key, target)
  {
    GetKeyIs(keys, name, target);
  }

  lemma NewElementIsOk(d: Doc, attributes: Attributes, target: Target)
    requires Good(d) && DistinctNames(attributes)
    ensures var (d', r) := CreateAll(d, attributes, target);
            Good(d') && d' == d.(keys := d'.keys) && (r.Ok? ==> DataOk(d'.keys, r.value, target))
  {
    CreateAllIs(d, attributes, target);
    var (d', r) := CreateAll(d, attributes, target);
    MoreKeysStayGood(d, d');
    if r.Ok? { CreatedIsOk(d'.keys, attributes, target, r.value); }
  }

  lemma {:induction false} DropKeyDrops(keys: seq<Key>, k: Key)
    requires KeysOk(keys) && k in keys
    ensures KeysOk(DropKey(keys, k)) && forall x :: x in DropKey(keys, k) <==> x in keys && x != k
  {
    assert keys == [keys[0]] + keys[1..];
    if keys[0] == k {
      forall x | x in keys[1..] ensures x != k {
        var i :| 0 <= i < |keys[1..]| && keys[1..][i] == x;
        assert keys[i + 1].id != keys[0].id;
      }
    } else {
      KeysOkTail(keys);
      DropKeyDrops(keys[1..], k);
      KeysOkCons(keys, DropKey(keys[1..], k));
    }
  }

  lemma KeysOkTail(keys: seq<Key>)
    requires KeysOk(keys) && keys != []
    ensures KeysOk(keys[1..])
  {
    hide KeyIdentifier;
  }

  lemma KeysOkCons(keys: seq<Key>, rest: seq<Key>)
    requires KeysOk(keys) && keys != [] && KeysOk(rest) && forall x :: x in rest ==> x in keys[1..]
    ensures KeysOk([keys[0]] + rest)
  {
    hide KeyIdentifier;
    forall i | 0 <= i < |rest|
      ensures rest[i].id != keys[0].id
           && KeyIdentifier(rest[i].name, rest[i].target) != KeyIdentifier(keys[0].name, keys[0].target)
    {
      assert rest[i] in keys[1..];
      var j :| 0 <= j < |keys[1..]| && keys[1..][j] == rest[i];
      assert keys[j + 1] == rest[i];
    }
  }

  function Cleared(data: seq<Data>, k: Key, target: Target): seq<Data> {
    if Same(k.target, target) then RemoveData(data, k.id) else data
  }

  /** Clearing an element of a key leaves nothing that names it, and the rest in place. */
  lemma ClearedIsOk(keys: seq<Key>, k: Key, data: seq<Data>, target: Target)
    requires KeysOk(keys) && k in keys && DataOk(keys, data, target)
    ensures var data' := Cleared(data, k, target);
            && DataOk(DropKey(keys, k), data', target) && !Refers(data', k.id)
            && forall y :: y in data' <==> y in data && y.key != k.id
  {
    var data' := Cleared(data, k, target);
    forall y | y in data ensures Known(keys, y.key, target) {
      var i :| 0 <= i < |data| && data[i] == y;
    }
    hide KeysOk, DropKey, Known;
    if Same(k.target, target) {
      RemoveDataUnsets(data, k.id, k.id);
    } else {
      forall y | y in data ensures y.key != k.id { OtherKey(keys, k, y.key, target); }
      NotThere(data, k.id);
    }
    StillKnown(keys, k, data, data', target);
  }

  lemma StillKnown(keys: seq<Key>, k: Key, data: seq<Data>, data': seq<Data>, target: Target)
    requires KeysOk(keys) && k in keys && forall y :: y in data ==> Known(keys, y.key, target)
    requires forall y :: y in data' ==> y in data && y.key != k.id
    ensures forall i :: 0 <= i < |data'| ==> Known(DropKey(keys, k), data'[i].key, target)
  {
    hide KeysOk, DropKey, Known;
    forall i | 0 <= i < |data'| ensures Known(DropKey(keys, k), data'[i].key, target) {
      assert data'[i] in data';
      KnownStill(keys, k, data'[i].key, target);
    }
  }

  lemma OtherKey(keys: seq<Key>, k: Key, id: string, target: Target)
    requires KeysOk(keys) && k in keys && Known(keys, id, target) && !Same(k.target, target)
    ensures id != k.id
  {
    var l :| l in keys && l.id == id && Same(l.target, target);
    DifferentIds(keys, k, l);
  }

  lemma KnownStill(keys: seq<Key>, k: Key, id: string, target: Target)
    requires KeysOk(keys) && k in keys && Known(keys, id, target) && id != k.id
    ensures Known(DropKey(keys, k), id, target)
  {
    DropKeyDrops(keys, k);
    var l :| l in keys && l.id == id && Same(l.target, target);
    assert l in DropKey(keys, k);
  }

  predicate GraphRefers(g: Graph, id: string) {
    || Refers(g.data, id)
    || (exists i :: 0 <= i < |g.nodes| && Refers(g.nodes[i].data, id))
    || (exists i :: 0 <= i < |g.edges| && Refers(g.edges[i].data, id))
  }

  // Some element of the document has data for the key.
  predicate DocRefers(d: Doc, id: string) {
    Refers(d.data, id) || exists i :: 0 <= i < |d.graphs| && GraphRefers(d.graphs[i], id)
  }

  lemma ClearedGraphIsOk(keys: seq<Key>, k: Key, g: Graph)
    requires KeysOk(keys) && k in keys && GraphOk(keys, g)
    ensures GraphOk(DropKey(keys, k), ClearedGraph(g, k)) && !GraphRefers(ClearedGraph(g, k), k.id)
    ensures k.target == ForGraphML ==> ClearedGraph(g, k) == g
  {
    var g' := ClearedGraph(g, k);
    ClearedIsOk(keys, k, g.data, ForGraph);
    hide DataOk, KeysOk, RemoveData, DropKey, Refers;
    forall i | 0 <= i < |g.nodes|
      ensures DataOk(DropKey(keys, k), g'.nodes[i].data, ForNode) && !Refers(g'.nodes[i].data, k.id)
    {
      ClearedIsOk(keys, k, g.nodes[i].data, ForNode);
    }
    forall i | 0 <= i < |g.edges|
      ensures DataOk(DropKey(keys, k), g'.edges[i].data, ForEdge) && !Refers(g'.edges[i].data, k.id)
    {
      ClearedIsOk(keys, k, g.edges[i].data, ForEdge);
    }
    if k.target == ForGraphML {
      assert g'.nodes == g.nodes && g'.edges == g.edges;
    }
  }

  /** The cascade of RemoveKey: the key is gone and all others stay, no element names it any
      more, and the document is as well formed as before. */
  lemma RemoveKeyCascades(d: Doc, k: Key)
    requires Good(d) && k in d.keys
    ensures RemoveKey(d, k).Ok?
    ensures var d' := RemoveKey(d, k).value;
            && Good(d') && !DocRefers(d', k.id)
            && (forall x :: x in d'.keys <==> x in d.keys && x != k)
            && |d'.graphs| == |d.graphs|
            && (forall i :: 0 <= i < |d.graphs| ==> d'.graphs[i] == ClearedGraph(d.graphs[i], k))
  {
    var d' := RemoveKey(d, k).value;
    DropKeyDrops(d.keys, k);
    ClearedIsOk(d.keys, k, d.data, ForGraphML);
    hide DataOk, KeysOk, RemoveData, DropKey, Refers, GraphRefers, GraphOk, ClearedGraph;
    forall i | 0 <= i < |d.graphs|
      ensures GraphOk(d'.keys, d'.graphs[i]) && !GraphRefers(d'.graphs[i], k.id)
      ensures d'.graphs[i] == ClearedGraph(d.graphs[i], k)
    {
      assert GraphOk(d.keys, d.graphs[i]);
      ClearedGraphIsOk(d.keys, k, d.graphs[i]);
    }
  }

  /** The data of all other keys, in order. */
  function OtherData(data: seq<Data>, id: string): seq<Data> {
    if data == [] then []
    else (if data[0].key == id then [] else [data[0]]) + OtherData(data[1..], id)
  }

  function OtherKeys(keys: seq<Key>, k: Key): seq<Key> {
    if keys == [] then []
    else (if keys[0] == k then [] else [keys[0]]) + OtherKeys(keys[1..], k)
  }

  lemma {:induction false} NoneOfTheOthers(data: seq<Data>, id: string)
    requires forall i :: 0 <= i < |data| ==> data[i].key != id
    ensures OtherData(data, id) == data
  {
    if data != [] {
      NoneOfTheOthers(data[1..], id);
      assert data == [data[0]] + data[1..];
    }
  }

  lemma {:induction false} RemovingOneRemovesAll(data: seq<Data>, id: string)
    requires forall i, j :: 0 <= i < j < |data| ==> data[i].key != data[j].key
    ensures RemoveData(data, id) == OtherData(data, id)
  {
    if data != [] {
      if data[0].key == id {
        NoneOfTheOthers(data[1..], id);
      } else {
        RemovingOneRemovesAll(data[1..], id);
      }
    }
  }

  lemma {:induction false} DroppingOneDropsAll(keys: seq<Key>, k: Key)
    requires forall i, j :: 0 <= i < j < |keys| ==> keys[i] != keys[j]
    ensures DropKey(keys, k) == OtherKeys(keys, k)
  {
    if keys != [] {
      DroppingOneDropsAll(keys[1..], k);
      if keys[0] == k {
        AllOthers(keys[1..], k);
      }
    }
  }

  lemma {:induction false} AllOthers(keys: seq<Key>, k: Key)
    requires forall i :: 0 <= i < |keys| ==> keys[i] != k
    ensures OtherKeys(keys, k) == keys
  {
    if keys != [] {
      AllOthers(keys[1..], k);
      assert keys == [keys[0]] + keys[1..];
    }
  }

  // Whether the key is for this kind of element or not: only data of other keys are left.
  lemma ClearedDataIs(keys: seq<Key>, k: Key, data: seq<Data>, target: Target)
    requires KeysOk(keys) && k in keys && DataOk(keys, data, target)
    ensures (if Same(k.target, target) then RemoveData(data, k.id) else data) == OtherData(data, k.id)
  {
    RemovingOneRemovesAll(data, k.id);
    if !Same(k.target, target) {
      forall i | 0 <= i < |data| ensures data[i].key != k.id {
        assert Known(keys, data[i].key, target);
        var x :| x in keys && x.id == data[i].key && Same(x.target, target);
        DifferentIds(keys, x, k);
      }
      NoneOfTheOthers(data, k.id);
    }
  }

  /** A graph without the data of a key, and otherwise as it was. */
  ghost predicate GraphWithout(g: Graph, g': Graph, id: string) {
    && g' == g.(data := OtherData(g.data, id), nodes := g'.nodes, edges := g'.edges)
    && |g'.nodes| == |g.nodes| && |g'.edges| == |g.edges|
    && (forall i :: 0 <= i < |g.nodes| ==> g'.nodes[i] == g.nodes[i].(data := OtherData(g.nodes[i].data, id)))
    && (forall i :: 0 <= i < |g.edges| ==> g'.edges[i] == g.edges[i].(data := OtherData(g.edges[i].data, id)))
  }

  lemma ClearedGraphIs(keys: seq<Key>, k: Key, g: Graph)
    requires KeysOk(keys) && k in keys && GraphOk(keys, g)
    ensures GraphWithout(g, if k.target == ForGraphML then g else ClearedGraph(g, k), k.id)
  {
    hide KeysOk, DataOk, RemoveData, OtherData;
    ClearedDataIs(keys, k, g.data, ForGraph);
    forall i | 0 <= i < |g.nodes|
      ensures ClearedNode(g.nodes[i], k) == g.nodes[i].(data := OtherData(g.nodes[i].data, k.id))
    {
      ClearedDataIs(keys, k, g.nodes[i].data, ForNode);
    }
    forall i | 0 <= i < |g.edges|
      ensures ClearedEdge(g.edges[i], k) == g.edges[i].(data := OtherData(g.edges[i].data, k.id))
    {
      ClearedDataIs(keys, k, g.edges[i].data, ForEdge);
    }
  }

  /** Removing a key takes exactly the key and its data out of the document: the other keys and
      the data of other keys stay in order, in every element, and so does all else. */
  lemma RemoveKeyTakesNoMore(d: Doc, k: Key)
    requires Good(d) && k in d.keys
    ensures RemoveKey(d, k).Ok?
    ensures var d' := RemoveKey(d, k).value;
            && d'.keys == OtherKeys(d.keys, k) && d'.data == OtherData(d.data, k.id)
            && |d'.graphs| == |d.graphs|
            && forall i :: 0 <= i < |d.graphs| ==> GraphWithout(d.graphs[i], d'.graphs[i], k.id)
  {
    ClearedDataIs(d.keys, k, d.data, ForGraphML);
    assert forall i, j :: 0 <= i < j < |d.keys| ==> d.keys[i].id != d.keys[j].id;
    DroppingOneDropsAll(d.keys, k);
    hide DataOk, KeysOk, RemoveData, DropKey, OtherData, OtherKeys, GraphOk, ClearedGraph, GraphWithout;
    forall i | 0 <= i < |d.graphs| ensures GraphWithout(d.graphs[i], RemoveKey(d, k).value.graphs[i], k.id) {
      assert GraphOk(d.keys, d.graphs[i]);
      ClearedGraphIs(d.keys, k, d.graphs[i]);
    }
  }

  // ---------------------------------------------------------------- what is added

  /** The name is the first one from number n on that is not used. */
  ghost predicate FirstNew(name: string, prefix: string, n: nat, used: set<string>) {
    exists k: nat :: n <= k && name == Name(prefix, k) && name !in used
                     && forall i: nat :: n <= i < k ==> Name(prefix, i) in used
  }

  lemma UnusedIsNew(prefix: string, used: set<string>, n: nat)
    ensures FirstNew(Name(prefix, FirstUnused(prefix, used, n)), prefix, n, used)
    ensures Name(prefix, FirstUnused(prefix, used, n)) !in used
  {
    FirstUnusedIs(prefix, used, n);
  }

  /** A new graph has an id that no graph has, the given direction and description, and its
      attributes, and nothing in it; every other graph stays. A refusal leaves the graphs alone. */
  lemma AddGraphAdds(d: Doc, description: string, edgeDefault: Direction, attributes: Attributes)
    ensures var (d', ok) := AddGraph(d, description, edgeDefault, attributes);
            var data := CreateAll(d, attributes, ForGraph).1;
            && (ok <==> edgeDefault != Default && data.Ok?) && d'.data == d.data
            && (!ok ==> d'.graphs == d.graphs)
            && (ok ==>
                  && |d'.graphs| == |d.graphs| + 1 && d'.graphs[..|d.graphs|] == d.graphs
                  && var g := d'.graphs[|d.graphs|];
                     && (forall h :: h in d.graphs ==> h.id != g.id)
                     && FirstNew(g.id, "g", |d.graphs|, GraphIds(d))
                     && g == Graph(g.id, edgeDefault, description, [], [], data.value))
  {
    hide FirstUnused, FirstNew, Name, CreateAll;
    UnusedIsNew("g", GraphIds(d), |d.graphs|);
  }

  /** A new node has the id it was given, or one that no node of the graph has. */
  lemma AddNodeAdds(d: Doc, g: nat, attributes: Attributes, nodeId: string, description: string)
    requires g < |d.graphs|
    ensures var (d', ok) := AddNode(d, g, attributes, nodeId, description);
            var data, nodes := CreateAll(d, attributes, ForNode).1, d.graphs[g].nodes;
            && (ok <==> data.Ok?) && d'.data == d.data
            && (!ok ==> d'.graphs == d.graphs)
            && (ok ==>
                  var x := Node(d'.graphs[g].nodes[|nodes|].id, description, data.value);
                  && d'.graphs == d.graphs[g := d.graphs[g].(nodes := nodes + [x])]
                  && if nodeId != "" then x.id == nodeId
                     else && (forall y :: y in nodes ==> y.id != x.id)
                          && FirstNew(x.id, "n", |nodes|, NodeIdsOf(d.graphs[g])))
  {
    hide FirstUnused, FirstNew, Name, CreateAll;
    UnusedIsNew("n", NodeIdsOf(d.graphs[g]), |d.graphs[g].nodes|);
  }

  /** A new edge has an id that no edge of the graph has, and joins the two nodes in the given
      direction. */
  lemma AddEdgeAdds(d: Doc, g: nat, source: string, target: string, attributes: Attributes, direction: Direction,
      description: string)
    requires g < |d.graphs|
    ensures var (d', ok) := AddEdge(d, g, source, target, attributes, direction, description);
            var data, edges := CreateAll(d, attributes, ForEdge).1, d.graphs[g].edges;
            && (ok <==> !EdgeExists(d.graphs[g], source, target, direction) && data.Ok?) && d'.data == d.data
            && (!ok ==> d'.graphs == d.graphs)
            && (ok ==>
                  var x := Edge(d'.graphs[g].edges[|edges|].id, source, target, direction, description, data.value);
                  && d'.graphs == d.graphs[g := d.graphs[g].(edges := edges + [x])]
                  && (forall y :: y in edges ==> y.id != x.id)
                  && FirstNew(x.id, "e", |edges|, EdgeIds(d.graphs[g])))
  {
    hide FirstUnused, FirstNew, Name, CreateAll, EdgeExists;
    UnusedIsNew("e", EdgeIds(d.graphs[g]), |d.graphs[g].edges|);
  }

  /** A key is registered exactly when the element has none of that name, own or common, the
      type is known and the default, if there is one, is of that type or of its longer or
      shorter kind. It has an id that no key has. */
  lemma RegisterKeyIs(d: Doc, target: Target, name: string, description: string, kind: Option<KeyType>,
      default: Value)
    ensures var r := RegisterKey(d, target, name, description, kind, default);
            && (r.Ok? <==>
                  && GetKey(d.keys, name, target).None? && kind.Some?
                  && (default == Nil || (TypeOf(default).Some? && SameFamily(kind.value, TypeOf(default).value))))
            && (r.Ok? ==>
                  var (d', k) := r.value;
                  && d' == d.(keys := d.keys + [k]) && (forall x :: x in d.keys ==> x.id != k.id)
                  && FirstNew(k.id, "d", |d.keys|, KeyIds(d.keys))
                  && k.target == target && k.name == name && k.description == description
                  && kind == Some(k.keyType) && k.defaultValue == Shown(default))
  {
    hide FirstUnused, FirstNew, Name, GetKey;
    UnusedIsNew("d", KeyIds(d.keys), |d.keys|);
  }

  /** Exactly when a value can be stored: under a key that there is any value can, but nil only if
      the key is common and has a default; without one, a value whose type is known, for whose
      name a key of just this type and without a default is registered. */
  lemma WhatIsCreated(d: Doc, name: string, v: Value, target: Target)
    ensures var (d', r) := CreateData(d, name, v, target);
            var k := GetKey(d.keys, name, target);
            && (k.Some? ==>
                  && d' == d
                  && (r.Ok? <==> v != Nil || (k.value.target == ForAll && k.value.defaultValue != Chars("")))
                  && (r.Ok? ==> r.value.key == k.value.id))
            && (k.None? ==>
                  && (r.Ok? <==> TypeOf(v).Some?)
                  && (r.Err? ==> d' == d)
                  && (r.Ok? ==>
                        && |d'.keys| == |d.keys| + 1 && d'.keys[..|d.keys|] == d.keys
                        && var x := d'.keys[|d.keys|];
                           && x == Key(r.value.key, target, name, "", TypeOf(v).value, Chars(""))
                           && r.value.value == Shown(v)))
  {
    hide FirstUnused, Name, GetKey;
  }

  // The boolean, the two whole, the two broken kinds of numbers, and strings.
  function Family(t: KeyType): nat {
    match t
    case BooleanType => 0
    case IntType => 1
    case LongType => 1
    case FloatType => 2
    case DoubleType => 2
    case StringType => 3
  }

  predicate SameFamily(a: KeyType, b: KeyType) { Family(a) == Family(b) }

  /** Every operation keeps the document well formed, whether it succeeds or not. */
  lemma OperationKeepsGood(d: Doc, op: Operation)
    requires Good(d) && Applies(d, op)
    ensures Good(Apply(d, op))
  {
    hide GraphOk, KeysOk, DataOk;
    match op {
      case Register(target, name, description, kind, default) =>
        var r := RegisterKey(d, target, name, description, kind, default);
        if r.Ok? {
          RegisterKeepsKeys(d, target, name, description, kind, default);
          MoreKeysStayGood(d, r.value.0);
        }
      case Remove(k) =>
        if k in d.keys { RemoveKeyCascades(d, k); }
      case NewGraph(_, _, attributes) => NewGraphKeepsGood(d, op);
      case NewNode(g, attributes, nodeId, description) => AddNodeKeepsGood(d, g, attributes, nodeId, description);
      case NewEdge(g, source, target, attributes, direction, description) =>
        AddEdgeKeepsGood(d, g, source, target, attributes, direction, description);
      case SetAttribute(p, name, value) => SetKeepsGood(d, p, name, value);
      case RemoveAttribute(p, key) =>
        GoodAt(d, p);
        RemovedIsOk(d.keys, DataAt(d, p), TargetOf(p), key);
        PutGood(d, p, RemoveData(DataAt(d, p), key));
    }
  }

  lemma NewGraphKeepsGood(d: Doc, op: Operation)
    requires Good(d) && op.NewGraph? && Applies(d, op)
    ensures Good(Apply(d, op))
  {
    NewElementIsOk(d, op.attributes, ForGraph);
    hide KeysOk, CreateAll;
  }

  lemma AddNodeKeepsGood(d: Doc, g: nat, attributes: Attributes, nodeId: string, description: string)
    requires Good(d) && g < |d.graphs| && DistinctNames(attributes)
    ensures Good(AddNode(d, g, attributes, nodeId, description).0)
  {
    NewElementIsOk(d, attributes, ForNode);
    var (d', r) := CreateAll(d, attributes, ForNode);
    hide KeysOk, CreateAll, DataOk;
    if r.Ok? {
      assert GraphOk(d'.keys, d.graphs[g]);
      GraphGood(d', g, AddNode(d, g, attributes, nodeId, description).0.graphs[g]);
    }
  }

  lemma AddEdgeKeepsGood(d: Doc, g: nat, source: string, target: string, attributes: Attributes,
      direction: Direction, description: string)
    requires Good(d) && g < |d.graphs| && DistinctNames(attributes)
    ensures Good(AddEdge(d, g, source, target, attributes, direction, description).0)
  {
    NewElementIsOk(d, attributes, ForEdge);
    var (d', r) := CreateAll(d, attributes, ForEdge);
    hide KeysOk, CreateAll, DataOk, EdgeExists;
    if r.Ok? && !EdgeExists(d.graphs[g], source, target, direction) {
      assert GraphOk(d'.keys, d.graphs[g]);
      GraphGood(d', g, AddEdge(d, g, source, target, attributes, direction, description).0.graphs[g]);
    }
  }

  ghost predicate ValidOps(d: Doc, ops: seq<Operation>)
    decreases |ops|
  {
    ops == [] || (Applies(d, ops[0]) && ValidOps(Apply(d, ops[0]), ops[1..]))
  }

  function ApplyAll(d: Doc, ops: seq<Operation>): Doc
    requires ValidOps(d, ops)
    decreases |ops|
  {
    if ops == [] then d else ApplyAll(Apply(d, ops[0]), ops[1..])
  }

  /** Operations take effect one after the other, each on what the last one left. */
  lemma {:induction false} OneMoreOperation(d: Doc, ops: seq<Operation>, op: Operation)
    requires ValidOps(d, ops) && Applies(ApplyAll(d, ops), op)
    ensures ValidOps(d, ops + [op]) && ApplyAll(d, ops + [op]) == Apply(ApplyAll(d, ops), op)
    decreases |ops|
  {
    hide Apply, Applies;
    if ops == [] {
      assert ops + [op] == [op] && [op][1..] == [];
    } else {
      assert (ops + [op])[0] == ops[0] && (ops + [op])[1..] == ops[1..] + [op];
      OneMoreOperation(Apply(d, ops[0]), ops[1..], op);
    }
  }

  /** Every document built from the empty one is well formed. */
  lemma {:induction false} DocumentsAreGood(d: Doc, ops: seq<Operation>)
    requires Good(d) && ValidOps(d, ops)
    ensures Good(ApplyAll(d, ops)) && Good(EMPTY)
    decreases |ops|
  {
    assert Good(EMPTY);
    hide Good, Apply;
    if ops != [] {
      OperationKeepsGood(d, ops[0]);
      DocumentsAreGood(Apply(d, ops[0]), ops[1..]);
    }
  }
}

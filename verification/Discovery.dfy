/** Mesh discovery (meshmesh/discovery.go) as a machine on values.

    A run repeats one iteration: pick an in-use node that is not discovered yet (any one:
    the path weight that should rank them is always 0), ask it three times in a row for
    its neighbour table, and rewrite its out-edges from the tables. The graph being
    searched grows while it is searched. What a node answers, and which candidate the
    iteration order offers first, are free choices of the environment. */
module Discovery {
  import opened Basics
  import opened MeshNetwork

  const MAX_REPETITIONS := 3

  // A node id travels as an unsigned 32-bit number, a signal strength as a signed 16-bit one.
  type NodeId = x: int | 0 <= x < 0x1_0000_0000
  type Rssi = x: int | -0x8000 <= x < 0x8000

  datatype State = Idle | Running | Discovering | Done | Error

  datatype Weights = Weights(current: real, next: real)

  /** One entry of a neighbour table. */
  datatype Item = Item(id: NodeId, rssi1: Rssi, rssi2: Rssi)

  /** The replies to the requests of one Step; None or false is a lost or wrong reply. */
  datatype Answers = Answers(
    reset: bool,
    start: bool,
    tag: Option<string>,
    table: Option<seq<Option<Item>>>)

  /** The fields of DiscoveryProcedure. */
  datatype Proc = Proc(
    net: Net,
    current: Id,
    neighbors: map<Id, Weights>,
    state: State,
    repeat: nat)

  // ---------------------------------------------------------------- link costs

  function Min(a: real, b: real): real { if a <= b then a else b }

  /** Rssi2weight, with math.Round written out for the non-negative values it gets. */
  function Rssi2Weight(rssi: Rssi): real {
    var percent :=
      if rssi <= 0 then (-80 - rssi) as real / -40.0
      else if rssi > 44 then rssi as real / 45.0
      else 0.0;
    var cost := 1.0 - percent;
    var clamped := if cost < 0.0 then 0.0 else if cost > 1.0 then 1.0 else cost;
    (clamped * 100.0 + 0.5).Floor as real / 100.0
  }

  function LinkCost(x: Item): real {
    Min(Rssi2Weight(x.rssi1), Rssi2Weight(x.rssi2))
  }

  /** Costs lie in [0, 1]. On the negative scale a stronger signal never costs more, and the
      scale is exact at its ends; on the positive scale everything up to 44 costs 1. */
  lemma WeightScale(a: Rssi, b: Rssi)
    ensures 0.0 <= Rssi2Weight(a) <= 1.0
    ensures a <= b <= 0 ==> Rssi2Weight(b) <= Rssi2Weight(a)
    ensures a <= -80 ==> Rssi2Weight(a) == 1.0
    ensures -40 <= a <= 0 ==> Rssi2Weight(a) == 0.0
    ensures 0 < a <= 44 ==> Rssi2Weight(a) == 1.0
    ensures 44 < a ==> Rssi2Weight(a) == 0.0
  {
  }

  /** Between its ends the negative scale is the straight line from 1 at -80 to 0 at -40, rounded
      to hundredths, halves up. */
  lemma ScaleIsALine(r: Rssi)
    ensures -80 <= r <= -40 ==>
              var line := (-40 - r) as real / 40.0;
              line - 0.005 < Rssi2Weight(r) <= line + 0.005
  {
  }

  /** The cost of a link is that of its better direction. */
  lemma LinkCostIsTheCheaper(x: Item)
    ensures LinkCost(x) <= Rssi2Weight(x.rssi1) && LinkCost(x) <= Rssi2Weight(x.rssi2)
    ensures LinkCost(x) == Rssi2Weight(x.rssi1) || LinkCost(x) == Rssi2Weight(x.rssi2)
  {
  }

  // ---------------------------------------------------------------- the operations

  function Candidates(net: Net): set<Id> {
    set id | id in net.nodes && net.nodes[id].inUse && !net.nodes[id].discovered
  }

  predicate ValidPick(net: Net, pick: Id) {
    if Candidates(net) == {} then pick == 0 else pick in Candidates(net)
  }

  /** neighborsFromGraph: every out-edge, at the cheaper of its two directions. */
  function FromGraph(net: Net, n: Id): map<Id, Weights> {
    map m | m in Out(net, n) ::
      var there := net.edges[Link(n, m)];
      var back := if Link(m, n) in net.edges then net.edges[Link(m, n)] else there;
      Weights(1.0, Min(there, back))
  }

  function Advance(w: map<Id, Weights>): map<Id, Weights> {
    map m | m in w :: Weights(w[m].next, 1.0)
  }

  function Update(w: map<Id, Weights>, x: Item): map<Id, Weights> {
    w[x.id := Weights(if x.id in w then w[x.id].current else 1.0, LinkCost(x))]
  }

  /** neighborsToGraph: the out-edges of n become exactly the entries of w, and entries
      that are not nodes yet are added in use. Nothing else changes. */
  function ToGraph(net: Net, n: Id, w: map<Id, Weights>): Net {
    Net(
      map m | m in net.nodes.Keys + w.Keys ::
        if m in net.nodes then net.nodes[m] else DeviceView(true, false, ""),
      map e | e in net.edges.Keys + (set m | m in w :: Link(n, m)) && (e.from == n ==> e.to in w) ::
        if e.from == n then w[e.to].next else net.edges[e],
      net.local)
  }

  /** InitStep, where pick is the node the search loop ends with (0 for none). */
  function InitStep(p: Proc, pick: Id): Proc {
    if p.current != 0 && p.repeat < MAX_REPETITIONS then p.(state := Running)
    else if pick == 0 then p.(state := Done, current := 0)
    else p.(state := Running, current := pick, neighbors := FromGraph(p.net, pick), repeat := 0)
  }

  function TruncateZeros(s: string): string {
    if s == [] || s[0] == '\0' then [] else [s[0]] + TruncateZeros(s[1..])
  }

  function Tagged(net: Net, n: Id, tag: string): Net
    requires n in net.nodes
  {
    if net.nodes[n].tag == "" then WithNode(net, n, net.nodes[n].(tag := TruncateZeros(tag))) else net
  }

  // The table entries in order; the second result is false when one of them is lost.
  function ReadTable(w: map<Id, Weights>, table: seq<Option<Item>>): (map<Id, Weights>, bool)
    decreases |table|
  {
    if table == [] then (w, true)
    else if table[0].None? then (w, false)
    else ReadTable(Update(w, table[0].value), table[1..])
  }

  /** Step: the second result is false when it returns an error. */
  function Step(p: Proc, a: Answers): (Proc, bool) {
    if !a.reset || !a.start || a.tag.None? || p.current !in p.net.nodes then (p, false)
    else
      var q := p.(net := Tagged(p.net, p.current, a.tag.value));
      if a.table.None? then (q, false)
      else
        var (w, ok) := ReadTable(Advance(q.neighbors), a.table.value);
        (q.(neighbors := w), ok)
  }

  function Save(p: Proc): Proc {
    if p.current == 0 || p.current !in p.net.nodes then p
    else
      var marked := WithNode(p.net, p.current, p.net.nodes[p.current].(discovered := true));
      p.(repeat := p.repeat + 1, net := ToGraph(marked, p.current, p.neighbors))
  }

  function Unmarked(net: Net): Net {
    net.(nodes := map id | id in net.nodes :: net.nodes[id].(discovered := false))
  }

  function Clear(p: Proc): Proc {
    p.(state := Idle, net := Unmarked(p.net))
  }

  /** The body of the loop in Run. */
  function Iterate(p: Proc, pick: Id, a: Answers): Proc {
    var q := InitStep(p, pick);
    if q.state != Running then q
    else
      var (r, ok) := Step(q, a);
      if ok then Save(r) else r.(state := Error)
  }

  predicate Finished(p: Proc) { p.state == Done || p.state == Error }

  // ---------------------------------------------------------------- history

  /** What a run has done so far: who reported whom, the last saved table of each node,
      the nodes in the order they were chosen, and the node of every save. */
  datatype History = History(
    reports: set<Link>,
    tables: map<Id, seq<Item>>,
    order: seq<Id>,
    saves: seq<Id>)

  const NO_HISTORY := History({}, map[], [], [])

  function Items(table: seq<Option<Item>>): seq<Item> {
    if table == [] then []
    else (if table[0].Some? then [table[0].value] else []) + Items(table[1..])
  }

  function Reported(table: seq<Item>): set<Id> {
    set i | 0 <= i < |table| :: table[i].id
  }

  predicate Saves(p: Proc, pick: Id, a: Answers) {
    var q := InitStep(p, pick);
    q.state == Running && Step(q, a).1
  }

  function Recorded(h: History, p: Proc, pick: Id, a: Answers): History {
    if !Saves(p, pick, a) || a.table.None? then h
    else
      var n := InitStep(p, pick).current;
      var t := Items(a.table.value);
      History(
        h.reports + (set m | m in Reported(t) :: Link(n, m)),
        h.tables[n := t],
        if h.order != [] && h.order[|h.order| - 1] == n then h.order else h.order + [n],
        h.saves + [n])
  }

  /** The cost of the edge to m after reading a table: that of the last entry for m. */
  function TableCost(table: seq<Item>, m: Id, otherwise: real): real
    decreases |table|
  {
    if table == [] then otherwise
    else TableCost(table[1..], m, if table[0].id == m then LinkCost(table[0]) else otherwise)
  }

  // No node reports itself: the graph library panics on a loop.
  predicate NoLoop(p: Proc, pick: Id, a: Answers) {
    a.table.Some? ==> InitStep(p, pick).current !in Reported(Items(a.table.value))
  }

  // ---------------------------------------------------------------- one iteration

  lemma {:induction false} ReadTableMeaning(w: map<Id, Weights>, table: seq<Option<Item>>)
    requires ReadTable(w, table).1
    ensures var t := Items(table); var r := ReadTable(w, table).0;
            && r.Keys == w.Keys + Reported(t)
            && (forall m :: m in r ==> r[m].next == TableCost(t, m, if m in w then w[m].next else 1.0))
            && forall m :: m in r ==> r[m].current == if m in w then w[m].current else 1.0
    decreases |table|
  {
    if table != [] {
      var x, rest := table[0].value, Items(table[1..]);
      var w' := Update(w, x);
      ReadTableMeaning(w', table[1..]);
      var t := Items(table);
      assert t == [x] + rest && t[1..] == rest;
      assert Reported(t) == {x.id} + Reported(rest) by { ReportedCons(x, rest); }
      assert w'.Keys == w.Keys + {x.id};
    }
  }

  lemma ReportedCons(x: Item, rest: seq<Item>)
    ensures Reported([x] + rest) == {x.id} + Reported(rest)
  {
    var t := [x] + rest;
    forall m | m in {x.id} + Reported(rest) ensures m in Reported(t) {
      if m == x.id {
        assert t[0].id == m;
      } else {
        var i :| 0 <= i < |rest| && rest[i].id == m;
        assert t[i + 1].id == m;
      }
    }
    forall m | m in Reported(t) ensures m in {x.id} + Reported(rest) {
      var i :| 0 <= i < |t| && t[i].id == m;
      if i > 0 { assert rest[i - 1].id == m; }
    }
  }

  // The part of the state an iteration relies on.
  ghost predicate Sound(p: Proc) {
    && WellFormed(p.net)
    && p.repeat <= MAX_REPETITIONS
    && (p.current != 0 ==> p.current in p.net.nodes && p.neighbors.Keys == Out(p.net, p.current))
  }

  predicate ValidChoice(p: Proc, pick: Id, a: Answers) {
    && (p.current == 0 || p.repeat == MAX_REPETITIONS ==> ValidPick(p.net, pick))
    && NoLoop(p, pick, a)
  }

  /** InitStep leaves a sound state whose node, if there is one, is a node of the graph and
      is the old one exactly when it still has repetitions left. */
  lemma InitStepIsSound(p: Proc, pick: Id)
    requires Sound(p) && (p.current == 0 || p.repeat == MAX_REPETITIONS ==> ValidPick(p.net, pick))
    ensures var q := InitStep(p, pick);
            && Sound(q) && q.net == p.net
            && (q.state == Running ==>
                  q.neighbors == if p.current != 0 && p.repeat < MAX_REPETITIONS then p.neighbors
                                 else FromGraph(p.net, q.current))
            && (q.state == Running ==> q.current != 0 && q.repeat < MAX_REPETITIONS)
            && (q.state == Done ==> q.current == 0)
            && (q.state == Done <==> !(p.current != 0 && p.repeat < MAX_REPETITIONS) && pick == 0)
            && (q.state == Running || q.state == Done)
            && (if p.current != 0 && p.repeat < MAX_REPETITIONS then q.current == p.current && q.repeat == p.repeat
                else q.state == Running ==> q.current in Candidates(p.net) && q.repeat == 0)
  {
    assert FromGraph(p.net, pick).Keys == Out(p.net, pick);
  }

  // What a step that succeeds does to the neighbours and to the tag.
  lemma StepMeaning(q: Proc, a: Answers)
    requires Step(q, a).1
    ensures a.table.Some?
    ensures var r := Step(q, a).0; var t := Items(a.table.value);
            && r == q.(net := r.net, neighbors := r.neighbors)
            && q.current in q.net.nodes
            && r.net == q.net.(nodes := r.net.nodes)
            && r.net.nodes == q.net.nodes[q.current := q.net.nodes[q.current].(tag := r.net.nodes[q.current].tag)]
            && r.neighbors.Keys == q.neighbors.Keys + Reported(t)
            && (forall m :: m in r.neighbors ==> r.neighbors[m].next == TableCost(t, m, 1.0))
            && forall m :: m in r.neighbors ==>
                 r.neighbors[m].current == if m in q.neighbors then q.neighbors[m].next else 1.0
  {
    ReadTableMeaning(Advance(q.neighbors), a.table.value);
    assert Advance(q.neighbors).Keys == q.neighbors.Keys;
  }

  /** A step succeeds exactly when its node is known and no reply and no table entry is lost. */
  lemma StepSucceeds(q: Proc, a: Answers)
    ensures Step(q, a).1 <==>
              && a.reset && a.start && a.tag.Some? && q.current in q.net.nodes && a.table.Some?
              && forall i :: 0 <= i < |a.table.value| ==> a.table.value[i].Some?
  {
    if a.table.Some? {
      ReadTableEnds(Advance(q.neighbors), a.table.value);
    }
  }

  lemma {:induction false} ReadTableEnds(w: map<Id, Weights>, table: seq<Option<Item>>)
    ensures ReadTable(w, table).1 <==> forall i :: 0 <= i < |table| ==> table[i].Some?
    decreases |table|
  {
    if table != [] {
      assert forall i :: 0 < i < |table| ==> table[i] == table[1..][i - 1];
      if table[0].Some? {
        ReadTableEnds(Update(w, table[0].value), table[1..]);
        if ReadTable(w, table).1 {
          forall i | 0 <= i < |table| ensures table[i].Some? {
            if i > 0 { assert table[1..][i - 1].Some?; }
          }
        }
      }
    }
  }

  /** A step that fails leaves the edges, the flags and all else alone but what the replies in
      front of the lost one brought: the tag, and, as TableCutShort says, the entries. */
  lemma StepThatFails(q: Proc, a: Answers)
    requires !Step(q, a).1
    ensures var r := Step(q, a).0;
            && r == q.(net := q.net.(nodes := r.net.nodes), neighbors := r.neighbors)
            && (a.reset && a.start && a.tag.Some? && q.current in q.net.nodes ==>
                  r.net == Tagged(q.net, q.current, a.tag.value))
            && (!(a.reset && a.start && a.tag.Some? && q.current in q.net.nodes) ==> r == q)
            && (a.table.None? ==> r.neighbors == q.neighbors)
  {
  }

  lemma TableCutShort(q: Proc, a: Answers, i: nat)
    requires a.reset && a.start && a.tag.Some? && q.current in q.net.nodes && a.table.Some?
    requires i < |a.table.value| && a.table.value[i].None? && AllRead(a.table.value[..i])
    ensures !Step(q, a).1 && ReadTable(Advance(q.neighbors), a.table.value[..i]).1
    ensures Step(q, a).0.neighbors == ReadTable(Advance(q.neighbors), a.table.value[..i]).0
  {
    ReadTableStops(Advance(q.neighbors), a.table.value, i);
  }

  predicate AllRead(table: seq<Option<Item>>) { forall i :: 0 <= i < |table| ==> table[i].Some? }

  lemma {:induction false} ReadTableStops(w: map<Id, Weights>, table: seq<Option<Item>>, i: nat)
    requires i < |table| && table[i].None? && AllRead(table[..i])
    ensures ReadTable(w, table) == (ReadTable(w, table[..i]).0, false) && ReadTable(w, table[..i]).1
    decreases |table|
  {
    if i > 0 {
      assert table[0] == table[..i][0];
      var rest := table[1..][..i - 1];
      assert rest == table[..i][1..];
      assert AllRead(rest);
      ReadTableStops(Update(w, table[0].value), table[1..], i - 1);
    }
  }

  /** A tag is cut at its first zero. */
  lemma {:induction false} TruncateZerosIs(s: string)
    ensures var t := TruncateZeros(s);
            && t <= s && '\0' !in t && (t == s || s[|t|] == '\0')
  {
    if s != [] && s[0] != '\0' {
      TruncateZerosIs(s[1..]);
      assert s == [s[0]] + s[1..];
    }
  }

  /** A node keeps the tag it has; one without gets the reported one. */
  lemma TagIs(q: Proc, a: Answers)
    requires Step(q, a).1
    ensures var before, after := q.net.nodes[q.current], Step(q, a).0.net.nodes[q.current];
            after == before.(tag := if before.tag != "" then before.tag else TruncateZeros(a.tag.value))
  {
  }

  /** The neighbours of a node that is asked for the first time: its out-edges, each at the
      cheaper of its two directions, where a missing way back counts as the way there. */
  lemma FromGraphIs(net: Net, n: Id, m: Id)
    ensures m in FromGraph(net, n) <==> m in net.nodes && Link(n, m) in net.edges
    ensures m in FromGraph(net, n) ==>
              var x, there := FromGraph(net, n)[m], net.edges[Link(n, m)];
              && x.current == 1.0 && x.next <= there
              && (Link(m, n) !in net.edges ==> x.next == there)
              && (Link(m, n) in net.edges ==>
                    && x.next <= net.edges[Link(m, n)]
                    && (x.next == there || x.next == net.edges[Link(m, n)]))
  {
  }

  /** One iteration that succeeds, for every sound state and every answer: the chosen node n
      is marked, its out-edges become its old ones and the reported ones, each at the cost
      the new table gives it, and nothing else in the graph changes except new nodes. */
  lemma SavingIteration(p: Proc, pick: Id, a: Answers)
    requires Sound(p) && ValidChoice(p, pick, a) && Saves(p, pick, a)
    ensures a.table.Some? && InitStep(p, pick).state == Running
    ensures var n := InitStep(p, pick).current; var t := Items(a.table.value); var s := Iterate(p, pick, a);
            && Sound(s) && s.state == Running && s.current == n && n != 0 && n in p.net.nodes
            && s.repeat == InitStep(p, pick).repeat + 1
            && n !in Reported(t)
            && s.net.local == p.net.local
            && s.net.nodes.Keys == p.net.nodes.Keys + Reported(t)
            && s.net.nodes[n].discovered && s.net.nodes[n].inUse == p.net.nodes[n].inUse
            && (forall k :: k in p.net.nodes && k != n ==> s.net.nodes[k] == p.net.nodes[k])
            && (forall k :: k in Reported(t) && k !in p.net.nodes ==> s.net.nodes[k] == DeviceView(true, false, ""))
            && (forall x, y :: Link(x, y) in s.net.edges <==> Link(x, y) in p.net.edges || (x == n && y in Reported(t)))
            && (forall x, y :: Link(x, y) in s.net.edges && x != n ==>
                  s.net.edges[Link(x, y)] == p.net.edges[Link(x, y)])
            && (forall y :: Link(n, y) in s.net.edges ==> s.net.edges[Link(n, y)] == TableCost(t, y, 1.0))
  {
    InitStepIsSound(p, pick);
    var q := InitStep(p, pick);
    StepMeaning(q, a);
    var r := Step(q, a).0;
    SaveMeaning(r, p.net, Items(a.table.value));
  }

  /** The neighbours after a successful iteration are those of the node in the graph, each with its
      cost there and the one it had before the table came. */
  lemma NeighborsAfterSave(p: Proc, pick: Id, a: Answers)
    requires Sound(p) && ValidChoice(p, pick, a) && Saves(p, pick, a)
    ensures var q, s := InitStep(p, pick), Iterate(p, pick, a);
            && s.neighbors.Keys == Out(s.net, s.current)
            && forall m :: m in s.neighbors ==>
                 && Link(s.current, m) in s.net.edges
                 && s.neighbors[m].next == s.net.edges[Link(s.current, m)]
                 && s.neighbors[m].current == if m in q.neighbors then q.neighbors[m].next else 1.0
  {
    SavingIteration(p, pick, a);
    StepMeaning(InitStep(p, pick), a);
    InitStepIsSound(p, pick);
    hide Sound, Reported, Items, TableCost, InitStep, Step, NoLoop;
  }

  lemma SaveMeaning(r: Proc, net: Net, t: seq<Item>)
    requires r.current != 0 && r.current in net.nodes && r.current in r.net.nodes
    requires WellFormed(net) && r.repeat < MAX_REPETITIONS
    requires r.net == net.(nodes := r.net.nodes)
    requires r.net.nodes == net.nodes[r.current := net.nodes[r.current].(tag := r.net.nodes[r.current].tag)]
    requires r.neighbors.Keys == Out(net, r.current) + Reported(t) && r.current !in Reported(t)
    requires forall m :: m in r.neighbors ==> r.neighbors[m].next == TableCost(t, m, 1.0)
    ensures var n := r.current; var s := Save(r);
            && Sound(s) && s == r.(net := s.net, repeat := r.repeat + 1)
            && s.net.local == net.local
            && s.net.nodes.Keys == net.nodes.Keys + Reported(t)
            && s.net.nodes[n].discovered && s.net.nodes[n].inUse == net.nodes[n].inUse
            && (forall k :: k in net.nodes && k != n ==> s.net.nodes[k] == net.nodes[k])
            && (forall k :: k in Reported(t) && k !in net.nodes ==> s.net.nodes[k] == DeviceView(true, false, ""))
            && (forall x, y :: Link(x, y) in s.net.edges <==> Link(x, y) in net.edges || (x == n && y in Reported(t)))
            && (forall x, y :: Link(x, y) in s.net.edges && x != n ==> s.net.edges[Link(x, y)] == net.edges[Link(x, y)])
            && (forall y :: Link(n, y) in s.net.edges ==> s.net.edges[Link(n, y)] == TableCost(t, y, 1.0))
  {
    hide Reported, TableCost, ToGraph;
    var n, s := r.current, Save(r);
    var marked := WithNode(r.net, n, r.net.nodes[n].(discovered := true));
    ToGraphIs(marked, n, r.neighbors);
    assert s.net.nodes.Keys == net.nodes.Keys + Reported(t);
    assert s.neighbors.Keys == Out(s.net, n);
  }

  /** What neighborsToGraph leaves: the out-edges of n are the entries of w, every other edge and
      every node is as it was, and the entries that were no nodes are nodes now. */
  lemma ToGraphIs(net: Net, n: Id, w: map<Id, Weights>)
    ensures var g := ToGraph(net, n, w);
            && g.nodes.Keys == net.nodes.Keys + w.Keys && g.local == net.local
            && (forall k :: k in net.nodes ==> g.nodes[k] == net.nodes[k])
            && (forall k :: k in w && k !in net.nodes ==> g.nodes[k] == DeviceView(true, false, ""))
            && (forall x, y :: Link(x, y) in g.edges <==> if x == n then y in w else Link(x, y) in net.edges)
            && (forall x, y :: Link(x, y) in g.edges && x != n ==> g.edges[Link(x, y)] == net.edges[Link(x, y)])
            && (forall y :: Link(n, y) in g.edges ==> g.edges[Link(n, y)] == w[y].next)
  {
    var g := ToGraph(net, n, w);
    forall x, y ensures Link(x, y) in g.edges <==> if x == n then y in w else Link(x, y) in net.edges {
      if x == n && y in w {
        assert y in (set m | m in w :: m);
      }
    }
  }

  /** One iteration that fails: the procedure stops in Error, with at most the tag of the
      chosen node changed and no edge, flag or node touched. */
  lemma FailingIteration(p: Proc, pick: Id, a: Answers)
    requires Sound(p) && ValidChoice(p, pick, a)
    requires !Saves(p, pick, a) && InitStep(p, pick).state == Running
    ensures var s := Iterate(p, pick, a); var n := InitStep(p, pick).current;
            && s.state == Error && s.net.edges == p.net.edges && s.net.local == p.net.local
            && s.net.nodes.Keys == p.net.nodes.Keys
            && (forall k :: k in p.net.nodes ==> s.net.nodes[k] == p.net.nodes[k].(tag := s.net.nodes[k].tag))
            && (forall k :: k in p.net.nodes && k != n ==> s.net.nodes[k] == p.net.nodes[k])
  {
    InitStepIsSound(p, pick);
  }

  // ---------------------------------------------------------------- runs

  datatype Choice = Choice(pick: Id, answers: Answers)

  function NewProc(net: Net): Proc { Proc(net, 0, map[], Idle, 0) }

  ghost predicate ValidRun(p: Proc, cs: seq<Choice>)
    decreases |cs|
  {
    cs == [] || (!Finished(p) && ValidChoice(p, cs[0].pick, cs[0].answers)
                 && ValidRun(Iterate(p, cs[0].pick, cs[0].answers), cs[1..]))
  }

  function RunState(p: Proc, cs: seq<Choice>): Proc
    decreases |cs|
  {
    if cs == [] then p else RunState(Iterate(p, cs[0].pick, cs[0].answers), cs[1..])
  }

  function RunHistory(p: Proc, h: History, cs: seq<Choice>): History
    decreases |cs|
  {
    if cs == [] then h
    else RunHistory(Iterate(p, cs[0].pick, cs[0].answers), Recorded(h, p, cs[0].pick, cs[0].answers), cs[1..])
  }

  function Thrice(order: seq<Id>): seq<Id> {
    if order == [] then [] else Thrice(order[..|order| - 1]) + Times(order[|order| - 1], 3)
  }

  function Times(x: Id, k: nat): seq<Id> { seq(k, _ => x) }

  // How often the last chosen node has been saved.
  function LastCount(h: History): int { |h.saves| - 3 * (|h.order| - 1) }

  /** The saves come in blocks: every chosen node three times in a row, only the last node
      perhaps fewer times, and no node is chosen twice. */
  predicate Rounds(h: History) {
    && Distinct(h.order) && 0 !in h.order
    && if h.order == [] then h.saves == []
       else && 1 <= LastCount(h) <= 3
            && h.saves == Thrice(h.order[..|h.order| - 1]) + Times(h.order[|h.order| - 1], LastCount(h))
  }

  predicate RoundsMatch(p: Proc, h: History) {
    && Rounds(h)
    && (!Finished(p) ==>
          if h.order == [] then p.current == 0
          else p.current == h.order[|h.order| - 1] && p.repeat == LastCount(h))
    && (p.state == Done ==> h.order != [] ==> LastCount(h) == 3)
  }

  ghost predicate Marked(p: Proc, h: History) {
    && (forall id :: id in p.net.nodes ==> (p.net.nodes[id].discovered <==> id in h.order))
    && (forall id :: id in h.order ==> id in p.net.nodes)
  }

  /** Every node asked so far has exactly the edge costs of its last table. */
  ghost predicate Costed(p: Proc, h: History) {
    && (forall n :: n in h.tables <==> n in h.order)
    && (forall n, y :: n in h.tables && Link(n, y) in p.net.edges ==>
          p.net.edges[Link(n, y)] == TableCost(h.tables[n], y, 1.0))
    && (forall x, y :: Link(x, y) in h.reports ==> Link(x, y) in p.net.edges && x in h.order)
  }

  /** Nothing the run started from is lost, and what is new is in use with an id in range. */
  ghost predicate Grown(start: Net, net: Net) {
    && net.local == start.local
    && (forall id :: id in start.nodes ==> id in net.nodes && net.nodes[id].inUse == start.nodes[id].inUse)
    && (forall id :: id in net.nodes && id !in start.nodes ==> 0 <= id < 0x1_0000_0000 && net.nodes[id].inUse)
    && (forall x, y :: Link(x, y) in start.edges ==> Link(x, y) in net.edges)
  }

  ghost predicate Inv(start: Net, p: Proc, h: History) {
    && (p.state != Error ==> Sound(p))
    && RoundsMatch(p, h)
    && Marked(p, h)
    && Costed(p, h)
    && Grown(start, p.net)
    && (p.state == Done ==> Candidates(p.net) == {} || 0 in Candidates(p.net))
  }

  lemma InvInitially(start: Net)
    requires WellFormed(start)
    ensures Inv(start, Clear(NewProc(start)), NO_HISTORY)
  {
  }

  lemma {:induction false} ThriceLength(order: seq<Id>)
    ensures |Thrice(order)| == 3 * |order|
  {
    if order != [] { ThriceLength(order[..|order| - 1]); }
  }

  lemma SameNodeAgain(h: History, h': History, n: Id)
    requires Rounds(h) && h.order != [] && h.order[|h.order| - 1] == n && LastCount(h) < 3
    requires h'.order == h.order && h'.saves == h.saves + [n]
    ensures Rounds(h') && LastCount(h') == LastCount(h) + 1
  {
    assert Times(n, LastCount(h)) + [n] == Times(n, LastCount(h) + 1);
  }

  lemma NewNodeNext(h: History, h': History, n: Id)
    requires Rounds(h) && (h.order != [] ==> LastCount(h) == 3) && n !in h.order && n != 0
    requires h'.order == h.order + [n] && h'.saves == h.saves + [n]
    ensures Rounds(h') && LastCount(h') == 1
  {
    var k := |h.order|;
    assert h'.order[..k] == h.order && h'.order[k] == n;
    ThriceLength(h.order);
    assert h.saves == Thrice(h.order);
    assert Times(n, 1) == [n];
  }

  lemma LastRound(h: History)
    requires Rounds(h) && h.order != []
    ensures h.order[|h.order| - 1] != 0 && 1 <= LastCount(h) <= 3
  {
  }

  // What a save adds to the record.
  lemma RecordedSave(h: History, p: Proc, pick: Id, a: Answers)
    requires Saves(p, pick, a) && a.table.Some?
    ensures var h' := Recorded(h, p, pick, a); var n := InitStep(p, pick).current; var t := Items(a.table.value);
            && h'.saves == h.saves + [n] && h'.tables == h.tables[n := t]
            && h'.order == (if h.order != [] && h.order[|h.order| - 1] == n then h.order else h.order + [n])
            && (forall x, y :: Link(x, y) in h'.reports <==> Link(x, y) in h.reports || (x == n && y in Reported(t)))
  {
    hide Saves, InitStep, Items, Reported;
  }

  lemma RoundsStep(p: Proc, h: History, pick: Id, a: Answers)
    requires Sound(p) && ValidChoice(p, pick, a) && Saves(p, pick, a) && !Finished(p)
    requires RoundsMatch(p, h) && Marked(p, h)
    ensures var h' := Recorded(h, p, pick, a); var n := InitStep(p, pick).current;
            && RoundsMatch(Iterate(p, pick, a), h')
            && h'.saves == h.saves + [n] && n in h'.order
            && (forall id :: id in h'.order <==> id in h.order || id == n)
  {
    hide Iterate, InitStep, WellFormed, Out, Items, Reported, TableCost, NoLoop, Saves, Recorded, RoundsMatch, Marked;
    SavingIteration(p, pick, a);
    InitStepIsSound(p, pick);
    RecordedSave(h, p, pick, a);
    var n, again := InitStep(p, pick).current, p.current != 0 && p.repeat < MAX_REPETITIONS;
    NextRound(p, Iterate(p, pick, a), h, Recorded(h, p, pick, a), n, again);
  }

  // The save of node n, again or for the first time.
  lemma NextRound(p: Proc, s: Proc, h: History, h': History, n: Id, again: bool)
    requires RoundsMatch(p, h) && Marked(p, h) && !Finished(p) && p.repeat <= MAX_REPETITIONS
    requires again == (p.current != 0 && p.repeat < MAX_REPETITIONS)
    requires if again then n == p.current && s.repeat == p.repeat + 1
             else n in Candidates(p.net) && n != 0 && s.repeat == 1
    requires s.state == Running && s.current == n
    requires h'.saves == h.saves + [n]
    requires h'.order == if h.order != [] && h.order[|h.order| - 1] == n then h.order else h.order + [n]
    ensures RoundsMatch(s, h') && n in h'.order
    ensures forall id :: id in h'.order <==> id in h.order || id == n
  {
    hide Rounds;
    if h.order != [] { LastRound(h); }
    if again {
      SameNodeAgain(h, h', n);
    } else {
      NotChosenYet(p, h, n);
      NewNodeNext(h, h', n);
    }
  }

  lemma NotChosenYet(p: Proc, h: History, n: Id)
    requires Marked(p, h) && n in Candidates(p.net)
    ensures n !in h.order
  {
  }

  lemma MarkedStep(p: Proc, h: History, pick: Id, a: Answers)
    requires Sound(p) && ValidChoice(p, pick, a) && Saves(p, pick, a) && !Finished(p)
    requires RoundsMatch(p, h) && Marked(p, h)
    ensures Marked(Iterate(p, pick, a), Recorded(h, p, pick, a))
  {
    SavingIteration(p, pick, a);
    RoundsStep(p, h, pick, a);
    hide Iterate, InitStep, Items, Reported, TableCost, NoLoop, Saves, Recorded, Rounds, Sound;
    var n, h', s := InitStep(p, pick).current, Recorded(h, p, pick, a), Iterate(p, pick, a);
    forall id | id in s.net.nodes ensures s.net.nodes[id].discovered <==> id in h'.order {
      if id in p.net.nodes && id != n { assert s.net.nodes[id] == p.net.nodes[id]; }
    }
  }

  lemma CostedAfter(p: Proc, s: Proc, h: History, h': History, n: Id, t: seq<Item>)
    requires Costed(p, h)
    requires forall x, y :: Link(x, y) in s.net.edges <==> Link(x, y) in p.net.edges || (x == n && y in Reported(t))
    requires forall x, y :: Link(x, y) in s.net.edges && x != n ==> s.net.edges[Link(x, y)] == p.net.edges[Link(x, y)]
    requires forall y :: Link(n, y) in s.net.edges ==> s.net.edges[Link(n, y)] == TableCost(t, y, 1.0)
    requires h'.tables == h.tables[n := t]
    requires forall id :: id in h'.order <==> id in h.order || id == n
    requires forall x, y :: Link(x, y) in h'.reports <==> Link(x, y) in h.reports || (x == n && y in Reported(t))
    ensures Costed(s, h')
  {
    hide Reported, TableCost;
  }

  lemma CostedStep(p: Proc, h: History, pick: Id, a: Answers)
    requires Sound(p) && ValidChoice(p, pick, a) && Saves(p, pick, a) && !Finished(p)
    requires RoundsMatch(p, h) && Marked(p, h) && Costed(p, h)
    ensures Costed(Iterate(p, pick, a), Recorded(h, p, pick, a))
  {
    hide Costed, Iterate, Sound, Reported, TableCost, InitStep, Saves, Recorded, RoundsMatch, Marked, Items,
        ValidChoice;
    SavingIteration(p, pick, a);
    RoundsStep(p, h, pick, a);
    RecordedSave(h, p, pick, a);
    CostedAfter(p, Iterate(p, pick, a), h, Recorded(h, p, pick, a), InitStep(p, pick).current, Items(a.table.value));
  }

  lemma GrownAfter(start: Net, net: Net, net': Net, added: set<Id>)
    requires Grown(start, net) && net'.local == net.local
    requires net'.nodes.Keys == net.nodes.Keys + added && forall k :: k in added ==> 0 <= k < 0x1_0000_0000
    requires forall k :: k in net.nodes ==> net'.nodes[k].inUse == net.nodes[k].inUse
    requires forall k :: k in added && k !in net.nodes ==> net'.nodes[k].inUse
    requires forall x, y :: Link(x, y) in net.edges ==> Link(x, y) in net'.edges
    ensures Grown(start, net')
  {
  }

  lemma GrownStep(start: Net, p: Proc, pick: Id, a: Answers)
    requires Sound(p) && ValidChoice(p, pick, a) && Grown(start, p.net)
    ensures Grown(start, Iterate(p, pick, a).net)
  {
    hide Grown, Sound, TableCost, Step, Items;
    var net' := Iterate(p, pick, a).net;
    if Saves(p, pick, a) {
      SavingIteration(p, pick, a);
      hide Iterate, Saves, InitStep;
      GrownAfter(start, p.net, net', Reported(Items(a.table.value)));
    } else if InitStep(p, pick).state == Running {
      FailingIteration(p, pick, a);
      hide Iterate, Saves, InitStep;
      GrownAfter(start, p.net, net', {});
    }
  }

  lemma SavingKeepsInv(start: Net, p: Proc, h: History, pick: Id, a: Answers)
    requires Inv(start, p, h) && !Finished(p) && ValidChoice(p, pick, a) && Saves(p, pick, a)
    ensures Inv(start, Iterate(p, pick, a), Recorded(h, p, pick, a))
  {
    hide RoundsMatch, Marked, Costed, Grown, Sound, ValidChoice, Saves, Iterate, Recorded, InitStep, Items, Reported,
        TableCost;
    GrownStep(start, p, pick, a);
    RoundsStep(p, h, pick, a);
    MarkedStep(p, h, pick, a);
    CostedStep(p, h, pick, a);
    SavingIteration(p, pick, a);
  }

  lemma FailingKeepsInv(start: Net, p: Proc, h: History, pick: Id, a: Answers)
    requires Inv(start, p, h) && !Finished(p) && ValidChoice(p, pick, a)
    requires !Saves(p, pick, a) && InitStep(p, pick).state == Running
    ensures Inv(start, Iterate(p, pick, a), Recorded(h, p, pick, a))
  {
    hide Rounds, Grown, Sound, ValidChoice, Iterate, InitStep, Items, Reported, TableCost, Step;
    assert Recorded(h, p, pick, a) == h;
    FailingIteration(p, pick, a);
    GrownStep(start, p, pick, a);
    hide Recorded, Saves;
    StoppedKeeps(p, Iterate(p, pick, a), h);
  }

  // Nothing the record speaks of depends on tags.
  lemma StoppedKeeps(p: Proc, s: Proc, h: History)
    requires RoundsMatch(p, h) && Marked(p, h) && Costed(p, h) && s.state == Error
    requires s.net.edges == p.net.edges && s.net.nodes.Keys == p.net.nodes.Keys
    requires forall k :: k in p.net.nodes ==> s.net.nodes[k] == p.net.nodes[k].(tag := s.net.nodes[k].tag)
    ensures RoundsMatch(s, h) && Marked(s, h) && Costed(s, h)
  {
    hide Rounds, TableCost;
  }

  /** Every iteration keeps the invariant, whatever node is picked and whatever it answers. */
  lemma IterationKeepsInv(start: Net, p: Proc, h: History, pick: Id, a: Answers)
    requires Inv(start, p, h) && !Finished(p) && ValidChoice(p, pick, a)
    ensures Inv(start, Iterate(p, pick, a), Recorded(h, p, pick, a))
  {
    hide Rounds, Sound, Grown, Costed, Marked, RoundsMatch;
    if Saves(p, pick, a) {
      SavingKeepsInv(start, p, h, pick, a);
    } else if InitStep(p, pick).state == Running {
      FailingKeepsInv(start, p, h, pick, a);
    } else {
      LastIterationKeepsInv(start, p, h, pick, a);
    }
  }

  lemma LastIterationKeepsInv(start: Net, p: Proc, h: History, pick: Id, a: Answers)
    requires Inv(start, p, h) && !Finished(p) && ValidChoice(p, pick, a) && InitStep(p, pick).state != Running
    ensures Inv(start, Iterate(p, pick, a), Recorded(h, p, pick, a))
  {
    InitStepIsSound(p, pick);
    LastRoundIsFull(p, h, pick);
    hide Rounds, TableCost, Items, Reported, NoLoop;
  }

  lemma LastRoundIsFull(p: Proc, h: History, pick: Id)
    requires RoundsMatch(p, h) && !Finished(p) && InitStep(p, pick).state != Running
    ensures h.order != [] ==> LastCount(h) == 3
  {
  }

  lemma {:induction false} RunKeepsInv(start: Net, p: Proc, h: History, cs: seq<Choice>)
    requires Inv(start, p, h) && ValidRun(p, cs)
    ensures Inv(start, RunState(p, cs), RunHistory(p, h, cs))
    ensures |h.saves| + |cs| <= |RunHistory(p, h, cs).saves| + 1
    decreases |cs|
  {
    hide Inv, Iterate, Recorded, ValidChoice;
    if cs != [] {
      var pick, a := cs[0].pick, cs[0].answers;
      IterationKeepsInv(start, p, h, pick, a);
      OneSaveOrTheEnd(start, p, h, pick, a);
      RunKeepsInv(start, Iterate(p, pick, a), Recorded(h, p, pick, a), cs[1..]);
    }
  }

  lemma OneSaveOrTheEnd(start: Net, p: Proc, h: History, pick: Id, a: Answers)
    requires Inv(start, p, h) && !Finished(p) && ValidChoice(p, pick, a)
    ensures |Recorded(h, p, pick, a).saves| == |h.saves| + 1
         || (Finished(Iterate(p, pick, a)) && Recorded(h, p, pick, a) == h)
  {
    hide RoundsMatch, Marked, Costed, Grown, Sound, ValidChoice, Items, Reported, TableCost, Saves, Iterate, InitStep;
    if Saves(p, pick, a) {
      SavingIteration(p, pick, a);
      RecordedSave(h, p, pick, a);
    } else if InitStep(p, pick).state == Running {
      FailingIteration(p, pick, a);
    } else {
      NothingToDo(p, pick, a);
    }
  }

  lemma NothingToDo(p: Proc, pick: Id, a: Answers)
    requires InitStep(p, pick).state != Running
    ensures Iterate(p, pick, a) == InitStep(p, pick) && Finished(InitStep(p, pick))
  {
  }

  // ---------------------------------------------------------------- termination

  lemma {:induction false} DistinctFits(s: seq<Id>, universe: set<Id>)
    requires Distinct(s) && forall x :: x in s ==> x in universe
    ensures |s| <= |universe|
    decreases |s|
  {
    if s != [] {
      var n := |s| - 1;
      assert forall x :: x in s[..n] ==> x in universe - {s[n]};
      DistinctFits(s[..n], universe - {s[n]});
    }
  }

  // Every id a graph grown from start can hold.
  function Universe(start: Net): set<Id> {
    start.nodes.Keys + set id | 0 <= id < 0x1_0000_0000 && IsNodeId(id)
  }

  predicate IsNodeId(id: Id) { 0 <= id < 0x1_0000_0000 }

  lemma SavesAreThreeEach(h: History)
    requires Rounds(h)
    ensures |h.saves| <= 3 * |h.order|
    ensures h.order != [] ==> |h.saves| > 3 * (|h.order| - 1)
  {
    if h.order != [] { ThriceLength(h.order[..|h.order| - 1]); }
  }

  /** Discovery ends. Although new nodes keep appearing, no run has more than three
      iterations for every id there can be, and one more to find nothing left. */
  lemma RunsAreFinite(start: Net, cs: seq<Choice>)
    requires WellFormed(start) && ValidRun(Clear(NewProc(start)), cs)
    ensures |cs| <= 3 * |Universe(start)| + 1
  {
    hide Rounds, Universe;
    var p := Clear(NewProc(start));
    InvInitially(start);
    RunKeepsInv(start, p, NO_HISTORY, cs);
    var h, net := RunHistory(p, NO_HISTORY, cs), RunState(p, cs).net;
    SavesAreThreeEach(h);
    assert Distinct(h.order) by { OrderIsDistinct(h); }
    assert forall id :: id in h.order ==> id in Universe(start) by { NodesInUniverse(start, net); }
    DistinctFits(h.order, Universe(start));
  }

  lemma OrderIsDistinct(h: History)
    requires Rounds(h)
    ensures Distinct(h.order) && 0 !in h.order
  {
  }

  lemma NodesInUniverse(start: Net, net: Net)
    requires Grown(start, net)
    ensures net.nodes.Keys <= Universe(start)
  {
    assert forall id :: id in net.nodes && id !in start.nodes ==> IsNodeId(id);
  }

  // ---------------------------------------------------------------- what a finished run has found

  /** A run that ends Done has asked every in-use node if and only if 0 is not one of them:
      0 stands for "none", so a node with that id ends the search in front of the rest.
      Each node asked was saved exactly three times, in one block. */
  lemma DoneMeansAllAsked(start: Net, cs: seq<Choice>)
    requires WellFormed(start) && ValidRun(Clear(NewProc(start)), cs)
    requires RunState(Clear(NewProc(start)), cs).state == Done
    ensures var p := Clear(NewProc(start));
            var net, h := RunState(p, cs).net, RunHistory(p, NO_HISTORY, cs);
            && ((forall id :: id in net.nodes && net.nodes[id].inUse ==> id in h.order)
                <==> !(0 in net.nodes && net.nodes[0].inUse))
            && Distinct(h.order) && h.saves == Thrice(h.order)
            && (forall n, y :: n in h.order && Link(n, y) in net.edges ==>
                  n in h.tables && net.edges[Link(n, y)] == TableCost(h.tables[n], y, 1.0)
                  && 0.0 <= net.edges[Link(n, y)] <= 1.0)
  {
    var p := Clear(NewProc(start));
    InvInitially(start);
    RunKeepsInv(start, p, NO_HISTORY, cs);
    var q, h := RunState(p, cs), RunHistory(p, NO_HISTORY, cs);
    OrderIsDistinct(h);
    if h.order == [] {
      assert Thrice(h.order) == [];
    }
    hide Rounds, RunState, RunHistory, TableCost, Sound;
    if !(0 in q.net.nodes && q.net.nodes[0].inUse) {
      assert 0 !in Candidates(q.net);
      forall id | id in q.net.nodes && q.net.nodes[id].inUse ensures id in h.order {
        assert id !in Candidates(q.net);
      }
    }
    forall n, y | n in h.order && Link(n, y) in q.net.edges ensures 0.0 <= q.net.edges[Link(n, y)] <= 1.0 {
      TableCostInRange(h.tables[n], y, 1.0);
    }
  }

  // The nodes of the graph are those it started with and those that were reported.
  ghost predicate NodesAccounted(start: Net, net: Net, h: History) {
    forall id :: id in net.nodes <==> id in start.nodes || exists x :: Link(x, id) in h.reports
  }

  lemma NodesAccountedStep(start: Net, p: Proc, h: History, pick: Id, a: Answers)
    requires Sound(p) && ValidChoice(p, pick, a) && NodesAccounted(start, p.net, h)
    ensures NodesAccounted(start, Iterate(p, pick, a).net, Recorded(h, p, pick, a))
  {
    var s, h' := Iterate(p, pick, a), Recorded(h, p, pick, a);
    InitStepIsSound(p, pick);
    if Saves(p, pick, a) {
      SavingIteration(p, pick, a);
      RecordedSave(h, p, pick, a);
      var n, added := InitStep(p, pick).current, Reported(Items(a.table.value));
      hide Iterate, Recorded, Saves, InitStep, Step, Reported, Items, Sound, TableCost, ValidChoice;
      forall id ensures id in s.net.nodes <==> id in start.nodes || exists x :: Link(x, id) in h'.reports {
        if id in added { assert Link(n, id) in h'.reports; }
        if x :| Link(x, id) in h.reports { assert Link(x, id) in h'.reports; }
      }
    } else if InitStep(p, pick).state == Running {
      FailingIteration(p, pick, a);
    }
  }

  lemma {:induction false} RunKeepsAccount(start: Net, p: Proc, h: History, cs: seq<Choice>)
    requires Inv(start, p, h) && NodesAccounted(start, p.net, h) && ValidRun(p, cs)
    ensures NodesAccounted(start, RunState(p, cs).net, RunHistory(p, h, cs))
    decreases |cs|
  {
    hide Iterate, Recorded, ValidChoice, NodesAccounted, RoundsMatch, Marked, Costed, Grown;
    if cs != [] {
      IterationKeepsInv(start, p, h, cs[0].pick, cs[0].answers);
      NodesAccountedStep(start, p, h, cs[0].pick, cs[0].answers);
      RunKeepsAccount(start, Iterate(p, cs[0].pick, cs[0].answers), Recorded(h, p, cs[0].pick, cs[0].answers), cs[1..]);
    }
  }

  /** When a finished search has asked every in-use node, told from what it was given: it
      has exactly when 0, the id that means "none", was neither an in-use node of the given
      network nor, not being a node there, reported by anyone. */
  lemma ZeroAloneEndsEarly(start: Net, cs: seq<Choice>)
    requires WellFormed(start) && ValidRun(Clear(NewProc(start)), cs)
    requires RunState(Clear(NewProc(start)), cs).state == Done
    ensures var p := Clear(NewProc(start));
            var net, h := RunState(p, cs).net, RunHistory(p, NO_HISTORY, cs);
            (forall id :: id in net.nodes && net.nodes[id].inUse ==> net.nodes[id].discovered && id in h.order)
            <==> (if 0 in start.nodes then !start.nodes[0].inUse else forall x :: Link(x, 0) !in h.reports)
  {
    var p := Clear(NewProc(start));
    InvInitially(start);
    RunKeepsInv(start, p, NO_HISTORY, cs);
    RunKeepsAccount(start, p, NO_HISTORY, cs);
    DoneMeansAllAsked(start, cs);
    hide RunState, RunHistory, Costed, Sound, RoundsMatch, Clear;
    var net, h := RunState(p, cs).net, RunHistory(p, NO_HISTORY, cs);
    assert 0 in net.nodes && net.nodes[0].inUse <==>
           if 0 in start.nodes then start.nodes[0].inUse else exists x :: Link(x, 0) in h.reports;
  }


  const ZERO_AND_TWO: seq<Option<Item>> := [Some(Item(0, -40, -40)), Some(Item(2, -40, -40))]
  const ZERO_REPORTED := Answers(true, true, Some(""), Some(ZERO_AND_TWO))

  // Local node 1 has been asked k times.
  ghost predicate AskedOne(p: Proc, k: nat) {
    && Sound(p) && !Finished(p)
    && if k == 0 then p == Clear(NewProc(NewNet(1)))
       else && p.current == 1 && p.repeat == k
            && 0 in p.net.nodes && 1 in p.net.nodes && 2 in p.net.nodes && p.net.nodes[1].discovered
            && p.net.nodes[0] == DeviceView(true, false, "") && p.net.nodes[2] == DeviceView(true, false, "")
  }

  lemma ZeroAndTwoReported()
    ensures var r := Reported(Items(ZERO_AND_TWO)); 0 in r && 2 in r && 1 !in r
  {
    var t := Items(ZERO_AND_TWO);
    assert ZERO_AND_TWO[1..] == [Some(Item(2, -40, -40))] && ZERO_AND_TWO[1..][1..] == [];
    assert t == [Item(0, -40, -40), Item(2, -40, -40)];
    assert t[0].id == 0 && t[1].id == 2;
  }

  lemma OneIsAsked(p: Proc, k: nat)
    requires AskedOne(p, k) && k < MAX_REPETITIONS
    ensures ValidChoice(p, 1, ZERO_REPORTED) && Saves(p, 1, ZERO_REPORTED)
    ensures var q := InitStep(p, 1); q.current == 1 && q.repeat == k
  {
    hide Reported, Items, ReadTable, Sound, FromGraph, Advance;
    ZeroAndTwoReported();
    var q := InitStep(p, 1);
    assert k == 0 ==> 1 in Candidates(p.net);
    assert 1 in p.net.nodes;
    assert ZERO_REPORTED.table.value == ZERO_AND_TWO;
    TableIsRead(Advance(q.neighbors));
  }

  lemma AskOnceMore(p: Proc, k: nat)
    requires AskedOne(p, k) && k < MAX_REPETITIONS
    ensures !Finished(p) && ValidChoice(p, 1, ZERO_REPORTED) && AskedOne(Iterate(p, 1, ZERO_REPORTED), k + 1)
  {
    OneIsAsked(p, k);
    ZeroAndTwoReported();
    SavingIteration(p, 1, ZERO_REPORTED);
    assert k == 0 ==> 0 !in p.net.nodes && 2 !in p.net.nodes;
    hide Iterate, InitStep, Items, Reported, Saves, ValidChoice, Sound, TableCost, Clear;
    var s := Iterate(p, 1, ZERO_REPORTED);
    assert 0 in s.net.nodes && s.net.nodes[0] == DeviceView(true, false, "");
    assert 2 in s.net.nodes && s.net.nodes[2] == DeviceView(true, false, "");
  }

  lemma ZeroIsPicked(p: Proc, a: Answers)
    requires AskedOne(p, MAX_REPETITIONS) && a.table.None?
    ensures !Finished(p) && ValidChoice(p, 0, a)
    ensures var q := Iterate(p, 0, a);
            q.state == Done && 2 in q.net.nodes && q.net.nodes[2] == DeviceView(true, false, "")
  {
    hide Sound;
    assert 0 in Candidates(p.net);
  }

  lemma TableIsRead(w: map<Id, Weights>)
    ensures ReadTable(w, ZERO_AND_TWO).1
  {
    assert ZERO_AND_TWO[1..] == [Some(Item(2, -40, -40))] && ZERO_AND_TWO[1..][1..] == [];
    var w' := Update(w, Item(0, -40, -40));
    assert ReadTable(w', ZERO_AND_TWO[1..]).1;
  }

  ghost predicate LeavesTwoUnasked(q: Proc) {
    q.state == Done && 2 in q.net.nodes && q.net.nodes[2].inUse && !q.net.nodes[2].discovered
  }

  /** Such a run: local node 1 reports 0 and 2 three times, then the search picks 0 and is
      Done, with node 2 in use and never asked. */
  lemma ARunEndedByZero() returns (cs: seq<Choice>)
    ensures ValidRun(Clear(NewProc(NewNet(1))), cs) && LeavesTwoUnasked(RunState(Clear(NewProc(NewNet(1))), cs))
  {
    cs := EndedByZero(Clear(NewProc(NewNet(1))), 0);
  }

  lemma EndedByZero(p: Proc, k: nat) returns (cs: seq<Choice>)
    requires AskedOne(p, k) && k <= MAX_REPETITIONS
    ensures ValidRun(p, cs) && LeavesTwoUnasked(RunState(p, cs))
    decreases MAX_REPETITIONS - k
  {
    hide Iterate, ValidChoice, AskedOne, Finished;
    if k == MAX_REPETITIONS {
      var last := Choice(0, Answers(false, false, None, None));
      ZeroIsPicked(p, last.answers);
      Prepend(p, last, []);
      cs := [last] + [];
    } else {
      AskOnceMore(p, k);
      var rest := EndedByZero(Iterate(p, 1, ZERO_REPORTED), k + 1);
      cs := [Choice(1, ZERO_REPORTED)] + rest;
      Prepend(p, Choice(1, ZERO_REPORTED), rest);
    }
  }

  lemma Prepend(p: Proc, c: Choice, cs: seq<Choice>)
    requires !Finished(p) && ValidChoice(p, c.pick, c.answers) && ValidRun(Iterate(p, c.pick, c.answers), cs)
    ensures ValidRun(p, [c] + cs) && RunState(p, [c] + cs) == RunState(Iterate(p, c.pick, c.answers), cs)
  {
    assert ([c] + cs)[1..] == cs;
  }

  lemma {:induction false} TableCostInRange(table: seq<Item>, m: Id, otherwise: real)
    requires 0.0 <= otherwise <= 1.0
    ensures 0.0 <= TableCost(table, m, otherwise) <= 1.0
    decreases |table|
  {
    if table != [] {
      WeightScale(table[0].rssi1, table[0].rssi1);
      WeightScale(table[0].rssi2, table[0].rssi2);
      TableCostInRange(table[1..], m, if table[0].id == m then LinkCost(table[0]) else otherwise);
    }
  }

  /** Every cost from a table is a number of hundredths. */
  lemma {:induction false} TableCostIsHundredths(table: seq<Item>, m: Id, otherwise: nat) returns (k: nat)
    requires otherwise <= 100
    ensures k <= 100 && TableCost(table, m, otherwise as real / 100.0) == k as real / 100.0
    decreases |table|
  {
    k := otherwise;
    if table != [] {
      if table[0].id == m {
        var a := HundredthsOf(table[0].rssi1);
        var b := HundredthsOf(table[0].rssi2);
        k := if a <= b then a else b;
      }
      k := TableCostIsHundredths(table[1..], m, k);
    }
  }

  lemma HundredthsOf(rssi: Rssi) returns (k: nat)
    ensures k <= 100 && Rssi2Weight(rssi) == k as real / 100.0
  {
    WeightScale(rssi, rssi);
    var percent :=
      if rssi <= 0 then (-80 - rssi) as real / -40.0
      else if rssi > 44 then rssi as real / 45.0
      else 0.0;
    var cost := 1.0 - percent;
    var clamped := if cost < 0.0 then 0.0 else if cost > 1.0 then 1.0 else cost;
    k := (clamped * 100.0 + 0.5).Floor;
  }

  /** TableCost is the cost of the last entry for m, or the default when there is none. */
  lemma {:induction false} LastEntryWins(table: seq<Item>, m: Id, otherwise: real)
    ensures m !in Reported(table) ==> TableCost(table, m, otherwise) == otherwise
    ensures forall i :: 0 <= i < |table| && table[i].id == m && m !in Reported(table[i + 1..]) ==>
              TableCost(table, m, otherwise) == LinkCost(table[i])
    decreases |table|
  {
    if table != [] {
      var x, rest := table[0], table[1..];
      var next := if x.id == m then LinkCost(x) else otherwise;
      LastEntryWins(rest, m, next);
      assert table == [x] + rest;
      ReportedCons(x, rest);
      forall i | 0 <= i < |table| && table[i].id == m && m !in Reported(table[i + 1..])
        ensures TableCost(table, m, otherwise) == LinkCost(table[i])
      {
        if i > 0 {
          assert rest[i - 1] == table[i] && rest[i..] == table[i + 1..];
        }
      }
    }
  }

  // ---------------------------------------------------------------- closure, from a fresh network

  ghost predicate IsPath(links: set<Link>, path: seq<Id>, a: Id, b: Id) {
    && |path| > 0 && path[0] == a && path[|path| - 1] == b
    && forall i :: 0 < i < |path| ==> Link(path[i - 1], path[i]) in links
  }

  ghost predicate Reaches(links: set<Link>, a: Id, b: Id) {
    exists path :: IsPath(links, path, a, b)
  }

  ghost predicate ClosedUnder(links: set<Link>, s: set<Id>) {
    forall a, b :: Link(a, b) in links && a in s ==> b in s
  }

  lemma PathExtends(links: set<Link>, more: set<Link>, a: Id, b: Id, c: Id)
    requires Reaches(links, a, b) && links <= more && Link(b, c) in more
    ensures Reaches(more, a, b) && Reaches(more, a, c)
  {
    var path :| IsPath(links, path, a, b);
    assert IsPath(more, path, a, b);
    assert IsPath(more, path + [c], a, c);
  }

  lemma {:induction false} ClosedSetsHoldPaths(links: set<Link>, s: set<Id>, path: seq<Id>, a: Id, b: Id)
    requires IsPath(links, path, a, b) && a in s && ClosedUnder(links, s)
    ensures b in s
    decreases |path|
  {
    var n := |path| - 1;
    if n > 0 {
      assert IsPath(links, path[..n], a, path[n - 1]);
      ClosedSetsHoldPaths(links, s, path[..n], a, path[n - 1]);
      assert Link(path[n - 1], path[n]) in links;
    }
  }

  /** What holds as well when the run started from an empty network: the edges are exactly
      the reports, and every node has a path of edges from the local node. */
  ghost predicate Fresh(p: Proc, h: History) {
    && p.net.local in p.net.nodes
    && (forall id :: id in p.net.nodes ==> p.net.nodes[id].inUse)
    && p.net.edges.Keys == h.reports
    && (forall id :: id in p.net.nodes ==> Reaches(h.reports, p.net.local, id))
  }

  lemma FreshInitially(local: Id)
    ensures Fresh(Clear(NewProc(NewNet(local))), NO_HISTORY) && WellFormed(NewNet(local))
  {
    assert IsPath({}, [local], local, local);
  }

  lemma FreshStep(p: Proc, h: History, pick: Id, a: Answers)
    requires Sound(p) && ValidChoice(p, pick, a) && Fresh(p, h)
    ensures Fresh(Iterate(p, pick, a), Recorded(h, p, pick, a))
  {
    hide Reaches;
    var s, h' := Iterate(p, pick, a), Recorded(h, p, pick, a);
    if Saves(p, pick, a) {
      SavingIteration(p, pick, a);
      RecordedSave(h, p, pick, a);
      FreshAfterSave(p, s, h, h', InitStep(p, pick).current, Reported(Items(a.table.value)));
    } else if InitStep(p, pick).state == Running {
      FailingIteration(p, pick, a);
    }
  }

  lemma FreshAfterSave(p: Proc, s: Proc, h: History, h': History, n: Id, added: set<Id>)
    requires Fresh(p, h) && n in p.net.nodes && s.net.local == p.net.local
    requires s.net.nodes.Keys == p.net.nodes.Keys + added
    requires forall k :: k in s.net.nodes && k in p.net.nodes ==> s.net.nodes[k].inUse == p.net.nodes[k].inUse
    requires forall k :: k in added && k !in p.net.nodes ==> s.net.nodes[k].inUse
    requires forall x, y :: Link(x, y) in s.net.edges <==> Link(x, y) in p.net.edges || (x == n && y in added)
    requires forall x, y :: Link(x, y) in h'.reports <==> Link(x, y) in h.reports || (x == n && y in added)
    ensures Fresh(s, h')
  {
    hide Reaches;
    var local := p.net.local;
    assert h.reports <= h'.reports by {
      forall e | e in h.reports ensures e in h'.reports { var Link(x, y) := e; assert e == Link(x, y); }
    }
    forall id | id in s.net.nodes ensures Reaches(h'.reports, local, id) {
      if id in p.net.nodes {
        MoreLinks(h.reports, h'.reports, local, id);
      } else {
        PathExtends(h.reports, h'.reports, local, n, id);
      }
    }
    assert s.net.edges.Keys == h'.reports by {
      forall e ensures e in s.net.edges.Keys <==> e in h'.reports {
        var Link(x, y) := e;
        assert e == Link(x, y);
      }
    }
  }

  lemma MoreLinks(links: set<Link>, more: set<Link>, a: Id, b: Id)
    requires Reaches(links, a, b) && links <= more
    ensures Reaches(more, a, b)
  {
    var path :| IsPath(links, path, a, b);
    assert IsPath(more, path, a, b);
  }

  lemma {:induction false} RunKeepsFresh(start: Net, p: Proc, h: History, cs: seq<Choice>)
    requires Inv(start, p, h) && Fresh(p, h) && ValidRun(p, cs)
    ensures Fresh(RunState(p, cs), RunHistory(p, h, cs))
    decreases |cs|
  {
    hide Iterate, Recorded, ValidChoice, Fresh, RoundsMatch, Marked, Costed, Grown;
    if cs != [] {
      IterationKeepsInv(start, p, h, cs[0].pick, cs[0].answers);
      FreshStep(p, h, cs[0].pick, cs[0].answers);
      RunKeepsFresh(start, Iterate(p, cs[0].pick, cs[0].answers), Recorded(h, p, cs[0].pick, cs[0].answers), cs[1..]);
    }
  }

  /** Closure. However the search went, at every point the nodes of a network that started
      with the local node alone are exactly those reachable from it through reports: they
      are closed under the reports, lie in every closed set that holds the local node, and
      each has a path of graph edges from it. */
  lemma DiscoveryIsClosure(local: Id, cs: seq<Choice>)
    requires ValidRun(Clear(NewProc(NewNet(local))), cs)
    ensures var p := Clear(NewProc(NewNet(local)));
            var net, reports := RunState(p, cs).net, RunHistory(p, NO_HISTORY, cs).reports;
            && net.edges.Keys == reports
            && (forall id :: id in net.nodes <==> Reaches(reports, local, id))
            && ClosedUnder(reports, net.nodes.Keys)
            && (forall s :: local in s && ClosedUnder(reports, s) ==> net.nodes.Keys <= s)
  {
    var start := NewNet(local);
    var p := Clear(NewProc(start));
    FreshInitially(local);
    InvInitially(start);
    RunKeepsInv(start, p, NO_HISTORY, cs);
    RunKeepsFresh(start, p, NO_HISTORY, cs);
    var q, h := RunState(p, cs), RunHistory(p, NO_HISTORY, cs);
    RunKeepsEdgesInside(p, cs);
    FreshIsClosure(q, h, local) by { assert q.net.local == local; }
  }

  /** Completeness. When such a search is Done it has asked every node there is a path of
      reports to, and these are all nodes of the graph, exactly when the local node is not 0
      and nobody reported 0. */
  lemma DiscoveryIsComplete(local: Id, cs: seq<Choice>)
    requires ValidRun(Clear(NewProc(NewNet(local))), cs)
    requires RunState(Clear(NewProc(NewNet(local))), cs).state == Done
    ensures var p := Clear(NewProc(NewNet(local)));
            var net, h := RunState(p, cs).net, RunHistory(p, NO_HISTORY, cs);
            && (forall id :: Reaches(h.reports, local, id) <==> id in net.nodes)
            && ((forall id :: id in net.nodes ==> net.nodes[id].discovered && id in h.order)
                <==> (local != 0 && forall x :: Link(x, 0) !in h.reports))
  {
    var start := NewNet(local);
    var p := Clear(NewProc(start));
    FreshInitially(local);
    InvInitially(start);
    RunKeepsFresh(start, p, NO_HISTORY, cs);
    DiscoveryIsClosure(local, cs);
    ZeroAloneEndsEarly(start, cs);
    hide Reaches, ClosedUnder, RunState, RunHistory, ValidRun, Clear;
    var q := RunState(p, cs);
    assert forall id :: id in q.net.nodes ==> q.net.nodes[id].inUse;
    assert 0 in start.nodes <==> local == 0;
  }

  lemma FreshIsClosure(q: Proc, h: History, local: Id)
    requires Fresh(q, h) && WellFormed(q.net) && q.net.local == local
    ensures forall id :: id in q.net.nodes <==> Reaches(h.reports, local, id)
    ensures ClosedUnder(h.reports, q.net.nodes.Keys)
    ensures forall s :: local in s && ClosedUnder(h.reports, s) ==> q.net.nodes.Keys <= s
  {
    assert ClosedUnder(h.reports, q.net.nodes.Keys) by {
      forall a, b | Link(a, b) in h.reports && a in q.net.nodes.Keys ensures b in q.net.nodes.Keys {
        assert Link(a, b) in q.net.edges.Keys;
      }
    }
    forall s, id | local in s && ClosedUnder(h.reports, s) && Reaches(h.reports, local, id) ensures id in s {
      var path :| IsPath(h.reports, path, local, id);
      ClosedSetsHoldPaths(h.reports, s, path, local, id);
    }
    forall id | Reaches(h.reports, local, id) ensures id in q.net.nodes.Keys {
      assert ClosedUnder(h.reports, q.net.nodes.Keys) && local in q.net.nodes.Keys;
    }
    forall s | local in s && ClosedUnder(h.reports, s) ensures q.net.nodes.Keys <= s {
      forall id | id in q.net.nodes.Keys ensures id in s {
        assert Reaches(h.reports, local, id);
      }
    }
  }

  lemma {:induction false} RunKeepsEdgesInside(p: Proc, cs: seq<Choice>)
    requires WellFormed(p.net) && ValidRun(p, cs) && (!Finished(p) ==> Sound(p))
    ensures WellFormed(RunState(p, cs).net)
    decreases |cs|
  {
    hide Iterate, ValidChoice, Sound;
    if cs != [] {
      EdgesInside(p, cs[0].pick, cs[0].answers);
      RunKeepsEdgesInside(Iterate(p, cs[0].pick, cs[0].answers), cs[1..]);
    }
  }

  lemma EdgesInside(p: Proc, pick: Id, a: Answers)
    requires Sound(p) && ValidChoice(p, pick, a)
    ensures WellFormed(Iterate(p, pick, a).net)
    ensures !Finished(Iterate(p, pick, a)) ==> Sound(Iterate(p, pick, a))
  {
    InitStepIsSound(p, pick);
    if Saves(p, pick, a) {
      SavingIteration(p, pick, a);
    } else if InitStep(p, pick).state == Running {
      FailingIteration(p, pick, a);
      assert Finished(Iterate(p, pick, a));
    } else {
      assert Iterate(p, pick, a) == InitStep(p, pick);
      assert Finished(Iterate(p, pick, a));
    }
  }
}

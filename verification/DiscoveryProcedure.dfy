/** The object of meshmesh/discovery.go that carries a discovery run out, over a mutable
    network. Every method is proved equal to the operation of the same name in Discovery,
    so the theorems there hold of the object. Requests to the mesh are replaced by the
    answers they get; the order of map iterations is left open. */
module DiscoveryProcedure {
  import opened Basics
  import opened MeshNetwork
  import D = Discovery
  import opened Discovery

  class DiscoveryProcedure {
    const network: Network
    var currentDeviceId: Id
    var neighbors: map<Id, Weights>
    var state: State
    var repeat: nat

    ghost predicate Valid()
      reads this, network, network.nodes.Values
    {
      network.Valid()
    }

    ghost function Value(): (p: Proc)
      reads this, network, network.nodes.Values
      ensures p == Proc(p.net, currentDeviceId, neighbors, state, repeat)
    {
      Proc(network.View(), currentDeviceId, neighbors, state, repeat)
    }

    /** InitStep makes the network with the local node alone when none was given; making it
        here instead is the same, as nothing looks at it before. */
    constructor (localNode: Id, given: Network?)
      requires given != null ==> given.Valid()
      ensures Valid() && (given != null ==> network == given)
      ensures given == null ==> fresh(network) && fresh(network.nodes.Values)
      ensures Value() == NewProc(if given == null then NewNet(localNode) else given.View())
    {
      currentDeviceId, neighbors, state, repeat := 0, map[], Idle, 0;
      if given == null {
        network := new Network.New(localNode);
      } else {
        network := given;
      }
    }

    /** _findNextNode: the first candidate wins, because every path weighs 0. */
    method FindNextNode() returns (pick: Id)
      requires Valid() 
      ensures ValidPick(network.View(), pick)
    {
      hide Network.View, Network.Valid;
      var foundWeight := 1000000000.0;
      pick := 0;
      var todo := network.nodes.Keys;
      while todo != {}
        invariant todo <= network.nodes.Keys
        invariant foundWeight == 1000000000.0 <==> Candidates(network.View()) <= todo
        invariant foundWeight == 1000000000.0 ==> pick == 0
        invariant foundWeight != 1000000000.0 ==> foundWeight == 0.0 && pick in Candidates(network.View())
        decreases todo
      {
        var id := Pick(todo);
        todo := todo - {id};
        var device := network.GetNodeDevice(id);
        if device.inUse && !device.discovered {
          var weight := 0.0;
          if weight < foundWeight {
            foundWeight, pick := weight, id;
          }
          assert id in Candidates(network.View());
        }
      }
    }

    method ChooseNode() returns (pick: Id)
      requires Valid() && (currentDeviceId == 0 || repeat == MAX_REPETITIONS)
      modifies this`currentDeviceId, this`neighbors, this`repeat, this`state
      ensures Valid() && ValidPick(network.View(), pick)
      ensures Value() == D.InitStep(old(Value()), pick)
    {
      hide FromGraph, Network.View, Network.Valid, Candidates;
      pick := FindNextNode();
      currentDeviceId := pick;
      if currentDeviceId == 0 {
        state := Done;
      } else {
        state := Running;
        neighbors := NeighborsFromGraph(network, currentDeviceId);
        repeat := 0;
      }
    }

    method InitStep() returns (ghost pick: Id)
      requires Valid() && repeat <= MAX_REPETITIONS
      modifies this`currentDeviceId, this`neighbors, this`repeat, this`state
      ensures Valid()
      ensures old(currentDeviceId) == 0 || old(repeat) == MAX_REPETITIONS ==> ValidPick(old(Value()).net, pick)
      ensures Value() == D.InitStep(old(Value()), pick)
    {
      hide FromGraph, Network.View, Network.Valid, Candidates, ValidPick;
      state := Running;
      if currentDeviceId != 0 && repeat < MAX_REPETITIONS {
        pick := 0;
      } else {
        pick := ChooseNode();
      }
    }

    method Save()
      requires Valid() && currentDeviceId !in neighbors
      modifies this`repeat, network, network.nodes.Values
      ensures Valid() && fresh(network.nodes.Values - old(network.nodes.Values))
      ensures Value() == D.Save(old(Value()))
    {
      hide ToGraph, Network.View, Network.Valid, WithNode;
      if currentDeviceId == 0 || currentDeviceId !in network.nodes {
        return;
      }
      repeat := repeat + 1;
      network.SetDiscovered(currentDeviceId, true);
      NeighborsToGraph(network, currentDeviceId, neighbors);
    }

    method SetTagIfEmpty(tag: string)
      requires Valid() && currentDeviceId in network.nodes
      modifies network.nodes[currentDeviceId]
      ensures Valid() && Value() == old(Value()).(net := Tagged(old(Value()).net, currentDeviceId, tag))
    {
      hide Network.View, Network.Valid, WithNode;
      var device := network.GetNodeDevice(currentDeviceId);
      if device.tag == "" {
        network.SetTag(currentDeviceId, TruncateZeros(tag));
      }
    }

    /** Step, up to its first failing request. */
    method Step(a: Answers) returns (ok: bool)
      requires Valid() 
      modifies this`neighbors, network.nodes.Values
      ensures Valid()
      ensures (Value(), ok) == D.Step(old(Value()), a)
    {
      hide Network.View, Network.Valid, Tagged, Advance, ReadTable;
      if !a.reset || !a.start || a.tag.None? || currentDeviceId !in network.nodes {
        return false;
      }
      SetTagIfEmpty(a.tag.value);
      if a.table.None? {
        return false;
      }
      var w := NeighborsAdvance(neighbors);
      neighbors, ok := ReadItems(w, a.table.value);
    }

    method Clear()
      requires Valid()
      modifies this`state, network.nodes.Values
      ensures Valid() && Value() == D.Clear(old(Value()))
    {
      ClearFlags(network);
      state := Idle;
    }

    /** The body of the loop in Run. */
    method OneIteration(answers: (nat, Id) -> Answers, i: nat) returns (ghost pick: Id, ghost a: Answers)
      requires Valid() && Sound(Value()) && NobodyReportsItself(answers)
      modifies this, network, network.nodes.Values
      ensures Valid() && fresh(network.nodes.Values - old(network.nodes.Values))
      ensures ValidChoice(old(Value()), pick, a) && Value() == Iterate(old(Value()), pick, a)
    {
      hide Network.View, Network.Valid, Items, Reported, ValidPick, D.Save, D.InitStep, D.Step;
      ghost var p := Value();
      pick := InitStep();
      ghost var q := Value();
      InitStepIsSound(p, pick);
      var reply := answers(i, currentDeviceId);
      a := reply;
      if state == Running {
        var ok := Step(reply);
        if !ok {
          state := Error;
        } else {
          assert currentDeviceId !in neighbors by { NoLoopAfterStep(q, a); }
          Save();
        }
      }
    }

    /** Run, from a procedure that was just created or whose last run ended Done: both ask no
        node at the moment. answers(i, n) is what node n replies in iteration i; no node
        reports itself. The run always ends, and it is one of the runs the theorems of
        Discovery speak about. */
    method Run(answers: (nat, Id) -> Answers) returns (ghost cs: seq<Choice>)
      requires Valid() && currentDeviceId == 0 && repeat <= MAX_REPETITIONS
      requires NobodyReportsItself(answers)
      modifies this, network, network.nodes.Values
      ensures Valid() && Finished(Value())
      ensures ValidRun(D.Clear(NewProc(old(Value()).net)), cs)
      ensures var q := RunState(D.Clear(NewProc(old(Value()).net)), cs);
              && AlikeButForLeftovers(Value(), q)
              && (old(Value()) == NewProc(old(Value()).net) ==> Value() == q)
    {
      hide Network.View, Network.Valid, WellFormed, NobodyReportsItself, Iterate, ValidChoice, Sound, Universe,
          SoFar, D.Clear, AlikeButForLeftovers, ValidRun, RunState;
      ghost var start := Value().net;
      ghost var created := Value() == NewProc(start);
      BeforeTheRun(Value());
      ValidIsWellFormed(network);
      hide DiscoveryProcedure.Valid, DiscoveryProcedure.Value;
      Clear();
      EmptyRun(start, Value(), created);
      cs := [];
      var i := 0;
      while state != Done && state != Error
        invariant Valid() && fresh(network.nodes.Values - old(network.nodes.Values))
        invariant SoFar(start, created, Value(), cs)
        decreases 3 * |Universe(start)| + 2 - |cs|
      {
        ghost var p := Value();
        SoundSoFar(start, created, p, cs);
        ghost var pick, a := OneIteration(answers, i);
        OneMore(start, created, p, cs, Choice(pick, a));
        cs := cs + [Choice(pick, a)];
        i := i + 1;
      }
      WholeRun(start, created, Value(), cs);
    }
  }

  ghost predicate NobodyReportsItself(answers: (nat, Id) -> Answers) {
    forall i, n :: answers(i, n).table.Some? ==> n !in Reported(Items(answers(i, n).table.value))
  }

  /** Two procedures that ask no node differ in nothing that matters when they differ only in
      what is left over from the last node asked. */
  predicate AlikeButForLeftovers(p: Proc, q: Proc) {
    p == q || (p.current == 0 && p.repeat <= MAX_REPETITIONS && p == q.(neighbors := p.neighbors, repeat := p.repeat))
  }

  lemma BeforeTheRun(p: Proc)
    requires p.current == 0 && p.repeat <= MAX_REPETITIONS
    ensures AlikeButForLeftovers(D.Clear(p), D.Clear(NewProc(p.net)))
  {
  }

  lemma AlikeIterate(p: Proc, q: Proc, c: Choice)
    requires AlikeButForLeftovers(p, q) && ValidChoice(p, c.pick, c.answers)
    ensures ValidChoice(q, c.pick, c.answers)
    ensures AlikeButForLeftovers(Iterate(p, c.pick, c.answers), Iterate(q, c.pick, c.answers))
  {
    hide ValidPick, FromGraph, D.Step, D.Save, Items, Reported;
    if p != q {
      var p1, q1 := D.InitStep(p, c.pick), D.InitStep(q, c.pick);
      assert p1.state == Running ==> p1 == q1;
    }
  }

  // p is where the choices cs lead from a procedure just created over the network start, but
  // for leftovers when it was not just created.
  ghost predicate SoFar(start: Net, created: bool, p: Proc, cs: seq<Choice>) {
    var p0 := D.Clear(NewProc(start));
    && WellFormed(start)
    && ValidRun(p0, cs) && AlikeButForLeftovers(p, RunState(p0, cs))
    && (created ==> p == RunState(p0, cs))
    && Inv(start, RunState(p0, cs), RunHistory(p0, NO_HISTORY, cs))
  }

  lemma EmptyRun(start: Net, p: Proc, created: bool)
    requires WellFormed(start) && AlikeButForLeftovers(p, D.Clear(NewProc(start)))
    requires created ==> p == D.Clear(NewProc(start))
    ensures SoFar(start, created, p, [])
  {
    InvInitially(start);
  }

  lemma SoundSoFar(start: Net, created: bool, p: Proc, cs: seq<Choice>)
    requires SoFar(start, created, p, cs) && p.state != Error
    ensures Sound(p)
  {
    hide WellFormed, ValidRun, RunState, RunHistory;
    var p0 := D.Clear(NewProc(start));
    InvIsSound(start, RunState(p0, cs), RunHistory(p0, NO_HISTORY, cs));
  }

  lemma WholeRun(start: Net, created: bool, p: Proc, cs: seq<Choice>)
    requires SoFar(start, created, p, cs)
    ensures ValidRun(D.Clear(NewProc(start)), cs) && AlikeButForLeftovers(p, RunState(D.Clear(NewProc(start)), cs))
    ensures created ==> p == RunState(D.Clear(NewProc(start)), cs)
  {
    hide WellFormed, ValidRun, RunState, RunHistory, Inv, D.Clear, AlikeButForLeftovers;
  }

  lemma OneMore(start: Net, created: bool, p: Proc, cs: seq<Choice>, c: Choice)
    requires SoFar(start, created, p, cs) && !Finished(p) && ValidChoice(p, c.pick, c.answers)
    ensures SoFar(start, created, Iterate(p, c.pick, c.answers), cs + [c])
    ensures |cs| + 1 <= 3 * |Universe(start)| + 1
  {
    var p0 := D.Clear(NewProc(start));
    AlikeIterate(p, RunState(p0, cs), c);
    hide Iterate, ValidChoice, Inv, Universe, WellFormed, D.Clear, ValidRun, RunState, RunHistory;
    RunExtends(p0, cs, c);
    InvInitially(start);
    RunKeepsInv(start, p0, NO_HISTORY, cs + [c]);
    RunsAreFinite(start, cs + [c]);
  }

  lemma InvIsSound(start: Net, p: Proc, h: History)
    requires Inv(start, p, h) && p.state != Error
    ensures Sound(p)
  {
  }

  lemma NoLoopAfterStep(q: Proc, a: Answers)
    requires Sound(q) && q.current != 0 && D.Step(q, a).1
    requires a.table.Some? ==> q.current !in Reported(Items(a.table.value))
    ensures q.current !in D.Step(q, a).0.neighbors
  {
    hide Reported, Items;
    StepMeaning(q, a);
    assert q.current !in Out(q.net, q.current);
  }

  // Some element of a set: the order of a map iterator is not fixed.
  method Pick<T(==)>(s: set<T>) returns (x: T)
    requires s != {}
    ensures x in s
  {
    x :| x in s;
  }

  lemma {:induction false} RunExtends(p: Proc, cs: seq<Choice>, c: Choice)
    requires ValidRun(p, cs) && !Finished(RunState(p, cs)) && ValidChoice(RunState(p, cs), c.pick, c.answers)
    ensures ValidRun(p, cs + [c]) && RunState(p, cs + [c]) == Iterate(RunState(p, cs), c.pick, c.answers)
    decreases |cs|
  {
    hide Iterate, ValidChoice, Finished;
    if cs != [] {
      assert (cs + [c])[1..] == cs[1..] + [c];
      RunExtends(Iterate(p, cs[0].pick, cs[0].answers), cs[1..], c);
    } else {
      assert (cs + [c])[1..] == [];
    }
  }

  method NeighborsFromGraph(g: Network, n: Id) returns (w: map<Id, Weights>)
    requires g.Valid()
    ensures w == FromGraph(g.View(), n)
  {
    w := map[];
    ghost var all := Out(g.View(), n);
    var todo := OutEdges(g, n);
    while todo != {}
      invariant todo <= all && w.Keys == all - todo
      invariant forall m :: m in w ==> w[m] == FromGraph(g.View(), n)[m]
      decreases todo
    {
      var m := Pick(todo);
      todo := todo - {m};
      var weightTo := g.edges[Link(n, m)];
      var weightFrom := if Link(m, n) in g.edges then g.edges[Link(m, n)] else weightTo;
      w := w[m := Weights(1.0, Min(weightTo, weightFrom))];
    }
    assert w == FromGraph(g.View(), n);
  }

  // The iterator over the nodes an edge leads to.
  method OutEdges(g: Network, n: Id) returns (s: set<Id>)
    requires g.Valid()
    ensures s == Out(g.View(), n)
  {
    s := set e | e in g.edges && e.from == n :: e.to;
    forall m ensures m in s <==> m in Out(g.View(), n) {
      if m in Out(g.View(), n) { assert Link(n, m) in g.edges && Link(n, m).to == m; }
    }
  }

  method NeighborsAdvance(w: map<Id, Weights>) returns (r: map<Id, Weights>)
    ensures r == Advance(w)
  {
    r := w;
    var todo := w.Keys;
    while todo != {}
      invariant todo <= w.Keys && r.Keys == w.Keys
      invariant forall m :: m in w ==> r[m] == if m in todo then w[m] else Advance(w)[m]
      decreases todo
    {
      var m := Pick(todo);
      todo := todo - {m};
      r := r[m := Weights(r[m].next, 1.0)];
    }
    assert r == Advance(w);
  }

  method ReadItems(w0: map<Id, Weights>, table: seq<Option<Item>>) returns (w: map<Id, Weights>, ok: bool)
    ensures (w, ok) == ReadTable(w0, table)
  {
    w := w0;
    for i := 0 to |table|
      invariant ReadTable(w0, table) == ReadTable(w, table[i..])
    {
      if table[i].None? {
        return w, false;
      }
      w := Update(w, table[i].value);
    }
    ok := true;
  }

  // The network after the first loop of neighborsToGraph, with the edges to keep left.
  function Trimmed(net: Net, n: Id, keep: set<Id>): Net {
    net.(edges := map e | e in net.edges && (e.from == n ==> e.to in keep) :: net.edges[e])
  }

  // The network after the second loop has written the entries in done.
  function Grafted(net: Net, n: Id, w: map<Id, Weights>, done: set<Id>): Net
    requires done <= w.Keys
  {
    Net(
      map m | m in net.nodes.Keys + done :: if m in net.nodes then net.nodes[m] else DeviceView(true, false, ""),
      map e | e in net.edges.Keys + (set m | m in done :: Link(n, m)) ::
        if e.from == n && e.to in done then w[e.to].next else net.edges[e],
      net.local)
  }

  lemma TrimOne(net: Net, n: Id, gone: set<Id>, m: Id)
    requires m in gone
    ensures WithoutEdge(Trimmed(net, n, gone), n, m) == Trimmed(net, n, gone - {m})
  {
    assert WithoutEdge(Trimmed(net, n, gone), n, m).edges == Trimmed(net, n, gone - {m}).edges;
  }

  lemma GraftOne(net: Net, n: Id, w: map<Id, Weights>, done: set<Id>, m: Id)
    requires done <= w.Keys && m in w && n in net.nodes && n != m
    ensures WithEdge(Grafted(net, n, w, done), n, m, w[m].next) == Grafted(net, n, w, done + {m})
  {
    var a, b := WithEdge(Grafted(net, n, w, done), n, m, w[m].next), Grafted(net, n, w, done + {m});
    assert a.nodes == b.nodes;
    GraftOneEdge(net, n, w, done, m);
  }

  lemma GraftOneEdge(net: Net, n: Id, w: map<Id, Weights>, done: set<Id>, m: Id)
    requires done <= w.Keys && m in w
    ensures Grafted(net, n, w, done).edges[Link(n, m) := w[m].next] == Grafted(net, n, w, done + {m}).edges
  {
    var a, b := Grafted(net, n, w, done).edges, Grafted(net, n, w, done + {m}).edges;
    forall e ensures e in a[Link(n, m) := w[m].next] <==> e in b {
      if e.from == n && e.to == m { assert e == Link(n, m); }
    }
  }

  lemma TrimmedGraftedIsToGraph(net: Net, n: Id, w: map<Id, Weights>)
    ensures Grafted(Trimmed(net, n, {}), n, w, w.Keys) == ToGraph(net, n, w)
  {
    var a, b := Grafted(Trimmed(net, n, {}), n, w, w.Keys), ToGraph(net, n, w);
    assert a.nodes == b.nodes;
    assert a.edges == b.edges;
  }

  lemma NothingTrimmed(net: Net, n: Id)
    requires WellFormed(net)
    ensures Trimmed(net, n, Out(net, n)) == net
  {
    assert Trimmed(net, n, Out(net, n)).edges == net.edges;
  }

  lemma NothingGrafted(net: Net, n: Id, w: map<Id, Weights>)
    ensures Grafted(net, n, w, {}) == net
  {
    assert Grafted(net, n, w, {}).edges == net.edges;
    assert Grafted(net, n, w, {}).nodes == net.nodes;
  }

  // The first loop of neighborsToGraph.
  method RemoveOutEdges(g: Network, n: Id)
    requires g.Valid()
    modifies g`edges
    ensures g.Valid() && g.View() == Trimmed(old(g.View()), n, {})
  {
    hide Network.View, Network.Valid, Trimmed, WithoutEdge, Out;
    ghost var net := g.View();
    var gone := OutEdges(g, n);
    ValidIsWellFormed(g);
    NothingTrimmed(net, n);
    while gone != {}
      invariant g.Valid() && g.View() == Trimmed(net, n, gone)
      decreases gone
    {
      var m := Pick(gone);
      TrimOne(net, n, gone, m);
      gone := gone - {m};
      g.RemoveEdge(n, m);
    }
  }

  // The second loop of neighborsToGraph.
  method AddOutEdges(g: Network, n: Id, w: map<Id, Weights>)
    requires g.Valid() && n in g.nodes && n !in w
    modifies g
    ensures g.Valid() && g.View() == Grafted(old(g.View()), n, w, w.Keys)
    ensures fresh(g.nodes.Values - old(g.nodes.Values))
  {
    ghost var net := g.View();
    NothingGrafted(net, n, w);
    hide Network.View, Network.Valid, Grafted, WithEdge;
    var todo := w.Keys;
    ghost var before := g.nodes.Values;
    assert w.Keys - todo == {} && w.Keys - {} == w.Keys;
    while todo != {}
      invariant todo <= w.Keys
      invariant g.Valid() && forall d :: d in g.nodes.Values ==> d in before || fresh(d)
      invariant g.View() == Grafted(net, n, w, w.Keys - todo)
      decreases todo
    {
      var m := Pick(todo);
      AddOutEdge(g, n, w, m, net, todo);
      todo := todo - {m};
    }
  }

  method AddOutEdge(g: Network, n: Id, w: map<Id, Weights>, m: Id, ghost net: Net, ghost todo: set<Id>)
    requires g.Valid() && n in net.nodes && n != m && m in todo && todo <= w.Keys
    requires g.View() == Grafted(net, n, w, w.Keys - todo)
    modifies g
    ensures g.Valid() && g.View() == Grafted(net, n, w, w.Keys - (todo - {m}))
    ensures forall d :: d in g.nodes.Values ==> d in old(g.nodes.Values) || fresh(d)
  {
    GraftOne(net, n, w, w.Keys - todo, m);
    assert w.Keys - todo + {m} == w.Keys - (todo - {m});
    hide Network.View, Network.Valid, Grafted, WithEdge;
    g.ChangeEdgeWeight(n, m, w[m].next, w[m].next);
  }

  method NeighborsToGraph(g: Network, n: Id, w: map<Id, Weights>)
    requires g.Valid() && n in g.nodes && n !in w
    modifies g
    ensures g.Valid() && g.View() == ToGraph(old(g.View()), n, w)
    ensures fresh(g.nodes.Values - old(g.nodes.Values))
  {
    hide Network.View, Network.Valid, Trimmed, Grafted, ToGraph;
    ghost var net := g.View();
    RemoveOutEdges(g, n);
    AddOutEdges(g, n, w);
    TrimmedGraftedIsToGraph(net, n, w);
  }

  method ClearFlags(g: Network)
    requires g.Valid()
    modifies g.nodes.Values
    ensures g.Valid() && g.View() == Unmarked(old(g.View()))
  {
    hide Network.View, Network.Valid;
    ghost var net := g.View();
    var todo := g.nodes.Keys;
    while todo != {}
      invariant todo <= g.nodes.Keys && g.Valid()
      invariant g.View() == net.(nodes := g.View().nodes)
      invariant forall k :: k in g.nodes ==>
        g.View().nodes[k] == if k in todo then net.nodes[k] else net.nodes[k].(discovered := false)
      decreases todo
    {
      var id := Pick(todo);
      todo := todo - {id};
      g.SetDiscovered(id, false);
    }
    assert g.View().nodes == Unmarked(net).nodes;
  }
}

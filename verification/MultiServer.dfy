/** The servers of the hub, one for each node and kind of connection (meshmesh/esphomeapi.go):
    their clients share one counter of handles, and a reply goes to the servers in turn until
    one of them has handled it. */
module MultiServer {
  import opened ConnectedPath
  import opened ClientRuns
  import opened Connections
  import opened ReplyWalk
  import opened Dispatch

  /** What others see of a server: its clients in order, and each of them. */
  datatype Shown = Shown(clients: seq<ApiConnection>, looks: seq<Look>)

  ghost function Everything(s: ServerApi): set<object>
    reads s
  {
    {s, s.backing} + s.footprint
  }

  ghost function ShownBy(s: ServerApi): (v: Shown)
    requires s.Shape()
    reads s, s.backing, s.Clients()
    ensures |v.looks| == |v.clients|
  {
    Shown(s.Clients(), Looks(s.Clients()))
  }

  /** The walk of ReplyWalk over a server, as others see it. */
  ghost function ShownAfter(v: Shown, r: Incoming): Shown
    requires |v.looks| == |v.clients|
  {
    var w := WalkAll(v.looks, HandlesOf(v.clients), r);
    Shown(Picked(v.clients, w.places[..w.count]), Picked(w.looks, w.places[..w.count]))
  }

  ghost predicate HasHandle(v: Shown, handle: U16) { handle in HandlesOf(v.clients) }

  /** The servers are in order and share nothing. */
  ghost predicate AllReady(ss: seq<ServerApi>, fp: set<object>)
    reads fp
  {
    && (forall i :: 0 <= i < |ss| ==> ss[i] in fp && Everything(ss[i]) <= fp && ss[i].Shape() && ss[i].Valid())
    && (forall i, j :: 0 <= i < j < |ss| ==> Everything(ss[i]) !! Everything(ss[j]))
  }

  ghost function Lists(ss: seq<ServerApi>, fp: set<object>): (lists: seq<seq<ApiConnection>>)
    requires AllReady(ss, fp)
    reads fp
    ensures |lists| == |ss| && forall i :: 0 <= i < |ss| ==> lists[i] == ss[i].Clients()
  {
    seq(|ss|, i requires 0 <= i < |ss| && AllReady(ss, fp) reads fp => ss[i].Clients())
  }

  // No number is used twice, and all were given before.
  ghost predicate NumbersApart(lists: seq<seq<ApiConnection>>, given: nat) {
    && (forall a :: 0 <= a < |lists| ==> Older(lists[a], given))
    && forall a, b :: 0 <= a < b < |lists| ==> NoneShared(lists[a], lists[b])
  }

  ghost predicate NoneShared(cs: seq<ApiConnection>, ds: seq<ApiConnection>) {
    forall i, j :: 0 <= i < |cs| && 0 <= j < |ds| ==> cs[i].meshprotocol.number != ds[j].meshprotocol.number
  }

  lemma LooksPicked(cs: seq<ApiConnection>, places: seq<nat>)
    requires forall j :: 0 <= j < |places| ==> places[j] < |cs|
    ensures Looks(Picked(cs, places)) == Picked(Looks(cs), places)
  {
    var a, b := Looks(Picked(cs, places)), Picked(Looks(cs), places);
    hide Looks;
    forall i | 0 <= i < |a| ensures a[i] == b[i] {
      assert Picked(cs, places)[i] == cs[places[i]];
    }
  }

  // One server: it handles the reply, or is left as it was.
  method Try(s: ServerApi, handle: U16, command: U8, data: seq<U8>, works: nat -> bool) returns (handled: bool)
    requires s.Valid()
    modifies Everything(s)
    ensures s.Valid() && Everything(s) == old(Everything(s))
    ensures handled == HasHandle(old(ShownBy(s)), handle)
    ensures ShownBy(s) == ShownAfter(old(ShownBy(s)), Incoming(handle, command, data, works))
    ensures !handled ==> ShownBy(s) == old(ShownBy(s))
  {
    hide Looks, WalkAll, Dispatch.Sound, InOrder;
    ghost var v, r := ShownBy(s), Incoming(handle, command, data, works);
    handled := s.HandleConnectedPathReply(handle, command, data, works);
    ghost var w := WalkAll(v.looks, HandlesOf(v.clients), r);
    HandledMeansMet(v.looks, HandlesOf(v.clients), r);
    LooksPicked(v.clients, w.places[..w.count]);
    if !handled {
      AllStay(v.clients, v.looks);
    }
  }

  lemma AllStay(cs: seq<ApiConnection>, looks: seq<Look>)
    requires |looks| == |cs|
    ensures var w := Start(looks); Picked(cs, w.places[..w.count]) == cs && Picked(looks, w.places[..w.count]) == looks
  {
  }

  lemma FewerAreApart(lists: seq<seq<ApiConnection>>, i: nat, cs: seq<ApiConnection>, given: nat)
    requires NumbersApart(lists, given) && i < |lists| && forall k :: 0 <= k < |cs| ==> cs[k] in lists[i]
    ensures NumbersApart(lists[i := cs], given)
  {
    var fewer := lists[i := cs];
    forall a, b | 0 <= a < b < |fewer| ensures NoneShared(fewer[a], fewer[b]) {
      assert NoneShared(lists[a], lists[b]);
    }
    forall a | 0 <= a < |fewer| ensures Older(fewer[a], given) {
      assert Older(lists[a], given);
    }
  }

  lemma NewIsApart(lists: seq<seq<ApiConnection>>, i: nat, client: ApiConnection, given: nat)
    requires NumbersApart(lists, given) && i < |lists| && client.meshprotocol.number == given
    ensures NumbersApart(lists[i := lists[i] + [client]], given + 1)
  {
    var more := lists[i := lists[i] + [client]];
    forall a, b | 0 <= a < b < |more| ensures NoneShared(more[a], more[b]) {
      assert NoneShared(lists[a], lists[b]) && Older(lists[a], given) && Older(lists[b], given);
    }
    forall a | 0 <= a < |more| ensures Older(more[a], given + 1) {
      assert Older(lists[a], given);
    }
  }

  lemma LaterIsApart(lists: seq<seq<ApiConnection>>, given: nat)
    requires NumbersApart(lists, given)
    ensures NumbersApart(lists, given + 1)
  {
  }

  lemma EmptyIsApart(lists: seq<seq<ApiConnection>>, given: nat)
    requires NumbersApart(lists, given)
    ensures NumbersApart(lists + [[]], given)
  {
  }

  /** When all living clients were given their handles within 65535 allocations, at most one
      client of all servers has the handle of a reply. */
  lemma OneClientOfAll(ss: seq<ServerApi>, fp: set<object>, given: nat, a: nat, i: nat, b: nat, j: nat)
    requires AllReady(ss, fp) && NumbersApart(Lists(ss, fp), given)
    requires a <= b < |ss| && i < |ss[a].Clients()| && j < |ss[b].Clients()|
    requires forall k :: 0 <= k < |ss| ==> NoneOlderThan(ss[k].Clients(), given - 65535)
    requires ss[a].Clients()[i].meshprotocol.handle == ss[b].Clients()[j].meshprotocol.handle
    ensures a == b && i == j
  {
    var cs, ds := ss[a].Clients(), ss[b].Clients();
    var x, y := cs[i].meshprotocol.number, ds[j].meshprotocol.number;
    assert Lists(ss, fp)[a] == cs && Lists(ss, fp)[b] == ds;
    assert Older(cs, given) && Older(ds, given);
    assert given - 65535 <= x < given && given - 65535 <= y < given;
    HandleIs(cs, ss[a].footprint, i);
    HandleIs(ds, ss[b].footprint, j);
    hide Dispatch.Sound, Advanced;
    if x < y {
      WindowIsDistinct(1, x, y);
    } else if y < x {
      WindowIsDistinct(1, y, x);
    }
    assert x == y;
  }

  ghost predicate NoneOlderThan(cs: seq<ApiConnection>, number: int) {
    forall i :: 0 <= i < |cs| ==> number <= cs[i].meshprotocol.number
  }

  class MultiServerApi {
    const handles: Handles
    var servers: seq<ServerApi>
    ghost var footprint: set<object>  // what the servers and their clients are made of

    ghost predicate Valid()
      reads this, handles, footprint
    {
      && this !in footprint && handles !in footprint && handles.Valid()
      && AllReady(servers, footprint) && NumbersApart(Lists(servers, footprint), handles.given)
    }

    constructor (handles: Handles)
      requires handles.Valid()
      ensures Valid() && servers == [] && this.handles == handles
    {
      this.handles, servers, footprint := handles, [], {};
    }

    // A server for a node in use joins the list; it has no clients yet.
    method AddServer(server: ServerApi)
      requires Valid() && server.Valid() && server.Clients() == []
      requires this !in Everything(server) && handles !in Everything(server)
      requires forall i :: 0 <= i < |servers| ==> Everything(servers[i]) !! Everything(server)
      modifies this
      ensures Valid() && servers == old(servers) + [server]
    {
      hide ServerApi.Valid, NumbersApart;
      ClientsInside(server);
      EmptyIsApart(Lists(servers, footprint), handles.given);
      ghost var lists := Lists(servers, footprint);
      servers, footprint := servers + [server], footprint + Everything(server);
      assert Lists(servers, footprint) == lists + [[]];
    }

    /** A client for server i, as ListenAndServe accepts it: no other server changes, and its
        number is used by no client of any of them. */
    method Accept(i: nat, path: seq<int>, port: U16) returns (client: ApiConnection?)
      requires Valid() && i < |servers|
      modifies this`footprint, handles, servers[i], servers[i].backing
      ensures Valid() && servers == old(servers) && handles.given == old(handles.given) + 1
      ensures (client != null) == (|path| > 1)
      ensures client != null ==> client.meshprotocol.number == old(handles.given)
      ensures var lists := old(Lists(servers, footprint));
              Lists(servers, footprint) == if client != null then lists[i := lists[i] + [client]] else lists
    {
      hide ServerApi.Valid, AllReady, NumbersApart;
      ghost var lists := Lists(servers, footprint);
      assert Older(lists[i], handles.given) by { GivenBefore(lists, i, handles.given); }
      client, footprint := AcceptAt(servers, footprint, i, handles, path, port);
      if client != null {
        NewIsApart(lists, i, client, handles.given - 1);
      } else {
        LaterIsApart(lists, handles.given - 1);
      }
    }

    /** HandleConnectedPathReply: which is the number of the server that handled the reply, or the
        number of servers. It is the first that has a client with the handle, it does the walk of
        ReplyWalk, and every other server is as it was. works(j, i) tells whether the write in
        turn i of server j goes through. */
    method HandleConnectedPathReply(handle: U16, command: U8, data: seq<U8>, works: (nat, nat) -> bool)
      returns (handled: bool, ghost which: nat)
      requires Valid()
      modifies footprint
      ensures Valid() && handled == (which < |servers|) && which <= |servers|
      ensures forall j :: 0 <= j < which ==> !HasHandle(old(ShownBy(servers[j])), handle)
      ensures forall j :: 0 <= j < |servers| && j != which ==> ShownBy(servers[j]) == old(ShownBy(servers[j]))
      ensures handled ==>
                && HasHandle(old(ShownBy(servers[which])), handle)
                && ShownBy(servers[which])
                   == ShownAfter(old(ShownBy(servers[which])),
                                 Incoming(handle, command, data, (i: nat) => works(which, i)))
    {
      hide ShownAfter, HasHandle, ServerApi.Valid, ShownBy, NumbersApart;
      handled, which := false, |servers|;
      var i := 0;
      while i < |servers|
        invariant Valid() && 0 <= i <= |servers| && !handled && which == |servers|
        invariant forall j :: 0 <= j < i ==> !HasHandle(old(ShownBy(servers[j])), handle)
        invariant forall j :: 0 <= j < |servers| ==> ShownBy(servers[j]) == old(ShownBy(servers[j]))
      {
        handled := TryAt(servers, footprint, i, handle, command, data, (t: nat) => works(i, t), handles.given);
        if handled {
          which := i;
          break;
        }
        i := i + 1;
      }
    }
  }

  lemma GivenBefore(lists: seq<seq<ApiConnection>>, i: nat, given: nat)
    requires NumbersApart(lists, given) && i < |lists|
    ensures Older(lists[i], given)
  {
  }

  method AcceptAt(ss: seq<ServerApi>, ghost fp: set<object>, i: nat, handles: Handles, path: seq<int>, port: U16)
    returns (client: ApiConnection?, ghost fp': set<object>)
    requires i < |ss| && AllReady(ss, fp) && handles !in fp && handles.Valid()
    requires Older(Lists(ss, fp)[i], handles.given)
    modifies handles, ss[i], ss[i].backing
    ensures AllReady(ss, fp') && fresh(fp' - fp) && handles.Valid() && handles.given == old(handles.given) + 1
    ensures (client != null) == (|path| > 1)
    ensures client != null ==> client.meshprotocol.number == old(handles.given)
    ensures var lists := old(Lists(ss, fp));
            Lists(ss, fp') == if client != null then lists[i := lists[i] + [client]] else lists
  {
    hide ServerApi.Valid, ApiConnection.Repr, Looks, OpenRequestFor, Older;
    ghost var lists := Lists(ss, fp);
    client := ss[i].Accept(handles, path, port);
    fp' := fp + Everything(ss[i]);
    ClientsInside(ss[i]);
    forall j | 0 <= j < |ss| && j != i ensures ss[j].Valid() && Everything(ss[j]) !! Everything(ss[i]) {
      assert Everything(ss[j]) == old(Everything(ss[j]));
    }
    assert AllReady(ss, fp');
    ghost var mine := ss[i].Clients();
    assert Lists(ss, fp') == lists[i := mine];
    assert client == null ==> lists[i := mine] == lists;
  }

  lemma ClientsInside(s: ServerApi)
    requires s.Valid()
    ensures s.Shape() && forall c :: c in s.Clients() ==> c in s.footprint
  {
    ClientsApart(s.Clients(), s.footprint);
  }

  method TryAt(ss: seq<ServerApi>, ghost fp: set<object>, i: nat, handle: U16, command: U8, data: seq<U8>,
               works: nat -> bool, ghost given: nat) returns (handled: bool)
    requires i < |ss| && AllReady(ss, fp) && NumbersApart(Lists(ss, fp), given)
    modifies fp
    ensures AllReady(ss, fp) && NumbersApart(Lists(ss, fp), given)
    ensures forall j :: 0 <= j < |ss| && j != i ==> ShownBy(ss[j]) == old(ShownBy(ss[j]))
    ensures handled == HasHandle(old(ShownBy(ss[i])), handle)
    ensures ShownBy(ss[i]) == ShownAfter(old(ShownBy(ss[i])), Incoming(handle, command, data, works))
    ensures !handled ==> ShownBy(ss[i]) == old(ShownBy(ss[i]))
  {
    hide ShownAfter, HasHandle, ServerApi.Valid, Looks, NumbersApart;
    forall j | 0 <= j < |ss| ensures ss[j].Shape() && forall c :: c in ss[j].Clients() ==> c in ss[j].footprint {
      ClientsInside(ss[j]);
    }
    ghost var lists, v := Lists(ss, fp), ShownBy(ss[i]);
    handled := Try(ss[i], handle, command, data, works);
    ClientsInside(ss[i]);
    ghost var cs := ss[i].Clients();
    PickedInside(v, Incoming(handle, command, data, works));
    FewerAreApart(lists, i, cs, given);
    assert Lists(ss, fp) == lists[i := cs];
  }

  lemma PickedInside(v: Shown, r: Incoming)
    requires |v.looks| == |v.clients|
    ensures var cs := ShownAfter(v, r).clients; forall k :: 0 <= k < |cs| ==> cs[k] in v.clients
  {
  }
}

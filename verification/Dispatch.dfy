/** The server that hands replies of the mesh out to its clients (meshmesh/esphomeapi.go), over
    an array that closing a client shifts under the loop that walks it. Its loops are proved
    equal to the walks of ReplyWalk, so the theorems there hold of them. */
module Dispatch {
  import opened ConnectedPath
  import opened Forwarding
  import opened Connections
  import opened ClientRuns
  import opened ReplyWalk

  class ServerApi {
    var backing: array<ApiConnection>
    var count: nat
    ghost var footprint: set<object>  // what the clients are made of

    ghost predicate Shape()
      reads this
    {
      count <= backing.Length
    }

    ghost function Clients(): seq<ApiConnection>
      requires Shape()
      reads this, backing
    {
      backing[..count]
    }

    /** The clients are sound, in the order they got their handles, and alive: no socket is
        closed and no connection invalid. */
    ghost predicate Valid()
      reads this, backing, footprint
    {
      && Shape() && Sound(Clients(), footprint) && InOrder(Clients()) && Alive(Clients(), footprint)
      && this !in footprint && backing !in footprint
    }

    constructor (capacity: nat, placeholder: ApiConnection)
      ensures Valid() && Clients() == [] && fresh(backing)
    {
      count, footprint := 0, {};
      backing := new ApiConnection[capacity](_ => placeholder);
    }

    /** Append, in place while there is room. */
    method AddClient(client: ApiConnection)
      requires Valid() && client.Valid() && this !in client.Repr() && backing !in client.Repr()
      requires forall i :: 0 <= i < |Clients()| ==> Apart(client, Clients()[i]) && Apart(Clients()[i], client)
      requires Older(Clients(), client.meshprotocol.number) && Live(client.Seen())
      modifies this, backing
      ensures Valid() && Clients() == old(Clients()) + [client] && footprint == old(footprint) + client.Repr()
      ensures backing == old(backing) || fresh(backing)
    {
      hide Sound, Apart, InOrder, Older, Alive, Live, ApiConnection.Valid;
      ghost var was, fp := Clients(), footprint;
      SoundMore(was, fp, client);
      AliveMore(was, fp, client);
      OrderMore(was, client);
      if count == backing.Length {
        backing := Larger(backing, client);
      }
      backing[count] := client;
      count := count + 1;
      footprint := footprint + client.Repr();
      assert Clients() == was + [client];
    }

    /** One turn of ListenAndServe: a client for a new socket, with the next handle. It joins the
        list, unless there is no path to its node; the handle is used up in both cases. */
    method Accept(handles: Handles, path: seq<int>, port: U16) returns (client: ApiConnection?)
      requires Valid() && handles.Valid() && handles !in footprint && Older(Clients(), handles.given)
      modifies this, backing, handles
      ensures Valid() && handles.Valid() && handles !in footprint && Older(Clients(), handles.given)
      ensures handles.given == old(handles.given) + 1
      ensures fresh(footprint - old(footprint)) && (backing == old(backing) || fresh(backing))
      ensures (client != null) == (|path| > 1)
      ensures Clients() == if client != null then old(Clients()) + [client] else old(Clients())
      ensures client != null ==>
                && client.meshprotocol.number == old(handles.given) && client.inputs == []
                && client.meshprotocol.requests == [OpenRequestFor(path, 1, port)]
    {
      hide Sound, Alive, ApiConnection.Valid, ApiConnection.Repr, ConnPathConnection.Valid, OpenRequestFor, InOrder,
          Older;
      ghost var was := Clients();
      client := NewClient(handles, path, port);
      OlderThanNext(was, old(handles.given), client);
      if client != null {
        AddNew(client);
      }
    }

    method AddNew(client: ApiConnection)
      requires Valid() && client.Valid() && client.inputs == [] && Older(Clients(), client.meshprotocol.number)
      requires client.Repr() !! footprint && this !in client.Repr() && backing !in client.Repr()
      modifies this, backing
      ensures Valid() && Clients() == old(Clients()) + [client] && footprint == old(footprint) + client.Repr()
      ensures backing == old(backing) || fresh(backing)
    {
      hide Sound, Apart, Alive, Live, ApiConnection.Valid, ApiConnection.Repr, InOrder, Older;
      FreshIsApart(Clients(), footprint, client);
      NewIsLive(client);
      AddClient(client);
    }

    /** One turn of the reading loop of client k. */
    method ReadByte(k: nat, b: U8)
      requires Valid() && k < |Clients()|
      modifies footprint
      ensures Valid() && Clients() == old(Clients()) && footprint == old(footprint)
      ensures Looks(Clients()) == old(Looks(Clients()))[k := Takes(old(Looks(Clients())[k]), Got(b))]
    {
      hide Sound, Alive, Looks, AllLive, InOrder, ApiConnection.Valid, ApiConnection.Repr;
      ghost var cs, before := Clients(), Looks(Clients());
      SoundMeans(cs, footprint, k);
      AliveLooks(cs, footprint);
      ReadOne(backing[k], b, cs, footprint, k);
      ByteAndLife(before, k, b);
      LooksAlive(cs, footprint);
    }

    /** Client k closes itself: its socket failed, or nobody answered its open request in time. */
    method CloseClient(k: nat)
      requires Valid() && k < |Clients()|
      modifies this`count, backing, footprint
      ensures Valid() && backing == old(backing) && Clients() == Without(old(Clients()), k)
      ensures Sound(old(Clients()), footprint)
      ensures Looks(old(Clients())) == old(Looks(Clients()))[k := Closed(old(Looks(Clients())[k]))]
    {
      hide Sound, Alive, Looks, AllLive, InOrder, ApiConnection.Valid, ApiConnection.Repr, Without;
      ghost var cs, before := Clients(), Looks(Clients());
      SoundMeans(cs, footprint, k);
      ClientsApart(cs, footprint);
      AliveLooks(cs, footprint);
      var client := backing[k];
      CloseOne(client, cs, footprint, k);
      assert client in cs;
      ghost var j := ClientClosedCb(client);
      assert j == k;
      WithoutKeepsAll(cs, footprint, before, k);
    }

    /** ClientClosedCb: the list is closed up in place, so the last place of the array keeps a
        stale copy of the last client. */
    method ClientClosedCb(client: ApiConnection) returns (ghost k: nat)
      requires Shape()
      modifies this`count, backing
      ensures Shape() && backing == old(backing)
      ensures client !in old(Clients()) ==> k == count == old(count) && backing[..] == old(backing[..])
      ensures client in old(Clients()) ==>
                && k < old(count) && old(backing[k]) == client
                && (forall j :: 0 <= j < k ==> old(backing[j]) != client)
                && count == old(count) - 1 && backing[..] == ClosedUp(old(backing[..]), old(count), k)
                && Clients() == Without(old(Clients()), k)
    {
      hide ClosedUp, Without;
      var idx := 0;
      while idx < count && backing[idx] != client
        invariant idx <= count == old(count) && backing[..] == old(backing[..])
        invariant forall j :: 0 <= j < idx ==> backing[j] != client
      {
        idx := idx + 1;
      }
      k := idx;
      if idx == count {
        return;
      }
      ghost var was := backing[..];
      assert Clients()[idx] == client && was[..count] == Clients();
      var j := idx;
      while j + 1 < count
        invariant idx <= j < count == old(count) <= backing.Length == |was|
        invariant forall m :: 0 <= m < idx || j <= m < backing.Length ==> backing[m] == was[m]
        invariant forall m :: idx <= m < j ==> backing[m] == was[m + 1]
      {
        backing[j] := backing[j + 1];
        j := j + 1;
      }
      ShiftedDown(was, backing[..], count, idx);
      count := count - 1;
      assert Clients() == backing[..][..count];
    }

    /** HandleConnectedPathReply is the walk, whatever handles the clients have; works tells
        whether the write to a socket in turn i goes through. */
    method HandleConnectedPathReply(handle: U16, command: U8, data: seq<U8>, works: nat -> bool)
      returns (handled: bool)
      requires Valid()
      modifies this`count, backing, footprint
      ensures Valid() && Sound(old(Clients()), footprint) && backing == old(backing)
      ensures var cs := old(Clients());
              var w := WalkAll(old(Looks(Clients())), HandlesOf(cs), Incoming(handle, command, data, works));
              && handled == w.handled && Looks(cs) == w.looks && Clients() == Picked(cs, w.places[..w.count])
    {
      hide Sound, Alive, Looks, Matches, Increasing, Picked, InOrder, WalkAll, AllLive, ListedMeansLive,
          ApiConnection.Valid, ApiConnection.Repr;
      ghost var was, before, r := Clients(), Looks(Clients()), Incoming(handle, command, data, works);
      AliveLooks(was, footprint);
      handled := WalkClients(handle, command, data, works);
      OrderIsKeptToo(before, HandlesOf(was), r);
      WalkedEnd(was, backing[..|was|], count, Looks(was), handled, WalkAll(before, HandlesOf(was), r), footprint);
      WalkListsLiving(before, HandlesOf(was), r);
      AliveAfter(was, backing[..|was|], count, WalkAll(before, HandlesOf(was), r), footprint);
      assert Clients() == backing[..|was|][..count];
    }

    // The loop over the slice as it was at the start.
    method WalkClients(handle: U16, command: U8, data: seq<U8>, works: nat -> bool) returns (handled: bool)
      requires Valid()
      modifies this`count, backing, footprint
      ensures backing == old(backing) && Sound(old(Clients()), footprint)
      ensures old(count) <= backing.Length && this !in footprint && backing !in footprint
      ensures var cs := old(Clients());
              var w := WalkAll(old(Looks(Clients())), HandlesOf(cs), Incoming(handle, command, data, works));
              Matches(cs, backing[..old(count)], count, Looks(cs), handled, w)
    {
      hide Sound, Looks, WalkTo, WalkStep, WalkOk, Matches, Start, InOrder, HandlesOf, ApiConnection.Valid,
          ApiConnection.Repr;
      ghost var was, before, r := Clients(), Looks(Clients()), Incoming(handle, command, data, works);
      ghost var hs := HandlesOf(was);
      var slice, n := backing, count;
      handled := false;
      StartMatches(was, before);
      ghost var w := Start(before);
      WalkBegins(before, hs, r);
      for i := 0 to n
        invariant slice == backing && n == |was| <= backing.Length && w == WalkTo(before, hs, i, r)
        invariant Sound(was, footprint) && this !in footprint && backing !in footprint
        invariant Matches(was, backing[..n], count, Looks(was), handled, w)
      {
        var met := Visit(i, handle, command, data, works(i), was, w, handled, r);
        handled := handled || met;
        WalkGoesOn(before, hs, i, r);
        w := WalkStep(w, hs, i, r);
      }
    }

    // The body of the loop.
    method Visit(i: nat, handle: U16, command: U8, data: seq<U8>, socketWorks: bool,
                 ghost cs: seq<ApiConnection>, ghost w: Walk, ghost handled: bool, ghost r: Incoming)
      returns (met: bool)
      requires Sound(cs, footprint) && this !in footprint && backing !in footprint
      requires i < |cs| <= backing.Length && r == Incoming(handle, command, data, r.works) && r.works(i) == socketWorks
      requires Matches(cs, backing[..|cs|], count, Looks(cs), handled, w)
      modifies this`count, backing, footprint
      ensures backing == old(backing) && Sound(cs, footprint)
      ensures Matches(cs, backing[..|cs|], count, Looks(cs), handled || met, WalkStep(w, HandlesOf(cs), i, r))
    {
      hide Sound, Looks, ApiConnection.Valid, ApiConnection.Repr, Replied, Removed;
      ghost var c := w.places[i];
      var client := backing[i];
      assert client == backing[..|cs|][i] == cs[c];
      met := client.meshprotocol.handle == handle;
      if met {
        SoundMeans(cs, footprint, c);
        var closed := HandleOne(client, command, data, socketWorks, cs, footprint, c);
        ghost var served := w.(looks := Looks(cs), handled := true);
        if closed {
          CloseUp(client, cs, c, served);
        }
      }
    }

    // The callback at the end of Close; it leaves the clients themselves alone.
    method CloseUp(client: ApiConnection, ghost cs: seq<ApiConnection>, ghost c: nat, ghost w: Walk)
      requires Sound(cs, footprint) && this !in footprint && backing !in footprint
      requires c < |cs| <= backing.Length && client == cs[c]
      requires Matches(cs, backing[..|cs|], count, Looks(cs), w.handled, w)
      modifies this`count, backing
      ensures backing == old(backing) && Sound(cs, footprint) && Looks(cs) == old(Looks(cs))
      ensures Matches(cs, backing[..|cs|], count, Looks(cs), w.handled, Removed(w, c))
    {
      hide Sound, Looks, ApiConnection.Valid, ApiConnection.Repr, ClosedUp, Matches, WalkOk, Removed;
      ghost var was, n := backing[..], count;
      MatchesMeans(cs, backing[..|cs|], n, Looks(cs), w.handled, w);
      SoundMeans(cs, footprint, c);
      ClientsApart(cs, footprint);
      ghost var k := ClientClosedCb(client);
      assert was[..n] == was[..|cs|][..n];
      RemovedMatches(cs, was[..|cs|], n, Looks(cs), w, c, k);
      if k < n {
        ClosedUpPrefix(was, n, k, |cs|);
      }
    }

    /** CloseConnections is the walk that closes whoever it meets. */
    method CloseConnections()
      requires Valid()
      modifies this`count, backing, footprint
      ensures Valid() && Sound(old(Clients()), footprint) && backing == old(backing)
      ensures var cs := old(Clients());
              var w := CloseAll(old(Looks(Clients())));
              && Looks(cs) == w.looks && Clients() == Picked(cs, w.places[..w.count])
    {
      hide Sound, Alive, Looks, Matches, Increasing, Picked, InOrder, CloseAll, AllLive, ListedMeansLive,
          ApiConnection.Valid, ApiConnection.Repr;
      ghost var was, before := Clients(), Looks(Clients());
      AliveLooks(was, footprint);
      CloseClients();
      OrderIsKept(before);
      WalkedEnd(was, backing[..|was|], count, Looks(was), false, CloseAll(before), footprint);
      ClosingListsTheLiving(before);
      AliveAfter(was, backing[..|was|], count, CloseAll(before), footprint);
      assert Clients() == backing[..|was|][..count];
    }

    // The loop over the slice as it was at the start.
    method CloseClients()
      requires Valid()
      modifies this`count, backing, footprint
      ensures backing == old(backing) && Sound(old(Clients()), footprint)
      ensures old(count) <= backing.Length && this !in footprint && backing !in footprint
      ensures var cs := old(Clients());
              Matches(cs, backing[..old(count)], count, Looks(cs), false, CloseAll(old(Looks(Clients()))))
    {
      hide Sound, Looks, CloseStep, WalkOk, Matches, Start, InOrder, ApiConnection.Valid, ApiConnection.Repr;
      ghost var was, before := Clients(), Looks(Clients());
      var slice, n := backing, count;
      StartMatches(was, before);
      for i := 0 to n
        invariant slice == backing && n == |was| <= backing.Length
        invariant Sound(was, footprint) && this !in footprint && backing !in footprint
        invariant Matches(was, backing[..n], count, Looks(was), false, CloseTo(before, i))
      {
        CloseAt(i, was, CloseTo(before, i));
      }
    }

    method CloseAt(i: nat, ghost cs: seq<ApiConnection>, ghost w: Walk)
      requires Sound(cs, footprint) && this !in footprint && backing !in footprint
      requires i < |cs| <= backing.Length
      requires Matches(cs, backing[..|cs|], count, Looks(cs), false, w)
      modifies this`count, backing, footprint
      ensures backing == old(backing) && Sound(cs, footprint)
      ensures Matches(cs, backing[..|cs|], count, Looks(cs), false, CloseStep(w, i))
    {
      hide Sound, Looks, ApiConnection.Valid, ApiConnection.Repr, Closed, Removed;
      ghost var c := w.places[i];
      var client := backing[i];
      assert client == backing[..|cs|][i] == cs[c];
      SoundMeans(cs, footprint, c);
      CloseOne(client, cs, footprint, c);
      CloseUp(client, cs, c, w.(looks := Looks(cs)));
    }
  }

  // ---------------------------------------------------------------- the clients of a server

  ghost function HandlesOf(cs: seq<ApiConnection>): (hs: seq<U16>)
    ensures |hs| == |cs| && forall i :: 0 <= i < |cs| ==> hs[i] == cs[i].meshprotocol.handle
  {
    seq(|cs|, i requires 0 <= i < |cs| => cs[i].meshprotocol.handle)
  }

  lemma WalkBegins(before: seq<Look>, hs: seq<U16>, r: Incoming)
    requires |before| == |hs|
    ensures WalkTo(before, hs, 0, r) == Start(before)
  {
  }

  lemma WalkGoesOn(before: seq<Look>, hs: seq<U16>, i: nat, r: Incoming)
    requires |before| == |hs| && i < |hs|
    ensures WalkTo(before, hs, i + 1, r) == WalkStep(WalkTo(before, hs, i, r), hs, i, r)
  {
  }

  ghost predicate Alive(cs: seq<ApiConnection>, fp: set<object>)
    requires Sound(cs, fp)
    reads fp
  {
    forall i :: 0 <= i < |cs| ==> Live(cs[i].Seen())
  }

  ghost predicate Older(cs: seq<ApiConnection>, number: nat) {
    forall i :: 0 <= i < |cs| ==> cs[i].meshprotocol.number < number
  }

  ghost predicate InOrder(cs: seq<ApiConnection>) {
    forall i, j :: 0 <= i < j < |cs| ==> cs[i].meshprotocol.number < cs[j].meshprotocol.number
  }

  /** The handles of the clients differ exactly when no two of them were given their handles a
      multiple of 65535 allocations apart. */
  lemma HandlesDiffer(cs: seq<ApiConnection>, fp: set<object>)
    requires Sound(cs, fp)
    ensures (forall h :: AtMostOne(HandlesOf(cs), h)) <==>
            forall i, j :: 0 <= i < j < |cs| ==>
              cs[i].meshprotocol.number % 65535 != cs[j].meshprotocol.number % 65535
  {
    var hs := HandlesOf(cs);
    forall i, j | 0 <= i < j < |cs|
      ensures hs[i] == hs[j] <==> cs[i].meshprotocol.number % 65535 == cs[j].meshprotocol.number % 65535
    {
      HandleIs(cs, fp, i);
      HandleIs(cs, fp, j);
      HandlesCollide(cs[i].meshprotocol.number, cs[j].meshprotocol.number);
    }
    hide Sound;
    if forall h :: AtMostOne(hs, h) {
      forall i, j | 0 <= i < j < |cs| ensures hs[i] != hs[j] {
        assert AtMostOne(hs, hs[i]);
      }
    }
  }

  lemma HandleIs(cs: seq<ApiConnection>, fp: set<object>, i: nat)
    requires Sound(cs, fp) && i < |cs|
    ensures cs[i].meshprotocol.handle == Advanced(1, cs[i].meshprotocol.number)
  {
    assert cs[i].Valid();
  }

  /** So they differ as long as the oldest client in the list was given its handle fewer than
      65535 allocations before the newest. */
  lemma LiveHandlesDiffer(cs: seq<ApiConnection>, fp: set<object>, h: U16)
    requires Sound(cs, fp) && InOrder(cs)
    requires cs != [] ==> cs[|cs| - 1].meshprotocol.number - cs[0].meshprotocol.number < 65535
    ensures AtMostOne(HandlesOf(cs), h)
  {
    forall i, j | 0 <= i < j < |cs| ensures HandlesOf(cs)[i] != HandlesOf(cs)[j] {
      HandleIs(cs, fp, i);
      HandleIs(cs, fp, j);
      WindowIsDistinct(1, cs[i].meshprotocol.number, cs[j].meshprotocol.number);
    }
  }

  /** What OneClientServed says of such a server: the reply acts on the client at k alone, once,
      and on no other, and that client leaves the list if it was closed. */
  lemma LiveClientServed(cs: seq<ApiConnection>, fp: set<object>, k: nat, looks: seq<Look>, r: Incoming)
    requires Sound(cs, fp) && InOrder(cs) && |looks| == |cs|
    requires k < |cs| && cs[|cs| - 1].meshprotocol.number - cs[0].meshprotocol.number < 65535
    requires cs[k].meshprotocol.handle == r.handle
    ensures var w := WalkAll(looks, HandlesOf(cs), r);
            var (look, closed) := Replied(looks[k], r.command, r.data, r.works(k));
            && w.handled && w.looks == looks[k := look]
            && Picked(cs, w.places[..w.count]) == if closed then Without(cs, k) else cs
  {
    hide Sound, InOrder, Replied, WalkAll;
    LiveHandlesDiffer(cs, fp, r.handle);
    OneClientServed(looks, HandlesOf(cs), k, r);
  }

  function Picked<T>(s: seq<T>, places: seq<nat>): (p: seq<T>)
    requires forall j :: 0 <= j < |places| ==> places[j] < |s|
    ensures |p| == |places| && forall j :: 0 <= j < |p| ==> p[j] == s[places[j]]
  {
    seq(|places|, j requires 0 <= j < |places| => s[places[j]])
  }

  // The array, the count and the clients are those of the walk.
  ghost predicate Matches(cs: seq<ApiConnection>, now: seq<ApiConnection>, count: nat, looks: seq<Look>,
      handled: bool, w: Walk) {
    && WalkOk(w, |cs|) && |now| == |cs| && count == w.count && looks == w.looks && handled == w.handled
    && forall j :: 0 <= j < |now| ==> now[j] == cs[w.places[j]]
  }

  lemma StartMatches(cs: seq<ApiConnection>, looks: seq<Look>)
    requires |looks| == |cs|
    ensures Matches(cs, cs, |cs|, looks, false, Start(looks))
  {
  }

  lemma MatchesMeans(cs: seq<ApiConnection>, now: seq<ApiConnection>, count: nat, looks: seq<Look>,
      handled: bool, w: Walk)
    requires Matches(cs, now, count, looks, handled, w)
    ensures count <= |now| == |cs| && WalkOk(w, |cs|)
  {
  }

  lemma RemovedMatches(cs: seq<ApiConnection>, now: seq<ApiConnection>, count: nat, looks: seq<Look>, w: Walk,
      c: nat, k: nat)
    requires Matches(cs, now, count, looks, w.handled, w) && c < |cs| && k <= count
    requires forall i, j :: 0 <= i < j < |cs| ==> cs[i] != cs[j]
    requires forall j :: 0 <= j < k ==> now[j] != cs[c]
    requires k < count ==> now[k] == cs[c]
    ensures var now' := if k < count then ClosedUp(now, count, k) else now;
            Matches(cs, now', if k < count then count - 1 else count, looks, w.handled, Removed(w, c))
  {
    hide ClosedUp, IndexOf;
    var list := w.places[..w.count];
    var m := IndexOf(list, c);
    assert forall j :: 0 <= j < |list| ==> list[j] == w.places[j] && (list[j] == c <==> now[j] == cs[c]);
    assert m == k;
    if k < count {
      ClosedUpIs(now, count, k);
      ClosedUpIs(w.places, count, k);
    }
  }

  lemma ShiftedDown<T>(was: seq<T>, now: seq<T>, count: nat, k: nat)
    requires k < count <= |was| == |now|
    requires forall m :: 0 <= m < k || count - 1 <= m < |was| ==> now[m] == was[m]
    requires forall m :: k <= m < count - 1 ==> now[m] == was[m + 1]
    ensures now == ClosedUp(was, count, k) && now[..count - 1] == Without(was[..count], k)
  {
    ClosedUpIs(was, count, k);
  }

  lemma ClosedUpPrefix<T>(s: seq<T>, count: nat, k: nat, n: nat)
    requires k < count <= n <= |s|
    ensures |ClosedUp(s, count, k)| == |s| && ClosedUp(s, count, k)[..n] == ClosedUp(s[..n], count, k)
  {
  }

  lemma WalkedEnd(cs: seq<ApiConnection>, now: seq<ApiConnection>, count: nat, looks: seq<Look>,
      handled: bool, w: Walk, fp: set<object>)
    requires Matches(cs, now, count, looks, handled, w) && Increasing(w.places[..w.count])
    requires Sound(cs, fp) && InOrder(cs)
    ensures looks == w.looks && handled == w.handled && count <= |now|
    ensures now[..count] == Picked(cs, w.places[..w.count])
    ensures Sound(now[..count], fp) && InOrder(now[..count])
  {
    hide Sound, InOrder, Increasing;
    PickedKeeps(cs, fp, w.places[..w.count]);
  }

  lemma AliveLooks(cs: seq<ApiConnection>, fp: set<object>)
    requires Sound(cs, fp) && Alive(cs, fp)
    ensures AllLive(Looks(cs))
  {
    hide Sound, Live, ApiConnection.Seen;
    var looks := Looks(cs);
    forall i | 0 <= i < |looks| ensures Live(looks[i]) {
      assert Live(cs[i].Seen());
    }
  }

  lemma LooksAlive(cs: seq<ApiConnection>, fp: set<object>)
    requires Sound(cs, fp) && AllLive(Looks(cs))
    ensures Alive(cs, fp)
  {
    hide Sound, Live, ApiConnection.Seen;
    var looks := Looks(cs);
    forall i | 0 <= i < |cs| ensures Live(cs[i].Seen()) {
      assert Live(looks[i]);
    }
  }

  lemma ByteAndLife(looks: seq<Look>, k: nat, b: U8)
    requires AllLive(looks) && k < |looks|
    ensures AllLive(looks[k := Takes(looks[k], Got(b))])
  {
    EventMore(looks[k].events, Byte(b));
  }

  lemma WithoutKeepsAll(cs: seq<ApiConnection>, fp: set<object>, before: seq<Look>, k: nat)
    requires k < |cs| == |before| && Sound(cs, fp) && InOrder(cs) && AllLive(before)
    requires Looks(cs) == before[k := Closed(before[k])]
    ensures Sound(Without(cs, k), fp) && InOrder(Without(cs, k)) && Alive(Without(cs, k), fp)
  {
    hide Live, ApiConnection.Seen, ApiConnection.Valid, Looks, Closed;
    var rest := Without(cs, k);
    assert forall j :: 0 <= j < |rest| ==> rest[j] == cs[if j < k then j else j + 1];
    forall i, j | 0 <= i < |rest| && 0 <= j < |rest| && i != j ensures Apart(rest[i], rest[j]) {
      assert Apart(cs[if i < k then i else i + 1], cs[if j < k then j else j + 1]);
    }
    forall j | 0 <= j < |rest| ensures Live(rest[j].Seen()) {
      var i := if j < k then j else j + 1;
      assert Live(before[i]) && Looks(cs)[i] == before[i];
    }
  }

  /** So much is true of every client in the list of a server at any time: no reply, failed
      delivery or closing has ended it, its connection is not invalid but where its commands
      led it, all data for it are on its socket in order, and what it has sent is what the
      packetizer makes of all its bytes. */
  lemma ListedClientsAreServed(s: ServerApi, k: nat)
    requires s.Valid() && k < |s.Clients()|
    ensures var c := s.Clients()[k];
            && Undisturbed(c.inputs) && c.socketOpen && c.toSocket == DataOf(c.inputs)
            && c.meshprotocol.connState == AfterAll(HandshakeStarted, CommandsOf(c.inputs)) != Invalid
            && Payloads(c.meshprotocol.requests)
               == if c.meshprotocol.connState == Active then Forwarded(NEW_FORWARDER, GotOf(c.inputs)).sent else []
  {
    var c := s.Clients()[k];
    assert c.Valid() && Live(c.Seen());
    hide Sound, Alive, Looks, ServerApi.Valid;
    RunIsOpen(c.inputs);
    AckTimingIsInvisible(c.events);
    hide Undisturbed, AfterAll, StateAfter, ApiAfter, RunOf, DataOf, CommandsOf, GotOf, Forwarded;
  }

  lemma WalkListsLiving(before: seq<Look>, hs: seq<U16>, r: Incoming)
    requires |before| == |hs| && AllLive(before)
    ensures ListedMeansLive(WalkAll(before, hs, r), |hs|)
  {
    WalkListsTheLiving(before, hs, |hs|, r);
  }

  lemma AliveAfter(cs: seq<ApiConnection>, now: seq<ApiConnection>, count: nat, w: Walk, fp: set<object>)
    requires WalkOk(w, |cs|) && ListedMeansLive(w, |cs|) && Looks(cs) == w.looks && count <= |now|
    requires now[..count] == Picked(cs, w.places[..w.count]) && Sound(now[..count], fp)
    ensures Alive(now[..count], fp)
  {
    hide Sound, Live, Increasing, Looks, Picked, ApiConnection.Seen;
    var list, rest := w.places[..w.count], now[..count];
    forall j | 0 <= j < |rest| ensures Live(rest[j].Seen()) {
      var c := list[j];
      assert c in list && rest[j] == cs[c];
    }
  }

  lemma OrderIsKept(before: seq<Look>)
    ensures var w := CloseAll(before); Increasing(w.places[..w.count])
  {
    EveryOtherIsSpared(before);
  }

  lemma OrderIsKeptToo(before: seq<Look>, hs: seq<U16>, r: Incoming)
    requires |before| == |hs|
    ensures var w := WalkAll(before, hs, r); Increasing(w.places[..w.count])
  {
    WalkLeavesOthers(before, hs, |hs|, r);
  }

  lemma PickedKeeps(cs: seq<ApiConnection>, fp: set<object>, places: seq<nat>)
    requires Sound(cs, fp) && InOrder(cs) && Increasing(places)
    requires forall j :: 0 <= j < |places| ==> places[j] < |cs|
    ensures Sound(Picked(cs, places), fp) && InOrder(Picked(cs, places))
  {
    hide ApiConnection.Repr, ApiConnection.Valid, Apart;
    var ps := Picked(cs, places);
    forall i, j | 0 <= i < |ps| && 0 <= j < |ps| && i != j ensures Apart(ps[i], ps[j]) {
      assert if i < j then places[i] < places[j] else places[j] < places[i];
      assert Apart(cs[places[i]], cs[places[j]]);
    }
  }

  lemma SoundMeans(cs: seq<ApiConnection>, fp: set<object>, i: nat)
    requires Sound(cs, fp) && i < |cs|
    ensures cs[i].Repr() <= fp
  {
  }

  lemma ClientsApart(cs: seq<ApiConnection>, fp: set<object>)
    requires Sound(cs, fp)
    ensures forall i, j :: 0 <= i < j < |cs| ==> cs[i] != cs[j]
    ensures forall c :: c in cs ==> c in fp
  {
    forall c | c in cs ensures c in fp {
      var i :| 0 <= i < |cs| && cs[i] == c;
      assert cs[i].Repr() <= fp;
    }
  }

  lemma FreshIsApart(cs: seq<ApiConnection>, fp: set<object>, client: ApiConnection)
    requires Sound(cs, fp) && client.Repr() !! fp
    ensures forall i :: 0 <= i < |cs| ==> Apart(client, cs[i]) && Apart(cs[i], client)
  {
    forall i | 0 <= i < |cs| ensures Apart(client, cs[i]) && Apart(cs[i], client) {
      assert cs[i].Repr() <= fp;
      assert client in client.Repr() && client.meshprotocol in client.Repr() && client.tmpBuffer in client.Repr()
        && client.inBuffer in client.Repr();
    }
  }

  method Larger(a: array<ApiConnection>, filler: ApiConnection) returns (b: array<ApiConnection>)
    ensures fresh(b) && b.Length == 2 * a.Length + 1 && b[..a.Length] == a[..]
  {
    b := new ApiConnection[2 * a.Length + 1](_ => filler);
    for i := 0 to a.Length
      invariant b[..i] == a[..i]
    {
      b[i] := a[i];
    }
  }

  lemma OrderMore(cs: seq<ApiConnection>, client: ApiConnection)
    requires InOrder(cs) && Older(cs, client.meshprotocol.number)
    ensures InOrder(cs + [client])
  {
  }

  lemma NewIsLive(client: ApiConnection)
    requires client.Valid() && client.inputs == []
    ensures Live(client.Seen())
  {
  }

  lemma AliveMore(cs: seq<ApiConnection>, fp: set<object>, client: ApiConnection)
    requires Sound(cs, fp) && Alive(cs, fp) && Live(client.Seen())
    requires Sound(cs + [client], fp + client.Repr())
    ensures Alive(cs + [client], fp + client.Repr())
  {
    hide Sound, Live;
  }

  lemma SoundMore(cs: seq<ApiConnection>, fp: set<object>, client: ApiConnection)
    requires Sound(cs, fp) && client.Valid()
    requires forall i :: 0 <= i < |cs| ==> Apart(client, cs[i]) && Apart(cs[i], client)
    ensures Sound(cs + [client], fp + client.Repr())
  {
  }

  // NewConnPathConnection, and the client if the connection can be opened.
  method NewClient(handles: Handles, path: seq<int>, port: U16) returns (client: ApiConnection?)
    requires handles.Valid()
    modifies handles
    ensures handles.Valid() && handles.given == old(handles.given) + 1
    ensures (client != null) == (|path| > 1)
    ensures client != null ==>
              && fresh(client.Repr()) && client.Valid()
              && client.meshprotocol.number == old(handles.given) && client.inputs == []
              && client.meshprotocol.requests == [OpenRequestFor(path, 1, port)]
  {
    hide Advanced, OpenRequestFor, ApiAfter, Forwarded;
    var connection := new ConnPathConnection(handles);
    var ok := connection.OpenConnectionAsync(path, port);
    if !ok {
      return null;
    }
    client := new ApiConnection(connection);
  }

  lemma OlderThanNext(cs: seq<ApiConnection>, number: nat, client: ApiConnection?)
    requires Older(cs, number)
    ensures Older(cs, number + 1)
    ensures client != null && client.meshprotocol.number == number ==> Older(cs + [client], number + 1)
  {
  }

  // The reply for one client of the list.
  method HandleOne(client: ApiConnection, command: U8, data: seq<U8>, socketWorks: bool,
                   ghost cs: seq<ApiConnection>, ghost fp: set<object>, ghost i: nat) returns (closed: bool)
    requires i < |cs| && client == cs[i] && Sound(cs, fp)
    modifies client.Repr()
    ensures Sound(cs, fp)
    ensures (Looks(cs)[i], closed) == Replied(old(Looks(cs))[i], command, data, socketWorks)
    ensures Looks(cs) == old(Looks(cs))[i := Looks(cs)[i]]
  {
    hide ApiConnection.Valid, Replied;
    ghost var before := Looks(cs);
    closed := client.HandleReply(command, data, socketWorks);
    forall j | 0 <= j < |cs| && j != i ensures cs[j].Valid() && Looks(cs)[j] == before[j] {
      assert Apart(cs[j], client);
    }
    assert Looks(cs) == before[i := Looks(cs)[i]];
  }

  // A byte for one client of the list.
  method ReadOne(client: ApiConnection, b: U8, ghost cs: seq<ApiConnection>, ghost fp: set<object>, ghost i: nat)
    requires i < |cs| && client == cs[i] && Sound(cs, fp)
    modifies client.Repr()
    ensures Sound(cs, fp)
    ensures Looks(cs) == old(Looks(cs))[i := Takes(old(Looks(cs)[i]), Got(b))]
  {
    hide ApiConnection.Valid;
    ghost var before := Looks(cs);
    client.ReadByte(b);
    forall j | 0 <= j < |cs| && j != i ensures cs[j].Valid() && Looks(cs)[j] == before[j] {
      assert Apart(cs[j], client);
    }
    assert Looks(cs)[i] == Takes(before[i], Got(b));
    assert Looks(cs) == before[i := Takes(before[i], Got(b))];
  }

  // Closing one client of the list, up to the callback.
  method CloseOne(client: ApiConnection, ghost cs: seq<ApiConnection>, ghost fp: set<object>, ghost i: nat)
    requires i < |cs| && client == cs[i] && Sound(cs, fp)
    modifies client.Repr()
    ensures Sound(cs, fp)
    ensures Looks(cs) == old(Looks(cs))[i := Closed(old(Looks(cs))[i])]
  {
    hide ApiConnection.Valid;
    ghost var before := Looks(cs);
    client.Close();
    forall j | 0 <= j < |cs| && j != i ensures cs[j].Valid() && Looks(cs)[j] == before[j] {
      assert Apart(cs[j], client);
    }
    assert Looks(cs)[i] == Closed(before[i]);
    assert Looks(cs) == before[i := Closed(before[i])];
  }

  ghost function Looks(cs: seq<ApiConnection>): (ls: seq<Look>)
    reads cs
    ensures |ls| == |cs|
    ensures forall i :: 0 <= i < |cs| ==> ls[i] == cs[i].Seen()
  {
    if cs == [] then []
    else
      var n := |cs| - 1;
      Looks(cs[..n]) + [cs[n].Seen()]
  }

  ghost predicate Apart(c: ApiConnection, d: ApiConnection) {
    && c != d && c.meshprotocol != d.meshprotocol
    && c.tmpBuffer != d.tmpBuffer && c.tmpBuffer != d.inBuffer && c.inBuffer != d.tmpBuffer && c.inBuffer != d.inBuffer
  }

  /** The clients are in order and share nothing. */
  ghost predicate Sound(cs: seq<ApiConnection>, fp: set<object>)
    reads fp
  {
    && (forall i :: 0 <= i < |cs| ==> cs[i].Repr() <= fp && cs[i].Valid())
    && (forall i, j :: 0 <= i < |cs| && 0 <= j < |cs| && i != j ==> Apart(cs[i], cs[j]))
  }
}

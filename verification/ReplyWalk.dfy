/** The loop that hands one reply of the mesh out to the clients of a server
    (HandleConnectedPathReply of meshmesh/esphomeapi.go), as a machine on values. The loop
    walks the client list by the length and the array it had at the start, while closing a
    client shifts the rest of the list one place down in that same array. Clients are told by
    their number in the list as it was. */
module ReplyWalk {
  import opened ConnectedPath
  import opened Forwarding
  import opened ClientRuns

  /** A reply; works tells whether a write to the socket goes through in turn i of the loop. */
  datatype Incoming = Incoming(handle: U16, command: U8, data: seq<U8>, works: nat -> bool)

  /** places is the array the loop walks over, count the length of the list by now, and looks
      what has become of the clients. */
  datatype Walk = Walk(places: seq<nat>, count: nat, looks: seq<Look>, handled: bool)

  predicate WalkOk(w: Walk, n: nat) {
    && |w.places| == n == |w.looks| && w.count <= n
    && forall j :: 0 <= j < n ==> w.places[j] < n
  }

  // The list closed up in place: what was behind the first count places stays there.
  function ClosedUp<T>(s: seq<T>, count: nat, k: nat): seq<T>
    requires k < count <= |s|
  {
    s[..k] + s[k + 1..count] + s[count - 1..]
  }

  function IndexOf(s: seq<nat>, c: nat): (k: nat)
    ensures k <= |s| && (k < |s| ==> s[k] == c)
    ensures forall j :: 0 <= j < k ==> s[j] != c
  {
    if s == [] || s[0] == c then 0
    else
      var k := IndexOf(s[1..], c);
      assert forall j :: 0 < j < k + 1 ==> s[j] == s[1..][j - 1];
      k + 1
  }

  function Removed(w: Walk, c: nat): Walk
    requires w.count <= |w.places|
  {
    var k := IndexOf(w.places[..w.count], c);
    if k == w.count then w else w.(places := ClosedUp(w.places, w.count, k), count := w.count - 1)
  }

  /** One turn of the loop; hs are the handles of the clients. */
  function WalkStep(w: Walk, hs: seq<U16>, i: nat, r: Incoming): (w': Walk)
    requires WalkOk(w, |hs|) && i < |hs|
    ensures WalkOk(w', |hs|)
  {
    var c := w.places[i];
    if hs[c] != r.handle then w
    else
      var (look, closed) := Replied(w.looks[c], r.command, r.data, r.works(i));
      var served := w.(looks := w.looks[c := look], handled := true);
      if closed then Removed(served, c) else served
  }

  function Start(looks: seq<Look>): Walk {
    Walk(seq(|looks|, i => i), |looks|, looks, false)
  }

  /** The loop when it has passed i places. */
  function WalkTo(looks: seq<Look>, hs: seq<U16>, i: nat, r: Incoming): (w: Walk)
    requires |looks| == |hs| && i <= |hs|
    ensures WalkOk(w, |hs|)
  {
    if i == 0 then Start(looks) else WalkStep(WalkTo(looks, hs, i - 1, r), hs, i - 1, r)
  }

  function WalkAll(looks: seq<Look>, hs: seq<U16>, r: Incoming): (w: Walk)
    requires |looks| == |hs|
    ensures WalkOk(w, |hs|)
  {
    WalkTo(looks, hs, |hs|, r)
  }

  // ---------------------------------------------------------------- whatever the handles are

  predicate Increasing(s: seq<nat>) { forall i, j :: 0 <= i < j < |s| ==> s[i] < s[j] }

  function Without<T>(s: seq<T>, k: nat): seq<T>
    requires k < |s|
  {
    s[..k] + s[k + 1..]
  }

  lemma ClosedUpIs<T>(s: seq<T>, count: nat, k: nat)
    requires k < count <= |s|
    ensures var t := ClosedUp(s, count, k);
            && |t| == |s| && t[..count - 1] == Without(s[..count], k)
            && forall j :: 0 <= j < |s| ==> t[j] == s[if k <= j < count - 1 then j + 1 else j]
  {
  }

  lemma WithoutKeeps(s: seq<nat>, k: nat)
    requires k < |s| && Increasing(s)
    ensures Increasing(Without(s, k))
    ensures forall c :: c in Without(s, k) <==> c in s && c != s[k]
  {
    var t := Without(s, k);
    assert forall j :: 0 <= j < |t| ==> t[j] == s[if j < k then j else j + 1];
    forall c | c in s && c != s[k] ensures c in t {
      var j :| 0 <= j < |s| && s[j] == c;
      assert t[if j < k then j else j - 1] == c;
    }
  }

  /** The list keeps its order, only closed clients with the handle leave it, and clients with
      another handle stay in it just as they were. */
  ghost predicate OthersStay(w: Walk, hs: seq<U16>, looks: seq<Look>, handle: U16)
    requires WalkOk(w, |hs|) && |looks| == |hs|
  {
    && Increasing(w.places[..w.count])
    && (forall c :: 0 <= c < |hs| && hs[c] != handle ==> w.looks[c] == looks[c])
    && (forall c :: 0 <= c < |hs| && (hs[c] != handle || w.looks[c].socketOpen) ==>
          c in w.places[..w.count])
  }

  lemma ClosedIsClosed(c: Look, command: U8, data: seq<U8>, works: bool)
    ensures var (look, closed) := Replied(c, command, data, works);
            look.socketOpen == (c.socketOpen && !closed)
  {
  }

  lemma StepLeavesOthers(w: Walk, hs: seq<U16>, i: nat, looks: seq<Look>, r: Incoming)
    requires WalkOk(w, |hs|) && i < |hs| && |looks| == |hs| && OthersStay(w, hs, looks, r.handle)
    ensures OthersStay(WalkStep(w, hs, i, r), hs, looks, r.handle)
  {
    hide Replied, IndexOf;
    var c := w.places[i];
    if hs[c] == r.handle {
      ClosedIsClosed(w.looks[c], r.command, r.data, r.works(i));
      var list := w.places[..w.count];
      var k := IndexOf(list, c);
      if k < w.count {
        ClosedUpIs(w.places, w.count, k);
        WithoutKeeps(list, k);
        hide ClosedUp, Without;
      }
    }
  }

  /** Whatever handles the clients have: a reply leaves the order of the list alone, takes only
      clients out of it that it closed, and leaves every client with another handle as it was. */
  lemma {:induction false} WalkLeavesOthers(looks: seq<Look>, hs: seq<U16>, i: nat, r: Incoming)
    requires |looks| == |hs| && i <= |hs|
    ensures OthersStay(WalkTo(looks, hs, i, r), hs, looks, r.handle)
  {
    hide WalkStep;
    if i > 0 {
      WalkLeavesOthers(looks, hs, i - 1, r);
      StepLeavesOthers(WalkTo(looks, hs, i - 1, r), hs, i - 1, looks, r);
    } else {
      hide Replied;
      var list := Start(looks).places[..|hs|];
      forall c | 0 <= c < |hs| ensures c in list {
        assert list[c] == c;
      }
    }
  }

  predicate AllLive(looks: seq<Look>) { forall i :: 0 <= i < |looks| ==> Live(looks[i]) }

  /** Exactly the clients that are alive are in the list. */
  ghost predicate ListedMeansLive(w: Walk, n: nat)
    requires WalkOk(w, n)
  {
    && Increasing(w.places[..w.count])
    && forall c :: 0 <= c < n ==> (c in w.places[..w.count] <==> Live(w.looks[c]))
  }

  lemma StepListsTheLiving(w: Walk, hs: seq<U16>, i: nat, r: Incoming)
    requires WalkOk(w, |hs|) && i < |hs| && ListedMeansLive(w, |hs|)
    ensures ListedMeansLive(WalkStep(w, hs, i, r), |hs|)
  {
    hide Replied, IndexOf, Live;
    var c := w.places[i];
    if hs[c] == r.handle {
      ReplyAndLife(w.looks[c], r.command, r.data, r.works(i));
      var list := w.places[..w.count];
      var k := IndexOf(list, c);
      if k < w.count {
        ClosedUpIs(w.places, w.count, k);
        WithoutKeeps(list, k);
        hide ClosedUp, Without;
      }
    }
  }

  /** A server whose clients were all alive: after a reply exactly those still alive are in its
      list, whatever handles they have, so none whose connection is invalid. */
  lemma {:induction false} WalkListsTheLiving(looks: seq<Look>, hs: seq<U16>, i: nat, r: Incoming)
    requires |looks| == |hs| && i <= |hs| && AllLive(looks)
    ensures ListedMeansLive(WalkTo(looks, hs, i, r), |hs|)
  {
    hide WalkStep, Live;
    if i > 0 {
      WalkListsTheLiving(looks, hs, i - 1, r);
      StepListsTheLiving(WalkTo(looks, hs, i - 1, r), hs, i - 1, r);
    } else {
      var list := Start(looks).places[..|hs|];
      forall c | 0 <= c < |hs| ensures c in list {
        assert list[c] == c;
      }
    }
  }

  lemma {:induction false} NothingYet(looks: seq<Look>, hs: seq<U16>, i: nat, r: Incoming)
    requires |looks| == |hs| && i <= |hs|
    requires forall j :: 0 <= j < i ==> hs[j] != r.handle
    ensures WalkTo(looks, hs, i, r) == Start(looks)
  {
    if i > 0 {
      NothingYet(looks, hs, i - 1, r);
    }
  }

  lemma {:induction false} HandledStays(looks: seq<Look>, hs: seq<U16>, i: nat, j: nat, r: Incoming)
    requires |looks| == |hs| && i <= j <= |hs| && WalkTo(looks, hs, i, r).handled
    ensures WalkTo(looks, hs, j, r).handled
  {
    hide Replied;
    if i < j {
      HandledStays(looks, hs, i, j - 1, r);
    }
  }

  /** A reply counts as handled exactly when some client has its handle. */
  lemma HandledMeansMet(looks: seq<Look>, hs: seq<U16>, r: Incoming)
    requires |looks| == |hs|
    ensures WalkAll(looks, hs, r).handled <==> r.handle in hs
    ensures r.handle !in hs ==> WalkAll(looks, hs, r) == Start(looks)
  {
    if r.handle in hs {
      var k := FirstWith(hs, r.handle);
      NothingYet(looks, hs, k, r);
      assert WalkTo(looks, hs, k + 1, r).handled;
      HandledStays(looks, hs, k + 1, |hs|, r);
    } else {
      NothingYet(looks, hs, |hs|, r);
    }
  }

  lemma FirstWith(hs: seq<U16>, h: U16) returns (k: nat)
    requires h in hs
    ensures k < |hs| && hs[k] == h && forall j :: 0 <= j < k ==> hs[j] != h
  {
    k := 0;
    while hs[k] != h
      invariant k < |hs| && h in hs[k..]
      invariant forall j :: 0 <= j < k ==> hs[j] != h
      decreases |hs| - k
    {
      assert hs[k..] == [hs[k]] + hs[k + 1..];
      k := k + 1;
    }
  }

  // ---------------------------------------------------------------- one client for the handle

  predicate AtMostOne(hs: seq<U16>, h: U16) {
    forall i, j :: 0 <= i < j < |hs| ==> hs[i] != h || hs[j] != h
  }

  // The walk after client k alone was served.
  function Served(looks: seq<Look>, k: nat, r: Incoming): Walk
    requires k < |looks|
  {
    var (look, closed) := Replied(looks[k], r.command, r.data, r.works(k));
    var w := Start(looks).(looks := looks[k := look], handled := true);
    if closed then w.(places := ClosedUp(w.places, |looks|, k), count := |looks| - 1) else w
  }

  // Neither the shift nor the stale copy in the last place shows client k again.
  lemma NotMetAgain(looks: seq<Look>, hs: seq<U16>, k: nat, i: nat, r: Incoming)
    requires |looks| == |hs| && k < i < |hs| && hs[k] == r.handle && AtMostOne(hs, r.handle)
    ensures WalkOk(Served(looks, k, r), |hs|) && WalkStep(Served(looks, k, r), hs, i, r) == Served(looks, k, r)
  {
    hide Replied, IndexOf;
    var w := Served(looks, k, r);
    assert w.places[i] == (if w.count == |hs| then i else if i + 1 < |hs| then i + 1 else i);
  }

  lemma ServedFirst(looks: seq<Look>, hs: seq<U16>, k: nat, r: Incoming)
    requires |looks| == |hs| && k < |hs| && hs[k] == r.handle
    ensures WalkStep(Start(looks), hs, k, r) == Served(looks, k, r)
  {
    hide Replied;
    var list := Start(looks).places;
    assert list[..|looks|] == list && list[k] == k;
    assert IndexOf(list, k) == k;
  }

  lemma {:induction false} OneClientWalk(looks: seq<Look>, hs: seq<U16>, k: nat, i: nat, r: Incoming)
    requires |looks| == |hs| && k < i <= |hs| && hs[k] == r.handle && AtMostOne(hs, r.handle)
    ensures WalkTo(looks, hs, i, r) == Served(looks, k, r)
    decreases i
  {
    hide WalkStep, Served, Replied;
    if i == k + 1 {
      NothingYet(looks, hs, k, r);
      ServedFirst(looks, hs, k, r);
    } else {
      OneClientWalk(looks, hs, k, i - 1, r);
      NotMetAgain(looks, hs, k, i - 1, r);
    }
  }

  /** When client k alone has the handle, the reply acts on it once and on nobody else, and it
      alone leaves the list, if it was closed. */
  lemma OneClientServed(looks: seq<Look>, hs: seq<U16>, k: nat, r: Incoming)
    requires |looks| == |hs| && k < |hs| && hs[k] == r.handle && AtMostOne(hs, r.handle)
    ensures var w := WalkAll(looks, hs, r);
            var (look, closed) := Replied(looks[k], r.command, r.data, r.works(k));
            && w.handled && w.looks == looks[k := look]
            && w.places[..w.count] == if closed then Without(Start(looks).places, k) else Start(looks).places
  {
    hide Replied;
    OneClientWalk(looks, hs, k, |hs|, r);
    var s := Start(looks).places;
    ClosedUpIs(s, |s|, k);
    assert s[..|s|] == s;
  }

  // ---------------------------------------------------------------- shared handles

  ghost predicate ActsOnAtMostOne(hs: seq<U16>, h: U16) {
    forall looks: seq<Look>, r: Incoming, a, b ::
      |looks| == |hs| && r.handle == h && 0 <= a < b < |hs| ==> !ActsOnBoth(looks, hs, r, a, b)
  }

  predicate ActsOnBoth(looks: seq<Look>, hs: seq<U16>, r: Incoming, a: nat, b: nat)
    requires |looks| == |hs| && a < b < |hs|
  {
    var now := WalkAll(looks, hs, r).looks;
    now[a] != looks[a] && now[b] != looks[b]
  }

  function Delivery(h: U16): Incoming { Incoming(h, SEND_DATA_REQUEST, [0], (i: nat) => true) }

  // While nobody is closed the walk meets every client once.
  lemma {:induction false} AllServed(hs: seq<U16>, i: nat, h: U16)
    requires i <= |hs|
    ensures var looks := seq(|hs|, _ => NEW_LOOK);
            var w := WalkTo(looks, hs, i, Delivery(h));
            && w.places == Start(looks).places && w.count == |hs|
            && forall c :: 0 <= c < |hs| ==>
                 w.looks[c] == if c < i && hs[c] == h then NEW_LOOK.(toSocket := [[0]]) else NEW_LOOK
  {
    if i > 0 {
      AllServed(hs, i - 1, h);
      assert [] + [[0]] == [[0]];
    }
  }

  /** No reply acts on two clients exactly when no two clients have its handle. */
  lemma OneHandleOneClient(hs: seq<U16>, h: U16)
    ensures ActsOnAtMostOne(hs, h) <==> AtMostOne(hs, h)
  {
    hide WalkTo, WalkAll, WalkStep, Start;
    if AtMostOne(hs, h) {
      forall looks: seq<Look>, r: Incoming, a, b
        | |looks| == |hs| && r.handle == h && 0 <= a < b < |hs|
        ensures !ActsOnBoth(looks, hs, r, a, b)
      {
        OthersAsTheyWere(looks, hs, r, if hs[a] == h then b else a);
      }
    } else {
      var a, b :| 0 <= a < b < |hs| && hs[a] == h && hs[b] == h;
      var looks := seq(|hs|, _ => NEW_LOOK);
      DeliveredToBoth(hs, h, a, b);
      assert ActsOnBoth(looks, hs, Delivery(h), a, b);
    }
  }

  lemma OthersAsTheyWere(looks: seq<Look>, hs: seq<U16>, r: Incoming, c: nat)
    requires |looks| == |hs| && c < |hs| && hs[c] != r.handle
    ensures WalkAll(looks, hs, r).looks[c] == looks[c]
  {
    WalkLeavesOthers(looks, hs, |hs|, r);
  }

  lemma DeliveredToBoth(hs: seq<U16>, h: U16, a: nat, b: nat)
    requires a < b < |hs| && hs[a] == h && hs[b] == h
    ensures ActsOnBoth(seq(|hs|, _ => NEW_LOOK), hs, Delivery(h), a, b)
  {
    AllServed(hs, |hs|, h);
  }

  function Refusal(h: U16): Incoming { Incoming(h, SEND_DATA_REQUEST, [0], (i: nat) => false) }

  lemma RefusedTurn(w: Walk, hs: seq<U16>, i: nat, h: U16)
    requires WalkOk(w, |hs|) && i < |hs| && hs[w.places[i]] == h
    ensures var c := w.places[i];
            var served := w.(looks := w.looks[c := Closed(w.looks[c])], handled := true);
            WalkStep(w, hs, i, Refusal(h)) == Removed(served, c)
  {
  }

  /** Three clients with one handle, and a write that fails: the first is closed, its neighbour
      is skipped, and the last is met in the shifted place and again in the stale one, and so
      closed twice. */
  lemma SharedHandleSkips(h: U16, a: Look, b: Look, c: Look)
    ensures var w := WalkAll([a, b, c], [h, h, h], Refusal(h));
            && w.looks == [Closed(a), b, Closed(Closed(c))]
            && w.places[..w.count] == [1]
  {
    hide WalkStep, Closed;
    var looks, hs, r := [a, b, c], [h, h, h], Refusal(h);
    var w0 := Walk([0, 1, 2], 3, [a, b, c], false);
    var w1 := Walk([1, 2, 2], 2, [Closed(a), b, c], true);
    var w2 := Walk([1, 2, 2], 1, [Closed(a), b, Closed(c)], true);
    var w3 := Walk([1, 2, 2], 1, [Closed(a), b, Closed(Closed(c))], true);
    assert Start(looks) == w0;
    assert WalkStep(w0, hs, 0, r) == w1 by { FirstTurn(h, a, b, c); }
    assert WalkStep(w1, hs, 1, r) == w2 by { SecondTurn(h, Closed(a), b, c); }
    assert WalkStep(w2, hs, 2, r) == w3 by { ThirdTurn(h, Closed(a), b, Closed(c)); }
    assert WalkTo(looks, hs, 1, r) == w1 && WalkTo(looks, hs, 2, r) == w2 && WalkTo(looks, hs, 3, r) == w3;
    assert w3.places[..1] == [1];
  }

  lemma FirstTurn(h: U16, a: Look, b: Look, c: Look)
    ensures WalkStep(Walk([0, 1, 2], 3, [a, b, c], false), [h, h, h], 0, Refusal(h))
      == Walk([1, 2, 2], 2, [Closed(a), b, c], true)
  {
    hide WalkStep, Closed;
    var s := [0, 1, 2];
    RefusedTurn(Walk(s, 3, [a, b, c], false), [h, h, h], 0, h);
    assert s[..3] == s && IndexOf(s, 0) == 0;
    assert ClosedUp(s, 3, 0) == [1, 2, 2];
    assert [a, b, c][0 := Closed(a)] == [Closed(a), b, c];
  }

  lemma SecondTurn(h: U16, a: Look, b: Look, c: Look)
    ensures WalkStep(Walk([1, 2, 2], 2, [a, b, c], true), [h, h, h], 1, Refusal(h))
      == Walk([1, 2, 2], 1, [a, b, Closed(c)], true)
  {
    hide WalkStep, Closed;
    var s := [1, 2, 2];
    RefusedTurn(Walk(s, 2, [a, b, c], true), [h, h, h], 1, h);
    var list := s[..2];
    assert list[1] == 2 && list[0] == 1;
    assert IndexOf(list, 2) == 1;
    assert ClosedUp(s, 2, 1) == [1, 2, 2];
    assert [a, b, c][2 := Closed(c)] == [a, b, Closed(c)];
  }

  lemma ThirdTurn(h: U16, a: Look, b: Look, c: Look)
    ensures WalkStep(Walk([1, 2, 2], 1, [a, b, c], true), [h, h, h], 2, Refusal(h))
      == Walk([1, 2, 2], 1, [a, b, Closed(c)], true)
  {
    hide WalkStep, Closed;
    var s := [1, 2, 2];
    RefusedTurn(Walk(s, 1, [a, b, c], true), [h, h, h], 2, h);
    var list := s[..1];
    assert list[0] == 1 && IndexOf(list, 2) == 1;
    assert [a, b, c][2 := Closed(c)] == [a, b, Closed(c)];
  }

  // ---------------------------------------------------------------- closing them all

  /** One turn of CloseConnections, which walks the list in the same way and closes whoever it
      meets. */
  function CloseStep(w: Walk, i: nat): (w': Walk)
    requires WalkOk(w, |w.places|) && i < |w.places|
    ensures WalkOk(w', |w.places|)
  {
    var c := w.places[i];
    Removed(w.(looks := w.looks[c := Closed(w.looks[c])]), c)
  }

  function CloseTo(looks: seq<Look>, i: nat): (w: Walk)
    requires i <= |looks|
    ensures WalkOk(w, |looks|)
  {
    if i == 0 then Start(looks) else CloseStep(CloseTo(looks, i - 1), i - 1)
  }

  function CloseAll(looks: seq<Look>): (w: Walk)
    ensures WalkOk(w, |looks|)
  {
    CloseTo(looks, |looks|)
  }

  // The client in place j after i turns.
  function PlaceAfter(n: nat, i: nat, j: nat): int
    requires j < n
  {
    var c := if j < i then 2 * j + 1 else j + i;
    if c < n then c else n - 1
  }

  function CountAfter(n: nat, i: nat): int
    requires i <= n
  {
    if n == 0 then 0 else if n - i > (n - 1) / 2 then n - i else (n - 1) / 2
  }

  // A client in an odd place, and not in the last, counting from 0.
  predicate IsSpared(n: nat, c: nat) { c % 2 == 1 && c < n - 1 }

  predicate IsMet(n: nat, i: nat, c: nat) { (c % 2 == 0 && c < 2 * i) || (c == n - 1 && n < 2 * i) }

  predicate ClosedSoFar(looks: seq<Look>, i: nat, w: Walk)
    requires i <= |looks|
  {
    var n := |looks|;
    && WalkOk(w, n) && w.count == CountAfter(n, i)
    && (forall j :: 0 <= j < n ==> w.places[j] == PlaceAfter(n, i, j))
    && (forall c :: 0 <= c < n && IsSpared(n, c) ==> w.looks[c] == looks[c])
    && (forall c :: 0 <= c < n && IsMet(n, i, c) ==> !w.looks[c].socketOpen)
  }

  // Where the client met in turn i is in the list, or that it is no longer there.
  lemma MetAt(looks: seq<Look>, i: nat, w: Walk)
    requires i < |looks| && ClosedSoFar(looks, i, w)
    ensures var n, k := |looks|, IndexOf(w.places[..w.count], w.places[i]);
            k == if i < w.count then i else if n == 2 * i then i - 1 else w.count
  {
    hide IndexOf;
    var n := |looks|;
    var list, c := w.places[..w.count], w.places[i];
    if i < w.count {
      assert n - i > (n - 1) / 2;
      assert list[i] == c == 2 * i;
      forall j | 0 <= j < i ensures list[j] != c { }
    } else if n == 2 * i {
      assert list[i - 1] == c == n - 1;
      forall j | 0 <= j < i - 1 ensures list[j] != c { }
    } else {
      forall j | 0 <= j < w.count ensures list[j] != c { }
    }
  }

  lemma PlacesShift(n: nat, i: nat, s: seq<nat>, count: nat, k: nat)
    requires i < n && |s| == n && count == CountAfter(n, i) && k < count
    requires k == if i < count then i else i - 1
    requires i < count || n == 2 * i
    requires forall j :: 0 <= j < n ==> s[j] == PlaceAfter(n, i, j)
    ensures var t := ClosedUp(s, count, k);
            && |t| == n && count - 1 == CountAfter(n, i + 1)
            && forall j :: 0 <= j < n ==> t[j] == PlaceAfter(n, i + 1, j)
  {
    var t := ClosedUp(s, count, k);
    assert forall j :: 0 <= j < n ==> t[j] == s[if k <= j < count - 1 then j + 1 else j];
  }

  // What a turn does to the clients themselves.
  lemma LooksAfter(looks: seq<Look>, i: nat, w: Walk)
    requires i < |looks| && ClosedSoFar(looks, i, w)
    ensures var n, ls := |looks|, CloseStep(w, i).looks;
            && |ls| == n && (forall c :: 0 <= c < n && IsSpared(n, c) ==> ls[c] == looks[c])
            && (forall c :: 0 <= c < n && IsMet(n, i + 1, c) ==> !ls[c].socketOpen)
  {
    hide IndexOf, ClosedUp;
    assert w.places[i] == if 2 * i < |looks| then 2 * i else |looks| - 1;
  }

  lemma PlacesAfter(looks: seq<Look>, i: nat, w: Walk)
    requires i < |looks| && ClosedSoFar(looks, i, w)
    ensures var n, w' := |looks|, CloseStep(w, i);
            && |w'.places| == n && w'.count == CountAfter(n, i + 1)
            && forall j :: 0 <= j < n ==> w'.places[j] == PlaceAfter(n, i + 1, j)
  {
    var n := |looks|;
    var k := IndexOf(w.places[..w.count], w.places[i]);
    MetAt(looks, i, w);
    if k < w.count {
      PlacesShift(n, i, w.places, w.count, k);
    } else {
      assert forall j :: 0 <= j < n ==> PlaceAfter(n, i + 1, j) == PlaceAfter(n, i, j);
    }
    hide IndexOf, PlaceAfter, ClosedUp, IsSpared, IsMet;
  }

  lemma CloseOneMore(looks: seq<Look>, i: nat, w: Walk)
    requires i < |looks| && ClosedSoFar(looks, i, w)
    ensures ClosedSoFar(looks, i + 1, CloseStep(w, i))
  {
    LooksAfter(looks, i, w);
    PlacesAfter(looks, i, w);
    hide PlaceAfter, CountAfter, IsSpared, IsMet, CloseStep;
  }

  lemma NothingClosed(looks: seq<Look>)
    ensures ClosedSoFar(looks, 0, Start(looks))
  {
  }

  lemma {:induction false} ClosedUpTo(looks: seq<Look>, i: nat)
    requires i <= |looks|
    ensures ClosedSoFar(looks, i, CloseTo(looks, i))
  {
    hide CloseStep, ClosedSoFar, Start;
    if i == 0 {
      NothingClosed(looks);
    } else {
      ClosedUpTo(looks, i - 1);
      CloseOneMore(looks, i - 1, CloseTo(looks, i - 1));
    }
  }

  /** CloseConnections does not close all: the clients in odd places, but for the last place,
      are neither closed nor taken out of the list, and all others are. */
  lemma EveryOtherIsSpared(looks: seq<Look>)
    ensures var n, w := |looks|, CloseAll(looks);
            && Increasing(w.places[..w.count])
            && (forall c :: 0 <= c < n ==> (c in w.places[..w.count] <==> IsSpared(n, c)))
            && (forall c :: 0 <= c < n && IsSpared(n, c) ==> w.looks[c] == looks[c])
            && (forall c :: 0 <= c < n && !IsSpared(n, c) ==> !w.looks[c].socketOpen)
  {
    hide CloseTo;
    var n, w := |looks|, CloseAll(looks);
    ClosedUpTo(looks, n);
    var list := w.places[..w.count];
    forall c | 0 <= c < n ensures c in list <==> IsSpared(n, c) {
      if IsSpared(n, c) {
        assert list[c / 2] == c;
      }
    }
  }

  /** Those it leaves in the list are alive if all were, and all others are dead. */
  lemma ClosingListsTheLiving(looks: seq<Look>)
    requires AllLive(looks)
    ensures ListedMeansLive(CloseAll(looks), |looks|)
  {
    hide CloseAll, IsSpared;
    EveryOtherIsSpared(looks);
  }

  /** So it closes everybody exactly when there are at most two. */
  lemma AllAreClosed(looks: seq<Look>)
    ensures CloseAll(looks).count == 0 <==> |looks| <= 2
  {
    hide CloseTo;
    ClosedUpTo(looks, |looks|);
  }
}

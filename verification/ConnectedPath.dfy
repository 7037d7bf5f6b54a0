/** Connected paths through the mesh: handles and sequence numbers, and the life of one
    connection (meshmesh/connectedpath.go, GetNextHandle of meshmesh/meshmeshapi.go). */
module ConnectedPath {
  type U16 = x: int | 0 <= x < 0x1_0000
  type U8 = x: int | 0 <= x < 0x100
  type I32 = x: int | -0x8000_0000 <= x < 0x8000_0000

  const OPEN_CONNECTION_REQUEST: U8 := 1
  const SEND_DATA_NACK_REPLY: U8 := 4
  const SEND_DATA_REQUEST: U8 := 5
  const OPEN_CONNECTION_ACK: U8 := 6
  const OPEN_CONNECTION_NACK: U8 := 7
  const DISCONNECT_REQUEST: U8 := 8

  // ---------------------------------------------------------------- counters that skip zero

  // The sum as an unsigned 16-bit number.
  function Wrap(n: nat): U16 { n % 0x1_0000 }

  function Successor(n: U16): U16 {
    if Wrap(n + 1) == 0 then 1 else Wrap(n + 1)
  }

  /** The counter after k steps. */
  function Advanced(n: U16, k: nat): U16 {
    if k == 0 then n else Successor(Advanced(n, k - 1))
  }

  /** From a counter that is not 0, the steps go round the 65535 other values. */
  lemma {:induction false} AdvancedIs(n: U16, k: nat)
    requires n != 0
    ensures Advanced(n, k) == (n - 1 + k) % 65535 + 1
  {
    if k > 0 {
      AdvancedIs(n, k - 1);
      var m := n - 1 + k - 1;
      RoundOnce(m);
      SuccessorIs(Advanced(n, k - 1));
      hide Successor;
      assert n - 1 + k == m + 1;
    }
  }

  lemma SuccessorIs(n: U16)
    ensures Successor(n) == if n == 65535 then 1 else n + 1
  {
  }

  lemma RoundOnce(m: nat)
    ensures (m + 1) % 65535 == if m % 65535 == 65534 then 0 else m % 65535 + 1
  {
  }

  /** Two values handed out fewer than 65535 steps apart are different, and at 65535 steps the
      numbers come again: no longer window would do. */
  lemma WindowIsDistinct(n: U16, i: nat, j: nat)
    requires n != 0 && i < j
    ensures Advanced(n, i) != 0
    ensures j - i < 65535 ==> Advanced(n, i) != Advanced(n, j)
    ensures j - i == 65535 ==> Advanced(n, i) == Advanced(n, j)
  {
    AdvancedIs(n, i);
    AdvancedIs(n, j);
    var a, b := n - 1 + i, n - 1 + j;
    assert b == a + (j - i);
    SameRemainder(a, b);
  }

  lemma SameRemainder(a: nat, b: nat)
    requires a < b
    ensures b - a < 65535 ==> a % 65535 != b % 65535
    ensures b - a == 65535 ==> a % 65535 == b % 65535
  {
    if a % 65535 == b % 65535 {
      var p, q := a / 65535, b / 65535;
      assert b - a == 65535 * (q - p);
      assert q - p >= 1;
    }
  }

  /** GetNextHandle, over the counter of the serial connection. */
  class Handles {
    var nextHandle: U16
    ghost var given: nat

    ghost predicate Valid()
      reads this
    {
      nextHandle == Advanced(1, given)
    }

    constructor ()
      ensures Valid() && given == 0
    {
      nextHandle, given := 1, 0;
    }

    method GetNextHandle() returns (nh: U16)
      requires Valid()
      modifies this
      ensures Valid() && given == old(given) + 1
      ensures nh == Advanced(1, old(given)) && nh != 0
    {
      WindowIsDistinct(1, given, given + 1);
      nh := nextHandle;
      nextHandle := Wrap(nextHandle + 1);
      if nextHandle == 0 {
        nextHandle := Wrap(nextHandle + 1);
      }
      given := given + 1;
    }
  }

  /** The handles of two allocations are the same exactly when a multiple of 65535 lies between
      their numbers. */
  lemma HandlesCollide(i: nat, j: nat)
    ensures Advanced(1, i) == Advanced(1, j) <==> i % 65535 == j % 65535
  {
    AdvancedIs(1, i);
    AdvancedIs(1, j);
  }

  // ---------------------------------------------------------------- the life of a connection

  datatype ConnState = Init | HandshakeStarted | HandshakeFailed | Active | Invalid

  /** What can happen to a connection once it is open: a reply, or a Disconnect of its own. */
  datatype Happening = Reply(command: U8) | Disconnected

  function After(s: ConnState, h: Happening): ConnState {
    match h
    case Disconnected => Invalid
    case Reply(c) =>
      if c == OPEN_CONNECTION_ACK then (if s != HandshakeStarted then Invalid else Active)
      else if c == OPEN_CONNECTION_NACK || c == SEND_DATA_NACK_REPLY || c == DISCONNECT_REQUEST then Invalid
      else s
  }

  /** What a reply means: 6 accepts a waiting connection, and ends any other; 7, 4 and 8 end it in
      every state; and no other command moves it. */
  lemma WhatRepliesMean(s: ConnState, c: U8)
    ensures var s' := After(s, Reply(c));
            && (c == 6 ==> s' == if s == HandshakeStarted then Active else Invalid)
            && (c == 7 || c == 4 || c == 8 ==> s' == Invalid)
            && (c !in {4, 6, 7, 8} ==> s' == s)
    ensures After(s, Disconnected) == Invalid
  {
  }

  function AfterAll(s: ConnState, hs: seq<Happening>): ConnState {
    if hs == [] then s else After(AfterAll(s, hs[..|hs| - 1]), hs[|hs| - 1])
  }

  // Replies of any other command are reported and ignored.
  predicate Matters(h: Happening) {
    h == Disconnected
    || h.command in {OPEN_CONNECTION_ACK, OPEN_CONNECTION_NACK, SEND_DATA_NACK_REPLY, DISCONNECT_REQUEST}
  }

  function WhatMatters(hs: seq<Happening>): seq<Happening> {
    if hs == [] then []
    else WhatMatters(hs[..|hs| - 1]) + if Matters(hs[|hs| - 1]) then [hs[|hs| - 1]] else []
  }

  /** The whole life of a connection, from its one open call on: it waits while nothing that
      matters has come, is active exactly while one ack is all that came, and is invalid ever
      after anything else, a second ack included. */
  lemma {:induction false} LifeOfAConnection(hs: seq<Happening>)
    ensures AfterAll(HandshakeStarted, hs) ==
              var m := WhatMatters(hs);
              if m == [] then HandshakeStarted
              else if m == [Reply(OPEN_CONNECTION_ACK)] then Active
              else Invalid
  {
    if hs != [] {
      var before, h := hs[..|hs| - 1], hs[|hs| - 1];
      LifeOfAConnection(before);
      if Matters(h) {
        assert WhatMatters(hs) == WhatMatters(before) + [h];
        if WhatMatters(before) == [] {
          assert WhatMatters(hs) == [h];
        } else {
          assert |WhatMatters(hs)| > 1;
        }
      }
    }
  }

  /** So a connection becomes active at most once, and only through an ack. */
  lemma ActiveAtMostOnce(hs: seq<Happening>, i: nat, j: nat)
    requires i < j < |hs|
    requires AfterAll(HandshakeStarted, hs[..i]) != Active == AfterAll(HandshakeStarted, hs[..i + 1])
    ensures hs[i] == Reply(OPEN_CONNECTION_ACK)
    ensures AfterAll(HandshakeStarted, hs[..j]) != Active ==> AfterAll(HandshakeStarted, hs[..j + 1]) != Active
  {
    LifeOfAConnection(hs[..i]);
    LifeOfAConnection(hs[..j]);
    assert hs[..i + 1][..i] == hs[..i] && hs[..j + 1][..j] == hs[..j];
    MattersGrows(hs, i + 1, j);
  }

  lemma {:induction false} MattersGrows(hs: seq<Happening>, i: nat, j: nat)
    requires i <= j <= |hs|
    ensures WhatMatters(hs[..i]) <= WhatMatters(hs[..j])
  {
    if i < j {
      MattersGrows(hs, i, j - 1);
      assert hs[..j][..j - 1] == hs[..j - 1];
    }
  }

  lemma {:induction false} InvalidIsForEver(hs: seq<Happening>)
    ensures AfterAll(Invalid, hs) == Invalid
  {
    if hs != [] {
      InvalidIsForEver(hs[..|hs| - 1]);
    }
  }

  /** A request to the mesh, as far as it differs from others of its connection. */
  datatype Request =
    | Request(command: U8, sequence: U16, data: seq<U8>)
    | OpenRequest(command: U8, sequence: U16, dataSize: U16, port: U16, pathLen: U8, path: seq<I32>)

  /** The payloads among some requests. */
  function Payloads(rs: seq<Request>): seq<seq<U8>> {
    if rs == [] then []
    else
      var r := rs[|rs| - 1];
      Payloads(rs[..|rs| - 1]) + PayloadOf(r)
  }

  function PayloadOf(r: Request): seq<seq<U8>> {
    if r.Request? && r.command == SEND_DATA_REQUEST then [r.data] else []
  }

  lemma PayloadsSnoc(rs: seq<Request>, r: Request)
    ensures Payloads(rs + [r]) == Payloads(rs) + PayloadOf(r)
  {
    assert (rs + [r])[..|rs|] == rs;
  }

  lemma CarriesNothing(r: Request)
    requires r.OpenRequest?
    ensures PayloadOf(r) == []
  {
  }

  lemma NoPayloadMore(rs: seq<Request>, r: Request)
    requires PayloadOf(r) == []
    ensures Payloads(rs + [r]) == Payloads(rs)
  {
    PayloadsSnoc(rs, r);
  }

  // An id cut down to a signed 32-bit number, and that number read as unsigned.
  function ToI32(id: int): I32 { (id + 0x8000_0000) % 0x1_0000_0000 - 0x8000_0000 }

  function Unsigned(x: I32): int { x % 0x1_0000_0000 }

  function ToI32s(path: seq<int>): (r: seq<I32>)
    ensures |r| == |path|
    ensures forall i :: 0 <= i < |path| ==> r[i] == ToI32(path[i])
  {
    if path == [] then [] else ToI32s(path[..|path| - 1]) + [ToI32(path[|path| - 1])]
  }

  /** The request that opens a connection along a path of the graph, whose first node is the
      local one. The counts are cut down to the width of their fields. */
  function OpenRequestFor(path: seq<int>, sequence: U16, port: U16): Request
    requires path != []
  {
    var hops := ToI32s(path[1..]);
    OpenRequest(OPEN_CONNECTION_REQUEST, sequence, Wrap(|hops| * 4 + 3), port, |hops| % 0x100, hops)
  }

  // The hops a node finds in such a request: as many as it announces.
  function HopsIn(r: Request): seq<int>
    requires r.OpenRequest?
  {
    seq(if r.pathLen as int <= |r.path| then r.pathLen as int else |r.path|,
        i requires 0 <= i < |r.path| => Unsigned(r.path[i]))
  }

  /** A node finds the open command, the port and the sequence number in the request, and the
      very path exactly when it has at most 255 hops. The ids come back although they travel as
      signed numbers. */
  lemma OpenRequestNamesThePath(path: seq<int>, sequence: U16, port: U16)
    requires path != [] && forall i :: 0 <= i < |path| ==> 0 <= path[i] < 0x1_0000_0000
    ensures var r := OpenRequestFor(path, sequence, port);
            r.command == 1 && r.port == port && r.sequence == sequence
    ensures HopsIn(OpenRequestFor(path, sequence, port)) == path[1..] <==> |path| - 1 <= 255
    ensures |path| - 1 <= 255 ==> OpenRequestFor(path, sequence, port).dataSize as int == 4 * (|path| - 1) + 3
  {
    var hops, r := path[1..], OpenRequestFor(path, sequence, port);
    forall i | 0 <= i < |hops| ensures Unsigned(r.path[i]) == hops[i] {
      assert hops[i] == path[i + 1];
      IdTravels(hops[i]);
    }
    if |hops| <= 255 {
      assert |hops| % 0x100 == |hops|;
      assert |hops| * 4 + 3 < 0x1_0000;
    } else {
      assert |HopsIn(r)| <= 255;
    }
  }

  lemma IdTravels(id: int)
    requires 0 <= id < 0x1_0000_0000
    ensures Unsigned(ToI32(id)) == id
  {
    if id < 0x8000_0000 {
      assert ToI32(id) == id;
    } else {
      assert (id + 0x8000_0000) % 0x1_0000_0000 == id - 0x8000_0000;
      assert ToI32(id) as int == id - 0x1_0000_0000;
    }
  }

  /** The fields of ConnPathConnection; requests are kept in the order they were handed to the
      serial line. */
  class ConnPathConnection {
    var connState: ConnState
    const handle: U16
    ghost const number: nat  // which allocation gave the handle
    var sequence: U16
    ghost var numbered: nat
    var requests: seq<Request>

    ghost predicate Counting()
      reads this
    {
      sequence == Advanced(0, numbered) && handle == Advanced(1, number)
    }

    /** The handle is the one given with its number, and the requests, of whatever kind, carry
        the sequence numbers 1, 2, ... 65535, 1, ... */
    ghost predicate Valid()
      reads this
    {
      Counting() && numbered == |requests| && InSequence(requests)
    }

    constructor (handles: Handles)
      requires handles.Valid()
      modifies handles
      ensures handles.Valid() && handles.given == old(handles.given) + 1 && number == old(handles.given)
      ensures Valid() && connState == Init && requests == [] && numbered == 0
    {
      number := handles.given;
      var nh := handles.GetNextHandle();
      handle, connState, sequence, numbered, requests := nh, Init, 0, 0, [];
    }

    method GetNextSequence() returns (s: U16)
      requires Counting()
      modifies this`sequence, this`numbered
      ensures Counting() && numbered == old(numbered) + 1 && s == sequence
      ensures s == old(numbered) % 65535 + 1
    {
      sequence := Wrap(sequence + 1);
      if sequence == 0 {
        sequence := 1;
      }
      numbered := numbered + 1;
      s := sequence;
      SequenceIs(numbered);
    }

    method SendData(data: seq<U8>)
      requires Valid()
      modifies this`sequence, this`numbered, this`requests
      ensures Valid() && numbered == old(numbered) + 1
      ensures requests == old(requests) + [Request(SEND_DATA_REQUEST, old(numbered) % 65535 + 1, data)]
      ensures Payloads(requests) == Payloads(old(requests)) + [data]
    {
      var s := GetNextSequence();
      PayloadsSnoc(requests, Request(SEND_DATA_REQUEST, s, data));
      requests := requests + [Request(SEND_DATA_REQUEST, s, data)];
    }

    /** path is what the graph gives from the local node to the target, or empty when it has no
        such node or no path: that is an error and leaves the connection as it was, and so is
        the local node alone. */
    method OpenConnectionAsync(path: seq<int>, port: U16) returns (ok: bool)
      requires Valid()
      modifies this`connState, this`sequence, this`numbered, this`requests
      ensures Valid() && ok == (|path| > 1)
      ensures connState == if ok then HandshakeStarted else old(connState)
      ensures requests == old(requests)
                + if ok then [OpenRequestFor(path, old(numbered) % 65535 + 1, port)] else []
      ensures ok ==>
                var r := requests[|requests| - 1];
                && r.OpenRequest? && r.command == OPEN_CONNECTION_REQUEST && r.port == port
                && r.sequence == |old(requests)| % 65535 + 1
      ensures Payloads(requests) == Payloads(old(requests))
    {
      hide Payloads, PayloadOf, Wrap, ToI32, Successor;
      if |path| <= 1 {
        return false;
      }
      var hops := ToI32s(path[1..]);
      connState := HandshakeStarted;
      var s := GetNextSequence();
      var request := OpenRequest(OPEN_CONNECTION_REQUEST, s, Wrap(|hops| * 4 + 3), port, |hops| % 0x100, hops);
      assert PayloadOf(request) == [] by { CarriesNothing(request); }
      NoPayloadMore(requests, request);
      requests := requests + [request];
      ok := true;
    }

    method Disconnect()
      requires Valid()
      modifies this`connState, this`sequence, this`numbered, this`requests
      ensures Valid() && connState == After(old(connState), Disconnected)
      ensures requests == old(requests) + [Request(DISCONNECT_REQUEST, old(numbered) % 65535 + 1, [])]
      ensures Payloads(requests) == Payloads(old(requests))
    {
      var s := GetNextSequence();
      NoPayloadMore(requests, Request(DISCONNECT_REQUEST, s, []));
      requests := requests + [Request(DISCONNECT_REQUEST, s, [])];
      connState := Invalid;
    }

    method HandleIncomingReply(command: U8)
      modifies this`connState
      ensures connState == After(old(connState), Reply(command))
    {
      if command == OPEN_CONNECTION_ACK {
        if connState != HandshakeStarted {
          connState := Invalid;
        } else {
          connState := Active;
        }
      } else if command == OPEN_CONNECTION_NACK {
        connState := Invalid;
      } else if command == SEND_DATA_NACK_REPLY {
        connState := Invalid;
      } else if command == DISCONNECT_REQUEST {
        connState := Invalid;
      }
    }
  }

  ghost predicate InSequence(rs: seq<Request>) {
    forall k :: 0 <= k < |rs| ==> rs[k].sequence == k % 65535 + 1
  }

  /** The sequence numbers of a connection are 1, 2, ... 65535, 1, ... */
  lemma SequenceIs(k: nat)
    requires k > 0
    ensures Advanced(0, k) == (k - 1) % 65535 + 1
  {
    AdvancedFromZero(k);
    AdvancedIs(1, k - 1);
  }

  lemma {:induction false} AdvancedFromZero(k: nat)
    requires k > 0
    ensures Advanced(0, k) == Advanced(1, k - 1)
  {
    if k > 1 {
      AdvancedFromZero(k - 1);
    }
  }
}

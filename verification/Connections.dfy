/** The client objects of meshmesh/apiconnection.go and meshmesh/otaconnection.go. The ghost
    field inputs records what a client got since its open call, and events what that meant for
    its connection. Valid says that its fields are what ClientRuns and Forwarding make of them,
    and every method adds its input, so the theorems there hold of the objects. */
module Connections {
  import opened ConnectedPath
  import opened Forwarding
  import opened ClientRuns

  /** A byte buffer that is written at its end and read from its front. */
  class ByteBuffer {
    var bytes: seq<U8>

    constructor ()
      ensures bytes == []
    {
      bytes := [];
    }

    method WriteByte(b: U8)
      modifies this
      ensures bytes == old(bytes) + [b]
    {
      bytes := bytes + [b];
    }

    method Reset()
      modifies this
      ensures bytes == []
    {
      bytes := [];
    }

    method Next(n: nat) returns (s: seq<U8>)
      modifies this
      ensures s == old(bytes)[..if n < |old(bytes)| then n else |old(bytes)|] && s + bytes == old(bytes)
    {
      var m := if n < |bytes| then n else |bytes|;
      s, bytes := bytes[..m], bytes[m..];
    }
  }

  class ApiConnection {
    const meshprotocol: ConnPathConnection
    const tmpBuffer: ByteBuffer
    const inBuffer: ByteBuffer
    var inState: InState
    var inAwaitSize: nat
    var socketOpen: bool
    var toSocket: seq<seq<U8>>
    ghost var events: seq<Event>
    ghost var inputs: seq<Input>

    ghost function Repr(): set<object> { {this, meshprotocol, tmpBuffer, inBuffer} }

    ghost predicate Separate()
      reads Repr()
    {
      tmpBuffer != inBuffer && meshprotocol.Valid()
    }

    ghost function Packetizer(): Forwarder
      reads Repr()
    {
      Forwarder(inState, inAwaitSize, inBuffer.bytes, Payloads(meshprotocol.requests))
    }

    ghost function Value(): Api
      reads Repr()
    {
      Api(meshprotocol.connState, tmpBuffer.bytes, Packetizer())
    }

    // The fields are what Forwarding makes of the events.
    ghost predicate Steady()
      reads Repr()
    {
      Separate() && Value() == ApiAfter(events)
    }

    ghost predicate Valid()
      reads Repr()
    {
      Steady() && Seen() == RunOf(inputs)
    }

    ghost function Seen(): Look
      reads this
    {
      Look(events, toSocket, socketOpen)
    }

    /** A client whose open call went through. */
    constructor (path: ConnPathConnection)
      requires path.Valid() && path.connState == HandshakeStarted && Payloads(path.requests) == []
      ensures Valid() && events == [] && inputs == [] && meshprotocol == path && socketOpen && toSocket == []
      ensures fresh(Repr() - {path})
    {
      meshprotocol := path;
      tmpBuffer := new ByteBuffer();
      inBuffer := new ByteBuffer();
      inState, inAwaitSize, socketOpen, toSocket, events, inputs := WaitPacketHead, 0, true, [], [], [];
    }

    method Forward(lastbyte: U8)
      requires Separate()
      modifies this`inState, this`inAwaitSize, inBuffer
      modifies meshprotocol`sequence, meshprotocol`numbered, meshprotocol`requests
      ensures Separate() && Packetizer() == Forwarding.Forward(old(Packetizer()), lastbyte)
    {
      inBuffer.WriteByte(lastbyte);
      match inState {
        case WaitPacketHead =>
          if lastbyte == 0 {
            inState := WaitPacketSize;
          } else {
            inBuffer.Reset();
          }
        case WaitPacketSize =>
          inAwaitSize := PacketLength(lastbyte);
          inState := WaitPacketData;
        case WaitPacketData =>
          if |inBuffer.bytes| == inAwaitSize {
            inState := WaitPacketHead;
            meshprotocol.SendData(inBuffer.bytes);
            inBuffer.Reset();
          }
      }
    }

    method FlushBuffer()
      requires Separate()
      modifies this`inState, this`inAwaitSize, inBuffer
      modifies meshprotocol`sequence, meshprotocol`numbered, meshprotocol`requests
      ensures Separate() && Packetizer() == Forwarded(old(Packetizer()), tmpBuffer.bytes)
    {
      var b := tmpBuffer.bytes;
      assert b[..|b|] == b;
      for i := 0 to |b|
        invariant Separate() && tmpBuffer.bytes == b
        invariant Packetizer() == Forwarded(old(Packetizer()), b[..i])
      {
        assert b[..i + 1] == b[..i] + [b[i]];
        ForwardedSnoc(old(Packetizer()), b[..i], b[i]);
        Forward(b[i]);
      }
    }

    method FinishHandshake(result: bool)
      requires Separate()
      modifies this`inState, this`inAwaitSize, inBuffer
      modifies meshprotocol`sequence, meshprotocol`numbered, meshprotocol`requests
      ensures Separate()
      ensures Packetizer() == if result then Forwarded(old(Packetizer()), tmpBuffer.bytes) else old(Packetizer())
    {
      if result {
        FlushBuffer();
      }
    }

    /** One turn of the loop in Read, with the byte it got. */
    method ReadByte(b: U8)
      requires Valid()
      modifies Repr()
      ensures Valid() && events == old(events) + [Byte(b)] && inputs == old(inputs) + [Got(b)]
      ensures socketOpen == old(socketOpen) && toSocket == old(toSocket)
    {
      hide ApiAfter, Payloads, Forwarding.Forward, Forwarded;
      ApiAfterSnoc(events, Byte(b));
      RunOfMore(inputs, Got(b));
      match meshprotocol.connState {
        case HandshakeStarted => tmpBuffer.WriteByte(b);
        case Active => Forward(b);
        case _ =>
      }
      events := events + [Byte(b)];
      inputs := inputs + [Got(b)];
    }

    // Close, up to the callback.
    method CloseDown()
      requires Steady()
      modifies Repr()
      ensures Steady() && inputs == old(inputs) && events == old(events) + [Path(Disconnected)]
      ensures !socketOpen && toSocket == old(toSocket)
      ensures meshprotocol.connState == Invalid
      ensures meshprotocol.requests == old(meshprotocol.requests)
                + [Request(DISCONNECT_REQUEST, |old(meshprotocol.requests)| % 65535 + 1, [])]
    {
      hide ApiAfter, Payloads, InSequence;
      ApiAfterSnoc(events, Path(Disconnected));
      socketOpen := false;
      meshprotocol.Disconnect();
      events := events + [Path(Disconnected)];
    }

    method Close()
      requires Valid()
      modifies Repr()
      ensures Valid() && inputs == old(inputs) + [GaveUp] && Seen() == Closed(old(Seen()))
      ensures !socketOpen && meshprotocol.connState == Invalid && toSocket == old(toSocket)
      ensures meshprotocol.requests == old(meshprotocol.requests)
                + [Request(DISCONNECT_REQUEST, |old(meshprotocol.requests)| % 65535 + 1, [])]
    {
      hide ApiAfter, Payloads, RunOf, ConnPathConnection.Valid;
      RunOfMore(inputs, GaveUp);
      CloseDown();
      inputs := inputs + [GaveUp];
    }

    // Writing to a socket that was closed fails.
    method ForwardData(data: seq<U8>, socketWorks: bool) returns (ok: bool)
      requires Steady()
      modifies this`toSocket
      ensures Steady() && ok == (socketOpen && socketWorks)
      ensures toSocket == if ok then old(toSocket) + [data] else old(toSocket)
    {
      ok := socketOpen && socketWorks;
      if ok {
        toSocket := toSocket + [data];
      }
    }

    /** What the dispatcher does with a reply for this client; closed says whether it ended by
        closing it. */
    method HandleReply(command: U8, data: seq<U8>, socketWorks: bool) returns (closed: bool)
      requires Valid()
      modifies Repr()
      ensures Valid() && inputs == old(inputs) + [Answer(command, data, socketWorks)]
      ensures (Seen(), closed) == Replied(old(Seen()), command, data, socketWorks)
      ensures closed ==> meshprotocol.connState == Invalid && !socketOpen
      ensures command != SEND_DATA_REQUEST ==>
                && (closed <==> old(meshprotocol.connState) != Invalid && meshprotocol.connState == Invalid)
                && toSocket == old(toSocket)
      ensures command == SEND_DATA_REQUEST && data != [] ==>
                && (closed <==> !(old(socketOpen) && socketWorks))
                && toSocket == if closed then old(toSocket) else old(toSocket) + [data]
      ensures socketOpen == (old(socketOpen) && !closed)
    {
      hide ApiAfter, Payloads, RunOf, ConnPathConnection.Valid;
      RunOfMore(inputs, Answer(command, data, socketWorks));
      closed := false;
      if command == SEND_DATA_REQUEST {
        if |data| > 0 {
          var ok := ForwardData(data, socketWorks);
          if !ok {
            CloseDown();
            closed := true;
          }
        } else {
          assert data == [];
        }
      } else {
        var turnedInvalid := HandleCommand(command);
        if turnedInvalid {
          CloseDown();
          closed := true;
        }
      }
      inputs := inputs + [Answer(command, data, socketWorks)];
    }

    // A reply that is not data, up to the point where the dispatcher closes the client.
    method HandleCommand(command: U8) returns (turnedInvalid: bool)
      requires Steady()
      modifies Repr()
      ensures Steady() && inputs == old(inputs)
      ensures Seen() == old(Seen()).(events := old(events) + [Path(Reply(command))])
      ensures turnedInvalid
        == (StateAfter(old(events)) != Invalid && After(StateAfter(old(events)), Reply(command)) == Invalid)
      ensures turnedInvalid == (old(meshprotocol.connState) != Invalid && meshprotocol.connState == Invalid)
    {
      hide ApiAfter, Payloads, Forwarding.Forward, Forwarded;
      AckTimingIsInvisible(events);
      ApiAfterSnoc(events, Path(Reply(command)));
      var oldConnState := meshprotocol.connState;
      meshprotocol.HandleIncomingReply(command);
      if oldConnState != meshprotocol.connState && meshprotocol.connState == Active {
        FinishHandshake(true);
      }
      events := events + [Path(Reply(command))];
      turnedInvalid := oldConnState != meshprotocol.connState && meshprotocol.connState == Invalid;
    }
  }

  class OtaConnection {
    const meshprotocol: ConnPathConnection
    const tmpBuffer: ByteBuffer
    const inBuffer: ByteBuffer
    var socketOpen: bool
    var toSocket: seq<seq<U8>>
    ghost var events: seq<Event>
    ghost var inputs: seq<Input>

    ghost function Repr(): set<object> { {this, meshprotocol, tmpBuffer, inBuffer} }

    ghost predicate Separate()
      reads Repr()
    {
      tmpBuffer != inBuffer && meshprotocol.Valid()
    }

    ghost function Value(): Ota
      reads Repr()
    {
      Ota(meshprotocol.connState, tmpBuffer.bytes, inBuffer.bytes, Payloads(meshprotocol.requests))
    }

    // The fields are what Forwarding makes of the events.
    ghost predicate Steady()
      reads Repr()
    {
      Separate() && Value() == OtaAfter(events)
    }

    ghost predicate Valid()
      reads Repr()
    {
      Steady() && Seen() == RunOf(inputs)
    }

    ghost function Seen(): Look
      reads this
    {
      Look(events, toSocket, socketOpen)
    }

    constructor (path: ConnPathConnection)
      requires path.Valid() && path.connState == HandshakeStarted && Payloads(path.requests) == []
      ensures Valid() && events == [] && inputs == [] && meshprotocol == path && socketOpen && toSocket == []
      ensures fresh(Repr() - {path})
    {
      meshprotocol := path;
      tmpBuffer := new ByteBuffer();
      inBuffer := new ByteBuffer();
      socketOpen, toSocket, events, inputs := true, [], [], [];
    }

    method FlushBuffer(buffer: ByteBuffer)
      requires Separate() && (buffer == tmpBuffer || buffer == inBuffer)
      modifies buffer, meshprotocol`sequence, meshprotocol`numbered, meshprotocol`requests
      ensures Separate() && buffer.bytes == []
      ensures Payloads(meshprotocol.requests) == old(Payloads(meshprotocol.requests) + Chunks(buffer.bytes))
    {
      ghost var all := old(Payloads(meshprotocol.requests) + Chunks(buffer.bytes));
      if |buffer.bytes| > 0 {
        var chunks := (|buffer.bytes| - 1) / OTA_CHUNK + 1;
        for i := 0 to chunks
          invariant Separate()
          invariant chunks - i == if buffer.bytes == [] then 0 else (|buffer.bytes| - 1) / OTA_CHUNK + 1
          invariant Payloads(meshprotocol.requests) + Chunks(buffer.bytes) == all
        {
          ghost var before, sent := buffer.bytes, Payloads(meshprotocol.requests);
          var chunk := buffer.Next(OTA_CHUNK);
          FirstChunk(before, chunk, buffer.bytes);
          assert sent + ([chunk] + Chunks(buffer.bytes)) == sent + [chunk] + Chunks(buffer.bytes);
          meshprotocol.SendData(chunk);
        }
        buffer.Reset();
      }
    }

    method FinishHandshake(result: bool)
      requires Separate()
      modifies tmpBuffer, meshprotocol`sequence, meshprotocol`numbered, meshprotocol`requests
      ensures Separate()
      ensures var was := old(Value());
              Value() == if result then was.(tmpBuffer := [], sent := was.sent + Chunks(was.tmpBuffer)) else was
    {
      if result {
        FlushBuffer(tmpBuffer);
      }
    }

    /** One turn of the loop in Read: a byte, or none when the read timed out. */
    method Read(got: seq<U8>)
      requires Valid() && |got| <= 1
      modifies Repr()
      ensures Valid() && events == old(events) + [if got != [] then Byte(got[0]) else Quiet]
      ensures inputs == old(inputs) + [if got != [] then Got(got[0]) else Pause]
      ensures socketOpen == old(socketOpen) && toSocket == old(toSocket)
    {
      hide OtaAfter, Chunks, Payloads, ConnPathConnection.Valid;
      ghost var e := if got != [] then Byte(got[0]) else Quiet;
      OtaAfterSnoc(events, e);
      RunOfMore(inputs, if got != [] then Got(got[0]) else Pause);
      if |got| > 0 {
        match meshprotocol.connState {
          case HandshakeStarted => tmpBuffer.WriteByte(got[0]);
          case Active => inBuffer.WriteByte(got[0]);
          case _ =>
        }
      } else {
        FlushBuffer(inBuffer);
      }
      events := events + [e];
      inputs := inputs + [if got != [] then Got(got[0]) else Pause];
    }

    // Close, up to the callback.
    method CloseDown()
      requires Steady()
      modifies Repr()
      ensures Steady() && inputs == old(inputs) && events == old(events) + [Path(Disconnected)]
      ensures !socketOpen && toSocket == old(toSocket)
      ensures meshprotocol.connState == Invalid
      ensures meshprotocol.requests == old(meshprotocol.requests)
                + [Request(DISCONNECT_REQUEST, |old(meshprotocol.requests)| % 65535 + 1, [])]
    {
      hide OtaAfter, Chunks, Payloads, InSequence;
      OtaAfterSnoc(events, Path(Disconnected));
      socketOpen := false;
      meshprotocol.Disconnect();
      events := events + [Path(Disconnected)];
    }

    method Close()
      requires Valid()
      modifies Repr()
      ensures Valid() && inputs == old(inputs) + [GaveUp] && Seen() == Closed(old(Seen()))
      ensures !socketOpen && meshprotocol.connState == Invalid && toSocket == old(toSocket)
      ensures meshprotocol.requests == old(meshprotocol.requests)
                + [Request(DISCONNECT_REQUEST, |old(meshprotocol.requests)| % 65535 + 1, [])]
    {
      hide OtaAfter, Payloads, RunOf, ConnPathConnection.Valid;
      RunOfMore(inputs, GaveUp);
      CloseDown();
      inputs := inputs + [GaveUp];
    }

    // Writing to a socket that was closed fails.
    method ForwardData(data: seq<U8>, socketWorks: bool) returns (ok: bool)
      requires Steady()
      modifies this`toSocket
      ensures Steady() && ok == (socketOpen && socketWorks)
      ensures toSocket == if ok then old(toSocket) + [data] else old(toSocket)
    {
      ok := socketOpen && socketWorks;
      if ok {
        toSocket := toSocket + [data];
      }
    }

    /** What the dispatcher does with a reply for this client; closed says whether it ended by
        closing it. */
    method HandleReply(command: U8, data: seq<U8>, socketWorks: bool) returns (closed: bool)
      requires Valid()
      modifies Repr()
      ensures Valid() && inputs == old(inputs) + [Answer(command, data, socketWorks)]
      ensures (Seen(), closed) == Replied(old(Seen()), command, data, socketWorks)
      ensures closed ==> meshprotocol.connState == Invalid && !socketOpen
      ensures command != SEND_DATA_REQUEST ==>
                && (closed <==> old(meshprotocol.connState) != Invalid && meshprotocol.connState == Invalid)
                && toSocket == old(toSocket)
      ensures command == SEND_DATA_REQUEST && data != [] ==>
                && (closed <==> !(old(socketOpen) && socketWorks))
                && toSocket == if closed then old(toSocket) else old(toSocket) + [data]
      ensures socketOpen == (old(socketOpen) && !closed)
    {
      hide OtaAfter, Payloads, RunOf, ConnPathConnection.Valid;
      RunOfMore(inputs, Answer(command, data, socketWorks));
      closed := false;
      if command == SEND_DATA_REQUEST {
        if |data| > 0 {
          var ok := ForwardData(data, socketWorks);
          if !ok {
            CloseDown();
            closed := true;
          }
        } else {
          assert data == [];
        }
      } else {
        var turnedInvalid := HandleCommand(command);
        if turnedInvalid {
          CloseDown();
          closed := true;
        }
      }
      inputs := inputs + [Answer(command, data, socketWorks)];
    }

    // A reply that is not data, up to the point where the dispatcher closes the client.
    method HandleCommand(command: U8) returns (turnedInvalid: bool)
      requires Steady()
      modifies Repr()
      ensures Steady() && inputs == old(inputs)
      ensures Seen() == old(Seen()).(events := old(events) + [Path(Reply(command))])
      ensures turnedInvalid
        == (StateAfter(old(events)) != Invalid && After(StateAfter(old(events)), Reply(command)) == Invalid)
      ensures turnedInvalid == (old(meshprotocol.connState) != Invalid && meshprotocol.connState == Invalid)
    {
      hide OtaAfter, Chunks, Payloads;
      UpdateArrivesInOrder(events);
      OtaAfterSnoc(events, Path(Reply(command)));
      var oldConnState := meshprotocol.connState;
      meshprotocol.HandleIncomingReply(command);
      if oldConnState != meshprotocol.connState && meshprotocol.connState == Active {
        FinishHandshake(true);
      }
      events := events + [Path(Reply(command))];
      turnedInvalid := oldConnState != meshprotocol.connState && meshprotocol.connState == Invalid;
    }
  }

  lemma FirstChunk(before: seq<U8>, chunk: seq<U8>, rest: seq<U8>)
    requires before != [] && chunk + rest == before
    requires chunk == before[..if OTA_CHUNK < |before| then OTA_CHUNK else |before|]
    ensures Chunks(before) == [chunk] + Chunks(rest)
  {
    if |before| > OTA_CHUNK {
      assert rest == before[OTA_CHUNK..];
    } else {
      assert before[..|before|] == before && rest == [];
    }
  }

  lemma ApiAfterSnoc(es: seq<Event>, e: Event)
    ensures ApiAfter(es + [e]) == ApiStep(ApiAfter(es), e)
  {
    assert (es + [e])[..|es|] == es;
  }

  lemma OtaAfterSnoc(es: seq<Event>, e: Event)
    ensures OtaAfter(es + [e]) == OtaStep(OtaAfter(es), e)
  {
    assert (es + [e])[..|es|] == es;
  }

  lemma StateAfterSnoc(es: seq<Event>, e: Event)
    ensures StateAfter(es + [e]) == if e.Path? then After(StateAfter(es), e.h) else StateAfter(es)
  {
    assert (es + [e])[..|es|] == es;
  }
}

/** What a client of the hub sends through its connected path: the packetizer for the ESPHome
    API (meshmesh/apiconnection.go) and the chunks of an over-the-air update
    (meshmesh/otaconnection.go), both held back until the connection is acknowledged.

    A payload size is one byte here as in the program, which does not know the longer sizes
    of the ESPHome protocol. */
module Forwarding {
  import opened ConnectedPath

  datatype InState = WaitPacketHead | WaitPacketSize | WaitPacketData

  /** The fields forward works on, and the payloads it has sent. */
  datatype Forwarder = Forwarder(inState: InState, inAwaitSize: nat, inBuffer: seq<U8>, sent: seq<seq<U8>>)

  const NEW_FORWARDER := Forwarder(WaitPacketHead, 0, [], [])

  // The whole length of a packet, from its size byte.
  function PacketLength(size: U8): nat { size as int + 3 }

  function Forward(f: Forwarder, lastbyte: U8): Forwarder {
    var g := f.(inBuffer := f.inBuffer + [lastbyte]);
    match g.inState
    case WaitPacketHead => if lastbyte == 0 then g.(inState := WaitPacketSize) else g.(inBuffer := [])
    case WaitPacketSize => g.(inAwaitSize := PacketLength(lastbyte), inState := WaitPacketData)
    case WaitPacketData =>
      if |g.inBuffer| == g.inAwaitSize then g.(inState := WaitPacketHead, sent := g.sent + [g.inBuffer], inBuffer := [])
      else g
  }

  function Forwarded(f: Forwarder, bytes: seq<U8>): Forwarder {
    if bytes == [] then f else Forward(Forwarded(f, bytes[..|bytes| - 1]), bytes[|bytes| - 1])
  }

  lemma {:induction false} ForwardedJoin(f: Forwarder, a: seq<U8>, b: seq<U8>)
    ensures Forwarded(f, a + b) == Forwarded(Forwarded(f, a), b)
  {
    if b == [] {
      assert a + b == a;
    } else {
      var n := |b| - 1;
      assert (a + b)[..|a + b| - 1] == a + b[..n];
      ForwardedJoin(f, a, b[..n]);
    }
  }

  lemma ForwardedSnoc(f: Forwarder, a: seq<U8>, b: U8)
    ensures Forwarded(f, a + [b]) == Forward(Forwarded(f, a), b)
  {
    assert (a + [b])[..|a|] == a;
  }

  // ---------------------------------------------------------------- packets

  /** A packet: a zero, a size, and size + 1 bytes more. */
  predicate IsPacket(p: seq<U8>) {
    |p| >= 2 && p[0] == 0 && |p| == PacketLength(p[1])
  }

  // The beginning of a packet, or nothing.
  predicate IsPending(t: seq<U8>) {
    t == [] || (t[0] == 0 && (|t| == 1 || |t| < PacketLength(t[1])))
  }

  datatype Piece = Dropped(b: U8) | Packet(p: seq<U8>)

  predicate ValidPiece(x: Piece) {
    match x
    case Dropped(b) => b != 0
    case Packet(p) => IsPacket(p)
  }

  predicate ValidPieces(xs: seq<Piece>) { forall i :: 0 <= i < |xs| ==> ValidPiece(xs[i]) }

  function Bytes(x: Piece): seq<U8> {
    match x
    case Dropped(b) => [b]
    case Packet(p) => p
  }

  function Text(xs: seq<Piece>): seq<U8> {
    if xs == [] then [] else Text(xs[..|xs| - 1]) + Bytes(xs[|xs| - 1])
  }

  function Packets(xs: seq<Piece>): seq<seq<U8>> {
    if xs == [] then []
    else Packets(xs[..|xs| - 1]) + if xs[|xs| - 1].Packet? then [xs[|xs| - 1].p] else []
  }

  // The state of a forwarder that has pending bytes t.
  predicate HasPending(f: Forwarder, t: seq<U8>) {
    && f.inBuffer == t && IsPending(t)
    && match |t| {
         case 0 => f.inState == WaitPacketHead
         case 1 => f.inState == WaitPacketSize
         case _ => f.inState == WaitPacketData && f.inAwaitSize == PacketLength(t[1])
       }
  }

  lemma OneByteMore(f: Forwarder, pending: seq<U8>, b: U8)
    requires HasPending(f, pending)
    ensures var g, more := Forward(f, b), pending + [b];
            if pending == [] && b != 0 then HasPending(g, []) && g.sent == f.sent
            else if IsPacket(more) then HasPending(g, []) && g.sent == f.sent + [more]
            else HasPending(g, more) && g.sent == f.sent
  {
    assert pending == [] ==> pending + [b] == [b];
  }

  lemma OnePieceMore(xs: seq<Piece>, x: Piece)
    ensures Text(xs + [x]) == Text(xs) + Bytes(x)
    ensures Packets(xs + [x]) == Packets(xs) + if x.Packet? then [x.p] else []
  {
    assert (xs + [x])[..|xs|] == xs;
  }

  // bytes read as whole pieces and a pending rest, and what a forwarder has made of them.
  predicate ReadAs(bytes: seq<U8>, xs: seq<Piece>, pending: seq<U8>) {
    && ValidPieces(xs) && bytes == Text(xs) + pending
    && var f := Forwarded(NEW_FORWARDER, bytes); f.sent == Packets(xs) && HasPending(f, pending)
  }

  lemma ReadPiece(bytes: seq<U8>, xs: seq<Piece>, pending: seq<U8>, b: U8, x: Piece)
    requires ReadAs(bytes, xs, pending) && ValidPiece(x) && Bytes(x) == pending + [b]
    requires x.Packet? || (pending == [] && b != 0)
    ensures ReadAs(bytes + [b], xs + [x], [])
  {
    hide HasPending, Forward, Text, Packets, Forwarded, PacketLength;
    OneByteMore(Forwarded(NEW_FORWARDER, bytes), pending, b);
    ForwardedSnoc(NEW_FORWARDER, bytes, b);
    OnePieceMore(xs, x);
    assert bytes + [b] == Text(xs) + (pending + [b]);
    assert Text(xs + [x]) + [] == Text(xs + [x]);
    assert Packets(xs) + [] == Packets(xs);
  }

  lemma ReadNoPiece(bytes: seq<U8>, xs: seq<Piece>, pending: seq<U8>, b: U8)
    requires ReadAs(bytes, xs, pending) && !(pending == [] && b != 0) && !IsPacket(pending + [b])
    ensures ReadAs(bytes + [b], xs, pending + [b])
  {
    OneByteMore(Forwarded(NEW_FORWARDER, bytes), pending, b);
    ForwardedSnoc(NEW_FORWARDER, bytes, b);
    hide HasPending, Forward, Text, Packets, Forwarded, IsPacket;
    assert bytes + [b] == Text(xs) + (pending + [b]);
  }

  lemma NothingRead()
    ensures ReadAs([], [], [])
  {
  }

  lemma ReadMore(bytes: seq<U8>, xs: seq<Piece>, pending: seq<U8>, b: U8) returns (ys: seq<Piece>, rest: seq<U8>)
    requires ReadAs(bytes, xs, pending)
    ensures ReadAs(bytes + [b], ys, rest)
  {
    hide ReadAs, IsPacket;
    if pending == [] && b != 0 {
      assert pending + [b] == [b];
      ReadPiece(bytes, xs, pending, b, Dropped(b));
      ys, rest := xs + [Dropped(b)], [];
    } else if IsPacket(pending + [b]) {
      ReadPiece(bytes, xs, pending, b, Packet(pending + [b]));
      ys, rest := xs + [Packet(pending + [b])], [];
    } else {
      ReadNoPiece(bytes, xs, pending, b);
      ys, rest := xs, pending + [b];
    }
  }

  /** A packet begins with a zero and is as long as its second byte says and three more; a drop is
      no zero; what is pending begins like a packet. */
  predicate LooksRight(xs: seq<Piece>, pending: seq<U8>) {
    && (forall i :: 0 <= i < |xs| ==>
          match xs[i]
          case Dropped(b) => b != 0
          case Packet(p) => |p| >= 3 && p[0] == 0 && |p| == p[1] as int + 3)
    && (pending != [] ==> pending[0] == 0)
    && (|pending| >= 2 ==> |pending| < pending[1] as int + 3)
  }

  lemma ReadLooksRight(bytes: seq<U8>, xs: seq<Piece>, pending: seq<U8>)
    requires ReadAs(bytes, xs, pending)
    ensures LooksRight(xs, pending)
  {
    assert forall i :: 0 <= i < |xs| ==> ValidPiece(xs[i]);
    hide Forwarded, Text, Packets;
  }

  /** Every byte that arrives is the only byte of a drop, part of exactly one packet sent, or
      still pending; and the packets go out whole and in order. */
  lemma {:induction false} EveryByteIsAccountedFor(bytes: seq<U8>) returns (xs: seq<Piece>, pending: seq<U8>)
    ensures ReadAs(bytes, xs, pending) && LooksRight(xs, pending)
    decreases |bytes|
  {
    hide ReadAs, LooksRight;
    if bytes == [] {
      NothingRead();
      xs, pending := [], [];
      ReadLooksRight(bytes, xs, pending);
    } else {
      var before, b := bytes[..|bytes| - 1], bytes[|bytes| - 1];
      xs, pending := EveryByteIsAccountedFor(before);
      xs, pending := ReadMore(before, xs, pending, b);
      assert bytes == before + [b];
      ReadLooksRight(bytes, xs, pending);
    }
  }

  lemma {:induction false} PendingIsKept(f: Forwarder, t: seq<U8>)
    requires HasPending(f, []) && IsPending(t)
    ensures var g := Forwarded(f, t); HasPending(g, t) && g.sent == f.sent
  {
    if t != [] {
      var n := |t| - 1;
      PendingIsKept(f, t[..n]);
      assert t == t[..n] + [t[n]];
    }
  }

  lemma PieceIsForwarded(f: Forwarder, x: Piece)
    requires HasPending(f, []) && ValidPiece(x)
    ensures var g := Forwarded(f, Bytes(x)); HasPending(g, []) && g.sent == f.sent + Packets([x])
  {
    assert [x][..0] == [];
    match x {
      case Dropped(b) =>
        ForwardedSnoc(f, [], b);
        assert [] + [b] == [b];
      case Packet(p) =>
        var n := |p| - 1;
        PendingIsKept(f, p[..n]);
        assert p == p[..n] + [p[n]];
    }
  }

  /** Conversely, however the bytes are read as drops, packets and a pending rest, these are the
      packets that are sent: there is only one such reading. */
  lemma {:induction false} PacketsAreSent(xs: seq<Piece>, pending: seq<U8>)
    requires ValidPieces(xs) && IsPending(pending)
    ensures ReadAs(Text(xs) + pending, xs, pending)
    decreases |xs|
  {
    if xs == [] {
      assert Text(xs) + pending == pending;
      PendingIsKept(NEW_FORWARDER, pending);
    } else {
      var n := |xs| - 1;
      var before := xs[..n];
      assert xs == before + [xs[n]];
      PacketsAreSent(before, []);
      OnePieceMore(before, xs[n]);
      OnePieceMore([], xs[n]);
      assert Text(before) + [] == Text(before) && [] + [xs[n]] == [xs[n]];
      hide HasPending, IsPending, Text, Packets, Forward;
      ForwardedJoin(NEW_FORWARDER, Text(before), Bytes(xs[n]));
      PieceIsForwarded(Forwarded(NEW_FORWARDER, Text(before)), xs[n]);
      ForwardedJoin(NEW_FORWARDER, Text(xs), pending);
      PendingIsKept(Forwarded(NEW_FORWARDER, Text(xs)), pending);
      assert Packets([xs[n]]) == if xs[n].Packet? then [xs[n].p] else [] by { NoPieces(); }
    }
  }

  lemma NoPieces()
    ensures forall p: seq<seq<U8>> :: Packets([]) + p == p
  {
  }

  // ---------------------------------------------------------------- the ack

  /** One thing that happens to a client: a byte from its socket, something on its connected
      path, or (for an update) a read that times out. */
  datatype Event = Byte(b: U8) | Path(h: Happening) | Quiet

  function BytesOf(es: seq<Event>): seq<U8> {
    if es == [] then []
    else BytesOf(es[..|es| - 1]) + if es[|es| - 1].Byte? then [es[|es| - 1].b] else []
  }

  function StateAfter(es: seq<Event>): ConnState {
    if es == [] then HandshakeStarted
    else
      var s, e := StateAfter(es[..|es| - 1]), es[|es| - 1];
      if e.Path? then After(s, e.h) else s
  }

  datatype Api = Api(state: ConnState, tmpBuffer: seq<U8>, forwarder: Forwarder)

  const NEW_API := Api(HandshakeStarted, [], NEW_FORWARDER)

  /** The ack and the flush it causes are one step; the kept bytes are not cleared by it. */
  function ApiStep(c: Api, e: Event): Api {
    match e
    case Byte(b) =>
      if c.state == HandshakeStarted then c.(tmpBuffer := c.tmpBuffer + [b])
      else if c.state == Active then c.(forwarder := Forward(c.forwarder, b))
      else c
    case Path(h) =>
      var s := After(c.state, h);
      if s != c.state && s == Active then c.(state := s, forwarder := Forwarded(c.forwarder, c.tmpBuffer))
      else c.(state := s)
    case Quiet => c
  }

  function ApiAfter(es: seq<Event>): Api {
    if es == [] then NEW_API else ApiStep(ApiAfter(es[..|es| - 1]), es[|es| - 1])
  }

  /** What a client has sent never depends on when the ack came. While it waits it has sent
      nothing; once it is active it has sent what the packetizer makes of all the bytes so far,
      those before the ack and those after it alike. */
  lemma {:induction false} AckTimingIsInvisible(es: seq<Event>)
    ensures var c := ApiAfter(es);
            && c.state == StateAfter(es)
            && (c.state == HandshakeStarted ==> c.tmpBuffer == BytesOf(es) && c.forwarder == NEW_FORWARDER)
            && (c.state == Active ==> c.forwarder == Forwarded(NEW_FORWARDER, BytesOf(es)))
            && c.state != Init && c.state != HandshakeFailed
  {
    if es != [] {
      var before, e := es[..|es| - 1], es[|es| - 1];
      AckTimingIsInvisible(before);
      if e.Byte? {
        ForwardedSnoc(NEW_FORWARDER, BytesOf(before), e.b);
      } else {
        assert BytesOf(es) == BytesOf(before);
      }
    }
  }

  /** Two clients that read the same bytes and are both active have sent the same. */
  lemma SameBytesSamePayloads(es: seq<Event>, fs: seq<Event>)
    requires BytesOf(es) == BytesOf(fs) && StateAfter(es) == Active == StateAfter(fs)
    ensures ApiAfter(es).forwarder == ApiAfter(fs).forwarder
  {
    AckTimingIsInvisible(es);
    AckTimingIsInvisible(fs);
  }

  /** Once a connection is invalid its client sends nothing more. */
  lemma NothingAfterInvalid(es: seq<Event>, e: Event)
    requires StateAfter(es) == Invalid
    ensures StateAfter(es + [e]) == Invalid && ApiAfter(es + [e]).forwarder == ApiAfter(es).forwarder
  {
    AckTimingIsInvisible(es);
    assert (es + [e])[..|es|] == es;
  }

  // ---------------------------------------------------------------- over-the-air updates

  const OTA_CHUNK := 512

  function Chunks(buffer: seq<U8>): seq<seq<U8>> {
    if buffer == [] then []
    else if |buffer| <= OTA_CHUNK then [buffer]
    else [buffer[..OTA_CHUNK]] + Chunks(buffer[OTA_CHUNK..])
  }

  function Concat(chunks: seq<seq<U8>>): seq<U8> {
    if chunks == [] then [] else Concat(chunks[..|chunks| - 1]) + chunks[|chunks| - 1]
  }

  lemma {:induction false} ConcatJoin(a: seq<seq<U8>>, b: seq<seq<U8>>)
    ensures Concat(a + b) == Concat(a) + Concat(b)
  {
    if b == [] {
      assert a + b == a;
    } else {
      var n := |b| - 1;
      assert (a + b)[..|a + b| - 1] == a + b[..n];
      ConcatJoin(a, b[..n]);
    }
  }

  lemma ConcatOne(chunk: seq<U8>)
    ensures Concat([chunk]) == chunk
  {
    assert Concat([chunk][..0]) == [];
  }

  // No payload is empty or above the limit.
  predicate FitChunks(chunks: seq<seq<U8>>) {
    forall i :: 0 <= i < |chunks| ==> 1 <= |chunks[i]| <= OTA_CHUNK
  }

  /** The chunks of a buffer are the buffer, cut into pieces that fit. */
  lemma {:induction false} ChunksPartition(buffer: seq<U8>)
    ensures Concat(Chunks(buffer)) == buffer && FitChunks(Chunks(buffer))
    ensures buffer != [] ==> |Chunks(buffer)| == (|buffer| - 1) / 512 + 1
    ensures forall i :: 0 <= i < |Chunks(buffer)| - 1 ==> |Chunks(buffer)[i]| == 512
  {
    if buffer == [] {
    } else if |buffer| <= OTA_CHUNK {
      ConcatOne(buffer);
    } else {
      var head, rest := buffer[..OTA_CHUNK], buffer[OTA_CHUNK..];
      ChunksPartition(rest);
      ConcatJoin([head], Chunks(rest));
      ConcatOne(head);
      assert buffer == head + rest;
    }
  }

  datatype Ota = Ota(state: ConnState, tmpBuffer: seq<U8>, inBuffer: seq<U8>, sent: seq<seq<U8>>)

  const NEW_OTA := Ota(HandshakeStarted, [], [], [])

  function OtaStep(c: Ota, e: Event): Ota {
    match e
    case Byte(b) =>
      if c.state == HandshakeStarted then c.(tmpBuffer := c.tmpBuffer + [b])
      else if c.state == Active then c.(inBuffer := c.inBuffer + [b])
      else c
    case Path(h) =>
      var s := After(c.state, h);
      if s != c.state && s == Active then c.(state := s, tmpBuffer := [], sent := c.sent + Chunks(c.tmpBuffer))
      else c.(state := s)
    case Quiet => c.(inBuffer := [], sent := c.sent + Chunks(c.inBuffer))
  }

  function OtaAfter(es: seq<Event>): Ota {
    if es == [] then NEW_OTA else OtaStep(OtaAfter(es[..|es| - 1]), es[|es| - 1])
  }

  // The state of an update that has read these bytes, its connection being in state s.
  ghost predicate UpdateSoFar(c: Ota, s: ConnState, bytes: seq<U8>) {
    && c.state == s && s != Init && s != HandshakeFailed && FitChunks(c.sent)
    && (s == HandshakeStarted ==> c.tmpBuffer == bytes && c.inBuffer == [] && c.sent == [])
    && (s == Active ==> Concat(c.sent) + c.inBuffer == bytes)
  }

  lemma Flushed(sent: seq<seq<U8>>, buffer: seq<U8>)
    requires FitChunks(sent)
    ensures FitChunks(sent + Chunks(buffer))
    ensures Concat(sent + Chunks(buffer)) == Concat(sent) + buffer
  {
    ChunksPartition(buffer);
    ConcatJoin(sent, Chunks(buffer));
    hide Chunks, Concat;
  }

  lemma UpdateStep(c: Ota, s: ConnState, bytes: seq<U8>, e: Event)
    requires UpdateSoFar(c, s, bytes)
    ensures UpdateSoFar(OtaStep(c, e), if e.Path? then After(s, e.h) else s, bytes + if e.Byte? then [e.b] else [])
  {
    assert c.sent == [] ==> c.sent + Chunks([]) == [];
    hide FitChunks, Chunks;
    assert bytes + [] == bytes;
    match e {
      case Byte(b) =>
        if s == Active { assert Concat(c.sent) + (c.inBuffer + [b]) == Concat(c.sent) + c.inBuffer + [b]; }
      case Path(h) => Flushed(c.sent, c.tmpBuffer);
      case Quiet =>
        Flushed(c.sent, c.inBuffer);
    }
  }

  /** The payloads of an update fit, and end to end they and the bytes still held back are all
      the bytes read, whenever the ack and the pauses came. */
  lemma {:induction false} UpdateArrivesInOrder(es: seq<Event>)
    ensures var c := OtaAfter(es);
            && c.state == StateAfter(es) && FitChunks(c.sent)
            && (c.state == HandshakeStarted ==> c.tmpBuffer == BytesOf(es) && c.inBuffer == [] && c.sent == [])
            && (c.state == Active ==> Concat(c.sent) + c.inBuffer == BytesOf(es))
  {
    UpdateRun(es);
  }

  lemma {:induction false} UpdateRun(es: seq<Event>)
    ensures UpdateSoFar(OtaAfter(es), StateAfter(es), BytesOf(es))
  {
    if es != [] {
      var before, e := es[..|es| - 1], es[|es| - 1];
      UpdateRun(before);
      UpdateStep(OtaAfter(before), StateAfter(before), BytesOf(before), e);
    } else {
      assert NEW_OTA.sent == [];
    }
  }

  /** The ack sends all bytes that came while the update waited, and keeps none of them. */
  lemma AckFlushes(es: seq<Event>)
    requires StateAfter(es) == HandshakeStarted
    ensures var d := OtaAfter(es + [Path(Reply(OPEN_CONNECTION_ACK))]);
            && d.state == Active && d.tmpBuffer == [] && d.inBuffer == [] && Concat(d.sent) == BytesOf(es)
  {
    UpdateArrivesInOrder(es);
    var e := Path(Reply(OPEN_CONNECTION_ACK));
    assert (es + [e])[..|es|] == es;
    var c := OtaAfter(es);
    ChunksPartition(c.tmpBuffer);
    ConcatJoin(c.sent, Chunks(c.tmpBuffer));
  }

  /** A pause sends what was held back: an active update has then sent all bytes so far. */
  lemma PauseFlushes(es: seq<Event>)
    ensures var c, d := OtaAfter(es), OtaAfter(es + [Quiet]);
            && d.inBuffer == [] && d.state == c.state && d.tmpBuffer == c.tmpBuffer
            && Concat(d.sent) == Concat(c.sent) + c.inBuffer
            && (StateAfter(es) == Active ==> Concat(d.sent) == BytesOf(es))
  {
    UpdateArrivesInOrder(es);
    assert (es + [Quiet])[..|es|] == es;
    var c := OtaAfter(es);
    ChunksPartition(c.inBuffer);
    ConcatJoin(c.sent, Chunks(c.inBuffer));
  }

  /** Once its connection is invalid an update takes no more bytes; a pause still sends what was
      held back, and that is all. */
  lemma UpdateEndsWithTheConnection(es: seq<Event>, e: Event)
    requires StateAfter(es) == Invalid
    ensures var c, d := OtaAfter(es), OtaAfter(es + [e]); Concat(d.sent) + d.inBuffer == Concat(c.sent) + c.inBuffer
  {
    UpdateArrivesInOrder(es);
    assert (es + [e])[..|es|] == es;
    var c := OtaAfter(es);
    ChunksPartition(c.inBuffer);
    ConcatJoin(c.sent, Chunks(c.inBuffer));
  }
}

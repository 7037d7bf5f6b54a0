/** The byte-at-a-time decoder of SerialConnection.Read (meshmesh/meshmeshapi.go).

    Read is an endless loop over six states, an 8192-byte buffer, a running CRC and an
    overflow reset at 1500 bytes. Step is its specification on values; the method Read
    is the loop itself. The theorems are about every byte stream: what Read reports is
    exactly the tiling of the stream into frames, log lines, noise and rejected text. */
module SerialDecoder {
  import opened Basics
  import opened Crc16
  import opened ApiFrames

  const START_LOG_MSG: byte := 0x1B
  const STOP_LOG_MSG: byte := 0x0A
  const MAX_SERIAL_INPUT_BUFFER := 8192
  const OVERFLOW_LIMIT := 1500

  datatype DecodeState =
    | WaitStartByte
    | EscapeNextByte
    | WaitEndByte
    | WaitCrc16Byte1
    | WaitCrc16Byte2
    | WaitEndOfLine

  /** The locals of Read; buffer is inputBuffer[..inputBufferPos]. */
  datatype Decoder = Decoder(
    state: DecodeState,
    lastStart: byte,
    computed: bv16,
    received: bv16,
    buffer: seq<byte>)

  /** What the loop hands on: a frame to ReadFrame, a log line to the console. */
  datatype Event = Frame(payload: seq<byte>) | LogLine(text: seq<byte>)

  const INITIAL := Decoder(WaitStartByte, 0, 0, 0, [])

  function IntoFrame(d: Decoder, b: byte): Decoder {
    d.(state := WaitEndByte, lastStart := b, buffer := [], computed := 0)
  }

  function Store(d: Decoder, b: byte): Decoder {
    d.(state := WaitEndByte, buffer := d.buffer + [b], computed := Crc16Byte(d.computed, b))
  }

  function FirstCrcByte(b: byte): bv16 { (b as bv16) << 8 }

  function SecondCrcByte(received: bv16, b: byte): bv16 { received | (b as bv16) }

  /** The switch on the decoder state, before the overflow check. */
  function Switch(d: Decoder, b: byte): (Decoder, seq<Event>) {
    match d.state
    case WaitStartByte =>
      if b == START_API_FRAME || b == START_API_FRAME_CRC16 then (IntoFrame(d, b), [])
      else if b == START_LOG_MSG then (IntoFrame(d, b).(state := WaitEndOfLine, buffer := [b]), [])
      else (d, [])
    case EscapeNextByte => (Store(d, b), [])
    case WaitCrc16Byte1 => (d.(received := FirstCrcByte(b), state := WaitCrc16Byte2), [])
    case WaitCrc16Byte2 =>
      var received := SecondCrcByte(d.received, b);
      (d.(received := received, state := WaitStartByte, buffer := []),
       if received == d.computed then [Frame(d.buffer)] else [])
    case WaitEndByte =>
      if b == STOP_API_FRAME then
        if d.lastStart == START_API_FRAME_CRC16 then (d.(state := WaitCrc16Byte1), [])
        else (d.(state := WaitStartByte, buffer := []), [Frame(d.buffer)])
      else if b == ESCAPE_API_FRAME then
        (d.(state := EscapeNextByte, computed := Crc16Byte(d.computed, b)), [])
      else (Store(d, b), [])
    case WaitEndOfLine =>
      if b == STOP_LOG_MSG then (d.(state := WaitStartByte), [LogLine(d.buffer)])
      else (d.(buffer := d.buffer + [b]), [])
  }

  function Step(d: Decoder, b: byte): (Decoder, seq<Event>) {
    var (e, events) := Switch(d, b);
    if |e.buffer| >= OVERFLOW_LIMIT then (e.(state := WaitStartByte, buffer := []), events) else (e, events)
  }

  function Run(d: Decoder, input: seq<byte>): (Decoder, seq<Event>)
    decreases |input|
  {
    if input == [] then (d, [])
    else
      var (d1, first) := Step(d, input[0]);
      var (d2, rest) := Run(d1, input[1..]);
      (d2, first + rest)
  }

  /** The variables of the loop. */
  class Reader {
    var lastStartByte: byte
    var computedCrc16: bv16
    var receivedCrc16: bv16
    var inputBufferPos: nat
    var decodeState: DecodeState
    const inputBuffer: array<byte>

    ghost predicate Valid()
      reads this, inputBuffer
    {
      inputBuffer.Length == MAX_SERIAL_INPUT_BUFFER && inputBufferPos < OVERFLOW_LIMIT
    }

    ghost function Value(): Decoder
      reads this, inputBuffer
      requires inputBufferPos <= inputBuffer.Length
    {
      Decoder(decodeState, lastStartByte, computedCrc16, receivedCrc16, inputBuffer[..inputBufferPos])
    }

    constructor ()
      ensures Valid() && fresh(inputBuffer) && Value() == INITIAL
    {
      lastStartByte, computedCrc16, receivedCrc16, inputBufferPos := 0, 0, 0, 0;
      decodeState := WaitStartByte;
      inputBuffer := new byte[MAX_SERIAL_INPUT_BUFFER];
    }

    method Start(b: byte, next: DecodeState)
      requires Valid()
      modifies this
      ensures Valid() && Value() == old(Value()).(state := next, lastStart := b, computed := 0, buffer := [])
    {
      lastStartByte, inputBufferPos, computedCrc16, decodeState := b, 0, 0, next;
    }

    method Append(b: byte)
      requires Valid()
      modifies this`inputBufferPos, inputBuffer
      ensures inputBufferPos <= inputBuffer.Length
      ensures Value() == old(Value()).(buffer := old(Value()).buffer + [b])
    {
      inputBuffer[inputBufferPos] := b;
      inputBufferPos := inputBufferPos + 1;
      assert inputBuffer[..inputBufferPos] == old(inputBuffer[..inputBufferPos]) + [b];
    }

    /** The case waitEndByte of the switch. */
    method InText(b: byte) returns (events: seq<Event>)
      requires Valid() && decodeState == WaitEndByte
      modifies this, inputBuffer
      ensures inputBufferPos <= inputBuffer.Length
      ensures Value() == Switch(old(Value()), b).0
      ensures events == Switch(old(Value()), b).1
    {
      hide Crc16Byte;
      events := [];
      if b == STOP_API_FRAME {
        if lastStartByte == START_API_FRAME_CRC16 {
          decodeState := WaitCrc16Byte1;
        } else {
          events := [Frame(inputBuffer[..inputBufferPos])];
          inputBufferPos := 0;
          decodeState := WaitStartByte;
          assert inputBuffer[..0] == [];
        }
      } else if b == ESCAPE_API_FRAME {
        decodeState := EscapeNextByte;
        computedCrc16 := Crc16Byte(computedCrc16, b);
      } else {
        computedCrc16 := Crc16Byte(computedCrc16, b);
        Append(b);
      }
    }

    /** The body of the loop for one byte received. */
    method OnByte(b: byte) returns (events: seq<Event>)
      requires Valid()
      modifies this, inputBuffer
      ensures Valid()
      ensures Value() == Step(old(Value()), b).0
      ensures events == Step(old(Value()), b).1
    {
      hide Crc16Byte, FirstCrcByte, SecondCrcByte;
      events := [];
      match decodeState {
        case WaitStartByte =>
          if b == START_API_FRAME || b == START_API_FRAME_CRC16 {
            Start(b, WaitEndByte);
          } else if b == START_LOG_MSG {
            Start(b, WaitEndOfLine);
            Append(b);
          }
        case EscapeNextByte =>
          decodeState := WaitEndByte;
          computedCrc16 := Crc16Byte(computedCrc16, b);
          Append(b);
        case WaitCrc16Byte1 =>
          receivedCrc16 := FirstCrcByte(b);
          decodeState := WaitCrc16Byte2;
        case WaitCrc16Byte2 =>
          receivedCrc16 := SecondCrcByte(receivedCrc16, b);
          decodeState := WaitStartByte;
          if receivedCrc16 == computedCrc16 {
            events := [Frame(inputBuffer[..inputBufferPos])];
          }
          inputBufferPos := 0;
        case WaitEndByte =>
          events := InText(b);
        case WaitEndOfLine =>
          if b == STOP_LOG_MSG {
            events := [LogLine(inputBuffer[..inputBufferPos])];
            decodeState := WaitStartByte;
          } else {
            Append(b);
          }
      }
      assert inputBuffer[..0] == [];
      if inputBufferPos >= OVERFLOW_LIMIT {
        decodeState := WaitStartByte;
        inputBufferPos := 0;
      }
    }
  }

  /** The loop, fed the bytes the port returns until it fails. */
  method Read(input: seq<byte>) returns (events: seq<Event>)
    ensures events == Run(INITIAL, input).1
  {
    hide Step;
    var reader := new Reader();
    events := [];
    for i := 0 to |input|
      invariant fresh(reader) && fresh(reader.inputBuffer) && reader.Valid()
      invariant Run(INITIAL, input[..i]) == (reader.Value(), events)
    {
      RunSnoc(INITIAL, input[..i], input[i]);
      assert input[..i] + [input[i]] == input[..i + 1];
      var more := reader.OnByte(input[i]);
      events := events + more;
    }
    assert input[..|input|] == input;
  }

  lemma {:induction false} RunAppend(d: Decoder, a: seq<byte>, b: seq<byte>)
    ensures Run(d, a + b).0 == Run(Run(d, a).0, b).0
    ensures Run(d, a + b).1 == Run(d, a).1 + Run(Run(d, a).0, b).1
    decreases |a|
  {
    hide Step;
    if a == [] {
      assert a + b == b;
    } else {
      assert (a + b)[1..] == a[1..] + b;
      RunAppend(Step(d, a[0]).0, a[1..], b);
    }
  }

  lemma RunOne(d: Decoder, b: byte)
    ensures Run(d, [b]) == Step(d, b)
  {
    hide Step;
    assert Run(Step(d, b).0, []) == (Step(d, b).0, []);
    assert Step(d, b).1 + [] == Step(d, b).1;
  }

  lemma RunQuietStep(d: Decoder, e: Decoder, input: seq<byte>)
    requires input != [] && Step(d, input[0]) == (e, [])
    ensures Run(d, input) == Run(e, input[1..])
  {
    hide Step;
    assert [] + Run(e, input[1..]).1 == Run(e, input[1..]).1;
  }

  lemma RunSnoc(d: Decoder, a: seq<byte>, b: byte)
    ensures Run(d, a + [b]).0 == Step(Run(d, a).0, b).0
    ensures Run(d, a + [b]).1 == Run(d, a).1 + Step(Run(d, a).0, b).1
  {
    hide Step;
    RunAppend(d, a, [b]);
    RunOne(Run(d, a).0, b);
  }

  // ---------------------------------------------------------------- soundness and completeness

  /** One tile of the input. */
  datatype Piece =
    | Framed(bytes: seq<byte>, payload: seq<byte>)  // delivered to ReadFrame
    | Logged(bytes: seq<byte>)                      // a complete log line
    | Noise(bytes: seq<byte>)                       // one byte outside any frame
    | BadCrc(bytes: seq<byte>)                      // a complete frame whose CRC does not match
    | Overlong(bytes: seq<byte>)                    // text cut off when it reached the limit

  predicate HasCrcFrame(bytes: seq<byte>) {
    |bytes| >= 4 && bytes[0] == START_API_FRAME_CRC16 && bytes[|bytes| - 3] == STOP_API_FRAME
  }

  // The escaped text of a frame that ends with a CRC.
  function TextOf(bytes: seq<byte>): seq<byte>
    requires HasCrcFrame(bytes)
  {
    bytes[1..|bytes| - 3]
  }

  predicate ValidPiece(p: Piece) {
    match p
    case Framed(bytes, payload) =>
      && |payload| < OVERFLOW_LIMIT
      && ((HasCrcFrame(bytes)
           && Unescaped(TextOf(bytes)) == Some(payload)
           && CrcFromBytes(bytes[|bytes| - 2], bytes[|bytes| - 1]) == Fcs(0, TextOf(bytes)))
          || (|bytes| >= 2
              && bytes[0] == START_API_FRAME && bytes[|bytes| - 1] == STOP_API_FRAME
              && Unescaped(bytes[1..|bytes| - 1]) == Some(payload)))
    case Logged(bytes) =>
      && 2 <= |bytes| <= OVERFLOW_LIMIT && bytes[0] == START_LOG_MSG
      && STOP_LOG_MSG !in bytes[..|bytes| - 1] && bytes[|bytes| - 1] == STOP_LOG_MSG
    case Noise(bytes) =>
      |bytes| == 1 && bytes[0] !in [START_API_FRAME, START_API_FRAME_CRC16, START_LOG_MSG]
    case BadCrc(bytes) =>
      && HasCrcFrame(bytes)
      && Unescaped(TextOf(bytes)).Some? && |Unescaped(TextOf(bytes)).value| < OVERFLOW_LIMIT
      && CrcFromBytes(bytes[|bytes| - 2], bytes[|bytes| - 1]) != Fcs(0, TextOf(bytes))
    case Overlong(bytes) =>
      && |bytes| > 0
      && (if bytes[0] == START_LOG_MSG then |bytes| == OVERFLOW_LIMIT && STOP_LOG_MSG !in bytes
          else bytes[0] in [START_API_FRAME, START_API_FRAME_CRC16]
               && Unescaped(bytes[1..]).Some? && |Unescaped(bytes[1..]).value| == OVERFLOW_LIMIT)
  }

  function EventOf(p: Piece): seq<Event> {
    match p
    case Framed(_, payload) => [Frame(payload)]
    case Logged(bytes) => if bytes == [] then [] else [LogLine(bytes[..|bytes| - 1])]
    case _ => []
  }

  function Bytes(pieces: seq<Piece>): seq<byte> {
    if pieces == [] then [] else pieces[0].bytes + Bytes(pieces[1..])
  }

  function Events(pieces: seq<Piece>): seq<Event> {
    if pieces == [] then [] else EventOf(pieces[0]) + Events(pieces[1..])
  }

  predicate InFrame(d: Decoder, w: seq<byte>) {
    |w| > 0 && w[0] == d.lastStart && d.lastStart in [START_API_FRAME, START_API_FRAME_CRC16]
  }

  // The bytes since the last piece ended, and what the decoder remembers of them.
  predicate Open(d: Decoder, w: seq<byte>) {
    && |d.buffer| < OVERFLOW_LIMIT
    && match d.state
       case WaitStartByte => w == []
       case WaitEndByte =>
         InFrame(d, w) && Unescaped(w[1..]) == Some(d.buffer) && d.computed == Fcs(0, w[1..])
       case EscapeNextByte =>
         && InFrame(d, w) && |w| >= 2 && w[|w| - 1] == ESCAPE_API_FRAME
         && Unescaped(w[1..|w| - 1]) == Some(d.buffer) && d.computed == Fcs(0, w[1..])
       case WaitCrc16Byte1 =>
         && InFrame(d, w) && d.lastStart == START_API_FRAME_CRC16
         && |w| >= 2 && w[|w| - 1] == STOP_API_FRAME
         && Unescaped(w[1..|w| - 1]) == Some(d.buffer) && d.computed == Fcs(0, w[1..|w| - 1])
       case WaitCrc16Byte2 =>
         && InFrame(d, w) && d.lastStart == START_API_FRAME_CRC16
         && |w| >= 3 && w[|w| - 2] == STOP_API_FRAME
         && Unescaped(w[1..|w| - 2]) == Some(d.buffer) && d.computed == Fcs(0, w[1..|w| - 2])
         && d.received == FirstCrcByte(w[|w| - 1])
       case WaitEndOfLine =>
         |w| > 0 && w[0] == START_LOG_MSG && STOP_LOG_MSG !in w && d.buffer == w
  }

  // Either the open piece grows by b, or b closes it and the events are those of the piece.
  predicate Closes(d: Decoder, w: seq<byte>, b: byte, p: Piece) {
    && Step(d, b).0.state == WaitStartByte && |Step(d, b).0.buffer| < OVERFLOW_LIMIT
    && p.bytes == w + [b] && ValidPiece(p) && EventOf(p) == Step(d, b).1
  }

  predicate Grows(d: Decoder, w: seq<byte>, b: byte) {
    Open(Step(d, b).0, w + [b]) && Step(d, b).0.state != WaitStartByte && Step(d, b).1 == []
  }

  lemma StepAtStart(d: Decoder, b: byte)
    requires Open(d, []) && d.state == WaitStartByte
    ensures Grows(d, [], b) || Closes(d, [], b, Noise([b]))
  {
    hide Crc16Byte;
    assert [b][1..] == [];
  }

  lemma StepAtStop(d: Decoder, w: seq<byte>)
    requires Open(d, w) && d.state == WaitEndByte
    ensures var b := STOP_API_FRAME; Grows(d, w, b) || Closes(d, w, b, Framed(w + [b], d.buffer))
  {
    hide Crc16Byte, Fcs, Unescaped;
    var e := w + [STOP_API_FRAME];
    assert e[1..|e| - 1] == w[1..];
  }

  lemma StepInText(d: Decoder, w: seq<byte>, b: byte)
    requires Open(d, w) && d.state == WaitEndByte && b != STOP_API_FRAME
    ensures Grows(d, w, b) || Closes(d, w, b, Overlong(w + [b]))
  {
    hide Crc16Byte, Fcs, Unescaped;
    var e := w + [b];
    assert e[1..] == w[1..] + [b] && e[1..|e| - 1] == w[1..];
    FcsSnoc(0, w[1..], b);
    if b != ESCAPE_API_FRAME {
      UnescapedSnoc(w[1..], b);
    }
  }

  lemma StepAfterEscape(d: Decoder, w: seq<byte>, b: byte)
    requires Open(d, w) && d.state == EscapeNextByte
    ensures Grows(d, w, b) || Closes(d, w, b, Overlong(w + [b]))
  {
    hide Crc16Byte, Fcs;
    var e := w + [b];
    assert e[1..] == w[1..] + [b];
    assert e[1..] == w[1..|w| - 1] + [ESCAPE_API_FRAME, b];
    FcsSnoc(0, w[1..], b);
    UnescapedSnocPair(w[1..|w| - 1], b);
  }

  lemma StepToSecondCrcByte(d: Decoder, w: seq<byte>, b: byte)
    requires Open(d, w) && d.state == WaitCrc16Byte1
    ensures Grows(d, w, b)
  {
    hide Crc16Byte, Fcs, FirstCrcByte, SecondCrcByte;
    var e := w + [b];
    assert e[1..|e| - 2] == w[1..|w| - 1];
    assert e[|e| - 2] == w[|w| - 1];
  }

  lemma CrcAssembled(hi: byte, lo: byte)
    ensures SecondCrcByte(FirstCrcByte(hi), lo) == CrcFromBytes(hi, lo)
  {
  }

  lemma StepPastCrc(d: Decoder, w: seq<byte>, b: byte)
    requires Open(d, w) && d.state == WaitCrc16Byte2
    ensures Closes(d, w, b, Framed(w + [b], d.buffer)) || Closes(d, w, b, BadCrc(w + [b]))
  {
    hide Crc16Byte, Fcs, FirstCrcByte, SecondCrcByte, CrcFromBytes;
    var e := w + [b];
    assert e[1..|e| - 3] == w[1..|w| - 2];
    assert e[|e| - 3] == w[|w| - 2] && e[|e| - 2] == w[|w| - 1];
    CrcAssembled(w[|w| - 1], b);
  }

  lemma StepInLog(d: Decoder, w: seq<byte>, b: byte)
    requires Open(d, w) && d.state == WaitEndOfLine
    ensures Grows(d, w, b) || Closes(d, w, b, Logged(w + [b])) || Closes(d, w, b, Overlong(w + [b]))
  {
    assert (w + [b])[..|w|] == w;
  }

  /** For every state with an open piece, one byte extends the piece or closes a valid one. */
  lemma StepTiles(d: Decoder, w: seq<byte>, b: byte) returns (closed: Option<Piece>)
    requires Open(d, w)
    ensures if closed.None? then Grows(d, w, b) else Closes(d, w, b, closed.value)
    ensures Open(Step(d, b).0, if closed.None? then w + [b] else [])
  {
    hide Step, Grows, Closes;
    var e := w + [b];
    match d.state {
      case WaitStartByte => StepAtStart(d, b); assert w + [b] == [b];
      case WaitEndByte => if b == STOP_API_FRAME { StepAtStop(d, w); } else { StepInText(d, w, b); }
      case EscapeNextByte => StepAfterEscape(d, w, b);
      case WaitCrc16Byte1 => StepToSecondCrcByte(d, w, b);
      case WaitCrc16Byte2 => StepPastCrc(d, w, b);
      case WaitEndOfLine => StepInLog(d, w, b);
    }
    closed :=
      if Grows(d, w, b) then None
      else if Closes(d, w, b, Noise(e)) then Some(Noise(e))
      else if Closes(d, w, b, Framed(e, d.buffer)) then Some(Framed(e, d.buffer))
      else if Closes(d, w, b, Overlong(e)) then Some(Overlong(e))
      else if Closes(d, w, b, BadCrc(e)) then Some(BadCrc(e))
      else Some(Logged(e));
    WhatStaysOpen(d, w, b, closed);
  }

  lemma WhatStaysOpen(d: Decoder, w: seq<byte>, b: byte, closed: Option<Piece>)
    requires if closed.None? then Grows(d, w, b) else Closes(d, w, b, closed.value)
    ensures Open(Step(d, b).0, if closed.None? then w + [b] else [])
  {
    hide Step;
  }

  /** Soundness and completeness of the decoder, for every input. The stream is cut, with
      nothing lost and nothing read twice, into valid pieces and one unfinished piece; the
      events are exactly those of the pieces, in order. So each frame delivered is the
      unescaping of a contiguous FD or FE segment with a matching CRC, and every complete
      piece that is not delivered is noise, a CRC mismatch or text that reached the limit. */
  lemma {:induction false} RunTiles(d: Decoder, w: seq<byte>, input: seq<byte>)
    returns (pieces: seq<Piece>, rest: seq<byte>)
    requires Open(d, w)
    ensures w + input == Bytes(pieces) + rest
    ensures forall p | p in pieces :: ValidPiece(p)
    ensures Run(d, input).1 == Events(pieces)
    ensures Open(Run(d, input).0, rest)
    decreases |input|
  {
    hide Step, ValidPiece, EventOf, Open;
    if input == [] {
      return [], w;
    }
    var b := input[0];
    var closed := StepTiles(d, w, b);
    if closed.None? {
      pieces, rest := RunTiles(Step(d, b).0, w + [b], input[1..]);
      assert w + input == w + [b] + input[1..];
      assert [] + Run(Step(d, b).0, input[1..]).1 == Run(Step(d, b).0, input[1..]).1;
    } else {
      var more, tail := RunTiles(Step(d, b).0, [], input[1..]);
      pieces, rest := [closed.value] + more, tail;
      assert pieces[1..] == more;
      assert w + input == (w + [b]) + ([] + input[1..]);
    }
  }

  lemma DecoderIsSoundAndComplete(input: seq<byte>)
    returns (pieces: seq<Piece>, rest: seq<byte>)
    ensures input == Bytes(pieces) + rest
    ensures forall p | p in pieces :: ValidPiece(p)
    ensures Run(INITIAL, input).1 == Events(pieces)
    ensures Open(Run(INITIAL, input).0, rest)
  {
    pieces, rest := RunTiles(INITIAL, [], input);
    assert [] + input == input;
  }

  // ---------------------------------------------------------------- running over whole pieces

  lemma RunTextByte(d: Decoder, b: byte)
    requires d.state == WaitEndByte && b != STOP_API_FRAME && b != ESCAPE_API_FRAME
    requires |d.buffer| + 1 < OVERFLOW_LIMIT
    ensures Step(d, b) == (Store(d, b), [])
  {
    hide Crc16Byte;
  }

  lemma FcsCons(crc: bv16, text: seq<byte>)
    requires text != []
    ensures Fcs(crc, text) == Fcs(Crc16Byte(crc, text[0]), text[1..])
  {
    hide Crc16Byte, FeedByte;
    TableStepIsDivision(crc, text[0]);
  }

  // The length of the first unit of a well-formed text: a plain byte or an escape pair.
  function UnitLength(text: seq<byte>): (n: nat)
    requires text != [] && Unescaped(text).Some?
    ensures 1 <= n <= |text|
  {
    if text[0] == ESCAPE_API_FRAME then 2 else 1
  }

  function AfterUnit(d: Decoder, text: seq<byte>): Decoder
    requires text != [] && Unescaped(text).Some?
  {
    if text[0] == ESCAPE_API_FRAME then Store(d.(computed := Crc16Byte(d.computed, text[0])), text[1])
    else Store(d, text[0])
  }

  lemma RunUnit(d: Decoder, text: seq<byte>)
    requires d.state == WaitEndByte && |d.buffer| + 1 < OVERFLOW_LIMIT
    requires text != [] && Unescaped(text).Some?
    ensures Run(d, text) == Run(AfterUnit(d, text), text[UnitLength(text)..])
  {
    hide Crc16Byte;
    var b := text[0];
    if b == ESCAPE_API_FRAME {
      var d1 := d.(state := EscapeNextByte, computed := Crc16Byte(d.computed, b));
      RunQuietStep(d, d1, text);
      RunQuietStep(d1, AfterUnit(d, text), text[1..]);
      assert text[1..][1..] == text[2..];
    } else {
      RunTextByte(d, b);
      RunQuietStep(d, Store(d, b), text);
    }
  }

  lemma UnitIsStored(d: Decoder, text: seq<byte>)
    requires text != [] && Unescaped(text).Some?
    ensures var rest := text[UnitLength(text)..];
            && Unescaped(rest).Some? && |Unescaped(text).value| == 1 + |Unescaped(rest).value|
            && AfterUnit(d, text).buffer + Unescaped(rest).value == d.buffer + Unescaped(text).value
            && |AfterUnit(d, text).buffer| == |d.buffer| + 1
            && AfterUnit(d, text) == d.(state := WaitEndByte, buffer := AfterUnit(d, text).buffer,
                                        computed := AfterUnit(d, text).computed)
  {
    hide Crc16Byte;
  }

  lemma UnitIsSummed(d: Decoder, text: seq<byte>)
    requires text != [] && Unescaped(text).Some?
    ensures Fcs(AfterUnit(d, text).computed, text[UnitLength(text)..]) == Fcs(d.computed, text)
  {
    hide Crc16Byte, Fcs;
    FcsCons(d.computed, text);
    if text[0] == ESCAPE_API_FRAME {
      assert text[1..][1..] == text[2..];
      FcsCons(Crc16Byte(d.computed, text[0]), text[1..]);
    }
  }

  /** Inside a frame, any well-formed text that fits is stored unescaped and summed. */
  lemma {:induction false} RunText(d: Decoder, text: seq<byte>)
    requires d.state == WaitEndByte && Unescaped(text).Some?
    requires |d.buffer| + |Unescaped(text).value| < OVERFLOW_LIMIT
    ensures Run(d, text)
         == (d.(buffer := d.buffer + Unescaped(text).value, computed := Fcs(d.computed, text)), [])
    decreases |text|
  {
    hide Step, AfterUnit, UnitLength;
    if text == [] {
      assert d.buffer + [] == d.buffer;
    } else {
      UnitIsStored(d, text);
      UnitIsSummed(d, text);
      RunUnit(d, text);
      RunText(AfterUnit(d, text), text[UnitLength(text)..]);
    }
  }

  lemma RunCrcBytes(d: Decoder, hi: byte, lo: byte)
    requires d.state == WaitEndByte && d.lastStart == START_API_FRAME_CRC16 && |d.buffer| < OVERFLOW_LIMIT
    ensures Run(d, [STOP_API_FRAME, hi, lo])
         == (d.(state := WaitStartByte, received := CrcFromBytes(hi, lo), buffer := []),
             if CrcFromBytes(hi, lo) == d.computed then [Frame(d.buffer)] else [])
  {
    hide Crc16Byte, FirstCrcByte, SecondCrcByte, CrcFromBytes;
    var d1 := Step(d, STOP_API_FRAME).0;
    var d2 := Step(d1, hi).0;
    CrcAssembled(hi, lo);
    assert [STOP_API_FRAME, hi, lo][1..] == [hi, lo] && [hi, lo][1..] == [lo];
    RunOne(d2, lo);
    RunQuietStep(d1, d2, [hi, lo]);
    RunQuietStep(d, d1, [STOP_API_FRAME, hi, lo]);
  }

  /** A whole FD frame with any well-formed text: delivered if and only if the two
      bytes after it are the CRC of the text. */
  lemma RunCrcFrame(d: Decoder, text: seq<byte>, hi: byte, lo: byte)
    requires d.state == WaitStartByte
    requires Unescaped(text).Some? && |Unescaped(text).value| < OVERFLOW_LIMIT
    ensures var input := [START_API_FRAME_CRC16] + text + [STOP_API_FRAME, hi, lo];
            && Run(d, input).0.state == WaitStartByte && Run(d, input).0.buffer == []
            && Run(d, input).1 == if CrcFromBytes(hi, lo) == Fcs(0, text) then [Frame(Unescaped(text).value)] else []
  {
    hide Crc16Byte, CrcFromBytes, Unescaped, Fcs;
    var input := [START_API_FRAME_CRC16] + text + [STOP_API_FRAME, hi, lo];
    var d1 := IntoFrame(d, START_API_FRAME_CRC16);
    assert Step(d, START_API_FRAME_CRC16) == (d1, []);
    assert input[0] == START_API_FRAME_CRC16 && input[1..] == text + [STOP_API_FRAME, hi, lo];
    RunText(d1, text);
    var d2 := Run(d1, text).0;
    assert [] + Unescaped(text).value == Unescaped(text).value;
    RunAppend(d1, text, [STOP_API_FRAME, hi, lo]);
    RunCrcBytes(d2, hi, lo);
  }

  function LogBytes(line: seq<byte>): seq<byte> {
    [START_LOG_MSG] + line + [STOP_LOG_MSG]
  }

  lemma {:induction false} RunLogText(d: Decoder, line: seq<byte>)
    requires d.state == WaitEndOfLine && STOP_LOG_MSG !in line && |d.buffer| + |line| < OVERFLOW_LIMIT
    ensures Run(d, line) == (d.(buffer := d.buffer + line), [])
    decreases |line|
  {
    if line == [] {
      assert d.buffer + line == d.buffer;
    } else {
      var d1 := d.(buffer := d.buffer + [line[0]]);
      assert line[0] != STOP_LOG_MSG && Step(d, line[0]) == (d1, []);
      RunLogText(d1, line[1..]);
      RunQuietStep(d, d1, line);
      assert d.buffer + [line[0]] + line[1..] == d.buffer + line;
    }
  }

  lemma RunLog(d: Decoder, line: seq<byte>)
    requires d.state == WaitStartByte && STOP_LOG_MSG !in line && |line| + 1 < OVERFLOW_LIMIT
    ensures Run(d, LogBytes(line)).0.state == WaitStartByte
    ensures Run(d, LogBytes(line)).1 == [LogLine([START_LOG_MSG] + line)]
  {
    var d1 := Step(d, START_LOG_MSG).0;
    var input := LogBytes(line);
    assert input[1..] == line + [STOP_LOG_MSG];
    RunLogText(d1, line);
    RunAppend(d1, line, [STOP_LOG_MSG]);
    RunOne(Run(d1, line).0, STOP_LOG_MSG);
  }

  lemma RunStray(d: Decoder, b: byte)
    requires d.state == WaitStartByte && b !in [START_API_FRAME, START_API_FRAME_CRC16, START_LOG_MSG]
    ensures Run(d, [b]).0.state == WaitStartByte && Run(d, [b]).1 == []
  {
    RunOne(d, b);
  }

  lemma {:induction false} RunTextToLimit(d: Decoder, text: seq<byte>)
    requires d.state == WaitEndByte && |d.buffer| < OVERFLOW_LIMIT && Unescaped(text).Some?
    requires |d.buffer| + |Unescaped(text).value| == OVERFLOW_LIMIT
    ensures Run(d, text).0.state == WaitStartByte && Run(d, text).1 == []
    decreases |text|
  {
    hide AfterUnit, Step, UnitLength;
    UnitIsStored(d, text);
    var rest := text[UnitLength(text)..];
    if |d.buffer| + 1 < OVERFLOW_LIMIT {
      RunUnit(d, text);
      RunTextToLimit(AfterUnit(d, text), rest);
    } else {
      RunLastUnit(d, text);
    }
  }

  lemma RunLastUnit(d: Decoder, text: seq<byte>)
    requires d.state == WaitEndByte && |d.buffer| + 1 == OVERFLOW_LIMIT
    requires Unescaped(text).Some? && |Unescaped(text).value| == 1
    ensures Run(d, text).0.state == WaitStartByte && Run(d, text).1 == []
  {
    hide Crc16Byte;
    var b := text[0];
    var d1 := Step(d, b).0;
    RunQuietStep(d, d1, text);
    UnitIsStored(d, text);
    if b == ESCAPE_API_FRAME {
      RunQuietStep(d1, Step(d1, text[1]).0, text[1..]);
      assert text[1..][1..] == text[2..] == [];
    } else {
      assert text[1..] == [];
    }
  }

  lemma RunPlainFrame(d: Decoder, text: seq<byte>)
    requires d.state == WaitStartByte
    requires Unescaped(text).Some? && |Unescaped(text).value| < OVERFLOW_LIMIT
    ensures var input := [START_API_FRAME] + text + [STOP_API_FRAME];
            Run(d, input).0.state == WaitStartByte && Run(d, input).1 == [Frame(Unescaped(text).value)]
  {
    hide Crc16Byte, Unescaped, Fcs;
    var input := [START_API_FRAME] + text + [STOP_API_FRAME];
    var d1 := IntoFrame(d, START_API_FRAME);
    assert input[1..] == text + [STOP_API_FRAME];
    RunQuietStep(d, d1, input);
    RunText(d1, text);
    RunAppend(d1, text, [STOP_API_FRAME]);
    RunOne(Run(d1, text).0, STOP_API_FRAME);
    assert [] + Unescaped(text).value == Unescaped(text).value;
  }

  lemma RunOverlong(d: Decoder, bytes: seq<byte>)
    requires d.state == WaitStartByte && ValidPiece(Overlong(bytes))
    ensures Run(d, bytes).0.state == WaitStartByte && Run(d, bytes).1 == []
  {
    hide Crc16Byte, Unescaped;
    var d1 := Step(d, bytes[0]).0;
    RunQuietStep(d, d1, bytes);
    if bytes[0] == START_LOG_MSG {
      var line := bytes[1..];
      var n := |line| - 1;
      assert line == line[..n] + [line[n]] && line[n] == bytes[n + 1];
      RunLogText(d1, line[..n]);
      RunSnoc(d1, line[..n], line[n]);
    } else {
      RunTextToLimit(d1, bytes[1..]);
    }
  }

  lemma RunPiece(d: Decoder, p: Piece)
    requires d.state == WaitStartByte && ValidPiece(p)
    ensures Run(d, p.bytes).0.state == WaitStartByte && Run(d, p.bytes).1 == EventOf(p)
  {
    hide Crc16Byte, Fcs, Unescaped, CrcFromBytes, Run, Step;
    var w := p.bytes;
    var n := |w|;
    if HasCrcFrame(w) && !p.Overlong? && !p.Logged? && !p.Noise? {
      var text := TextOf(w);
      assert w == [START_API_FRAME_CRC16] + text + [STOP_API_FRAME, w[n - 2], w[n - 1]];
      RunCrcFrame(d, text, w[n - 2], w[n - 1]);
    } else {
      match p {
        case Framed(_, _) =>
          assert w == [START_API_FRAME] + w[1..n - 1] + [STOP_API_FRAME];
          RunPlainFrame(d, w[1..n - 1]);
        case Logged(_) =>
          assert w == [START_LOG_MSG] + w[1..n - 1] + [STOP_LOG_MSG];
          assert w[..n - 1] == [START_LOG_MSG] + w[1..n - 1];
          RunLog(d, w[1..n - 1]);
        case Noise(_) => RunStray(d, w[0]); assert w == [w[0]];
        case Overlong(_) => RunOverlong(d, w);
        case BadCrc(_) => assert false;
      }
    }
  }

  /** The converse of RunTiles: however a stream is cut into valid pieces, the decoder
      reports exactly the events of those pieces, so the grammar alone fixes its output. */
  lemma {:induction false} PiecesDecode(d: Decoder, pieces: seq<Piece>)
    requires d.state == WaitStartByte && forall p | p in pieces :: ValidPiece(p)
    ensures Run(d, Bytes(pieces)).0.state == WaitStartByte
    ensures Run(d, Bytes(pieces)).1 == Events(pieces)
    decreases |pieces|
  {
    hide Step, ValidPiece, EventOf;
    if pieces != [] {
      RunPiece(d, pieces[0]);
      RunAppend(d, pieces[0].bytes, Bytes(pieces[1..]));
      PiecesDecode(Run(d, pieces[0].bytes).0, pieces[1..]);
    }
  }
}

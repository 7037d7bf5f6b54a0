/** What the serial framing promises as a channel: payloads written with Output and read
    by the decoder of SerialConnection.Read, with anything at all in between. */
module SerialStream {
  import opened Basics
  import opened Crc16
  import opened ApiFrames
  import opened SerialDecoder

  // ---------------------------------------------------------------- stream round trip

  /** What may travel on the line between two idle moments of the decoder. */
  datatype Item = Payload(p: seq<byte>) | Stray(b: byte) | Log(line: seq<byte>)

  function ItemBytes(x: Item): seq<byte> {
    match x
    case Payload(p) => Wire(p)
    case Stray(b) => [b]
    case Log(line) => LogBytes(line)
  }

  function ItemEvents(x: Item): seq<Event> {
    match x
    case Payload(p) => [Frame(p)]
    case Stray(_) => []
    case Log(line) => [LogLine([START_LOG_MSG] + line)]
  }

  function LineBytes(items: seq<Item>): seq<byte> {
    if items == [] then [] else ItemBytes(items[0]) + LineBytes(items[1..])
  }

  function ExpectedEvents(items: seq<Item>): seq<Event> {
    if items == [] then [] else ItemEvents(items[0]) + ExpectedEvents(items[1..])
  }

  // Stray bytes do not start a frame or a log line, and a log line holds no line feed.
  predicate WellFormedItem(x: Item) {
    match x
    case Payload(_) => true
    case Stray(b) => b !in [START_API_FRAME, START_API_FRAME_CRC16, START_LOG_MSG]
    case Log(line) => STOP_LOG_MSG !in line
  }

  predicate Fits(x: Item) {
    match x
    case Payload(p) => |p| < OVERFLOW_LIMIT
    case Stray(_) => true
    case Log(line) => |line| + 1 < OVERFLOW_LIMIT
  }

  lemma WireIsCrcFrame(payload: seq<byte>)
    ensures var c := CrcBytes(Fcs(0, Escaped(payload)));
            Wire(payload) == [START_API_FRAME_CRC16] + Escaped(payload) + [STOP_API_FRAME, c[0], c[1]]
  {
    hide CrcBytes, Fcs, Escaped;
    var c := CrcBytes(Fcs(0, Escaped(payload)));
    assert |c| == 2 by { CrcBytesAre(Fcs(0, Escaped(payload))); }
    assert [STOP_API_FRAME] + c == [STOP_API_FRAME, c[0], c[1]];
  }

  lemma WireIsPiece(p: seq<byte>)
    requires |p| < OVERFLOW_LIMIT
    ensures ValidPiece(Framed(Wire(p), p))
  {
    hide CrcBytes, CrcFromBytes, Fcs, Wire;
    var text, crc := Escaped(p), Fcs(0, Escaped(p));
    UnescapeEscaped(p);
    assert |CrcBytes(crc)| == 2 by { CrcBytesAre(crc); }
    WireIsCrcFrame(p);
    CrcBytesRoundTrip(crc);
    assert TextOf(Wire(p)) == text;
  }

  lemma RunItem(d: Decoder, x: Item)
    requires d.state == WaitStartByte && WellFormedItem(x) && Fits(x)
    ensures Run(d, ItemBytes(x)).0.state == WaitStartByte && Run(d, ItemBytes(x)).1 == ItemEvents(x)
  {
    hide Run, ValidPiece, Wire;
    match x {
      case Payload(p) => WireIsPiece(p); RunPiece(d, Framed(Wire(p), p));
      case Stray(b) => RunStray(d, b);
      case Log(line) => RunLog(d, line);
    }
  }

  lemma {:induction false} RunItems(d: Decoder, items: seq<Item>)
    requires d.state == WaitStartByte
    requires forall x | x in items :: WellFormedItem(x)
    requires forall x | x in items :: Fits(x)
    ensures Run(d, LineBytes(items)).0.state == WaitStartByte
    ensures Run(d, LineBytes(items)).1 == ExpectedEvents(items)
    decreases |items|
  {
    hide Step, ItemBytes, ItemEvents, WellFormedItem, Fits;
    if items != [] {
      var x := items[0];
      assert WellFormedItem(x) && Fits(x);
      RunItem(d, x);
      RunAppend(d, ItemBytes(x), LineBytes(items[1..]));
      RunItems(Run(d, ItemBytes(x)).0, items[1..]);
    }
  }

  predicate Delivered(e: Event) {
    match e
    case Frame(p) => |p| < OVERFLOW_LIMIT
    case LogLine(t) => |t| < OVERFLOW_LIMIT
  }

  lemma {:induction false} DeliveredIsShort(d: Decoder, input: seq<byte>)
    requires |d.buffer| < OVERFLOW_LIMIT
    ensures forall e | e in Run(d, input).1 :: Delivered(e)
    ensures |Run(d, input).0.buffer| < OVERFLOW_LIMIT
    decreases |input|
  {
    hide Crc16Byte, FirstCrcByte, SecondCrcByte;
    if input != [] {
      DeliveredIsShort(Step(d, input[0]).0, input[1..]);
    }
  }

  lemma {:induction false} ItemEventsAreExpected(items: seq<Item>, x: Item)
    requires x in items
    ensures forall e | e in ItemEvents(x) :: e in ExpectedEvents(items)
    decreases |items|
  {
    if x != items[0] {
      ItemEventsAreExpected(items[1..], x);
    }
  }

  /** What fits: a payload of at most 1499 bytes, and a log line of at most 1498. */
  lemma FitsIs(x: Item)
    ensures Fits(x) <==> (x.Payload? ==> |x.p| <= 1499) && (x.Log? ==> |x.line| <= 1498)
  {
  }

  /** The frame of an empty payload. */
  lemma EmptyFrame()
    ensures Wire([]) == [0xFD, 0xEF, 0, 0]
  {
    assert CrcBytes(0) == [0, 0];
  }

  /** The round trip over a stream. Any list of payloads, with stray bytes and complete
      log lines between them, is read back as exactly that list in order, if and only if
      every payload has at most 1499 bytes and every log line at most 1498. */
  lemma StreamRoundTrip(d: Decoder, items: seq<Item>)
    requires d.state == WaitStartByte && |d.buffer| < OVERFLOW_LIMIT
    requires forall x | x in items :: WellFormedItem(x)
    ensures Run(d, LineBytes(items)).1 == ExpectedEvents(items) <==> forall x | x in items :: Fits(x)
  {
    hide Run;
    if forall x | x in items :: Fits(x) {
      RunItems(d, items);
    } else {
      var x :| x in items && !Fits(x);
      ItemEventsAreExpected(items, x);
      DeliveredIsShort(d, LineBytes(items));
      var e := ItemEvents(x)[0];
      assert e in ExpectedEvents(items) && !Delivered(e);
    }
  }

  // ---------------------------------------------------------------- damaged frames

  /** A frame whose escaped text is damaged inside two adjacent bytes, and still reads as
      text, is dropped whole: nothing is delivered and the decoder is idle again. */
  lemma DamagedFrameIsDropped(d: Decoder, payload: seq<byte>,
                              before: seq<byte>, a: byte, b: byte, c: byte, e: byte, after: seq<byte>)
    requires d.state == WaitStartByte
    requires Escaped(payload) == before + [a, b] + after
    requires a != c || b != e
    requires Unescaped(before + [c, e] + after).Some?
    requires |Unescaped(before + [c, e] + after).value| < OVERFLOW_LIMIT
    ensures var input := [START_API_FRAME_CRC16] + (before + [c, e] + after)
                         + [STOP_API_FRAME] + CrcBytes(Fcs(0, Escaped(payload)));
            Run(d, input).1 == [] && Run(d, input).0.state == WaitStartByte
  {
    hide Crc16Byte, CrcBytes, CrcFromBytes, Fcs, Run;
    var crc := Fcs(0, Escaped(payload));
    BurstChangesFcs(0, before, a, b, c, e, after);
    assert |CrcBytes(crc)| == 2 by { CrcBytesAre(crc); }
    CrcBytesRoundTrip(crc);
    var hi, lo := CrcBytes(crc)[0], CrcBytes(crc)[1];
    RunCrcFrame(d, before + [c, e] + after, hi, lo);
    assert [START_API_FRAME_CRC16] + (before + [c, e] + after) + [STOP_API_FRAME] + CrcBytes(crc)
        == [START_API_FRAME_CRC16] + (before + [c, e] + after) + [STOP_API_FRAME, hi, lo];
  }

  // ---------------------------------------------------------------- self-stabilisation

  function Zeros(n: nat): seq<byte> {
    if n == 0 then [] else [0] + Zeros(n - 1)
  }

  // How many zero bytes bring the decoder back to the start state.
  function ZerosNeeded(d: Decoder): nat {
    match d.state
    case WaitStartByte => 0
    case WaitCrc16Byte1 => 2
    case WaitCrc16Byte2 => 1
    case _ => if |d.buffer| < OVERFLOW_LIMIT then OVERFLOW_LIMIT - |d.buffer| else 0
  }

  lemma ZeroStep(d: Decoder)
    requires |d.buffer| < OVERFLOW_LIMIT
    ensures |Step(d, 0).0.buffer| < OVERFLOW_LIMIT
    ensures ZerosNeeded(d) > 0 ==> ZerosNeeded(Step(d, 0).0) == ZerosNeeded(d) - 1
    ensures ZerosNeeded(d) == 0 ==> Step(d, 0) == (d, [])
    ensures ZerosNeeded(d) == 0 <==> d.state == WaitStartByte
  {
    hide Crc16Byte, FirstCrcByte, SecondCrcByte;
    match d.state {
      case WaitStartByte =>
      case EscapeNextByte =>
      case WaitEndByte => assert Switch(d, 0) == (Store(d, 0), []);
      case WaitCrc16Byte1 =>
      case WaitCrc16Byte2 =>
      case WaitEndOfLine =>
    }
  }

  /** From every reachable state, n zero bytes leave the decoder idle if and only if n is at
      least ZerosNeeded, which is never more than 1500. */
  lemma {:induction false} ZerosResynchronise(d: Decoder, n: nat)
    requires |d.buffer| < OVERFLOW_LIMIT
    ensures Run(d, Zeros(n)).0.state == WaitStartByte <==> n >= ZerosNeeded(d)
    ensures |Run(d, Zeros(n)).0.buffer| < OVERFLOW_LIMIT
    ensures ZerosNeeded(d) <= 1500
    decreases n
  {
    hide Step, ZerosNeeded;
    ZeroStep(d);
    assert ZerosNeeded(d) <= OVERFLOW_LIMIT by { NeverMoreThanTheLimit(d); }
    if n > 0 {
      assert Zeros(n)[1..] == Zeros(n - 1);
      ZerosResynchronise(Step(d, 0).0, n - 1);
    }
  }

  lemma NeverMoreThanTheLimit(d: Decoder)
    ensures ZerosNeeded(d) <= OVERFLOW_LIMIT
  {
  }

  /** So after any input at all, 1500 zero bytes make the next frame decode exactly. */
  lemma NextFrameAfterZeros(input: seq<byte>, n: nat, payload: seq<byte>)
    requires n >= OVERFLOW_LIMIT && |payload| < OVERFLOW_LIMIT
    ensures Run(INITIAL, input + Zeros(n) + Wire(payload)).1
         == Run(INITIAL, input + Zeros(n)).1 + [Frame(payload)]
  {
    hide Run, Wire;
    var d := Run(INITIAL, input).0;
    DeliveredIsShort(INITIAL, input);
    ZerosResynchronise(d, n);
    RunAppend(INITIAL, input, Zeros(n));
    RunAppend(INITIAL, input + Zeros(n), Wire(payload));
    RunItem(Run(d, Zeros(n)).0, Payload(payload));
  }
}

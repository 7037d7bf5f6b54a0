/** Byte stuffing and framing of meshmesh/apiframe.go.

    A frame on the serial line is FD, the escaped payload, EF and the two bytes of the
    CRC of the escaped payload, high byte first. Only EF, FE and EA are escaped: an FD
    inside a frame is sent as it is. */
module ApiFrames {
  import opened Basics
  import opened Crc16

  const START_API_FRAME_CRC16: byte := 0xFD
  const START_API_FRAME: byte := 0xFE
  const ESCAPE_API_FRAME: byte := 0xEA
  const STOP_API_FRAME: byte := 0xEF

  predicate NeedsEscape(b: byte) {
    b == STOP_API_FRAME || b == START_API_FRAME || b == ESCAPE_API_FRAME
  }

  function EscapedByte(b: byte): seq<byte> {
    if NeedsEscape(b) then [ESCAPE_API_FRAME, b] else [b]
  }

  function Escaped(payload: seq<byte>): seq<byte> {
    if payload == [] then [] else EscapedByte(payload[0]) + Escaped(payload[1..])
  }

  function EscapeCount(payload: seq<byte>): nat {
    if payload == [] then 0 else (if NeedsEscape(payload[0]) then 1 else 0) + EscapeCount(payload[1..])
  }

  /** Stuffing byte by byte: EF, FE and EA go out behind an EA, and every other byte as it is. */
  lemma OneByteEscaped(b: byte)
    ensures Escaped([b]) == if b == 0xEF || b == 0xFE || b == 0xEA then [0xEA, b] else [b]
  {
  }

  /** What an escaped text stands for; None when it holds a bare stop byte or ends
      inside an escape pair. */
  function Unescaped(text: seq<byte>): Option<seq<byte>> {
    if text == [] then Some([])
    else if text[0] == STOP_API_FRAME then None
    else if text[0] == ESCAPE_API_FRAME then
      if |text| == 1 then None else Prepend(text[1], Unescaped(text[2..]))
    else Prepend(text[0], Unescaped(text[1..]))
  }

  function Prepend(b: byte, rest: Option<seq<byte>>): Option<seq<byte>> {
    match rest
    case None => None
    case Some(s) => Some([b] + s)
  }

  function CrcBytes(crc: bv16): seq<byte> {
    [(crc >> 8) as bv8, (crc & 0xFF) as bv8]
  }

  function CrcFromBytes(hi: byte, lo: byte): bv16 {
    ((hi as bv16) << 8) | (lo as bv16)
  }

  /** The bytes Output sends for a payload that has not been escaped yet. */
  function Wire(payload: seq<byte>): seq<byte> {
    [START_API_FRAME_CRC16] + Escaped(payload) + [STOP_API_FRAME] + CrcBytes(Fcs(0, Escaped(payload)))
  }

  class ApiFrame {
    var data: seq<byte>
    var escaped: bool

    constructor (buffer: seq<byte>, escaped: bool)
      ensures data == buffer && this.escaped == escaped
    {
      data := buffer;
      this.escaped := escaped;
    }

    /** Two passes, as in the source: count the bytes to escape, then fill a buffer of
        exactly that size. A frame that is already escaped is left alone. */
    method Escape()
      modifies this
      ensures escaped
      ensures data == if old(escaped) then old(data) else Escaped(old(data))
    {
      if escaped {
        return;
      }
      var escapes := 0;
      for i := 0 to |data|
        invariant data == old(data)
        invariant escapes == EscapeCount(data[..i])
      {
        EscapeCountSnoc(data[..i], data[i]);
        assert data[..i] + [data[i]] == data[..i + 1];
        if NeedsEscape(data[i]) {
          escapes := escapes + 1;
        }
      }
      assert data[..|data|] == data;
      EscapedLength(data);
      var out := new byte[|data| + escapes];
      var j := 0;
      for i := 0 to |data|
        invariant data == old(data)
        invariant j == |Escaped(data[..i])| && |Escaped(data)| == out.Length
        invariant j <= out.Length && out[..j] == Escaped(data[..i])
      {
        RoomForNext(data, i);
        if NeedsEscape(data[i]) {
          out[j] := ESCAPE_API_FRAME;
          j := j + 1;
        }
        out[j] := data[i];
        j := j + 1;
      }
      assert data[..|data|] == data && out[..|Escaped(data)|] == out[..];
      data := out[..];
      escaped := true;
    }

    /** The bytes to write to the port. A second call gives the same bytes again. */
    method Output() returns (out: seq<byte>)
      modifies this
      ensures escaped
      ensures data == if old(escaped) then old(data) else Escaped(old(data))
      ensures out == [START_API_FRAME_CRC16] + data + [STOP_API_FRAME] + CrcBytes(Fcs(0, data))
      ensures !old(escaped) ==> out == Wire(old(data))
    {
      if !escaped {
        Escape();
      }
      hide CrcBytes;
      var crc16hash := Crc16Calc(0, data, |data|);
      assert data[..|data|] == data;
      out := [START_API_FRAME_CRC16];
      out := out + data;
      CrcBytesAre(crc16hash);
      out := out + [STOP_API_FRAME] + [(crc16hash >> 8) as bv8, (crc16hash & 0xFF) as bv8];
    }
  }

  lemma {:induction false} EscapedAppend(a: seq<byte>, b: seq<byte>)
    ensures Escaped(a + b) == Escaped(a) + Escaped(b)
  {
    if a == [] {
      assert a + b == b;
    } else {
      assert (a + b)[1..] == a[1..] + b;
      EscapedAppend(a[1..], b);
    }
  }

  lemma EscapedSnoc(a: seq<byte>, b: byte)
    ensures Escaped(a + [b]) == Escaped(a) + EscapedByte(b)
  {
    EscapedAppend(a, [b]);
    assert Escaped([b]) == EscapedByte(b) + Escaped([]);
  }

  lemma RoomForNext(payload: seq<byte>, i: nat)
    requires i < |payload|
    ensures Escaped(payload[..i + 1]) == Escaped(payload[..i]) + EscapedByte(payload[i])
    ensures |Escaped(payload[..i + 1])| <= |Escaped(payload)|
  {
    assert payload[..i] + [payload[i]] == payload[..i + 1];
    EscapedSnoc(payload[..i], payload[i]);
    assert payload[..i + 1] + payload[i + 1..] == payload;
    EscapedAppend(payload[..i + 1], payload[i + 1..]);
  }

  lemma {:induction false} EscapeCountSnoc(a: seq<byte>, b: byte)
    ensures EscapeCount(a + [b]) == EscapeCount(a) + if NeedsEscape(b) then 1 else 0
  {
    if a != [] {
      assert (a + [b])[1..] == a[1..] + [b];
      EscapeCountSnoc(a[1..], b);
    }
  }

  lemma {:induction false} EscapedLength(payload: seq<byte>)
    ensures |Escaped(payload)| == |payload| + EscapeCount(payload)
  {
    if payload != [] {
      EscapedLength(payload[1..]);
    }
  }

  /** Escaping loses nothing: every payload is read back from its escaped text. */
  lemma {:induction false} UnescapeEscaped(payload: seq<byte>)
    ensures Unescaped(Escaped(payload)) == Some(payload)
  {
    if payload != [] {
      var text, rest := Escaped(payload), Escaped(payload[1..]);
      UnescapeEscaped(payload[1..]);
      assert [payload[0]] + payload[1..] == payload;
      if NeedsEscape(payload[0]) {
        assert text[2..] == rest;
        assert Unescaped(text) == Prepend(payload[0], Unescaped(rest));
      } else {
        assert text[1..] == rest;
        assert Unescaped(text) == Prepend(payload[0], Unescaped(rest));
      }
    }
  }

  /** Reading a text one byte further: a plain byte stands for itself. */
  lemma {:induction false} UnescapedSnoc(text: seq<byte>, b: byte)
    requires Unescaped(text).Some? && b != STOP_API_FRAME && b != ESCAPE_API_FRAME
    ensures Unescaped(text + [b]) == Some(Unescaped(text).value + [b])
  {
    var longer := text + [b];
    if text == [] {
      assert longer[1..] == [];
      assert Unescaped(longer) == Prepend(b, Some([]));
      assert [b] + [] == Unescaped(text).value + [b];
    } else {
      var n := if text[0] == ESCAPE_API_FRAME then 2 else 1;
      assert longer[n..] == text[n..] + [b];
      UnescapedSnoc(text[n..], b);
      assert Unescaped(longer) == Prepend(text[n - 1], Unescaped(longer[n..]));
      assert [text[n - 1]] + (Unescaped(text[n..]).value + [b]) == Unescaped(text).value + [b];
    }
  }

  lemma {:induction false} UnescapedSnocPair(text: seq<byte>, b: byte)
    requires Unescaped(text).Some?
    ensures Unescaped(text + [ESCAPE_API_FRAME, b]) == Some(Unescaped(text).value + [b])
  {
    var pair := [ESCAPE_API_FRAME, b];
    var longer := text + pair;
    if text == [] {
      assert longer[2..] == [];
      assert Unescaped(longer) == Prepend(b, Some([]));
      assert [b] + [] == Unescaped(text).value + [b];
    } else {
      var n := if text[0] == ESCAPE_API_FRAME then 2 else 1;
      assert longer[n..] == text[n..] + pair;
      UnescapedSnocPair(text[n..], b);
      assert Unescaped(longer) == Prepend(text[n - 1], Unescaped(longer[n..]));
      assert [text[n - 1]] + (Unescaped(text[n..]).value + [b]) == Unescaped(text).value + [b];
    }
  }

  lemma CrcBytesAre(crc: bv16)
    ensures CrcBytes(crc) == [(crc >> 8) as bv8, (crc & 0xFF) as bv8]
  {
  }

  lemma CrcBytesRoundTrip(crc: bv16)
    ensures CrcFromBytes(CrcBytes(crc)[0], CrcBytes(crc)[1]) == crc
  {
  }
}

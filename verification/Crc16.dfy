/** The 16-bit frame check sequence of meshmesh/crc16.go.

    The reference is the bit-serial division with the reflected polynomial 0x8408
    (Appendix C.2 of RFC 1662), started at 0 and sent without the final complement.
    The table-driven byte step and the loop over a buffer are proved equal to it, and
    the error-detection power of the check is derived from the division alone. */
module Crc16 {
  import opened Basics

  // The lookup table in the order it is printed: 32 rows of eight entries.
  const CRC16_TABLE: seq<seq<bv16>> := [
    [0x0000, 0x1189, 0x2312, 0x329B, 0x4624, 0x57AD, 0x6536, 0x74BF],
    [0x8C48, 0x9DC1, 0xAF5A, 0xBED3, 0xCA6C, 0xDBE5, 0xE97E, 0xF8F7],
    [0x1081, 0x0108, 0x3393, 0x221A, 0x56A5, 0x472C, 0x75B7, 0x643E],
    [0x9CC9, 0x8D40, 0xBFDB, 0xAE52, 0xDAED, 0xCB64, 0xF9FF, 0xE876],
    [0x2102, 0x308B, 0x0210, 0x1399, 0x6726, 0x76AF, 0x4434, 0x55BD],
    [0xAD4A, 0xBCC3, 0x8E58, 0x9FD1, 0xEB6E, 0xFAE7, 0xC87C, 0xD9F5],
    [0x3183, 0x200A, 0x1291, 0x0318, 0x77A7, 0x662E, 0x54B5, 0x453C],
    [0xBDCB, 0xAC42, 0x9ED9, 0x8F50, 0xFBEF, 0xEA66, 0xD8FD, 0xC974],
    [0x4204, 0x538D, 0x6116, 0x709F, 0x0420, 0x15A9, 0x2732, 0x36BB],
    [0xCE4C, 0xDFC5, 0xED5E, 0xFCD7, 0x8868, 0x99E1, 0xAB7A, 0xBAF3],
    [0x5285, 0x430C, 0x7197, 0x601E, 0x14A1, 0x0528, 0x37B3, 0x263A],
    [0xDECD, 0xCF44, 0xFDDF, 0xEC56, 0x98E9, 0x8960, 0xBBFB, 0xAA72],
    [0x6306, 0x728F, 0x4014, 0x519D, 0x2522, 0x34AB, 0x0630, 0x17B9],
    [0xEF4E, 0xFEC7, 0xCC5C, 0xDDD5, 0xA96A, 0xB8E3, 0x8A78, 0x9BF1],
    [0x7387, 0x620E, 0x5095, 0x411C, 0x35A3, 0x242A, 0x16B1, 0x0738],
    [0xFFCF, 0xEE46, 0xDCDD, 0xCD54, 0xB9EB, 0xA862, 0x9AF9, 0x8B70],
    [0x8408, 0x9581, 0xA71A, 0xB693, 0xC22C, 0xD3A5, 0xE13E, 0xF0B7],
    [0x0840, 0x19C9, 0x2B52, 0x3ADB, 0x4E64, 0x5FED, 0x6D76, 0x7CFF],
    [0x9489, 0x8500, 0xB79B, 0xA612, 0xD2AD, 0xC324, 0xF1BF, 0xE036],
    [0x18C1, 0x0948, 0x3BD3, 0x2A5A, 0x5EE5, 0x4F6C, 0x7DF7, 0x6C7E],
    [0xA50A, 0xB483, 0x8618, 0x9791, 0xE32E, 0xF2A7, 0xC03C, 0xD1B5],
    [0x2942, 0x38CB, 0x0A50, 0x1BD9, 0x6F66, 0x7EEF, 0x4C74, 0x5DFD],
    [0xB58B, 0xA402, 0x9699, 0x8710, 0xF3AF, 0xE226, 0xD0BD, 0xC134],
    [0x39C3, 0x284A, 0x1AD1, 0x0B58, 0x7FE7, 0x6E6E, 0x5CF5, 0x4D7C],
    [0xC60C, 0xD785, 0xE51E, 0xF497, 0x8028, 0x91A1, 0xA33A, 0xB2B3],
    [0x4A44, 0x5BCD, 0x6956, 0x78DF, 0x0C60, 0x1DE9, 0x2F72, 0x3EFB],
    [0xD68D, 0xC704, 0xF59F, 0xE416, 0x90A9, 0x8120, 0xB3BB, 0xA232],
    [0x5AC5, 0x4B4C, 0x79D7, 0x685E, 0x1CE1, 0x0D68, 0x3FF3, 0x2E7A],
    [0xE70E, 0xF687, 0xC41C, 0xD595, 0xA12A, 0xB0A3, 0x8238, 0x93B1],
    [0x6B46, 0x7ACF, 0x4854, 0x59DD, 0x2D62, 0x3CEB, 0x0E70, 0x1FF9],
    [0xF78F, 0xE606, 0xD49D, 0xC514, 0xB1AB, 0xA022, 0x92B9, 0x8330],
    [0x7BC7, 0x6A4E, 0x58D5, 0x495C, 0x3DE3, 0x2C6A, 0x1EF1, 0x0F78]
  ]

  /** One bit of the division: shift the register right, and subtract the polynomial
      when the bit that falls out differs from the incoming message bit. */
  function FeedBit(crc: bv16, bit: bool): bv16 {
    if (crc & 1 == 1) != bit then (crc >> 1) ^ 0x8408 else crc >> 1
  }

  function Low(w: bv16): bool { w & 1 == 1 }

  function Half(w: bv16): bv16 { w >> 1 }

  function Xor(a: bv16, b: bv16): bv16 { a ^ b }

  /** The n low bits of w, least significant first. */
  function FeedBits(crc: bv16, w: bv16, n: nat): bv16
    decreases n
  {
    if n == 0 then crc else FeedBits(FeedBit(crc, Low(w)), Half(w), n - 1)
  }

  function FeedByte(crc: bv16, c: byte): bv16 {
    FeedBits(crc, c as bv16, 8)
  }

  /** The check sequence of a whole message, continued from register crc. */
  function Fcs(crc: bv16, message: seq<byte>): bv16
    decreases |message|
  {
    if message == [] then crc else Fcs(FeedByte(crc, message[0]), message[1..])
  }

  // ---------------------------------------------------------------- the program

  function Crc16Byte(crc: bv16, c: byte): bv16 {
    var lut: byte := ((crc & 0xFF) as bv8) ^ c;
    (crc >> 8) ^ TableAt(lut)
  }

  function TableAt(lut: byte): bv16 {
    CRC16_TABLE[(lut >> 3) as nat][(lut & 7) as nat]
  }

  /** The loop of crc16Calc: it consumes the slice from the front while len counts down.
      A length beyond the buffer would index past its end. */
  method Crc16Calc(crc: bv16, buffer: seq<byte>, len: nat) returns (r: bv16)
    requires len <= |buffer|
    ensures r == Fcs(crc, buffer[..len])
  {
    r := crc;
    var rest, left: nat := buffer, len;
    while left > 0
      invariant 0 <= left <= len
      invariant rest == buffer[len - left..]
      invariant Fcs(crc, buffer[..len]) == Fcs(r, buffer[len - left..len])
    {
      TableStepIsDivision(r, rest[0]);
      assert buffer[len - left..len][1..] == buffer[len - left + 1..len];
      r := Crc16Byte(r, rest[0]);
      rest := rest[1..];
      left := left - 1;
    }
  }

  // ---------------------------------------------------------------- refinement

  // n register shifts with no message bits; eight of them are what a table entry stores.
  function Shift(x: bv16, n: nat): bv16
    decreases n
  {
    if n == 0 then x else Shift(FeedBit(x, false), n - 1)
  }

  function DropBits(w: bv16, n: nat): bv16
    decreases n
  {
    if n == 0 then w else DropBits(Half(w), n - 1)
  }

  function Shift8(x: bv16): bv16 {
    FeedBit(FeedBit(FeedBit(FeedBit(FeedBit(FeedBit(FeedBit(FeedBit(
      x, false), false), false), false), false), false), false), false)
  }

  lemma Shift8Unrolled(x: bv16)
    ensures Shift(x, 8) == Shift8(x)
  {
    var x1 := FeedBit(x, false);
    var x2 := FeedBit(x1, false);
    var x3 := FeedBit(x2, false);
    var x4 := FeedBit(x3, false);
    var x5 := FeedBit(x4, false);
    var x6 := FeedBit(x5, false);
    assert Shift(x, 8) == Shift(x1, 7) == Shift(x2, 6) == Shift(x3, 5) == Shift(x4, 4) == Shift(x5, 3) == Shift(x6, 2);
  }

  lemma TableEntryLow(lut: byte)
    requires lut < 128
    ensures TableAt(lut) == Shift8(lut as bv16)
  {
  }

  lemma TableEntryHigh(lut: byte)
    requires 128 <= lut
    ensures TableAt(lut) == Shift8(lut as bv16)
  {
  }

  /** The printed table: entry i is what eight steps make of i. */
  lemma TableEntry(lut: byte)
    ensures TableAt(lut) == Shift8(lut as bv16)
  {
    hide TableAt, Shift8;
    if lut < 128 {
      TableEntryLow(lut);
    } else {
      TableEntryHigh(lut);
    }
  }

  // Adding a message bit into the register before the shift is the same as feeding it.
  lemma FeedCommutesBits(crc: bv16, w: bv16)
    ensures FeedBit(crc ^ w, false) == FeedBit(crc, w & 1 == 1) ^ (w >> 1)
  {
  }

  lemma FeedCommutes(crc: bv16, w: bv16)
    ensures FeedBit(Xor(crc, w), false) == Xor(FeedBit(crc, Low(w)), Half(w))
  {
    hide FeedBit;
    FeedCommutesBits(crc, w);
  }

  lemma {:induction false} BitsIntoRegister(crc: bv16, w: bv16, n: nat)
    ensures Shift(Xor(crc, w), n) == Xor(FeedBits(crc, w, n), DropBits(w, n))
    decreases n
  {
    hide FeedBit, Xor, Low, Half;
    if n > 0 {
      FeedCommutes(crc, w);
      BitsIntoRegister(FeedBit(crc, Low(w)), Half(w), n - 1);
    }
  }

  lemma EightHalves(c: byte)
    ensures Half(Half(Half(Half(Half(Half(Half(Half(c as bv16)))))))) == 0
  {
  }

  lemma NothingLeftOfAByte(c: byte)
    ensures DropBits(c as bv16, 8) == 0
  {
    hide Half;
    EightHalves(c);
    var w2 := Half(Half(c as bv16));
    var w4 := Half(Half(w2));
    var w6 := Half(Half(w4));
    assert DropBits(c as bv16, 8) == DropBits(w2, 6) == DropBits(w4, 4) == DropBits(w6, 2);
  }

  lemma XorIsXor(a: bv16, b: bv16)
    ensures Xor(a, b) == a ^ b
  {
  }

  lemma XorCommutes(a: bv16, b: bv16)
    ensures Xor(a, b) == Xor(b, a)
  {
  }

  lemma XorZero(x: bv16)
    ensures Xor(x, 0) == x
  {
  }

  lemma ByteIntoRegister(crc: bv16, c: byte)
    ensures FeedByte(crc, c) == Shift8(Xor(crc, c as bv16))
  {
    hide Shift8, Xor;
    BitsIntoRegister(crc, c as bv16, 8);
    NothingLeftOfAByte(c);
    XorZero(FeedByte(crc, c));
    Shift8Unrolled(Xor(crc, c as bv16));
  }

  lemma RegisterBytes(crc: bv16, c: byte)
    ensures Xor(crc, c as bv16) & 0xFF == (((crc & 0xFF) as bv8) ^ c) as bv16
    ensures Xor(crc, c as bv16) >> 8 == crc >> 8
  {
  }

  lemma LookUp(crc: bv16, c: byte, lut: byte)
    requires lut == ((crc & 0xFF) as bv8) ^ c
    ensures Crc16Byte(crc, c) == Xor(crc >> 8, Shift8(lut as bv16))
  {
    hide Shift8, TableAt, Xor;
    TableEntry(lut);
    XorIsXor(crc >> 8, Shift8(lut as bv16));
  }

  predicate LowBitsAreZero(w: bv16, n: nat)
    decreases n
  {
    n == 0 || (!Low(w) && LowBitsAreZero(Half(w), n - 1))
  }

  lemma {:induction false} ZeroBitsJustShift(crc: bv16, w: bv16, n: nat)
    requires LowBitsAreZero(w, n)
    ensures FeedBits(crc, w, n) == Shift(crc, n)
    decreases n
  {
    hide FeedBit, Low, Half;
    if n > 0 {
      ZeroBitsJustShift(FeedBit(crc, Low(w)), Half(w), n - 1);
    }
  }

  lemma SplitWord(x: bv16)
    ensures Xor(x & 0xFF, x & 0xFF00) == x
  {
  }

  lemma FourHalves(w: bv16)
    ensures Half(Half(Half(Half(w)))) == w >> 4
    ensures w & 0xF == 0 ==>
      !Low(w) && !Low(Half(w)) && !Low(Half(Half(w))) && !Low(Half(Half(Half(w))))
  {
  }

  lemma FourBits(w: bv16)
    ensures DropBits(w, 8) == DropBits(w >> 4, 4) == (w >> 4) >> 4
    ensures w & 0xF == 0 && (w >> 4) & 0xF == 0 ==> LowBitsAreZero(w, 8)
  {
    hide Half, Low;
    FourHalves(w);
    FourHalves(w >> 4);
    var w2, v2 := Half(Half(w)), Half(Half(w >> 4));
    assert DropBits(w, 8) == DropBits(w2, 6) == DropBits(w >> 4, 4) == DropBits(v2, 2);
    assert LowBitsAreZero(v2, 2) == (!Low(v2) && !Low(Half(v2)));
    assert LowBitsAreZero(w >> 4, 4) == (!Low(w >> 4) && !Low(Half(w >> 4)) && LowBitsAreZero(v2, 2));
    assert LowBitsAreZero(w2, 6) == (!Low(w2) && !Low(Half(w2)) && LowBitsAreZero(w >> 4, 4));
  }

  lemma HighByteOf(x: bv16)
    ensures ((x & 0xFF00) >> 4) >> 4 == x >> 8
    ensures (x & 0xFF00) & 0xF == 0 && ((x & 0xFF00) >> 4) & 0xF == 0
  {
  }

  // Eight steps shift the high byte down and divide the low byte.
  lemma HighByteShifts(x: bv16)
    ensures Shift8(x) == Xor(x >> 8, Shift8(x & 0xFF))
  {
    hide Shift8, Xor, Low, Half;
    var low, high := x & 0xFF, x & 0xFF00;
    SplitWord(x);
    HighByteOf(x);
    FourBits(high);
    BitsIntoRegister(low, high, 8);
    ZeroBitsJustShift(low, high, 8);
    Shift8Unrolled(x);
    Shift8Unrolled(low);
    XorCommutes(Shift8(low), x >> 8);
  }

  /** The table lookup computes eight steps of the bit-serial division. */
  lemma TableStepIsDivision(crc: bv16, c: byte)
    ensures Crc16Byte(crc, c) == FeedByte(crc, c)
  {
    hide Shift8, Xor, FeedByte, Crc16Byte;
    var x := Xor(crc, c as bv16);
    ByteIntoRegister(crc, c);
    HighByteShifts(x);
    RegisterBytes(crc, c);
    LookUp(crc, c, ((crc & 0xFF) as bv8) ^ c);
  }

  // ---------------------------------------------------------------- error detection

  lemma {:induction false} FcsAppend(crc: bv16, a: seq<byte>, b: seq<byte>)
    ensures Fcs(crc, a + b) == Fcs(Fcs(crc, a), b)
    decreases |a|
  {
    if a == [] {
      assert a + b == b;
    } else {
      assert (a + b)[1..] == a[1..] + b;
      FcsAppend(FeedByte(crc, a[0]), a[1..], b);
    }
  }

  lemma FcsSnoc(crc: bv16, message: seq<byte>, c: byte)
    ensures Fcs(crc, message + [c]) == Crc16Byte(Fcs(crc, message), c)
  {
    hide FeedByte, Crc16Byte;
    FcsAppend(crc, message, [c]);
    TableStepIsDivision(Fcs(crc, message), c);
    assert Fcs(Fcs(crc, message), [c]) == Fcs(FeedByte(Fcs(crc, message), c), []);
  }

  /** Undoing one shift: the polynomial's top bit tells whether it was subtracted. */
  function UnfeedBit(crc: bv16, bit: bool): bv16 {
    if crc & 0x8000 != 0
    then ((crc ^ 0x8408) << 1) | (if bit then 0 else 1)
    else (crc << 1) | (if bit then 1 else 0)
  }

  function UnfeedBits(crc: bv16, w: bv16, n: nat): bv16
    decreases n
  {
    if n == 0 then crc else UnfeedBit(UnfeedBits(crc, Half(w), n - 1), Low(w))
  }

  lemma UnfedRegister(crc: bv16, bit: bool, p: bv16)
    requires p == UnfeedBit(crc, bit)
    ensures if (p & 1 == 1) != bit then (p >> 1) ^ 0x8408 == crc else p >> 1 == crc
  {
  }

  lemma FeedsBack(crc: bv16, bit: bool, p: bv16)
    requires if (p & 1 == 1) != bit then (p >> 1) ^ 0x8408 == crc else p >> 1 == crc
    ensures FeedBit(p, bit) == crc
  {
  }

  lemma FedRegister(crc: bv16, bit: bool, p: bv16)
    requires p == FeedBit(crc, bit)
    ensures if p & 0x8000 != 0 then ((p ^ 0x8408) << 1) | (if bit then 0 else 1) == crc
            else (p << 1) | (if bit then 1 else 0) == crc
  {
  }

  lemma UnfeedsBack(crc: bv16, bit: bool, p: bv16)
    requires if p & 0x8000 != 0 then ((p ^ 0x8408) << 1) | (if bit then 0 else 1) == crc
             else (p << 1) | (if bit then 1 else 0) == crc
    ensures UnfeedBit(p, bit) == crc
  {
  }

  lemma BitIsInvertible(crc: bv16, bit: bool)
    ensures UnfeedBit(FeedBit(crc, bit), bit) == crc
    ensures FeedBit(UnfeedBit(crc, bit), bit) == crc
  {
    hide FeedBit, UnfeedBit;
    var p, q := UnfeedBit(crc, bit), FeedBit(crc, bit);
    UnfedRegister(crc, bit, p);
    FeedsBack(crc, bit, p);
    FedRegister(crc, bit, q);
    UnfeedsBack(crc, bit, q);
  }

  lemma {:induction false} BitsAreInvertible(crc: bv16, w: bv16, n: nat)
    ensures UnfeedBits(FeedBits(crc, w, n), w, n) == crc
    ensures FeedBits(UnfeedBits(crc, w, n), w, n) == crc
    decreases n
  {
    hide FeedBit, UnfeedBit, Low, Half;
    if n > 0 {
      BitsAreInvertible(FeedBit(crc, Low(w)), Half(w), n - 1);
      BitIsInvertible(crc, Low(w));
      BitsAreInvertible(crc, Half(w), n - 1);
      BitIsInvertible(UnfeedBits(crc, Half(w), n - 1), Low(w));
    }
  }

  /** For each byte, crc16Byte is a bijection on the register: it has a two-sided inverse. */
  lemma ByteIsBijection(crc: bv16, c: byte)
    ensures UnfeedBits(Crc16Byte(crc, c), c as bv16, 8) == crc
    ensures Crc16Byte(UnfeedBits(crc, c as bv16, 8), c) == crc
  {
    TableStepIsDivision(crc, c);
    TableStepIsDivision(UnfeedBits(crc, c as bv16, 8), c);
    BitsAreInvertible(crc, c as bv16, 8);
  }

  lemma {:induction false} FcsInjectiveInRegister(x: bv16, y: bv16, message: seq<byte>)
    requires Fcs(x, message) == Fcs(y, message)
    ensures x == y
    decreases |message|
  {
    if message != [] {
      FcsInjectiveInRegister(FeedByte(x, message[0]), FeedByte(y, message[0]), message[1..]);
      BitsAreInvertible(x, message[0] as bv16, 8);
      BitsAreInvertible(y, message[0] as bv16, 8);
    }
  }

  lemma Shift8Injective(x: bv16, y: bv16)
    requires Shift8(x) == Shift8(y)
    ensures x == y
  {
    hide Shift8, Xor;
    ByteIntoRegister(x, 0);
    ByteIntoRegister(y, 0);
    XorZero(x);
    XorZero(y);
    BitsAreInvertible(x, 0, 8);
    BitsAreInvertible(y, 0, 8);
  }

  function High(b: byte): bv16 { (b as bv16) << 8 }

  lemma AddHighByte(x: bv16, b: byte)
    ensures Xor(x, High(b)) & 0xFF == x & 0xFF
    ensures Xor(x, High(b)) >> 8 == Xor(x >> 8, b as bv16)
  {
  }

  lemma XorSwap(p: bv16, q: bv16, r: bv16)
    ensures Xor(Xor(p, q), r) == Xor(Xor(p, r), q)
  {
  }

  lemma ShiftHighByte(x: bv16, b: byte)
    ensures Shift8(Xor(x, High(b))) == Xor(Shift8(x), b as bv16)
  {
    hide Shift8, Xor, High;
    HighByteShifts(x);
    HighByteShifts(Xor(x, High(b)));
    AddHighByte(x, b);
    XorSwap(x >> 8, b as bv16, Shift8(x & 0xFF));
  }

  // The register with the next two message bytes added to it.
  function WithTwoBytes(crc: bv16, a: byte, b: byte): bv16 {
    Xor(Xor(crc, a as bv16), High(b))
  }

  lemma XorCancelsByte(p: byte, a: byte, c: byte)
    requires (p ^ a) as bv16 == (p ^ c) as bv16
    ensures a == c
  {
  }

  lemma XorCancelsWord(p: bv16, b: byte, d: byte)
    requires Xor(p, b as bv16) == Xor(p, d as bv16)
    ensures b == d
  {
  }

  lemma SameWordSameBytes(r: bv16, a: byte, b: byte, c: byte, d: byte)
    requires WithTwoBytes(r, a, b) == WithTwoBytes(r, c, d)
    ensures a == c && b == d
  {
    hide Xor, High;
    AddHighByte(Xor(r, a as bv16), b);
    AddHighByte(Xor(r, c as bv16), d);
    RegisterBytes(r, a);
    RegisterBytes(r, c);
    XorCancelsByte((r & 0xFF) as bv8, a, c);
    XorCancelsWord(r >> 8, b, d);
  }

  // Two bytes fill the register once: they can be added to it before sixteen shifts.
  lemma TwoBytesIntoRegister(crc: bv16, a: byte, b: byte)
    ensures Fcs(crc, [a, b]) == Shift8(Shift8(WithTwoBytes(crc, a, b)))
  {
    hide Shift8, Xor, High, FeedByte;
    assert [a, b][1..] == [b] && [b][1..] == [];
    assert Fcs(FeedByte(crc, a), [b]) == FeedByte(FeedByte(crc, a), b);
    ByteIntoRegister(crc, a);
    ByteIntoRegister(FeedByte(crc, a), b);
    ShiftHighByte(Xor(crc, a as bv16), b);
  }

  /** Equal-length buffers that differ only inside two adjacent bytes never share a CRC. */
  lemma BurstChangesFcs(crc: bv16, before: seq<byte>, a: byte, b: byte, c: byte, d: byte, after: seq<byte>)
    requires a != c || b != d
    ensures Fcs(crc, before + [a, b] + after) != Fcs(crc, before + [c, d] + after)
  {
    hide Shift8, WithTwoBytes;
    var r := Fcs(crc, before);
    FcsAppend(crc, before + [a, b], after);
    FcsAppend(crc, before, [a, b]);
    FcsAppend(crc, before + [c, d], after);
    FcsAppend(crc, before, [c, d]);
    if Fcs(crc, before + [a, b] + after) == Fcs(crc, before + [c, d] + after) {
      FcsInjectiveInRegister(Fcs(r, [a, b]), Fcs(r, [c, d]), after);
      TwoBytesIntoRegister(r, a, b);
      TwoBytesIntoRegister(r, c, d);
      var x, y := WithTwoBytes(r, a, b), WithTwoBytes(r, c, d);
      Shift8Injective(Shift8(x), Shift8(y));
      Shift8Injective(x, y);
      SameWordSameBytes(r, a, b, c, d);
    }
  }
}
